/**
 * Whole-frame loads on a freshly constructed object, as the viewer performs
 * them: the unsigned case, the signed case, and a small worked frame.
 */
module FrameLoad {
  import opened Wrappers
  import opened Pixels
  import opened Rescale
  import opened ImageInfo

  /**
   * A fresh object loaded with a pixel representation other than 1 keeps the
   * samples and the intercept as given and its minimum at 0; it is loaded
   * exactly when both dimensions are non-zero.
   */
  method LoadUnsignedFresh(columns: nat, rows: nat, windowWidth: real, windowCenter: real,
                           slopeTag: Option<real>, interceptTag: Option<real>, pixelRepTag: Option<int>,
                           raw: array<int>)
    returns (img: DicomImageInfo)
    requires pixelRepTag.GetOr(0) != 1
    requires AllInt16(raw[..]) && columns * rows <= raw.Length
    modifies raw
    ensures fresh(img) && img.Valid()
    ensures img.minPixVal == 0
    ensures raw[..] == old(raw[..])
    ensures img.intercept == interceptTag.GetOr(0.0)
    ensures img.isLoaded == (columns != 0 && rows != 0)
    ensures img.isLoaded ==> img.rgba[..] == EncodeCells(raw[..columns * rows])
  {
    img := new DicomImageInfo();
    img.SetFromTags(columns, rows, windowWidth, windowCenter, slopeTag, interceptTag, pixelRepTag, raw);
    if img.isLoaded {
      ShiftPrefixIdentity(old(raw[..]), img.PixelCount(), 0);
    }
  }

  /**
   * A fresh object loaded with pixel representation 1 takes as minimum the
   * least of 0 and all samples; every encoded cell then reads back as its
   * sample minus that minimum, and the intercept has absorbed the minimum once.
   */
  method LoadSignedFresh(columns: nat, rows: nat, windowWidth: real, windowCenter: real,
                         slopeTag: Option<real>, interceptTag: Option<real>,
                         raw: array<int>)
    returns (img: DicomImageInfo)
    requires AllInt16(raw[..]) && columns * rows <= raw.Length
    modifies raw
    ensures fresh(img) && img.Valid()
    ensures img.minPixVal == ScanMin(0, old(raw[..]))
    ensures img.minPixVal <= 0 && forall i :: 0 <= i < raw.Length ==> img.minPixVal <= old(raw[i])
    ensures img.isLoaded == (columns != 0 && rows != 0)
    ensures img.isLoaded ==> img.intercept == interceptTag.GetOr(0.0) + InterceptDelta(img.minPixVal)
    ensures img.isLoaded ==>
      |DecodeCells(img.rgba[..])| == columns * rows &&
      forall i :: 0 <= i < columns * rows ==> DecodeCells(img.rgba[..])[i] == old(raw[i]) - img.minPixVal
  {
    img := new DicomImageInfo();
    img.SetFromTags(columns, rows, windowWidth, windowCenter, slopeTag, interceptTag, Some(1), raw);
    ghost var m := img.minPixVal;
    assert forall i :: 0 <= i < raw.Length ==> m <= old(raw[..])[i];
    if img.isLoaded {
      LoadedIntensities(old(raw[..]), img.PixelCount(), m);
    }
  }

  /**
   * A 2-by-1 signed frame with samples [300, -5]: the minimum is -5, the samples
   * become [305, 0], the intercept -5.0, the buffer [49, 1, 0, 255, 0, 0, 0, 255],
   * and a window at center 300, width 100 spans stored values 255 to 355.
   */
  method WorkedFrame() {
    var raw := new int[2];
    raw[0], raw[1] := 300, -5;
    ghost var samples := raw[..];
    assert samples == [300, -5];
    var img := new DicomImageInfo();
    img.SetFromTags(2, 1, 100.0, 300.0, None, None, Some(1), raw);
    assert samples[..1] == [300] && samples[..1][..0] == [];
    assert img.minPixVal == -5;
    assert img.PixelCount() == 2;
    assert raw[..] == [305, 0];
    assert raw[..2] == [305] + [0] && [305] == [] + [305];
    assert img.rgba[..] == [49, 1, 0, 255, 0, 0, 0, 255];
    assert img.intercept == -5.0;
    var bounds := img.LowUpVal();
    assert bounds == Some(Bounds(255, 355));
  }
}
