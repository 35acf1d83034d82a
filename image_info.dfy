/**
 * One grayscale DICOM frame held for display: its metadata, the packing of its
 * decoded signed 16-bit samples into an RGBA byte buffer, the window bounds in
 * stored-sample units, the aspect-preserving scale, and the interactive
 * width/center/zoom adjusters.
 */
module ImageInfo {
  import opened Wrappers
  import opened Pixels
  import opened Rescale
  import opened Viewport

  class DicomImageInfo {
    var isLoaded: bool
    var width: nat
    var height: nat
    var winWidth: real
    var winCenter: real
    var slope: real
    var intercept: real
    /** The running minimum; lowered only by the scan, so it stays in -32768..0. */
    var minPixVal: int
    var pixelRep: int
    var zoom: real
    /** The packed RGBA buffer; null until the first successful encoding. */
    var rgba: array?<int>

    ghost predicate Valid()
      reads this
    {
      Int16Min <= minPixVal <= 0 &&
      zoom >= 1.0 &&
      (isLoaded ==> rgba != null && rgba.Length == 4 * PixelCount())
    }

    /** The number of pixels of the frame. */
    function PixelCount(): (n: nat)
      reads this
    {
      width * height
    }

    constructor ()
      ensures Valid()
      ensures !isLoaded && width == 0 && height == 0
      ensures winWidth == 0.0 && winCenter == 0.0
      ensures slope == 1.0 && intercept == 0.0
      ensures minPixVal == 0 && pixelRep == 0 && zoom == 1.0
      ensures rgba == null
    {
      isLoaded := false;
      width, height := 0, 0;
      winWidth, winCenter := 0.0, 0.0;
      slope, intercept := 1.0, 0.0;
      minPixVal, pixelRep := 0, 0;
      zoom := 1.0;
      rgba := null;
    }

    /** Lowers the minimum to every smaller sample of `buf`, scanning it in order. */
    method SetMinPixelValue(buf: array<int>)
      requires Valid()
      requires AllInt16(buf[..])
      modifies this`minPixVal
      ensures Valid()
      ensures minPixVal == ScanMin(old(minPixVal), buf[..])
    {
      var len := buf.Length;
      for i := 0 to len
        invariant minPixVal == ScanMin(old(minPixVal), buf[..i])
      {
        assert buf[..i + 1][..i] == buf[..i];
        if buf[i] < minPixVal {
          minPixVal := buf[i];
        }
      }
      assert buf[..len] == buf[..];
      ScanMinIsInt16(old(minPixVal), buf[..]);
    }

    /**
     * Assigns the metadata tags and loads the decoded samples. An absent slope,
     * intercept or pixel-representation tag takes the value 1.0, 0.0 or 0.
     */
    method SetFromTags(columns: nat, rows: nat, windowWidth: real, windowCenter: real,
                       slopeTag: Option<real>, interceptTag: Option<real>, pixelRepTag: Option<int>,
                       raw: array<int>)
      requires Valid()
      requires AllInt16(raw[..])
      requires columns * rows <= raw.Length
      modifies this, raw
      ensures Valid()
      ensures width == columns && height == rows
      ensures winWidth == windowWidth && winCenter == windowCenter
      ensures slope == slopeTag.GetOr(1.0) && pixelRep == pixelRepTag.GetOr(0)
      ensures zoom == old(zoom)
      ensures minPixVal == if pixelRep == 1 then ScanMin(old(minPixVal), old(raw[..])) else old(minPixVal)
      ensures isLoaded == (width != 0 && height != 0)
      ensures !isLoaded ==> rgba == old(rgba) && intercept == interceptTag.GetOr(0.0) && raw[..] == old(raw[..])
      ensures isLoaded ==> fresh(rgba) && rgba.Length == 4 * PixelCount() && raw[..] == ShiftPrefix(old(raw[..]), PixelCount(), minPixVal)
      ensures isLoaded ==> rgba[..] == EncodeCells(raw[..PixelCount()])
      ensures isLoaded ==> intercept == interceptTag.GetOr(0.0) + InterceptDelta(minPixVal)
    {
      width := columns;
      height := rows;
      winWidth := windowWidth;
      winCenter := windowCenter;
      slope := slopeTag.GetOr(1.0);
      intercept := interceptTag.GetOr(0.0);
      pixelRep := pixelRepTag.GetOr(0);
      // LoadSamples sets the flag; clearing it first keeps Valid() while the dimensions change.
      isLoaded := false;
      LoadSamples(raw);
    }

    /**
     * Scans for the minimum when the samples are signed (pixel representation 1),
     * then encodes; the frame is loaded exactly when encoding succeeds.
     */
    method LoadSamples(raw: array<int>)
      requires Valid()
      requires AllInt16(raw[..])
      requires PixelCount() <= raw.Length
      modifies this`minPixVal, this`isLoaded, this`rgba, this`intercept, raw
      ensures Valid()
      ensures minPixVal == if pixelRep == 1 then ScanMin(old(minPixVal), old(raw[..])) else old(minPixVal)
      ensures isLoaded == (width != 0 && height != 0)
      ensures !isLoaded ==> rgba == old(rgba) && intercept == old(intercept) && raw[..] == old(raw[..])
      ensures isLoaded ==> fresh(rgba) && rgba.Length == 4 * PixelCount() && raw[..] == ShiftPrefix(old(raw[..]), PixelCount(), minPixVal)
      ensures isLoaded ==> rgba[..] == EncodeCells(raw[..PixelCount()])
      ensures isLoaded ==> intercept == old(intercept) + InterceptDelta(minPixVal)
    {
      if pixelRep == 1 {
        SetMinPixelValue(raw);
      }
      isLoaded := SetRGBAImg(raw);
    }

    /**
     * Fails, changing nothing, when a dimension is 0. Otherwise re-bases the
     * first `width * height` samples in place by `-minPixVal` (when negative),
     * packs each into a fresh RGBA buffer, and adds the negative minimum to the
     * intercept once.
     */
    method SetRGBAImg(raw: array<int>) returns (ok: bool)
      requires Valid()
      requires PixelCount() <= raw.Length
      modifies this`rgba, this`intercept, raw
      ensures Valid()
      ensures ok == (width != 0 && height != 0)
      ensures !ok ==> rgba == old(rgba) && intercept == old(intercept) && raw[..] == old(raw[..])
      ensures ok ==> fresh(rgba) && rgba.Length == 4 * PixelCount() && raw[..] == ShiftPrefix(old(raw[..]), PixelCount(), minPixVal)
      ensures ok ==> rgba[..] == EncodeCells(raw[..PixelCount()])
      ensures ok ==> intercept == old(intercept) + InterceptDelta(minPixVal)
    {
      if width == 0 || height == 0 {
        return false;
      }
      var n := width * 4 * height;
      ghost var cells := PixelCount();
      CellCount(width, height);
      var buf := new int[n](_ => 0);
      rgba := buf;
      ghost var samples := raw[..];
      ghost var done := 0;
      var y := 0;
      while y < height
        invariant 0 <= y <= height && done == y * width && done <= cells
        invariant y < height ==> done + width <= cells
        invariant rgba == buf && intercept == old(intercept)
        invariant raw[..] == ShiftPrefix(samples, done, minPixVal)
        invariant buf[..4 * done] == EncodeCells(raw[..done])
      {
        var x := 0;
        ghost var p := done;
        while x < width
          invariant 0 <= x <= width && p == done + x
          invariant rgba == buf && intercept == old(intercept)
          invariant raw[..] == ShiftPrefix(samples, p, minPixVal)
          invariant buf[..4 * p] == EncodeCells(raw[..p])
        {
          var base := y * width + x;
          assert base == p;
          PackCell(raw, buf, base, minPixVal, samples);
          x := x + 1;
          p := p + 1;
        }
        NextRow(y, width, height);
        done := p;
        y := y + 1;
      }
      assert buf[..] == buf[..4 * cells];
      assert buf.Length == 4 * PixelCount();
      intercept := intercept + InterceptDelta(minPixVal);
      return true;
    }

    /** The window bounds in stored-sample units, or None before a successful load. */
    function LowUpVal(): (r: Option<Bounds>)
      reads this
      requires isLoaded ==> slope != 0.0
      ensures r.None? <==> !isLoaded
      ensures r.Some? ==> r.value == WindowBounds(winCenter, winWidth, slope, intercept)
    {
      if !isLoaded then None
      else Some(WindowBounds(winCenter, winWidth, slope, intercept))
    }

    /**
     * The horizontal scale: 2 * zoom when the frame is at least as wide as it
     * is tall, otherwise the same fraction of it as width is of height.
     */
    function CurrScaleX(): (r: real)
      reads this
      requires Valid()
      ensures 0.0 <= r <= 2.0 * zoom
      ensures width >= height ==> r == 2.0 * zoom
      ensures height > width ==> r * (height as real) == 2.0 * zoom * (width as real)
    {
      ShortSideScale(width, height, zoom);
      (if height > width then 2.0 * (width as real) / (height as real) else 2.0) * zoom
    }

    /**
     * The vertical scale: 2 * zoom when the frame is at least as tall as it is
     * wide, otherwise the same fraction of it as height is of width.
     */
    function CurrScaleY(): (r: real)
      reads this
      requires Valid()
      ensures 0.0 <= r <= 2.0 * zoom
      ensures height >= width ==> r == 2.0 * zoom
      ensures width > height ==> r * (width as real) == 2.0 * zoom * (height as real)
    {
      ShortSideScale(height, width, zoom);
      (if width > height then 2.0 * (height as real) / (width as real) else 2.0) * zoom
    }

    /** Adds `d` to the window width, clamping a negative result to 0. */
    method ChangeWinWidth(d: real)
      requires Valid()
      modifies this`winWidth
      ensures Valid()
      ensures winWidth == AdjustedWinWidth(old(winWidth), d)
    {
      winWidth := winWidth + d;
      if winWidth < 0.0 {
        winWidth := 0.0;
      }
    }

    /** Adds `d` to the window center, without bound. */
    method ChangeWinCenter(d: real)
      requires Valid()
      modifies this`winCenter
      ensures Valid()
      ensures winCenter == old(winCenter) + d
    {
      winCenter := winCenter + d;
    }

    /** Adds `d` to the zoom; a negative delta cannot take it below 1.0. */
    method ChangeZoomRatio(d: real)
      requires Valid()
      modifies this`zoom
      ensures Valid()
      ensures zoom == AdjustedZoom(old(zoom), d)
    {
      zoom := zoom + d;
      if d < 0.0 && zoom < 1.0 {
        zoom := 1.0;
      }
    }
  }

  /**
   * The body of the encoder's pixel loop at row-major index `base`: re-bases
   * the sample in place when the minimum is negative, then writes its cell at
   * offset `4 * base`. It extends the loop's two invariants by one pixel.
   */
  method PackCell(raw: array<int>, buf: array<int>, base: nat, minPixVal: int, ghost samples: seq<int>)
    requires raw != buf
    requires base < raw.Length == |samples| && 4 * base + 4 <= buf.Length
    requires raw[..] == ShiftPrefix(samples, base, minPixVal)
    requires buf[..4 * base] == EncodeCells(raw[..base])
    modifies raw, buf
    ensures raw[..] == ShiftPrefix(samples, base + 1, minPixVal)
    ensures buf[..4 * (base + 1)] == EncodeCells(raw[..base + 1])
  {
    var start := base * 4;
    ghost var rawBefore, bufBefore := raw[..], buf[..];
    if minPixVal < 0 {
      raw[base] := WrapInt16(raw[base] + minPixVal * -1);
    }
    ghost var rawAfter := raw[..];
    buf[start + 0] := LowByte(raw[base]);
    buf[start + 1] := HighByte(raw[base]);
    buf[start + 2] := 0;
    buf[start + 3] := 255;
    CellStep(samples, rawBefore, rawAfter, bufBefore, buf[..], base, minPixVal);
  }

  /** The effect of `PackCell` on the two buffers, as sequences. */
  lemma CellStep(samples: seq<int>, rawBefore: seq<int>, rawAfter: seq<int>,
                 bufBefore: seq<int>, bufAfter: seq<int>, base: nat, m: int)
    requires base < |samples| == |rawBefore| && 4 * base + 4 <= |bufBefore|
    requires rawBefore == ShiftPrefix(samples, base, m)
    requires bufBefore[..4 * base] == EncodeCells(rawBefore[..base])
    requires rawAfter == if m < 0 then rawBefore[base := WrapInt16(rawBefore[base] + m * -1)] else rawBefore
    requires bufAfter == bufBefore[4 * base := LowByte(rawAfter[base])][4 * base + 1 := HighByte(rawAfter[base])]
                                  [4 * base + 2 := 0][4 * base + 3 := 255]
    ensures rawAfter == ShiftPrefix(samples, base + 1, m)
    ensures bufAfter[..4 * (base + 1)] == EncodeCells(rawAfter[..base + 1])
  {
    ShiftPrefixStep(samples, base, m);
    var start := 4 * base;
    assert bufAfter[..start] == bufBefore[..start];
    assert bufAfter[start..start + 4] == Cell(rawAfter[base]);
    assert bufAfter[..start + 4] == bufAfter[..start] + bufAfter[start..start + 4];
    assert rawAfter[..base] == rawBefore[..base];
    assert rawAfter[..base + 1] == rawAfter[..base] + [rawAfter[base]];
    EncodeCellsSnoc(rawAfter[..base], rawAfter[base]);
  }

  /** The scale of the shorter side is the longer side's 2 * zoom, shrunk by short / long. */
  lemma ShortSideScale(short: nat, long: nat, zoom: real)
    requires zoom >= 1.0
    ensures short < long ==>
      var r := 2.0 * (short as real) / (long as real) * zoom;
      0.0 <= r <= 2.0 * zoom && r * (long as real) == 2.0 * zoom * (short as real)
  {
    if short < long {
      var s, l := short as real, long as real;
      var f := 2.0 * s / l;
      assert f * l == 2.0 * s;
      assert 0.0 <= f <= 2.0 by {
        assert 2.0 * s <= 2.0 * l;
      }
      var r := f * zoom;
      assert r * l == (f * l) * zoom;
      MulMonotoneNonNeg(zoom, f, 2.0);
    }
  }

  lemma MulMonotoneNonNeg(k: real, x: real, y: real)
    requires k >= 0.0 && 0.0 <= x <= y
    ensures 0.0 <= x * k <= y * k
  {
  }

  /** The buffer length `width * 4 * height` is four bytes per pixel. */
  lemma CellCount(width: nat, height: nat)
    ensures width * 4 * height == 4 * (width * height) == 4 * width * height
    ensures width * height == height * width
  {
  }

  lemma NextRow(y: nat, width: nat, height: nat)
    requires y < height
    ensures (y + 1) * width == y * width + width
    ensures (y + 1) * width <= width * height
    ensures y + 1 == height ==> (y + 1) * width == width * height
    ensures y + 1 < height ==> (y + 1) * width + width <= width * height
  {
    RowsBound(y + 1, width, height);
    if y + 1 < height {
      RowsBound(y + 2, width, height);
      assert (y + 2) * width == (y + 1) * width + width;
    }
  }

  lemma RowsBound(y: nat, width: nat, height: nat)
    requires y <= height
    ensures y * width <= width * height
  {
    assert width * height - y * width == (height - y) * width;
  }

  /**
   * The two scales keep the frame's aspect ratio, and the longer side gets
   * exactly 2 * zoom.
   */
  lemma ScalesKeepAspect(img: DicomImageInfo)
    requires img.Valid()
    requires img.width > 0 && img.height > 0
    ensures img.CurrScaleX() * (img.height as real) == img.CurrScaleY() * (img.width as real)
    ensures (if img.CurrScaleX() >= img.CurrScaleY() then img.CurrScaleX() else img.CurrScaleY()) == 2.0 * img.zoom
  {
    var w, h, z := img.width as real, img.height as real, img.zoom;
    if img.height > img.width {
      assert img.CurrScaleY() == 2.0 * z;
      assert img.CurrScaleX() * h == 2.0 * z * w;
    } else if img.width > img.height {
      assert img.CurrScaleX() == 2.0 * z;
      assert img.CurrScaleY() * w == 2.0 * z * h;
    }
  }
}
