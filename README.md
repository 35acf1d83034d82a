# DicomImageInfo — a verified model

This project models `DicomImageInfo`, the holder of one grayscale DICOM frame in a
small single-frame viewer. Given the frame's decoded signed 16-bit samples and a few
metadata values (columns, rows, window width and center, rescale slope and intercept,
pixel representation), the object:

- scans the samples for their minimum when the pixel representation is 1 (signed);
- re-bases the samples in place by minus that minimum, with the store wrapping modulo
  2^16 as an `Int16Array` does;
- packs each sample into a fresh RGBA byte buffer as low byte, high byte, 0, 255;
- adds the negative minimum to the rescale intercept once;
- answers the window bounds in stored-sample units and the aspect-preserving scale;
- lets the viewer move the window width (clamped at 0), the window center (unbounded)
  and the zoom (clamped at 1.0 for negative deltas).

Modules, one per concern:

- `Wrappers` (`wrappers.dfy`): `Option`, for absent metadata tags and for the
  "not loaded" answer.
- `Pixels` (`pixels.dfy`): the exact integer side, as pure functions with lemmas.
  It covers the Int16 store, the running minimum, the shift, `& 0xff` and `>> 8` into
  a byte, the RGBA cell layout, and reading a cell back.
- `Rescale` (`rescale.dfy`): the intercept adjustment and the window bounds, over `real`.
- `Viewport` (`viewport.dfy`): the three adjusters as functions, and what any sequence
  of adjustments leads to.
- `ImageInfo` (`image_info.dfy`): the class `DicomImageInfo` with the source's fields,
  its imperative methods (scan loop, nested encoding loops, adjusters) and its queries.
  Each method is proved against the functions above.
- `FrameLoad` (`frame_load.dfy`): whole loads on a freshly constructed object, and the
  worked 2-by-1 frame [300, -5].

Numbers: sample values, the minimum and the pixel representation are `int`; width
and height are `nat`. Slope, intercept, window width and center, and zoom are `real`,
and `Math.floor` is `.Floor`. The byte buffer is an `array<int>` whose entries are
proved to be bytes. It is `null` until the first successful encoding, as `pRGBAImg`
is.

Behaviour of the code a reader might not expect, which the model keeps:

- The window width is not kept non-negative in general. Only `changeWinWidth` clamps it;
  metadata may set a negative width (`src/DcmImageInfo.js:41`).
- A slope of 0 is not rejected at load time. Only the window query needs a non-zero
  slope, so it requires one.
- The intercept adjustment is not scaled by the slope (`src/DcmImageInfo.js:81`).
  So the display value `slope * stored + intercept` is kept exactly when the slope is 1,
  and for no other slope (`Rescale.ShiftKeepsDisplayValueIffUnitSlope`).
- The minimum is taken over the whole decoded buffer, not only its first
  `width * height` samples (`src/DcmImageInfo.js:31`).
- Loading again is not guarded. A second load re-applies the shift and the intercept
  adjustment from the current minimum. Every contract is stated against the state
  before the call, so such repeated loads are covered as written.

## Model

| member | source | states |
|---|---|---|
| `ImageInfo.DicomImageInfo.constructor` | src/DcmImageInfo.js:5-18 | a new frame is not loaded, has zero dimensions and window, slope 1.0, intercept 0.0, minimum 0, pixel representation 0, zoom 1.0 and no RGBA buffer |
| `Wrappers.Option.GetOr` | src/DcmImageInfo.js:43-45 | a present tag gives its value and an absent one the default |
| `ImageInfo.DicomImageInfo.SetFromTags` | src/DcmImageInfo.js:38-48 | assigns dimensions and window as given, and slope and pixel representation with defaults 1.0 and 0; loads with the intercept defaulting to 0.0; the zoom is untouched |
| `ImageInfo.DicomImageInfo.SetMinPixelValue` | src/DcmImageInfo.js:30-36 | after the scan loop the minimum field is the scan minimum of its old value and the whole buffer, and stays within -32768..0 |
| `Pixels.ScanMin` | src/DcmImageInfo.js:30-36 | the scan result is at most the start and at most every sample, and equals the start or one of the samples, so it is their minimum; an empty buffer leaves the start |
| `Pixels.ScanMinIsInt16` | src/DcmImageInfo.js:33-34 | scanning Int16 samples from an Int16 start yields an Int16 value |
| `ImageInfo.DicomImageInfo.LoadSamples` | src/DcmImageInfo.js:50-57 | scans only when the pixel representation is 1; the loaded flag is the encoder's result; on failure the buffer, samples and intercept are unchanged; on success the samples, buffer and intercept are as the encoder states |
| `ImageInfo.DicomImageInfo.SetRGBAImg` | src/DcmImageInfo.js:59-83 | fails and changes nothing when a dimension is 0; otherwise allocates a fresh buffer of length 4*w*h equal to the encoding of the shifted samples, shifts exactly the first w*h samples, and adds the negative minimum to the intercept once, unscaled |
| `ImageInfo.PackCell` | src/DcmImageInfo.js:72-78 | one pixel-loop body extends both loop invariants: samples up to this index shifted, buffer up to this cell encoded |
| `Pixels.WrapInt16` | src/DcmImageInfo.js:73 | a store into an Int16Array: the result is in -32768..32767, congruent to the stored number modulo 2^16, and equal to it when it already fits |
| `Pixels.ShiftSample` | src/DcmImageInfo.js:72-74 | with a negative minimum m a sample becomes an Int16 value congruent to sample - m; otherwise it is unchanged |
| `Pixels.ShiftPrefix` | src/DcmImageInfo.js:67-74 | the first n samples become ShiftSample of themselves, every later sample is unchanged, the length is kept |
| `Pixels.ShiftPrefixStep` | src/DcmImageInfo.js:67-74 | visiting one more pixel shifts exactly that sample and no other |
| `Pixels.ShiftPrefixIdentity` | src/DcmImageInfo.js:72 | with a non-negative minimum the encoder leaves every sample as it was |
| `Pixels.ShiftPrefixInt16` | src/DcmImageInfo.js:73 | after the shift every sample is still an Int16 value |
| `Pixels.LowByte` | src/DcmImageInfo.js:75 | `& 0x00ff` gives a byte congruent to the sample modulo 256 |
| `Pixels.HighByte` | src/DcmImageInfo.js:76 | `>> 8` stored into a Uint8Array gives a byte |
| `Pixels.ByteSplit` | src/DcmImageInfo.js:75-76 | low byte + 256 * high byte equals the sample modulo 2^16 |
| `Pixels.Cell` | src/DcmImageInfo.js:75-78 | a cell is four bytes |
| `Pixels.EncodeCells` | src/DcmImageInfo.js:66 | the RGBA buffer has four entries per sample |
| `Pixels.EncodeCellsAt` | src/DcmImageInfo.js:69-78 | cell i of the encoding, at offset 4i, holds low byte, high byte, 0 and 255 of sample i |
| `Pixels.EncodeCellsBytes` | src/DcmImageInfo.js:75-78 | every entry of the encoding is in 0..255 |
| `Pixels.EncodeCellsSnoc` | src/DcmImageInfo.js:67-79 | encoding one more sample appends exactly its cell |
| `Pixels.EncodeCellsUnique` | src/DcmImageInfo.js:66-80 | any buffer of length 4n that agrees cell by cell with the layout is the encoding |
| `Pixels.DecodeCells` | src/DcmImageInfo.js:75-76 | reading back yields one value per complete cell |
| `Pixels.DecodeCell` | src/DcmImageInfo.js:75-76 | reading back one cell yields its sample modulo 2^16 |
| `Pixels.DecodeEncode` | src/DcmImageInfo.js:75-76 | reading back the whole encoding yields every sample modulo 2^16 |
| `Pixels.ShiftedIntensity` | src/DcmImageInfo.js:72-76 | the intensity bytes of a visited sample hold (sample + max(0, -m)) mod 2^16 |
| `Pixels.EncodedIntensities` | src/DcmImageInfo.js:72-76 | for any minimum m, the two intensity bytes of every encoded cell are bytes holding (sample + max(0, -m)) mod 2^16 |
| `Pixels.LoadedIntensities` | src/DcmImageInfo.js:72-76 | when m is the minimum of the Int16 samples, every cell reads back as exactly sample - m, within 0..65535 |
| `FrameLoad.LoadUnsignedFresh` | src/DcmImageInfo.js:53-56 | on a fresh object with pixel representation other than 1, the minimum stays 0, the samples and intercept are untouched, and the loaded flag is the encoder's result |
| `FrameLoad.LoadSignedFresh` | src/DcmImageInfo.js:50-57 | on a fresh object with pixel representation 1, the minimum is min(0, all samples); once loaded, every cell reads back as its original sample minus that minimum, and the intercept has absorbed it once |
| `Rescale.InterceptDelta` | src/DcmImageInfo.js:81 | the intercept changes by the minimum when it is negative and by nothing otherwise |
| `Rescale.ShiftKeepsDisplayValueIffUnitSlope` | src/DcmImageInfo.js:81 | after the shift and the unscaled intercept change, a sample's display value is unchanged if and only if the slope is 1 |
| `ImageInfo.DicomImageInfo.LowUpVal` | src/DcmImageInfo.js:85-96 | no bounds before a successful load, whatever the slope; otherwise the window bounds of the current window, slope and intercept |
| `Rescale.WindowBounds` | src/DcmImageInfo.js:90-95 | with c = (C - I)/S and h = (W/S)/2, lower and upper are the greatest integers not above c - h and c + h |
| `Rescale.WindowBoundsOrdered` | src/DcmImageInfo.js:93-94 | lower <= upper whenever W/S >= 0 |
| `Rescale.WindowBoundsBracketWindow` | src/DcmImageInfo.js:90-95 | mapped forward through the rescale, lower and lower + 1 bracket C - W/2, and upper and upper + 1 bracket C + W/2; a negative slope reverses the order |
| `ImageInfo.DicomImageInfo.CurrScaleX` | src/DcmImageInfo.js:98-102 | 2*zoom when width >= height; otherwise the fraction width/height of 2*zoom; always within 0..2*zoom |
| `ImageInfo.DicomImageInfo.CurrScaleY` | src/DcmImageInfo.js:104-108 | 2*zoom when height >= width; otherwise the fraction height/width of 2*zoom; always within 0..2*zoom |
| `ImageInfo.ScalesKeepAspect` | src/DcmImageInfo.js:98-108 | for a non-empty frame the two scales keep the aspect ratio, and the larger one is exactly 2*zoom |
| `ImageInfo.DicomImageInfo.ChangeWinWidth` | src/DcmImageInfo.js:110-114 | the width becomes max(old + d, 0); no other field changes |
| `Viewport.AdjustedWinWidth` | src/DcmImageInfo.js:110-114 | the result is non-negative, at least old + d, and equals old + d or 0, so it is max(old + d, 0) |
| `Viewport.WinWidthAfterNonNegative` | src/DcmImageInfo.js:110-114 | after any non-empty sequence of width adjustments the width is non-negative |
| `ImageInfo.DicomImageInfo.ChangeWinCenter` | src/DcmImageInfo.js:116-118 | the center grows by exactly d; no other field changes |
| `Viewport.WinCenterAfterIsSum` | src/DcmImageInfo.js:116-118 | after any sequence of center adjustments the center has moved by exactly their sum |
| `ImageInfo.DicomImageInfo.ChangeZoomRatio` | src/DcmImageInfo.js:120-124 | the zoom follows the adjusted-zoom rule and stays >= 1.0 (object invariant); no other field changes |
| `Viewport.AdjustedZoom` | src/DcmImageInfo.js:120-124 | a delta d >= 0 is added unbounded; for d < 0 the result is max(old + d, 1.0); from a zoom >= 1.0 the result is >= 1.0 |
| `Viewport.ZoomAfterAtLeastOne` | src/DcmImageInfo.js:120-124 | from a zoom >= 1.0 (the initial 1.0), no sequence of deltas takes it below 1.0 |

## Left out

- Base64 decoding (`src/DcmImageInfo.js:20-28`) relies on the browser's `window.atob`, a
  foreign call. The model takes the decoded samples directly.
- Reinterpreting the decoded bytes as an `Int16Array` (`src/DcmImageInfo.js:52`) depends on
  platform byte order. Samples arrive as integers in -32768..32767.
- A decoded buffer shorter than `width * height` is excluded by precondition. In the source,
  reads past its end give `undefined` and writes are dropped.
- Looking up the DICOM JSON tags in `setFromJson` (`src/DcmImageInfo.js:39-47`) is done by the
  caller. `SetFromTags` receives the tag values, and the three optional ones as `Option`.
- IEEE-754 doubles are idealised as `real`: no rounding, no NaN and no Infinity. Integer
  metadata that is not a whole number, or a negative width or height, is not modelled.
- `ImageInfo.DicomImageInfo.LowUpVal`: requires a non-zero slope once the frame is loaded. There the
  source divides by the slope and would return Infinity or NaN bounds for slope 0.
- Painting the RGBA buffer is outside the modelled class.
