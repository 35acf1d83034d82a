/**
 * Integer and byte arithmetic of one grayscale frame: the signed 16-bit sample
 * domain, the store into an `Int16Array` (which wraps modulo 2^16), the
 * running-minimum scan over the samples, the shift that re-bases signed samples,
 * and the packing of a sample into one 4-byte RGBA cell
 * (low byte, high byte, 0, 255).
 */
module Pixels {

  const Int16Min: int := -32768
  const Int16Max: int := 32767
  /** 2^16, the period of an `Int16Array` store. */
  const Modulus16: int := 65536

  predicate IsInt16(v: int) {
    Int16Min <= v <= Int16Max
  }

  predicate AllInt16(s: seq<int>) {
    forall i :: 0 <= i < |s| ==> IsInt16(s[i])
  }

  /** The value an `Int16Array` element holds after the number `v` is stored into it. */
  function WrapInt16(v: int): (r: int)
    ensures IsInt16(r)
    ensures (r - v) % Modulus16 == 0
    ensures IsInt16(v) ==> r == v
  {
    (v - Int16Min) % Modulus16 + Int16Min
  }

  // ------------------------------------------------------------------
  // Running minimum (setMinPixelValue)
  // ------------------------------------------------------------------

  /**
   * The value of the minimum field after scanning `s` from left to right,
   * starting from `start`, lowering it to each sample that is smaller.
   * The result is the minimum of `start` and all samples.
   */
  function ScanMin(start: int, s: seq<int>): (r: int)
    ensures r <= start
    ensures forall i :: 0 <= i < |s| ==> r <= s[i]
    ensures r == start || exists i :: 0 <= i < |s| && s[i] == r
  {
    if |s| == 0 then start
    else
      var before := ScanMin(start, s[..|s| - 1]);
      assert forall i :: 0 <= i < |s| - 1 ==> s[..|s| - 1][i] == s[i];
      if s[|s| - 1] < before then s[|s| - 1] else before
  }

  /** Scanning Int16 samples from an Int16 start never leaves the Int16 range. */
  lemma ScanMinIsInt16(start: int, s: seq<int>)
    requires IsInt16(start) && AllInt16(s)
    ensures IsInt16(ScanMin(start, s))
  {
    var r := ScanMin(start, s);
    if r != start {
      var i :| 0 <= i < |s| && s[i] == r;
      assert IsInt16(s[i]);
    }
  }

  // ------------------------------------------------------------------
  // Normalization shift (the in-place `rawImg[base] += nMinPixVal * -1`)
  // ------------------------------------------------------------------

  /** One sample after the loop body of the encoder: re-based by `-m` when `m` is negative. */
  function ShiftSample(v: int, m: int): (r: int)
    ensures IsInt16(r) || (m >= 0 && r == v)
    ensures m < 0 ==> (r - (v - m)) % Modulus16 == 0
    ensures m >= 0 ==> r == v
  {
    if m < 0 then WrapInt16(v + m * -1) else v
  }

  /** The sample buffer after the encoder visited its first `n` cells with minimum `m`. */
  function ShiftPrefix(s: seq<int>, n: nat, m: int): (r: seq<int>)
    ensures |r| == |s|
  {
    seq(|s|, i requires 0 <= i < |s| => if i < n then ShiftSample(s[i], m) else s[i])
  }

  /** Visiting one more cell shifts exactly that sample. */
  lemma ShiftPrefixStep(s: seq<int>, n: nat, m: int)
    requires n < |s|
    ensures ShiftPrefix(s, n + 1, m) == ShiftPrefix(s, n, m)[n := ShiftSample(s[n], m)]
  {
  }

  /** With a non-negative minimum the encoder leaves every sample as it was. */
  lemma ShiftPrefixIdentity(s: seq<int>, n: nat, m: int)
    requires m >= 0
    ensures ShiftPrefix(s, n, m) == s
  {
  }

  /** Shifting keeps a buffer of Int16 samples a buffer of Int16 samples. */
  lemma ShiftPrefixInt16(s: seq<int>, n: nat, m: int)
    requires AllInt16(s)
    ensures AllInt16(ShiftPrefix(s, n, m))
  {
  }

  // ------------------------------------------------------------------
  // RGBA packing
  // ------------------------------------------------------------------

  /** `v & 0x00ff` on a 32-bit two's-complement number. */
  function LowByte(v: int): (b: int)
    ensures 0 <= b < 256
    ensures (v - b) % 256 == 0
  {
    v % 256
  }

  /** `v >> 8` (arithmetic shift) stored into a `Uint8Array` element (reduced modulo 256). */
  function HighByte(v: int): (b: int)
    ensures 0 <= b < 256
  {
    (v / 256) % 256
  }

  /** The two intensity bytes of a cell hold the sample modulo 2^16, low byte first. */
  lemma ByteSplit(v: int)
    ensures LowByte(v) + 256 * HighByte(v) == v % Modulus16
  {
    var q, lo := v / 256, v % 256;
    assert v == 256 * q + lo;
    var hi, top := q % 256, q / 256;
    assert q == 256 * top + hi;
    assert v == Modulus16 * top + (256 * hi + lo);
    assert 0 <= 256 * hi + lo < Modulus16;
    ModOfDecomposition(v, top, 256 * hi + lo);
  }

  lemma ModOfDecomposition(v: int, k: int, r: int)
    requires 0 <= r < Modulus16
    requires v == Modulus16 * k + r
    ensures v % Modulus16 == r
  {
  }

  /** The RGBA cell of one sample: low byte, high byte, 0, and opaque alpha 255. */
  function Cell(v: int): (c: seq<int>)
    ensures |c| == 4 && forall k :: 0 <= k < 4 ==> 0 <= c[k] < 256
  {
    [LowByte(v), HighByte(v), 0, 255]
  }

  /** Cell `i` of buffer `r` is the RGBA cell of sample `v`. */
  predicate CellAt(r: seq<int>, i: int, v: int) {
    0 <= i && 4 * i + 4 <= |r| &&
    r[4 * i] == LowByte(v) && r[4 * i + 1] == HighByte(v) &&
    r[4 * i + 2] == 0 && r[4 * i + 3] == 255
  }

  /** The RGBA buffer of a row-major sample sequence: one 4-byte cell per sample. */
  function EncodeCells(s: seq<int>): (r: seq<int>)
    ensures |r| == 4 * |s|
  {
    if |s| == 0 then [] else EncodeCells(s[..|s| - 1]) + Cell(s[|s| - 1])
  }

  /** Cell `i` of the encoding holds the low byte, the high byte, 0 and 255 of sample `i`. */
  lemma {:induction false} EncodeCellsAt(s: seq<int>, i: int)
    requires 0 <= i < |s|
    ensures CellAt(EncodeCells(s), i, s[i])
  {
    var front := s[..|s| - 1];
    var r := EncodeCells(s);
    assert r == EncodeCells(front) + Cell(s[|s| - 1]);
    if i < |s| - 1 {
      EncodeCellsAt(front, i);
      assert front[i] == s[i];
      assert forall j :: 0 <= j < 4 * |front| ==> r[j] == EncodeCells(front)[j];
    }
  }

  /** Every entry of the encoding is a byte. */
  lemma {:induction false} EncodeCellsBytes(s: seq<int>)
    ensures forall j :: 0 <= j < |EncodeCells(s)| ==> 0 <= EncodeCells(s)[j] < 256
  {
    if |s| > 0 {
      EncodeCellsBytes(s[..|s| - 1]);
    }
  }

  /** Encoding one more sample appends its cell. */
  lemma EncodeCellsSnoc(s: seq<int>, v: int)
    ensures EncodeCells(s + [v]) == EncodeCells(s) + Cell(v)
  {
    assert (s + [v])[..|s|] == s;
  }

  /** What a consumer of the RGBA buffer reads back: `byte0 + 256 * byte1` of every cell. */
  function DecodeCells(r: seq<int>): (s: seq<int>)
    ensures |s| == |r| / 4
  {
    seq(|r| / 4, i requires 0 <= i < |r| / 4 => r[4 * i] + 256 * r[4 * i + 1])
  }

  /** Reading back one cell yields its sample modulo 2^16. */
  lemma DecodeCell(r: seq<int>, i: int, v: int)
    requires CellAt(r, i, v)
    ensures i < |DecodeCells(r)| && DecodeCells(r)[i] == v % Modulus16
  {
    ByteSplit(v);
  }

  /** Reading the packed buffer back yields every sample modulo 2^16. */
  lemma DecodeEncode(s: seq<int>)
    ensures |DecodeCells(EncodeCells(s))| == |s|
    ensures forall i :: 0 <= i < |s| ==> DecodeCells(EncodeCells(s))[i] == s[i] % Modulus16
  {
    forall i | 0 <= i < |s|
      ensures DecodeCells(EncodeCells(s))[i] == s[i] % Modulus16
    {
      EncodeCellsAt(s, i);
      DecodeCell(EncodeCells(s), i, s[i]);
    }
  }

  /** A buffer that agrees with the encoding cell by cell is the encoding. */
  lemma {:induction false} EncodeCellsUnique(r: seq<int>, s: seq<int>)
    requires |r| == 4 * |s|
    requires forall i :: 0 <= i < |s| ==> CellAt(r, i, s[i])
    ensures r == EncodeCells(s)
  {
    if |s| > 0 {
      var last := |s| - 1;
      var front, rf := s[..last], r[..4 * last];
      forall i | 0 <= i < |front|
        ensures CellAt(rf, i, front[i])
      {
        assert CellAt(r, i, s[i]);
      }
      EncodeCellsUnique(rf, front);
      assert CellAt(r, last, s[last]);
      assert r[4 * last..] == Cell(s[last]);
      assert r == rf + r[4 * last..];
    }
  }

  /**
   * The intensity that ends up in a cell: after the in-place shift by
   * `max(0, -m)` and the Int16 store, the two bytes hold
   * `(sample + max(0, -m)) mod 2^16`.
   */
  lemma ShiftedIntensity(v: int, m: int)
    ensures var w := ShiftSample(v, m);
      LowByte(w) + 256 * HighByte(w) == (v + (if m < 0 then -m else 0)) % Modulus16
  {
    var w := ShiftSample(v, m);
    ByteSplit(w);
    var x := v + (if m < 0 then -m else 0);
    assert (w - x) % Modulus16 == 0;
    SameResidue(w, x);
  }

  lemma SameResidue(a: int, b: int)
    requires (a - b) % Modulus16 == 0
    ensures a % Modulus16 == b % Modulus16
  {
    var k := (a - b) / Modulus16;
    assert a - b == Modulus16 * k;
    var r := b % Modulus16;
    assert b == Modulus16 * (b / Modulus16) + r;
    assert a == Modulus16 * (k + b / Modulus16) + r;
    ModOfDecomposition(a, k + b / Modulus16, r);
  }

  /**
   * For any minimum `m`, as after a repeated load: the two intensity bytes of
   * every encoded cell are bytes holding `(sample + max(0, -m)) mod 2^16`.
   */
  lemma EncodedIntensities(s: seq<int>, n: nat, m: int)
    requires n <= |s|
    ensures var r := EncodeCells(ShiftPrefix(s, n, m)[..n]);
      |r| == 4 * n &&
      forall i :: 0 <= i < n ==>
        0 <= r[4 * i] < 256 && 0 <= r[4 * i + 1] < 256 &&
        r[4 * i] + 256 * r[4 * i + 1] == (s[i] + (if m < 0 then -m else 0)) % Modulus16
  {
    var t := ShiftPrefix(s, n, m)[..n];
    forall i | 0 <= i < n
      ensures var r := EncodeCells(t);
        0 <= r[4 * i] < 256 && 0 <= r[4 * i + 1] < 256 &&
        r[4 * i] + 256 * r[4 * i + 1] == (s[i] + (if m < 0 then -m else 0)) % Modulus16
    {
      assert t[i] == ShiftSample(s[i], m);
      EncodeCellsAt(t, i);
      ShiftedIntensity(s[i], m);
    }
  }

  /**
   * When `m` is the minimum of the Int16 samples, the value read back from
   * every encoded cell is exactly `sample - m`: non-negative, within 16 unsigned
   * bits, and ordered as the samples are. With `m == 0` the samples must already
   * be non-negative for the same to hold.
   */
  lemma LoadedIntensities(s: seq<int>, n: nat, m: int)
    requires AllInt16(s) && n <= |s|
    requires Int16Min <= m <= 0
    requires forall i :: 0 <= i < |s| ==> m <= s[i]
    ensures var d := DecodeCells(EncodeCells(ShiftPrefix(s, n, m)[..n]));
      |d| == n && forall i :: 0 <= i < n ==> d[i] == s[i] - m && 0 <= d[i] < Modulus16
  {
    var t := ShiftPrefix(s, n, m)[..n];
    forall i | 0 <= i < n
      ensures DecodeCells(EncodeCells(t))[i] == s[i] - m
    {
      LoadedIntensityAt(s, n, m, i);
    }
  }

  lemma LoadedIntensityAt(s: seq<int>, n: nat, m: int, i: int)
    requires AllInt16(s) && n <= |s| && 0 <= i < n
    requires Int16Min <= m <= 0 && m <= s[i]
    ensures DecodeCells(EncodeCells(ShiftPrefix(s, n, m)[..n]))[i] == s[i] - m
  {
    var t := ShiftPrefix(s, n, m)[..n];
    var v, w := s[i], t[i];
    assert w == ShiftSample(v, m);
    EncodeCellsAt(t, i);
    DecodeCell(EncodeCells(t), i, w);
    ByteSplit(w);
    ShiftedIntensity(v, m);
    assert IsInt16(v);
    ModOfDecomposition(v - m, 0, v - m);
    assert v + (if m < 0 then -m else 0) == v - m;
  }
}
