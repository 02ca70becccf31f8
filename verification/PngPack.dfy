/** Rows of output samples packed the way a PNG file holds them, at every bit depth, and got back. */
module PngPack {
  import opened Arithmetic
  import opened Bits
  import opened Png

  /** An output byte that some sample of `depth` bits stands for. */
  predicate Level(v: byte, depth: nat, color: nat)
  {
    if color != 0 then v < Pow2(depth)
    else if depth == 1 then v == 0 || v == 255
    else if depth == 2 then v % 85 == 0
    else v % 17 == 0
  }

  /** The samples can be written in `depth` bits. */
  predicate Packable(row: seq<byte>, depth: nat, color: nat)
  {
    depth < 8 ==> forall i :: 0 <= i < |row| ==> Level(row[i], depth, color)
  }

  /** Sample `i` as a number of `depth` bits; zero behind the end of the row. */
  function Digit(row: seq<byte>, depth: nat, color: nat, i: nat): nat
  {
    if i < |row| then row[i] / Scale(depth, color) else 0
  }

  /** The `m` samples from the `s`-th on in one number, the first in the highest bits. */
  function Digits(row: seq<byte>, depth: nat, color: nat, s: nat, m: nat): nat
  {
    if m == 0 then 0
    else Digit(row, depth, color, s + m - 1) + Shl(Digits(row, depth, color, s, m - 1), depth)
  }

  lemma {:induction false} DigitsBound(row: seq<byte>, depth: nat, color: nat, s: nat, m: nat)
    requires Packable(row, depth, color) && (depth == 1 || depth == 2 || depth == 4)
    ensures Digits(row, depth, color, s, m) < Pow2(depth * m)
  {
    hide Scale;
    if m == 0 {
      assert Pow2(0) == 1;
    } else {
      DigitsBound(row, depth, color, s, m - 1);
      DigitSmall(row, depth, color, s + m - 1);
      Appended(Digits(row, depth, color, s, m - 1), Digit(row, depth, color, s + m - 1), depth * (m - 1), depth);
      assert depth * m == depth * (m - 1) + depth;
    }
  }

  lemma DigitSmall(row: seq<byte>, depth: nat, color: nat, i: nat)
    requires Packable(row, depth, color) && (depth == 1 || depth == 2 || depth == 4)
    ensures Digit(row, depth, color, i) < Pow2(depth)
  {
    SmallPowers();
    if i < |row| { assert Level(row[i], depth, color); }
  }

  /** A number of `a` bits followed by one of `d` bits has `a + d` bits. */
  lemma Appended(hi: nat, lo: nat, a: nat, d: nat)
    requires hi < Pow2(a) && lo < Pow2(d)
    ensures lo + Shl(hi, d) < Pow2(a + d)
  {
    ShlMono(hi + 1, Pow2(a), d);
    ShlAdd(hi, 1, d);
    ShlShl(1, a, d);
    PowIsShl(a);
    PowIsShl(d);
    PowIsShl(a + d);
  }

  lemma {:induction false} PowIsShl(n: nat)
    ensures Pow2(n) == Shl(1, n)
  {
    if n > 0 { PowIsShl(n - 1); }
  }

  /** Each sample is found again in the number. */
  lemma {:induction false} DigitsAt(row: seq<byte>, depth: nat, color: nat, s: nat, m: nat, t: nat)
    requires Packable(row, depth, color) && (depth == 1 || depth == 2 || depth == 4) && t < m
    ensures depth * (m - 1 - t) >= 0
    ensures Low(Shr(Digits(row, depth, color, s, m), depth * (m - 1 - t)), depth) == Digit(row, depth, color, s + t)
    decreases m
  {
    hide Digit, Packable;
    var rest := Digits(row, depth, color, s, m - 1);
    DigitSmall(row, depth, color, s + m - 1);
    Join(Digit(row, depth, color, s + m - 1), rest, depth);
    if t < m - 1 {
      DigitsAt(row, depth, color, s, m - 1, t);
      ShrShr(Digits(row, depth, color, s, m), depth, depth * (m - 2 - t));
      assert depth * (m - 1 - t) == depth + depth * (m - 2 - t);
    } else {
      assert depth * (m - 1 - t) == 0;
    }
  }

  /** Byte `i` of the packed row. */
  function PackedByte(row: seq<byte>, depth: nat, color: nat, i: nat): (b: byte)
    requires Packable(row, depth, color) && (depth == 1 || depth == 2 || depth == 4)
  {
    DigitsBound(row, depth, color, PerByte(depth) * i, PerByte(depth));
    SmallPowers();
    assert depth * PerByte(depth) == 8;
    Digits(row, depth, color, PerByte(depth) * i, PerByte(depth))
  }

  /** A row of output samples, without added alpha, as the file holds it. */
  function PackedRow(row: seq<byte>, depth: nat, color: nat): (r: seq<byte>)
    requires Depth(depth) && Packable(row, depth, color)
    ensures |r| == if depth < 8 then (|row| * depth + 7) / 8 else if depth == 8 then |row| else 2 * (|row| / 2)
  {
    if depth == 8 then row
    else if depth == 16 then Swapped(row, |row| / 2)
    else seq((|row| * depth + 7) / 8, i requires 0 <= i => PackedByte(row, depth, color, i))
  }

  lemma PackedLength(row: seq<byte>, depth: nat, color: nat, n: nat, x: nat)
    requires Depth(depth) && |row| == OutBytes(n, depth) * x
    ensures depth == 16 ==> |row| == 2 * (n * x)
    ensures depth < 16 ==> |row| == n * x
    ensures RowBytes(n, x, depth) == if depth < 8 then (|row| * depth + 7) / 8 else |row|
  {
    if depth == 16 {
      assert n * 2 * x == 2 * (n * x);
      assert n * x * 16 == 8 * |row|;
    }
  }

  /** Which byte and which bits of it hold sample `s`. */
  lemma SamplePlace(depth: nat, s: nat, len: nat)
    requires (depth == 1 || depth == 2 || depth == 4) && s < len
    ensures s / PerByte(depth) < (len * depth + 7) / 8
    ensures var t := s % PerByte(depth);
            s == PerByte(depth) * (s / PerByte(depth)) + t && t < PerByte(depth)
            && depth * (t + 1) <= 8 && depth * (PerByte(depth) - 1 - t) == 8 - depth * (t + 1)
  {
    if depth == 1 {
      assert PerByte(1) == 8;
    } else if depth == 2 {
      assert PerByte(2) == 4;
    } else {
      assert PerByte(4) == 2;
    }
  }

  /** One sample comes back from the packed row. */
  lemma SampleBack(row: seq<byte>, depth: nat, color: nat, s: nat)
    requires Packable(row, depth, color) && (depth == 1 || depth == 2 || depth == 4) && s < |row|
    ensures s / PerByte(depth) < |PackedRow(row, depth, color)|
    ensures Sample(PackedRow(row, depth, color), depth, color, s) == row[s]
  {
    hide Digits, PackedSample, Low, Shr, Pow2, PerByte, Scale, Packable, PackedRow, PackedByte, Sample;
    PerByteKnown(depth);
    var per := PerByte(depth);
    var i, t := s / per, s % per;
    SamplePlace(depth, s, |row|);
    DigitsAt(row, depth, color, per * i, per, t);
    ByteIs(row, depth, color, i);
    PackedIs(PackedByte(row, depth, color, i), depth, t);
    Rescaled(row, depth, color, s);
    SampleIs(PackedRow(row, depth, color), depth, color, s);
  }

  lemma PerByteKnown(depth: nat)
    ensures PerByte(depth) > 0
  {}

  lemma ByteIs(row: seq<byte>, depth: nat, color: nat, i: nat)
    requires Packable(row, depth, color) && (depth == 1 || depth == 2 || depth == 4) && i < (|row| * depth + 7) / 8
    ensures PackedRow(row, depth, color)[i] == PackedByte(row, depth, color, i)
    ensures PackedByte(row, depth, color, i) == Digits(row, depth, color, PerByte(depth) * i, PerByte(depth))
  {
    hide Digits, Packable, Scale;
  }

  lemma SampleIs(p: seq<byte>, depth: nat, color: nat, s: nat)
    requires (depth == 1 || depth == 2 || depth == 4) && s / PerByte(depth) < |p|
    requires depth * (s % PerByte(depth) + 1) <= 8
    ensures Sample(p, depth, color, s) ==
            (Scale(depth, color) * PackedSample(p[s / PerByte(depth)], depth, s % PerByte(depth))) % 256
  {
    hide PackedSample, Scale;
  }

  lemma Rescaled(row: seq<byte>, depth: nat, color: nat, s: nat)
    requires Packable(row, depth, color) && (depth == 1 || depth == 2 || depth == 4) && s < |row|
    ensures Scale(depth, color) * Digit(row, depth, color, s) == row[s]
  {
    assert Level(row[s], depth, color);
  }

  lemma PackedIs(b: byte, depth: nat, t: nat)
    requires depth * (t + 1) <= 8
    ensures PackedSample(b, depth, t) == Low(Shr(b, 8 - depth * (t + 1)), depth)
  {}

  lemma SwappedTwice(row: seq<byte>, m: nat)
    requires |row| == 2 * m
    ensures Swapped(Swapped(row, m), m) == row
  {
    hide Swapped;
    var r := Swapped(row, m);
    forall k | 0 <= k < |row| ensures Swapped(r, m)[k] == row[k] {
      SwappedAt(row, m, k / 2);
      SwappedAt(r, m, k / 2);
      assert k == 2 * (k / 2) || k == 2 * (k / 2) + 1;
    }
  }

  /** Packing inverts what the decoder does to a row. */
  lemma PackedBack(row: seq<byte>, depth: nat, color: nat, m: nat)
    requires Depth(depth) && Packable(row, depth, color) && |row| == if depth == 16 then 2 * m else m
    ensures var p := PackedRow(row, depth, color);
            (if depth == 16 then 2 * m <= |p| else m <= PerByte(depth) * |p|)
            && SampleBytes(p, depth, color, m) == row
  {
    hide Sample, Packable;
    if depth == 16 {
      SwappedTwice(row, m);
    } else if depth == 8 {
      assert Samples(row, depth, color, m) == row by { Whole8(row, color); }
    } else {
      forall s | 0 <= s < m ensures Sample(PackedRow(row, depth, color), depth, color, s) == row[s] {
        SampleBack(row, depth, color, s);
      }
    }
  }

  lemma Whole8(row: seq<byte>, color: nat)
    ensures forall s :: 0 <= s < |row| ==> Sample(row, 8, color, s) == row[s]
  {}
}
