/** Bytes, the bit stream a byte buffer denotes, and the C shift and mask operations the
    decoders use, written over natural numbers. */
module Bits {

  type byte = b: int | 0 <= b < 256

  const INT_MAX := 0x7fff_ffff
  const UINT_MAX := 0xffff_ffff

  /** `v << n` without loss. */
  function Shl(v: nat, n: nat): (r: nat)
    ensures v > 0 ==> r > 0
  {
    if n == 0 then v else 2 * Shl(v, n - 1)
  }

  /** `v >> n`. */
  function Shr(v: nat, n: nat): (r: nat)
    decreases n
  {
    if n == 0 then v else Shr(v / 2, n - 1)
  }

  /** `v & ((1 << n) - 1)`. */
  function Low(v: nat, n: nat): (r: nat)
    decreases n
  {
    if n == 0 then 0 else v % 2 + 2 * Low(v / 2, n - 1)
  }

  function Pow2(n: nat): (p: nat)
    ensures p > 0
  {
    Shl(1, n)
  }

  function BitOf(v: nat, i: nat): (b: nat)
    ensures b < 2
    decreases i
  {
    if i == 0 then v % 2 else BitOf(v / 2, i - 1)
  }

  lemma {:induction false} ShlHalf(v: nat, n: nat)
    requires n > 0
    ensures Shl(v, n) == Shl(2 * v, n - 1)
  {
    if n > 1 { ShlHalf(v, n - 1); }
  }

  lemma {:induction false} ShlShl(v: nat, a: nat, b: nat)
    ensures Shl(Shl(v, a), b) == Shl(v, a + b)
  {
    if b > 0 { ShlShl(v, a, b - 1); }
  }

  lemma {:induction false} ShlAdd(u: nat, v: nat, n: nat)
    ensures Shl(u + v, n) == Shl(u, n) + Shl(v, n)
  {
    if n > 0 { ShlAdd(u, v, n - 1); }
  }

  lemma ShlMono(u: nat, v: nat, n: nat)
    requires u <= v
    ensures Shl(u, n) <= Shl(v, n)
  {
    ShlAdd(u, v - u, n);
  }

  lemma {:induction false} ShlZero(n: nat)
    ensures Shl(0, n) == 0
  {
    if n > 0 { ShlZero(n - 1); }
  }

  lemma {:induction false} ShrZero(n: nat)
    ensures Shr(0, n) == 0
  {
    if n > 0 { ShrZero(n - 1); }
  }

  lemma {:induction false} ShrShr(v: nat, a: nat, b: nat)
    ensures Shr(Shr(v, a), b) == Shr(v, a + b)
    decreases a
  {
    if a > 0 { ShrShr(v / 2, a - 1, b); }
  }

  lemma {:induction false} Pow2Mono(a: nat, b: nat)
    requires a <= b
    ensures Pow2(a) <= Pow2(b)
  {
    if a < b { Pow2Mono(a, b - 1); }
  }

  lemma {:induction false} LowBound(v: nat, n: nat)
    ensures Low(v, n) < Pow2(n)
    decreases n
  {
    if n > 0 { LowBound(v / 2, n - 1); }
  }

  /** A number splits into its low bits and its shifted high bits. */
  lemma {:induction false} Split(v: nat, n: nat)
    ensures v == Low(v, n) + Shl(Shr(v, n), n)
    decreases n
  {
    if n > 0 { Split(v / 2, n - 1); }
  }

  /** ... and only in that one way. */
  lemma {:induction false} Join(lo: nat, hi: nat, n: nat)
    requires lo < Pow2(n)
    ensures Low(lo + Shl(hi, n), n) == lo
    ensures Shr(lo + Shl(hi, n), n) == hi
    decreases n
  {
    if n > 0 {
      var v := lo + Shl(hi, n);
      assert v / 2 == lo / 2 + Shl(hi, n - 1);
      Join(lo / 2, hi, n - 1);
    }
  }

  lemma SmallLow(v: nat, n: nat)
    requires v < Pow2(n)
    ensures Low(v, n) == v && Shr(v, n) == 0
  {
    ShlZero(n);
    Join(v, 0, n);
  }

  lemma ShrMono(u: nat, v: nat, n: nat)
    requires u <= v
    ensures Shr(u, n) <= Shr(v, n)
    decreases n
  {
    if n > 0 { ShrMono(u / 2, v / 2, n - 1); }
  }

  /** Comparing a shifted number with a bound is comparing the number with the shifted bound. */
  lemma ShrLess(v: nat, b: nat, n: nat)
    ensures Shr(v, n) < b <==> v < Shl(b, n)
  {
    Split(v, n);
    LowBound(v, n);
    if Shr(v, n) < b {
      ShlMono(Shr(v, n) + 1, b, n);
      ShlAdd(Shr(v, n), 1, n);
    } else {
      ShlMono(b, Shr(v, n), n);
    }
  }

  /** Shifting an already masked number loses nothing below the smaller mask. */
  lemma {:induction false} LowLow(v: nat, n: nat, m: nat)
    requires n <= m
    ensures Low(Low(v, m), n) == Low(v, n)
    decreases n
  {
    if n > 0 { LowLow(v / 2, n - 1, m - 1); }
  }

  /** Adding 2^m leaves the lower bits alone. */
  lemma {:induction false} LowAddPow2(v: nat, n: nat, m: nat)
    requires n <= m
    ensures Low(v + Pow2(m), n) == Low(v, n)
    decreases n
  {
    if n > 0 {
      assert (v + Pow2(m)) / 2 == v / 2 + Pow2(m - 1);
      LowAddPow2(v / 2, n - 1, m - 1);
    }
  }

  lemma {:induction false} BitOfShr(v: nat, i: nat)
    ensures BitOf(v, i) == Shr(v, i) % 2
    decreases i
  {
    if i > 0 { BitOfShr(v / 2, i - 1); }
  }

  lemma {:induction false} ShrBit(v: nat, w: nat, i: nat)
    ensures BitOf(Shr(v, w), i) == BitOf(v, i + w)
    decreases w
  {
    if w > 0 { ShrBit(v / 2, w - 1, i); }
  }

  lemma {:induction false} ShlBit(v: nat, w: nat, i: nat)
    ensures BitOf(Shl(v, w), i) == (if i < w then 0 else BitOf(v, i - w))
    decreases w
  {
    if w > 0 && i > 0 { ShlBit(v, w - 1, i - 1); }
  }

  lemma {:induction false} HighBitZero(v: nat, n: nat, i: nat)
    requires v < Pow2(n) && n <= i
    ensures BitOf(v, i) == 0
    decreases i
  {
    if n > 0 {
      HighBitZero(v / 2, n - 1, i - 1);
    } else if i > 0 {
      HighBitZero(0, 0, i - 1);
    }
  }

  /** A number below 2^n is determined by its low n bits. */
  lemma {:induction false} BitsDetermine(a: nat, b: nat, n: nat)
    requires a < Pow2(n) && b < Pow2(n)
    requires forall i :: 0 <= i < n ==> BitOf(a, i) == BitOf(b, i)
    ensures a == b
  {
    if n > 0 {
      assert BitOf(a, 0) == BitOf(b, 0);
      forall i | 0 <= i < n - 1 ensures BitOf(a / 2, i) == BitOf(b / 2, i) {
        assert BitOf(a, i + 1) == BitOf(b, i + 1);
      }
      BitsDetermine(a / 2, b / 2, n - 1);
    }
  }

  lemma SmallPowers()
    ensures Pow2(0) == 1 && Pow2(1) == 2 && Pow2(2) == 4 && Pow2(3) == 8 && Pow2(4) == 0x10
    ensures Pow2(5) == 0x20 && Pow2(6) == 0x40 && Pow2(7) == 0x80 && Pow2(8) == 0x100 && Pow2(9) == 0x200
    ensures Pow2(10) == 0x400 && Pow2(11) == 0x800 && Pow2(12) == 0x1000 && Pow2(13) == 0x2000
    ensures Pow2(14) == 0x4000 && Pow2(15) == 0x8000 && Pow2(16) == 0x10000
  {}

  // ----- the bit stream of a byte buffer -----

  /** Bit `i` of the stream: bytes in order, least significant bit first, zeros past the end. */
  function StreamBit(data: seq<byte>, i: nat): (b: nat)
    ensures b < 2
  {
    if i / 8 < |data| then BitOf(data[i / 8], i % 8) else 0
  }

  /** The `n` bits at `pos` read as a number, first bit least significant. */
  function Val(data: seq<byte>, pos: nat, n: nat): nat
    decreases n
  {
    if n == 0 then 0 else StreamBit(data, pos) + 2 * Val(data, pos + 1, n - 1)
  }

  lemma {:induction false} ValBound(data: seq<byte>, pos: nat, n: nat)
    ensures Val(data, pos, n) < Pow2(n)
    decreases n
  {
    if n > 0 { ValBound(data, pos + 1, n - 1); }
  }

  lemma {:induction false} ValSplit(data: seq<byte>, pos: nat, m: nat, n: nat)
    ensures Val(data, pos, m + n) == Val(data, pos, m) + Shl(Val(data, pos + m, n), m)
    decreases m
  {
    if m > 0 { ValSplit(data, pos + 1, m - 1, n); }
  }

  /** Masking keeps the first `m` bits and shifting right drops them. */
  lemma ValLowShr(data: seq<byte>, pos: nat, n: nat, m: nat)
    requires m <= n
    ensures Low(Val(data, pos, n), m) == Val(data, pos, m)
    ensures Shr(Val(data, pos, n), m) == Val(data, pos + m, n - m)
  {
    hide Val, Shl, Shr, Low;
    ValSplit(data, pos, m, n - m);
    assert m + (n - m) == n;
    ValBound(data, pos, m);
    Join(Val(data, pos, m), Val(data, pos + m, n - m), m);
  }

  lemma {:induction false} ValPast(data: seq<byte>, pos: nat, n: nat)
    requires pos >= 8 * |data|
    ensures Val(data, pos, n) == 0
    decreases n
  {
    if n > 0 { ValPast(data, pos + 1, n - 1); }
  }

  lemma {:induction false} ValByteTail(data: seq<byte>, p: nat, i: nat)
    requires p < |data| && i <= 8
    ensures Val(data, 8 * p + i, 8 - i) == Shr(data[p], i)
    decreases 8 - i
  {
    var v := data[p];
    if i == 8 {
      SmallPowers();
      SmallLow(v, 8);
    } else {
      ValByteTail(data, p, i + 1);
      assert (8 * p + i) / 8 == p && (8 * p + i) % 8 == i;
      BitOfShr(v, i);
      ShrShr(v, i, 1);
      assert Shr(Shr(v, i), 1) == Shr(v, i) / 2;
    }
  }

  /** Eight aligned bits are the byte itself. */
  lemma ValByte(data: seq<byte>, p: nat)
    requires p < |data|
    ensures Val(data, 8 * p, 8) == data[p]
  {
    ValByteTail(data, p, 0);
  }

  /** The `n` bits at `pos` read as a Huffman code, first bit most significant. */
  function Code(data: seq<byte>, pos: nat, n: nat): nat
  {
    if n == 0 then 0 else 2 * Code(data, pos, n - 1) + StreamBit(data, pos + n - 1)
  }

  lemma {:induction false} CodeFront(data: seq<byte>, pos: nat, n: nat)
    requires n > 0
    ensures Code(data, pos, n) == Shl(StreamBit(data, pos), n - 1) + Code(data, pos + 1, n - 1)
  {
    if n > 1 { CodeFront(data, pos, n - 1); }
  }

  lemma {:induction false} CodeBound(data: seq<byte>, pos: nat, n: nat)
    ensures Code(data, pos, n) < Pow2(n)
  {
    if n > 0 { CodeBound(data, pos, n - 1); }
  }

  /** A code's leading bits are the longer lookahead shifted right. */
  lemma {:induction false} CodePrefix(data: seq<byte>, pos: nat, n: nat, m: nat)
    requires m <= n
    ensures Shr(Code(data, pos, n), n - m) == Code(data, pos, m)
    decreases n
  {
    if m < n { CodePrefix(data, pos, n - 1, m); }
  }

  // ----- bit reversal -----

  /** The low `n` bits of `v` in the opposite order. */
  function Reverse(v: nat, n: nat): nat
    decreases n
  {
    if n == 0 then 0 else Shl(v % 2, n - 1) + Reverse(v / 2, n - 1)
  }

  lemma {:induction false} ReverseBound(v: nat, n: nat)
    ensures Reverse(v, n) < Pow2(n)
    decreases n
  {
    if n > 0 {
      ReverseBound(v / 2, n - 1);
      ShlMono(v % 2, 1, n - 1);
    }
  }

  lemma {:induction false} ReverseVal(data: seq<byte>, pos: nat, n: nat)
    ensures Reverse(Val(data, pos, n), n) == Code(data, pos, n)
    decreases n
  {
    if n > 0 {
      ReverseVal(data, pos + 1, n - 1);
      CodeFront(data, pos, n);
    }
  }

  lemma {:induction false} ReverseBit(v: nat, n: nat, i: nat)
    requires i < n
    ensures BitOf(Reverse(v, n), i) == BitOf(v, n - 1 - i)
    decreases n
  {
    var r := Reverse(v / 2, n - 1);
    ReverseBound(v / 2, n - 1);
    if i == n - 1 {
      BitOfShr(Reverse(v, n), i);
      Join(r, v % 2, n - 1);
    } else {
      ReverseBit(v / 2, n - 1, i);
      HighPart(v % 2, r, n - 1, i);
    }
  }

  lemma {:induction false} HighPart(h: nat, r: nat, n: nat, i: nat)
    requires i < n
    ensures BitOf(Shl(h, n) + r, i) == BitOf(r, i)
    decreases n
  {
    if i > 0 {
      assert (Shl(h, n) + r) / 2 == Shl(h, n - 1) + r / 2;
      HighPart(h, r / 2, n - 1, i - 1);
    }
  }

  lemma ReverseReverse(v: nat, n: nat)
    requires v < Pow2(n)
    ensures Reverse(Reverse(v, n), n) == v
  {
    var r := Reverse(v, n);
    ReverseBound(r, n);
    forall i | 0 <= i < n ensures BitOf(Reverse(r, n), i) == BitOf(v, i) {
      ReverseBit(r, n, i);
      ReverseBit(v, n, n - 1 - i);
    }
    BitsDetermine(Reverse(r, n), v, n);
  }

  /** Reversal looks only at the low `n` bits. */
  lemma {:induction false} ReverseLow(v: nat, n: nat, m: nat)
    requires n <= m
    ensures Reverse(Low(v, m), n) == Reverse(v, n)
    decreases n
  {
    if n > 0 { ReverseLow(v / 2, n - 1, m - 1); }
  }

  /** The leading bits of a reversed number are the reversed trailing bits. */
  lemma {:induction false} ReverseTop(v: nat, n: nat, m: nat)
    requires n <= m
    ensures Shr(Reverse(v, m), m - n) == Reverse(v, n)
    decreases n
  {
    if n == 0 {
      ReverseBound(v, m);
      SmallLow(Reverse(v, m), m);
    } else {
      ReverseTop(v / 2, n - 1, m - 1);
      var r := Reverse(v / 2, m - 1);
      ShlShl(v % 2, n - 1, m - n);
      ShrAddHigh(Shl(v % 2, n - 1), r, m - n);
    }
  }

  lemma ShrAddHigh(h: nat, r: nat, n: nat)
    ensures Shr(Shl(h, n) + r, n) == h + Shr(r, n)
  {
    Split(r, n);
    LowBound(r, n);
    ShlAdd(h, Shr(r, n), n);
    Join(Low(r, n), h + Shr(r, n), n);
  }

  // ----- bitwise and, or; the 16-bit reversal -----

  /** `a & b`. */
  function And(a: nat, b: nat): nat
  {
    if a == 0 || b == 0 then 0 else (if a % 2 == 1 && b % 2 == 1 then 1 else 0) + 2 * And(a / 2, b / 2)
  }

  /** `a | b`. */
  function Or(a: nat, b: nat): nat
  {
    if a == 0 then b else if b == 0 then a
    else (if a % 2 == 1 || b % 2 == 1 then 1 else 0) + 2 * Or(a / 2, b / 2)
  }

  lemma {:induction false} ZeroBit(i: nat)
    ensures BitOf(0, i) == 0
  {
    if i > 0 { ZeroBit(i - 1); }
  }

  lemma {:induction false} AndBit(a: nat, b: nat, i: nat)
    ensures BitOf(And(a, b), i) == (if BitOf(a, i) == 1 && BitOf(b, i) == 1 then 1 else 0)
    decreases i
  {
    if a == 0 || b == 0 {
      ZeroBit(i);
    } else if i > 0 {
      AndBit(a / 2, b / 2, i - 1);
    }
  }

  lemma {:induction false} OrBit(a: nat, b: nat, i: nat)
    ensures BitOf(Or(a, b), i) == (if BitOf(a, i) == 1 || BitOf(b, i) == 1 then 1 else 0)
    decreases i
  {
    ZeroBit(i);
    if a != 0 && b != 0 && i > 0 { OrBit(a / 2, b / 2, i - 1); }
  }

  lemma {:induction false} OrBound(a: nat, b: nat, n: nat)
    requires a < Pow2(n) && b < Pow2(n)
    ensures Or(a, b) < Pow2(n)
    decreases n
  {
    if a != 0 && b != 0 && n > 0 { OrBound(a / 2, b / 2, n - 1); }
  }

  lemma {:induction false} AndBound(a: nat, b: nat, n: nat)
    requires b < Pow2(n)
    ensures And(a, b) < Pow2(n)
    decreases n
  {
    if a != 0 && b != 0 && n > 0 { AndBound(a / 2, b / 2, n - 1); }
  }

  /** Or-ing in a number shifted above all set bits is addition. */
  lemma {:induction false} OrIsAdd(a: nat, b: nat, n: nat)
    requires a < Pow2(n)
    ensures Or(a, Shl(b, n)) == a + Shl(b, n)
    decreases n
  {
    if n > 0 && a != 0 && b != 0 { OrIsAdd(a / 2, b, n - 1); }
    if b == 0 { ShlZero(n); }
  }

  /** Shifting another byte of the stream in above the buffered bits. */
  lemma ShiftIn(data: seq<byte>, pos: nat, n: nat, m: nat)
    ensures Val(data, pos, n) < Shl(1, n)
    ensures Or(Val(data, pos, n), Shl(Val(data, pos + n, m), n)) == Val(data, pos, n + m)
  {
    hide Or, Val, Shl;
    ValBound(data, pos, n);
    ValSplit(data, pos, n, m);
    OrIsAdd(Val(data, pos, n), Val(data, pos + n, m), n);
  }

  lemma EmptyVal(data: seq<byte>, pos: nat)
    ensures Val(data, pos, 0) == 0
  {}

  lemma Shl8(v: nat)
    ensures Shl(v, 8) == 256 * v
  {
    Shl4(v);
    Shl4(Shl(v, 4));
    ShlShl(v, 4, 4);
  }

  /** One stage of the 16-bit reversal: exchange the fields `hi` and `lo` select, `w` bits apart. */
  function SwapStage(n: nat, hi: nat, lo: nat, w: nat): nat
  {
    Or(Shr(And(n, hi), w), Shl(And(n, lo), w))
  }

  /** `stbi__bitreverse16`. */
  function BitReverse16(n: nat): nat
  {
    var n1 := SwapStage(n, 0xAAAA, 0x5555, 1);
    var n2 := SwapStage(n1, 0xCCCC, 0x3333, 2);
    var n3 := SwapStage(n2, 0xF0F0, 0x0F0F, 4);
    SwapStage(n3, 0xFF00, 0x00FF, 8)
  }

  /** `stbi__bit_reverse`: reverse `bits` bits through the 16-bit reversal. */
  function BitReverse(v: nat, bits: nat): nat
    requires bits <= 16
  {
    Shr(BitReverse16(v), 16 - bits)
  }

  lemma SwapStageBit(n: nat, hi: nat, lo: nat, w: nat, i: nat)
    ensures BitOf(SwapStage(n, hi, lo, w), i) ==
            (if BitOf(n, i + w) == 1 && BitOf(hi, i + w) == 1 then 1
             else if i >= w && BitOf(n, i - w) == 1 && BitOf(lo, i - w) == 1 then 1 else 0)
  {
    OrBit(Shr(And(n, hi), w), Shl(And(n, lo), w), i);
    ShrBit(And(n, hi), w, i);
    ShlBit(And(n, lo), w, i);
    AndBit(n, hi, i + w);
    if i >= w { AndBit(n, lo, i - w); }
  }

  predicate StageWidth(w: nat) {
    w == 1 || w == 2 || w == 4 || w == 8
  }

  /** Whether bit `k` lies in the upper field of its pair of fields of width `w`. */
  function Upper(k: nat, w: nat): (u: nat)
    requires StageWidth(w)
    ensures u <= 1
    ensures u == 1 ==> k >= w
  {
    if w == 1 then k % 2 else if w == 2 then k / 2 % 2 else if w == 4 then k / 4 % 2 else k / 8 % 2
  }

  /** Where bit `i` of a stage's result comes from: the partner field `w` bits away. */
  function Partner(i: nat, w: nat): nat
    requires StageWidth(w)
  {
    if Upper(i, w) == 0 then i + w else i - w
  }

  /** `hi` and `lo` are the 16-bit masks that select the upper and the lower fields of width `w`. */
  ghost predicate FieldMasks(hi: nat, lo: nat, w: nat)
    requires StageWidth(w)
  {
    hi < 0x10000 && lo < 0x10000 &&
    forall k :: 0 <= k < 16 ==> BitOf(hi, k) == Upper(k, w) && BitOf(lo, k) == 1 - Upper(k, w)
  }

  lemma UpperAlternates(i: nat, w: nat)
    requires StageWidth(w) && i < 16
    ensures Upper(i + w, w) == 1 - Upper(i, w)
    ensures i >= w ==> Upper(i - w, w) == 1 - Upper(i, w)
    ensures i + w >= 16 ==> Upper(i, w) == 1
  {
    if w == 1 {
    } else if w == 2 {
      assert (i + 2) / 2 == i / 2 + 1;
    } else if w == 4 {
      assert (i + 4) / 4 == i / 4 + 1;
    } else {
      assert (i + 8) / 8 == i / 8 + 1;
    }
  }

  lemma StageBit(n: nat, hi: nat, lo: nat, w: nat, i: nat)
    requires StageWidth(w) && FieldMasks(hi, lo, w) && i < 16
    ensures BitOf(SwapStage(n, hi, lo, w), i) == BitOf(n, Partner(i, w))
  {
    SwapStageBit(n, hi, lo, w, i);
    UpperAlternates(i, w);
    if i + w >= 16 {
      SmallPowers();
      HighBitZero(hi, 16, i + w);
    }
  }

  lemma Nibble(d: nat, j: nat)
    requires j < 4
    ensures BitOf(d, j) ==
            if j == 0 then d % 2 else if j == 1 then d / 2 % 2 else if j == 2 then d / 4 % 2 else d / 8 % 2
  {
    assert d / 2 / 2 == d / 4 && d / 2 / 2 / 2 == d / 8;
  }

  lemma JoinBit(lo: nat, hi: nat, n: nat, k: nat)
    requires lo < Pow2(n)
    ensures BitOf(lo + Shl(hi, n), k) == if k < n then BitOf(lo, k) else BitOf(hi, k - n)
  {
    if k < n {
      HighPart(hi, lo, n, k);
    } else {
      Join(lo, hi, n);
      ShrBit(lo + Shl(hi, n), n, k - n);
    }
  }

  /** The bits of four hexadecimal digits, `q` naming the digit and `j` the bit in it. */
  lemma FourDigits(d3: nat, d2: nat, d1: nat, d0: nat, q: nat, j: nat)
    requires d0 < 16 && d1 < 16 && d2 < 16 && d3 < 16 && q < 4 && j < 4
    ensures BitOf(0x1000 * d3 + 0x100 * d2 + 0x10 * d1 + d0, 4 * q + j) ==
            BitOf(if q == 0 then d0 else if q == 1 then d1 else if q == 2 then d2 else d3, j)
  {
    TwoDigits(0x10 * d3 + d2, d1, d0, q, j);
    if q >= 2 { TwoDigits(0, d3, d2, q - 2, j); }
  }

  lemma Shl4(v: nat)
    ensures Shl(v, 4) == 0x10 * v
  {
    assert Shl(v, 1) == 2 * v;
    assert Shl(v, 3) == 4 * Shl(v, 1);
  }

  lemma TwoDigits(rest: nat, d1: nat, d0: nat, q: nat, j: nat)
    requires d0 < 16 && d1 < 16 && j < 4
    ensures BitOf(0x100 * rest + 0x10 * d1 + d0, 4 * q + j) ==
            if q == 0 then BitOf(d0, j) else if q == 1 then BitOf(d1, j) else BitOf(rest, 4 * (q - 2) + j)
  {
    SmallPowers();
    Shl4(0x10 * rest + d1);
    Shl4(rest);
    JoinBit(d0, 0x10 * rest + d1, 4, 4 * q + j);
    if q >= 1 { JoinBit(d1, rest, 4, 4 * (q - 1) + j); }
  }

  lemma Digit(d: nat, j: nat)
    requires j < 4
    ensures d == 0 ==> BitOf(d, j) == 0
    ensures d == 0x3 ==> BitOf(d, j) == if j < 2 then 1 else 0
    ensures d == 0x5 ==> BitOf(d, j) == if j == 0 || j == 2 then 1 else 0
    ensures d == 0xA ==> BitOf(d, j) == if j == 0 || j == 2 then 0 else 1
    ensures d == 0xC ==> BitOf(d, j) == if j < 2 then 0 else 1
    ensures d == 0xF ==> BitOf(d, j) == 1
  {
    Nibble(d, j);
  }

  lemma Mask12(q: nat, j: nat)
    requires q < 4 && j < 4
    ensures BitOf(0xAAAA, 4 * q + j) == (if j == 0 || j == 2 then 0 else 1)
    ensures BitOf(0x5555, 4 * q + j) == (if j == 0 || j == 2 then 1 else 0)
    ensures BitOf(0xCCCC, 4 * q + j) == (if j < 2 then 0 else 1)
    ensures BitOf(0x3333, 4 * q + j) == (if j < 2 then 1 else 0)
  {
    hide BitOf;
    FourDigits(0xA, 0xA, 0xA, 0xA, q, j);
    FourDigits(0x5, 0x5, 0x5, 0x5, q, j);
    FourDigits(0xC, 0xC, 0xC, 0xC, q, j);
    FourDigits(0x3, 0x3, 0x3, 0x3, q, j);
    Digit(0xA, j);
    Digit(0x5, j);
    Digit(0xC, j);
    Digit(0x3, j);
  }

  lemma Mask48(q: nat, j: nat)
    requires q < 4 && j < 4
    ensures BitOf(0xF0F0, 4 * q + j) == (if q == 0 || q == 2 then 0 else 1)
    ensures BitOf(0x0F0F, 4 * q + j) == (if q == 0 || q == 2 then 1 else 0)
    ensures BitOf(0xFF00, 4 * q + j) == (if q < 2 then 0 else 1)
    ensures BitOf(0x00FF, 4 * q + j) == (if q < 2 then 1 else 0)
  {
    hide BitOf;
    FourDigits(0xF, 0x0, 0xF, 0x0, q, j);
    FourDigits(0x0, 0xF, 0x0, 0xF, q, j);
    FourDigits(0xF, 0xF, 0x0, 0x0, q, j);
    FourDigits(0x0, 0x0, 0xF, 0xF, q, j);
    Digit(0xF, j);
    Digit(0x0, j);
  }

  lemma Masks()
    ensures FieldMasks(0xAAAA, 0x5555, 1) && FieldMasks(0xCCCC, 0x3333, 2)
    ensures FieldMasks(0xF0F0, 0x0F0F, 4) && FieldMasks(0xFF00, 0x00FF, 8)
  {
    hide BitOf;
    forall k: nat | k < 16
      ensures BitOf(0xAAAA, k) == Upper(k, 1) && BitOf(0x5555, k) == 1 - Upper(k, 1)
      ensures BitOf(0xCCCC, k) == Upper(k, 2) && BitOf(0x3333, k) == 1 - Upper(k, 2)
      ensures BitOf(0xF0F0, k) == Upper(k, 4) && BitOf(0x0F0F, k) == 1 - Upper(k, 4)
      ensures BitOf(0xFF00, k) == Upper(k, 8) && BitOf(0x00FF, k) == 1 - Upper(k, 8)
    {
      var q, j := k / 4, k % 4;
      assert k == 4 * q + j;
      Mask12(q, j);
      Mask48(q, j);
    }
  }

  lemma PartnersReverse(i: nat)
    requires i < 16
    ensures Partner(i, 8) < 16 && Partner(Partner(i, 8), 4) < 16 && Partner(Partner(Partner(i, 8), 4), 2) < 16
    ensures Partner(Partner(Partner(Partner(i, 8), 4), 2), 1) == 15 - i
  {}

  lemma BitReverse16Bound(n: nat)
    ensures BitReverse16(n) < 0x10000
  {
    SmallPowers();
    var n1 := SwapStage(n, 0xAAAA, 0x5555, 1);
    var n2 := SwapStage(n1, 0xCCCC, 0x3333, 2);
    var n3 := SwapStage(n2, 0xF0F0, 0x0F0F, 4);
    AndBound(n3, 0xFF00, 16);
    AndBound(n3, 0x00FF, 8);
    var a, b := And(n3, 0xFF00), And(n3, 0x00FF);
    ShrLess(a, 0x10000, 8);
    Split(a, 8);
    assert Shr(a, 8) < 0x10000;
    ShlMono(b + 1, 0x100, 8);
    ShlAdd(b, 1, 8);
    ShlShl(1, 8, 8);
    OrBound(Shr(a, 8), Shl(b, 8), 16);
  }

  /** The four mask-and-shift stages reverse the low sixteen bits. */
  lemma BitReverse16Reverses(n: nat)
    ensures BitReverse16(n) == Reverse(n, 16)
  {
    Masks();
    var n1 := SwapStage(n, 0xAAAA, 0x5555, 1);
    var n2 := SwapStage(n1, 0xCCCC, 0x3333, 2);
    var n3 := SwapStage(n2, 0xF0F0, 0x0F0F, 4);
    var n4 := SwapStage(n3, 0xFF00, 0x00FF, 8);
    forall i | 0 <= i < 16 ensures BitOf(n4, i) == BitOf(Reverse(n, 16), i) {
      PartnersReverse(i);
      StageBit(n3, 0xFF00, 0x00FF, 8, i);
      StageBit(n2, 0xF0F0, 0x0F0F, 4, Partner(i, 8));
      StageBit(n1, 0xCCCC, 0x3333, 2, Partner(Partner(i, 8), 4));
      StageBit(n, 0xAAAA, 0x5555, 1, Partner(Partner(Partner(i, 8), 4), 2));
      ReverseBit(n, 16, i);
    }
    BitReverse16Bound(n);
    ReverseBound(n, 16);
    SmallPowers();
    BitsDetermine(n4, Reverse(n, 16), 16);
  }

  lemma BitReverseReverses(v: nat, bits: nat)
    requires bits <= 16
    ensures BitReverse(v, bits) == Reverse(v, bits)
  {
    BitReverse16Reverses(v);
    ReverseTop(v, bits, 16);
  }
}
