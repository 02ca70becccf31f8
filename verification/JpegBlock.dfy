/** Baseline coefficient blocks: decoding as section F.2.2 of ITU-T T.81 describes it, bit by bit,
    and the combined table that reads a short code and its value in one step. */
module JpegBlock {
  import opened Arithmetic
  import opened Bits
  import opened Canonical
  import opened JpegHuffman
  import opened JpegBits

  const BLOCK := 64
  const ZRL := 0xf0
  const SHRT_MAX := 32767
  const SHRT_MIN := -32768

  /** Position in the block of the `k`-th coefficient in zigzag order. The table has 15 more entries,
      all 63, that catch runs past the end. */
  function Dezigzag(k: nat): (z: nat)
    requires k < 79
    ensures z < BLOCK
  {
    match k
    case 0 => 0 case 1 => 1 case 2 => 8 case 3 => 16
    case 4 => 9 case 5 => 2 case 6 => 3 case 7 => 10
    case 8 => 17 case 9 => 24 case 10 => 32 case 11 => 25
    case 12 => 18 case 13 => 11 case 14 => 4 case 15 => 5
    case 16 => 12 case 17 => 19 case 18 => 26 case 19 => 33
    case 20 => 40 case 21 => 48 case 22 => 41 case 23 => 34
    case 24 => 27 case 25 => 20 case 26 => 13 case 27 => 6
    case 28 => 7 case 29 => 14 case 30 => 21 case 31 => 28
    case 32 => 35 case 33 => 42 case 34 => 49 case 35 => 56
    case 36 => 57 case 37 => 50 case 38 => 43 case 39 => 36
    case 40 => 29 case 41 => 22 case 42 => 15 case 43 => 23
    case 44 => 30 case 45 => 37 case 46 => 44 case 47 => 51
    case 48 => 58 case 49 => 59 case 50 => 52 case 51 => 45
    case 52 => 38 case 53 => 31 case 54 => 39 case 55 => 46
    case 56 => 53 case 57 => 60 case 58 => 61 case 59 => 54
    case 60 => 47 case 61 => 55 case 62 => 62 case 63 => 63
    case _ => 63
  }

  /** One step of the zigzag: along the diagonal, or to the next one at the edge. */
  function ZigzagStep(row: nat, col: nat): (nat, nat)
  {
    if (row + col) % 2 == 0 then
      if col == 7 then (row + 1, col) else if row == 0 then (row, col + 1) else (row - 1, col + 1)
    else
      if row == 7 then (row, col + 1) else if col == 0 then (row + 1, col) else (row + 1, col - 1)
  }

  predicate Follows(z: nat, n: nat)
  {
    (n / 8, n % 8) == ZigzagStep(z / 8, z % 8)
  }

  lemma ZigzagQuarter1(k: nat)
    requires 0 <= k < 16
    ensures Follows(Dezigzag(k), Dezigzag(k + 1))
  {}

  lemma ZigzagQuarter2(k: nat)
    requires 16 <= k < 32
    ensures Follows(Dezigzag(k), Dezigzag(k + 1))
  {}

  lemma ZigzagQuarter3(k: nat)
    requires 32 <= k < 48
    ensures Follows(Dezigzag(k), Dezigzag(k + 1))
  {}

  lemma ZigzagQuarter4(k: nat)
    requires 48 <= k < 63
    ensures Follows(Dezigzag(k), Dezigzag(k + 1))
  {}

  /** The table is the zigzag of Figure 5 of ITU-T T.81. */
  lemma ZigzagOrder(k: nat)
    requires k < 63
    ensures Dezigzag(0) == 0 && Follows(Dezigzag(k), Dezigzag(k + 1))
  {
    hide Follows;
    if k < 16 { ZigzagQuarter1(k); } else if k < 32 { ZigzagQuarter2(k); }
    else if k < 48 { ZigzagQuarter3(k); } else { ZigzagQuarter4(k); }
  }

  /** When a position is reached. */
  function Zigzag(z: nat): nat
  {
    match z
    case 0 => 0 case 1 => 1 case 2 => 5 case 3 => 6 case 4 => 14 case 5 => 15 case 6 => 27 case 7 => 28
    case 8 => 2 case 9 => 4 case 10 => 7 case 11 => 13 case 12 => 16 case 13 => 26 case 14 => 29 case 15 => 42
    case 16 => 3 case 17 => 8 case 18 => 12 case 19 => 17 case 20 => 25 case 21 => 30 case 22 => 41 case 23 => 43
    case 24 => 9 case 25 => 11 case 26 => 18 case 27 => 24 case 28 => 31 case 29 => 40 case 30 => 44 case 31 => 53
    case 32 => 10 case 33 => 19 case 34 => 23 case 35 => 32 case 36 => 39 case 37 => 45 case 38 => 52 case 39 => 54
    case 40 => 20 case 41 => 22 case 42 => 33 case 43 => 38 case 44 => 46 case 45 => 51 case 46 => 55 case 47 => 60
    case 48 => 21 case 49 => 34 case 50 => 37 case 51 => 47 case 52 => 50 case 53 => 56 case 54 => 59 case 55 => 61
    case 56 => 35 case 57 => 36 case 58 => 48 case 59 => 49 case 60 => 57 case 61 => 58 case 62 => 62 case 63 => 63
    case _ => 64
  }

  lemma InverseQuarter1(k: nat)
    requires 0 <= k < 16
    ensures Zigzag(Dezigzag(k)) == k
  {}

  lemma InverseQuarter2(k: nat)
    requires 16 <= k < 32
    ensures Zigzag(Dezigzag(k)) == k
  {}

  lemma InverseQuarter3(k: nat)
    requires 32 <= k < 48
    ensures Zigzag(Dezigzag(k)) == k
  {}

  lemma InverseQuarter4(k: nat)
    requires 48 <= k < 64
    ensures Zigzag(Dezigzag(k)) == k
  {}

  /** No two coefficients share a place. */
  lemma ZigzagInverse(k: nat)
    requires k < BLOCK
    ensures Zigzag(Dezigzag(k)) == k
  {
    hide Zigzag, Dezigzag;
    if k < 16 { InverseQuarter1(k); } else if k < 32 { InverseQuarter2(k); }
    else if k < 48 { InverseQuarter3(k); } else { InverseQuarter4(k); }
  }

  // ----- values -----

  /** EXTEND of section F.2.2.1: the signed value of `n` extra bits. */
  function Extend(v: nat, n: nat): int
  {
    if n > 0 && v < Pow2(n - 1) then v + 1 - Pow2(n) else v
  }

  /** Conversion to a 16-bit signed number. */
  function Short(v: int): (r: int)
    ensures SHRT_MIN <= r <= SHRT_MAX
    ensures SHRT_MIN <= v <= SHRT_MAX ==> r == v
  {
    (v + 0x8000) % 0x1_0000 - 0x8000
  }

  /** It drops all but the low 16 bits. */
  lemma ShortWraps(v: int)
    ensures (Short(v) - v) % 0x1_0000 == 0
  {
    var m := v % 0x1_0000;
    assert v == v / 0x1_0000 * 0x1_0000 + m;
  }

  /** `stbi__addints_valid`. */
  predicate AddIntsValid(a: int, b: int)
  {
    if (a >= 0) != (b >= 0) then true
    else if a < 0 && b < 0 then a >= -0x8000_0000 - b
    else a <= INT_MAX - b
  }

  lemma AddIntsExact(a: int, b: int)
    requires -0x8000_0000 <= a <= INT_MAX && -0x8000_0000 <= b <= INT_MAX
    ensures AddIntsValid(a, b) <==> -0x8000_0000 <= a + b <= INT_MAX
  {}

  /** C division, which truncates. */
  function CDiv(a: int, b: int): int
    requires b != 0
  {
    if a >= 0 then a / b else -(-a / b)
  }

  /** `stbi__mul2shorts_valid`. */
  predicate Mul2ShortsValid(a: int, b: int)
  {
    if b == 0 || b == -1 then true
    else if (a >= 0) == (b >= 0) then a <= CDiv(SHRT_MAX, b)
    else if b < 0 then a <= CDiv(SHRT_MIN, b)
    else a >= CDiv(SHRT_MIN, b)
  }

  predicate FitsShort(v: int)
  {
    SHRT_MIN <= v <= SHRT_MAX
  }

  /** For the factors it is used with, which are not negative, the check is exact. */
  lemma Mul2ShortsExact(a: int, b: nat)
    ensures Mul2ShortsValid(a, b) <==> FitsShort(a * b)
  {
    if b > 0 {
      if a >= 0 {
        DivAtLeast(SHRT_MAX, b, a);
        Product(0, a, b);
      } else {
        DivAtLeast(32768, b, -a);
        Product(0, -a, b);
        assert (-a) * b == -(a * b);
      }
    }
  }

  /** For which factors the check is right. */
  predicate Mul2ShortsRight(a: int, b: int)
  {
    if b >= 0 then true
    else if b == -1 then -32767 <= a <= 32768
    else a >= 0 || -a == SHRT_MAX / -b
  }

  lemma NegativeDivisor(v: nat, b: int)
    requires b < 0
    ensures v / b == -(v / -b)
  {
    var q, r := v / -b, v % -b;
    assert v == q * -b + r == b * -q + r;
    assert v == b * (v / b) + v % b;
    if v / b != -q {
      assert b * (v / b) - b * -q == b * (v / b + q);
      Product(1, if v / b > -q then v / b + q else -q - v / b, -b);
    }
  }

  /** The check agrees with the product on exactly those factors, whatever integers they are. */
  lemma Mul2ShortsRightIff(a: int, b: int)
    ensures (Mul2ShortsValid(a, b) <==> FitsShort(a * b)) <==> Mul2ShortsRight(a, b)
  {
    if b >= 0 {
      Mul2ShortsExact(a, b);
    } else if b < -1 {
      assert a * b == -(a * -b) == -a * -b;
      if a >= 0 {
        NegativeDivisor(32768, b);
        DivAtLeast(32768, -b, a);
        Product(0, a, -b);
      } else {
        NegativeDivisor(SHRT_MAX, b);
        DivAtLeast(SHRT_MAX, -b, -a);
        Product(0, -a, -b);
      }
    }
  }

  /** It fails both ways: a product that fits is refused, and products that do not fit are accepted. */
  lemma Mul2ShortsNegative()
    ensures !Mul2ShortsValid(-1, -2) && FitsShort((-1) * (-2))
    ensures Mul2ShortsValid(-20000, -2) && !FitsShort((-20000) * (-2))
    ensures Mul2ShortsValid(-32768, -1) && !FitsShort((-32768) * (-1))
  {
    assert SHRT_MAX / -2 == -16383;
  }

  // ----- blocks, bit by bit -----

  datatype Coefs = Coefs(pos: nat, data: seq<int>) | BadCode(pos: nat)

  /** The AC coefficients from the `k`-th on. */
  ghost function RefAc(ent: seq<byte>, pos: nat, lens: seq<nat>, values: seq<byte>, deq: seq<nat>, k: nat,
        data: seq<int>): (r: Coefs)
    requires |lens| <= |values| && |deq| == |data| == BLOCK
    ensures r.Coefs? ==> |r.data| == BLOCK
    ensures r.pos >= pos
    decreases BLOCK - k
  {
    if k >= BLOCK then Coefs(pos, data) else
    match Wanted(lens, Top(ent, pos, 16))
    case None => BadCode(pos)
    case Some(sym) =>
      var rs := values[sym.id];
      var s, p := rs % 16, pos + sym.size;
      if s == 0 then
        if rs != ZRL then Coefs(p, data) else RefAc(ent, p, lens, values, deq, k + 16, data)
      else
        var at := k + rs / 16;
        var zig := Dezigzag(at);
        RefAc(ent, p + s, lens, values, deq, at + 1, data[zig := Short(Extend(Top(ent, p, s), s) * deq[zig])])
  }

  lemma AcStep(ent: seq<byte>, pos: nat, lens: seq<nat>, values: seq<byte>, deq: seq<nat>, k: nat, data: seq<int>)
    requires |lens| <= |values| && |deq| == |data| == BLOCK && k < BLOCK
    ensures RefAc(ent, pos, lens, values, deq, k, data) ==
            match Wanted(lens, Top(ent, pos, 16))
            case None => BadCode(pos)
            case Some(sym) =>
              var rs := values[sym.id];
              var s, p := rs % 16, pos + sym.size;
              if s == 0 then
                if rs != ZRL then Coefs(p, data) else RefAc(ent, p, lens, values, deq, k + 16, data)
              else
                var at := k + rs / 16;
                var zig := Dezigzag(at);
                RefAc(ent, p + s, lens, values, deq, at + 1, data[zig := Short(Extend(Top(ent, p, s), s) * deq[zig])])
  {
    hide Top, Wanted, Dezigzag, Extend, Short;
  }

  function Zeros(n: nat): (s: seq<int>)
    ensures |s| == n && forall i :: 0 <= i < n ==> s[i] == 0
  {
    if n == 0 then [] else Zeros(n - 1) + [0]
  }

  datatype Dc = DcValue(pos: nat, dc: int) | BadDc(pos: nat)

  /** The DC coefficient before quantization: the coded difference added to the prediction. */
  ghost function RefDc(ent: seq<byte>, pos: nat, lens: seq<nat>, values: seq<byte>, factor: nat, pred: int): (r: Dc)
    requires |lens| <= |values|
    ensures r.pos >= pos
  {
    match Wanted(lens, Top(ent, pos, 16))
    case None => BadDc(pos)
    case Some(sym) =>
      var t, p := values[sym.id], pos + sym.size;
      if t > 15 then BadDc(p) else
      var diff := Extend(Top(ent, p, t), t);
      if !AddIntsValid(pred, diff) || !Mul2ShortsValid(pred + diff, factor) then BadDc(p + t)
      else DcValue(p + t, pred + diff)
  }

  /** How the DC coefficient follows from the code found. */
  lemma DcStep(ent: seq<byte>, pos: nat, lens: seq<nat>, values: seq<byte>, factor: nat, pred: int)
    requires |lens| <= |values|
    ensures Wanted(lens, Top(ent, pos, 16)).None? ==> RefDc(ent, pos, lens, values, factor, pred) == BadDc(pos)
    ensures var w, r := Wanted(lens, Top(ent, pos, 16)), RefDc(ent, pos, lens, values, factor, pred);
            w.Some? ==>
              var t, p := values[w.value.id], pos + w.value.size;
              var diff := Extend(Top(ent, p, t), t);
              r == if t > 15 then BadDc(p)
                   else if !AddIntsValid(pred, diff) || !Mul2ShortsValid(pred + diff, factor) then BadDc(p + t)
                   else DcValue(p + t, pred + diff)
  {
    hide Top, Extend, AddIntsValid, Mul2ShortsValid;
  }

  datatype Block = Block(pos: nat, dc: int, data: seq<int>) | BadBlock(pos: nat)

  /** A whole block: the DC coefficient and the AC coefficients. */
  ghost function RefBlock(ent: seq<byte>, pos: nat, dcLens: seq<nat>, dcValues: seq<byte>, acLens: seq<nat>,
        acValues: seq<byte>,
                          deq: seq<nat>, pred: int): (r: Block)
    requires |dcLens| <= |dcValues| && |acLens| <= |acValues| && |deq| == BLOCK
    ensures r.Block? ==> |r.data| == BLOCK
    ensures r.pos >= pos
  {
    match RefDc(ent, pos, dcLens, dcValues, deq[0], pred)
    case BadDc(p) => BadBlock(p)
    case DcValue(p, dc) =>
      match RefAc(ent, p, acLens, acValues, deq, 1, Zeros(BLOCK)[0 := dc * deq[0]])
      case BadCode(q) => BadBlock(q)
      case Coefs(q, data) => Block(q, dc, data)
  }

  // ----- the combined table -----

  /** Entry `c` of the combined table: value, run and total length packed in 16 bits, or 0. */
  function FastAc(lens: seq<nat>, values: seq<byte>, c: nat): int
    requires |lens| <= |values|
  {
    var fast := FastEntry(lens, |lens|, c);
    if fast >= NOT_ACCELERATED || fast >= |lens| then 0 else PackedAc(values[fast], lens[fast], c)
  }

  /** The entry for a symbol with value `rs` and a code of `len` bits. */
  function PackedAc(rs: byte, len: nat, c: nat): int
  {
    var run, magbits := rs / 16, rs % 16;
    if magbits > 0 && len + magbits <= FAST_BITS then
      var k := Shr(Low(Shl(c, len), FAST_BITS), FAST_BITS - magbits);
      var v := if k < Pow2(magbits - 1) then k + 1 - Pow2(magbits) else k;
      if -128 <= v <= 127 then v * 256 + run * 16 + (len + magbits) else 0
    else 0
  }

  /** The middle bits of a 9-bit lookahead are the extra bits. */
  lemma MiddleBits(ent: seq<byte>, pos: nat, len: nat, mag: nat)
    requires len + mag <= FAST_BITS
    ensures Shr(Low(Shl(Top(ent, pos, FAST_BITS), len), FAST_BITS), FAST_BITS - mag) == Top(ent, pos + len, mag)
  {
    hide Top, Shl, Shr, Low;
    var n := FAST_BITS - len;
    var rest := Top(ent, pos + len, n);
    TopSplit(ent, pos, len, n);
    assert len + n == FAST_BITS;
    ShlAdd(Shl(Top(ent, pos, len), n), rest, len);
    ShlShl(Top(ent, pos, len), n, len);
    TopBound(ent, pos + len, n);
    ShlAdd(rest, 1, len);
    ShlMono(rest + 1, Pow2(n), len);
    ShlShl(1, n, len);
    ShlPositive(1, len);
    Join(Shl(rest, len), Top(ent, pos, len), FAST_BITS);
    assert len + (n - mag) == FAST_BITS - mag;
    ShrShr(Shl(rest, len), len, n - mag);
    ShlOut(rest, len);
    TopPrefix(ent, pos + len, mag, n);
  }

  /** Unpacking an entry gives back its parts; no entry needs more than 16 bits or packs to zero. */
  lemma Unpacks(v: int, run: nat, size: nat)
    requires -128 <= v <= 127 && run < 16 && 2 <= size <= FAST_BITS
    ensures var e := v * 256 + run * 16 + size;
            e != 0 && SHRT_MIN <= e <= SHRT_MAX && e / 256 == v && e / 16 % 16 == run && e % 16 == size
  {
    var u := v * 16 + run;
    LowDigit(v, run);
    LowDigit(u, size);
    assert v * 256 + run * 16 + size == u * 16 + size;
    HighPart256(v, run * 16 + size);
  }

  lemma LowDigit(q: int, d: nat)
    requires d < 16
    ensures (q * 16 + d) / 16 == q && (q * 16 + d) % 16 == d
  {}

  lemma HighPart256(q: int, r: nat)
    requires r < 256
    ensures (q * 256 + r) / 256 == q
  {}

  /** A non-zero entry gives the same run, value and length as the two steps it replaces. */
  lemma FastAcRight(ent: seq<byte>, pos: nat, lens: seq<nat>, values: seq<byte>)
    requires |lens| <= |values| && Sorted(lens) && |lens| <= 256
    requires FastAc(lens, values, Top(ent, pos, FAST_BITS)) != 0
    ensures var e, w := FastAc(lens, values, Top(ent, pos, FAST_BITS)), Wanted(lens, Top(ent, pos, 16));
            && SHRT_MIN <= e <= SHRT_MAX && w.Some?
            && var rs, p := values[w.value.id], pos + w.value.size;
               rs % 16 != 0 && e / 16 % 16 == rs / 16 && e % 16 == w.value.size + rs % 16
               && e / 256 == Extend(Top(ent, p, rs % 16), rs % 16)
  {
    hide Top, Shl, Shr, Low, FastEntry, Hit, Pow2;
    var c := Top(ent, pos, FAST_BITS);
    TopPrefix(ent, pos, FAST_BITS, 16);
    FastIsLookup(lens, Top(ent, pos, 16));
    var fast := FastEntry(lens, |lens|, c);
    UsedInside(lens, fast);
    PackedRight(ent, pos, values[fast], lens[fast]);
  }

  lemma PackedRight(ent: seq<byte>, pos: nat, rs: byte, len: nat)
    requires 1 <= len <= 16 && PackedAc(rs, len, Top(ent, pos, FAST_BITS)) != 0
    ensures var e := PackedAc(rs, len, Top(ent, pos, FAST_BITS));
            rs % 16 != 0 && SHRT_MIN <= e <= SHRT_MAX && e / 16 % 16 == rs / 16 && e % 16 == len + rs % 16
            && e / 256 == Extend(Top(ent, pos + len, rs % 16), rs % 16)
  {
    hide Top, Shl, Shr, Low, Pow2;
    var run, mag := rs / 16, rs % 16;
    MiddleBits(ent, pos, len, mag);
    Unpacks(Extend(Top(ent, pos + len, mag), mag), run, len + mag);
  }

  /** Which steps are packed: those whose code and extra bits fill at most nine bits and whose value
      fits a byte; symbol 255 never. */
  lemma FastAcWhen(ent: seq<byte>, pos: nat, lens: seq<nat>, values: seq<byte>)
    requires |lens| <= |values| && Sorted(lens) && |lens| <= 256
    ensures FastAc(lens, values, Top(ent, pos, FAST_BITS)) != 0 <==>
            match Wanted(lens, Top(ent, pos, 16))
            case None => false
            case Some(sym) =>
              var mag := values[sym.id] % 16;
              sym.id < NOT_ACCELERATED && mag != 0 && sym.size + mag <= FAST_BITS
              && -128 <= Extend(Top(ent, pos + sym.size, mag), mag) <= 127
  {
    hide Top, Shl, Shr, Low, FastEntry, Hit, Pow2, PackedAc, Extend;
    var c := Top(ent, pos, FAST_BITS);
    TopPrefix(ent, pos, FAST_BITS, 16);
    FastIsLookup(lens, Top(ent, pos, 16));
    match Wanted(lens, Top(ent, pos, 16)) {
      case None =>
      case Some(sym) =>
        ListedUsed(lens, sym.id);
        PackedWhen(ent, pos, values[sym.id], sym.size);
    }
  }

  lemma PackedWhen(ent: seq<byte>, pos: nat, rs: byte, len: nat)
    requires len > 0
    ensures PackedAc(rs, len, Top(ent, pos, FAST_BITS)) != 0 <==>
            rs % 16 != 0 && len + rs % 16 <= FAST_BITS
            && -128 <= Extend(Top(ent, pos + len, rs % 16), rs % 16) <= 127
  {
    hide Top, Shl, Shr, Low, Pow2;
    var mag := rs % 16;
    if mag != 0 && len + mag <= FAST_BITS {
      MiddleBits(ent, pos, len, mag);
      var v := Extend(Top(ent, pos + len, mag), mag);
      if -128 <= v <= 127 { Unpacks(v, rs / 16, len + mag); }
    }
  }
}
