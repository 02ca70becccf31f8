/** The DEFLATE format (RFC 1951) inside zlib (RFC 1950) as a reference decoder over the bit
    stream of the input followed by zero bits. `cap` bounds the output. */
module Deflate {
  import opened Bits
  import opened Canonical

  datatype Outcome = Done(pos: nat, out: seq<byte>) | Fail

  datatype Pair = Pair(pos: nat, len: nat, dist: nat) | NoPair

  const LENGTH_BASE: seq<nat> := [
    3, 4, 5, 6, 7, 8, 9, 10, 11, 13, 15, 17, 19, 23, 27, 31, 35, 43, 51, 59,
    67, 83, 99, 115, 131, 163, 195, 227, 258]
  const LENGTH_EXTRA: seq<nat> := [
    0, 0, 0, 0, 0, 0, 0, 0, 1, 1, 1, 1, 2, 2, 2, 2, 3, 3, 3, 3, 4, 4, 4, 4, 5, 5, 5, 5, 0]
  const DIST_BASE: seq<nat> := [
    1, 2, 3, 4, 5, 7, 9, 13, 17, 25, 33, 49, 65, 97, 129, 193, 257, 385, 513, 769,
    1025, 1537, 2049, 3073, 4097, 6145, 8193, 12289, 16385, 24577]
  const DIST_EXTRA: seq<nat> := [
    0, 0, 0, 0, 1, 1, 2, 2, 3, 3, 4, 4, 5, 5, 6, 6, 7, 7, 8, 8, 9, 9, 10, 10, 11, 11, 12, 12, 13, 13]
  const CODE_LENGTH_ORDER: seq<nat> := [16, 17, 18, 0, 8, 7, 9, 6, 10, 5, 11, 4, 12, 3, 13, 2, 14, 1, 15]

  function LengthBase(l: nat): (b: nat)
    requires l < 29
    ensures 3 <= b <= 258
  {
    LENGTH_BASE[l]
  }

  function LengthExtra(l: nat): (b: nat)
    requires l < 29
    ensures b <= 5
  {
    LENGTH_EXTRA[l]
  }

  function DistBase(d: nat): (b: nat)
    requires d < 30
    ensures 1 <= b <= 24577
  {
    DIST_BASE[d]
  }

  function DistExtra(d: nat): (b: nat)
    requires d < 30
    ensures b <= 13
  {
    DIST_EXTRA[d]
  }

  function CodeLengthSymbol(i: nat): (c: nat)
    requires i < 19
    ensures c < 19
  {
    CODE_LENGTH_ORDER[i]
  }

  /** The fixed code of section 3.2.6. */
  function FixedLength(sym: nat): nat
  {
    if sym < 144 then 8 else if sym < 256 then 9 else if sym < 280 then 7 else 8
  }

  function FixedLengths(n: nat): (s: seq<nat>)
    ensures |s| == n && forall i :: 0 <= i < n ==> s[i] == FixedLength(i)
  {
    if n == 0 then [] else FixedLengths(n - 1) + [FixedLength(n - 1)]
  }

  /** The symbol whose code is next in the stream. */
  ghost function SymbolAt(lens: seq<nat>, data: seq<byte>, pos: nat): (r: Option<nat>)
    ensures r.Some? ==> Used(lens, r.value)
  {
    Lookup(lens, Code(data, pos, 16))
  }

  /** Append `n` bytes, each taken from `dist` bytes before the end; the source may overlap the copy. */
  function CopyMatch(out: seq<byte>, dist: nat, n: nat): (r: seq<byte>)
    requires 1 <= dist <= |out|
    ensures |r| == |out| + n && r[..|out|] == out
  {
    if n == 0 then out else
    var o := CopyMatch(out, dist, n - 1);
    o + [o[|o| - dist]]
  }

  /** A block of compressed symbols up to its end-of-block code (section 3.2.3). */
  ghost function RefSymbols(data: seq<byte>, lit: seq<nat>, dist: seq<nat>, pos: nat, out: seq<byte>,
        cap: nat): (r: Outcome)
    requires |out| <= cap
    ensures r.Done? ==> r.pos > pos && |out| <= |r.out| <= cap
    decreases cap - |out|
  {
    match SymbolAt(lit, data, pos)
    case None => Fail
    case Some(z) =>
      var p1 := pos + lit[z];
      if z < 256 then
        if |out| + 1 > cap then Fail else RefSymbols(data, lit, dist, p1, out + [z], cap)
      else if z == 256 then Done(p1, out)
      else if z >= 286 then Fail
      else RefMatch(data, lit, dist, p1, z - 257, out, cap)
  }

  /** The length symbol's extra bits, then the distance code and its extra bits (section 3.2.5). */
  ghost function RefPair(data: seq<byte>, dist: seq<nat>, pos: nat, l: nat): (r: Pair)
    requires l < 29
    ensures r.Pair? ==> r.pos > pos && r.len >= 3 && r.dist >= 1
  {
    var p2 := pos + LengthExtra(l);
    match SymbolAt(dist, data, p2)
    case None => NoPair
    case Some(d) =>
      if d >= 30 then NoPair else
      var p3 := p2 + dist[d];
      Pair(p3 + DistExtra(d),
           LengthBase(l) + Val(data, pos, LengthExtra(l)),
           DistBase(d) + Val(data, p3, DistExtra(d)))
  }

  ghost function RefMatch(data: seq<byte>, lit: seq<nat>, dist: seq<nat>, pos: nat, l: nat, out: seq<byte>,
        cap: nat): (r: Outcome)
    requires |out| <= cap && l < 29
    ensures r.Done? ==> r.pos > pos && |out| <= |r.out| <= cap
    decreases cap - |out|, 0
  {
    match RefPair(data, dist, pos, l)
    case NoPair => Fail
    case Pair(p, len, d) =>
      if |out| < d || |out| + len > cap then Fail
      else RefSymbols(data, lit, dist, p, CopyMatch(out, d, len), cap)
  }

  /** One symbol of the reference decoder. */
  lemma SymbolsStep(data: seq<byte>, lit: seq<nat>, dist: seq<nat>, pos: nat, out: seq<byte>, cap: nat)
    requires |out| <= cap
    ensures var r := RefSymbols(data, lit, dist, pos, out, cap);
      && (r.Done? ==> r.pos > pos)
      && match SymbolAt(lit, data, pos)
         case None => r == Fail
         case Some(z) =>
           if z < 256 then
             r == if |out| + 1 > cap then Fail else RefSymbols(data, lit, dist, pos + lit[z], out + [z], cap)
           else if z == 256 then r == Done(pos + lit[z], out)
           else if z >= 286 then r == Fail
           else r == RefMatch(data, lit, dist, pos + lit[z], z - 257, out, cap)
  {}

  /** The next byte boundary. */
  function Align(pos: nat): (p: nat)
    ensures pos <= p < pos + 8 && p % 8 == 0
  {
    (pos + 7) / 8 * 8
  }

  /** A stored block (section 3.2.4): its payload must lie within the input. */
  ghost function RefStored(data: seq<byte>, pos: nat, out: seq<byte>, cap: nat): (r: Outcome)
    requires |out| <= cap
    ensures r.Done? ==> pos < r.pos <= 8 * |data| && |out| <= |r.out| <= cap
  {
    var p := Align(pos);
    var len, nlen := Val(data, p, 16), Val(data, p + 16, 16);
    var start := p / 8 + 4;
    if nlen != 0xffff - len || start + len > |data| || |out| + len > cap then Fail
    else Done(8 * (start + len), out + data[start..start + len])
  }

  // ----- dynamic code tables (section 3.2.7) -----

  datatype LengthList = Lens(pos: nat, lens: seq<nat>) | NoLens
  datatype Codes = Codes(pos: nat, lit: seq<nat>, dist: seq<nat>) | NoCodes

  /** The code length code: `n` three-bit lengths in the fixed order, the rest zero. */
  function CodeLengthSizes(data: seq<byte>, pos: nat, n: nat): (s: seq<nat>)
    requires n <= 19
    ensures |s| == 19
    ensures forall i :: 0 <= i < 19 ==> s[i] <= 7
  {
    if n == 0 then Repeat(0, 19) else
    ValBound(data, pos + 3 * (n - 1), 3);
    assert Pow2(3) == 8;
    CodeLengthSizes(data, pos, n - 1)[CodeLengthSymbol(n - 1) := Val(data, pos + 3 * (n - 1), 3)]
  }

  /** The run a repeat symbol stands for: the value, the run length and the extra bits read. */
  function RunOf(data: seq<byte>, pos: nat, c: nat, acc: seq<nat>): (r: (nat, nat, nat))
    requires c == 16 || c == 17 || c == 18
    requires c == 16 ==> |acc| > 0
    ensures r.1 >= 3
  {
    if c == 16 then (acc[|acc| - 1], 3 + Val(data, pos, 2), 2)
    else if c == 17 then (0, 3 + Val(data, pos, 3), 3)
    else (0, 11 + Val(data, pos, 7), 7)
  }

  /** Read code lengths until there are `total` of them. */
  ghost function RefLengths(data: seq<byte>, cl: seq<nat>, pos: nat, acc: seq<nat>, total: nat): (r: LengthList)
    requires |acc| <= total
    requires Lengths(acc, 15)
    ensures r.Lens? ==> r.pos >= pos && |r.lens| == total && Lengths(r.lens, 15)
    decreases total - |acc|
  {
    if |acc| == total then Lens(pos, acc) else
    match SymbolAt(cl, data, pos)
    case None => NoLens
    case Some(c) =>
      var p1 := pos + cl[c];
      if c < 16 then RefLengths(data, cl, p1, acc + [c], total)
      else if c >= 19 || (c == 16 && |acc| == 0) then NoLens
      else
        var (v, n, bits) := RunOf(data, p1, c, acc);
        if |acc| + n > total then NoLens
        else RefLengths(data, cl, p1 + bits, acc + Repeat(v, n), total)
  }

  /** One symbol of the reference code length reader. */
  lemma LengthsStep(data: seq<byte>, cl: seq<nat>, pos: nat, acc: seq<nat>, total: nat)
    requires |acc| < total && Lengths(acc, 15)
    ensures var r := RefLengths(data, cl, pos, acc, total);
      && (r.Lens? ==> r.pos >= pos)
      && match SymbolAt(cl, data, pos)
         case None => r == NoLens
         case Some(c) =>
           if c < 16 then r == RefLengths(data, cl, pos + cl[c], acc + [c], total)
           else if c >= 19 || (c == 16 && |acc| == 0) then r == NoLens
           else
             var t := RunOf(data, pos + cl[c], c, acc);
             r == if |acc| + t.1 > total then NoLens
                  else RefLengths(data, cl, pos + cl[c] + t.2, acc + Repeat(t.0, t.1), total)
  {}

  lemma LengthsDone(data: seq<byte>, cl: seq<nat>, pos: nat, acc: seq<nat>, total: nat)
    requires |acc| == total && Lengths(acc, 15)
    ensures RefLengths(data, cl, pos, acc, total) == Lens(pos, acc)
  {}

  ghost function RefDynamic(data: seq<byte>, pos: nat): (r: Codes)
    ensures r.Codes? ==> r.pos > pos && Fits(r.lit) && Fits(r.dist)
    ensures r.Codes? ==> Lengths(r.lit, 15) && Lengths(r.dist, 15) && |r.lit| <= 288 && |r.dist| <= 32
  {
    var hlit, hdist, hclen := Val(data, pos, 5) + 257, Val(data, pos + 5, 5) + 1, Val(data, pos + 10, 4) + 4;
    CountsBound(data, pos);
    var cl := CodeLengthSizes(data, pos + 14, hclen);
    if !Fits(cl) then NoCodes else
    match RefLengths(data, cl, pos + 14 + 3 * hclen, [], hlit + hdist)
    case NoLens => NoCodes
    case Lens(p, lens) =>
      if Fits(lens[..hlit]) && Fits(lens[hlit..]) then Codes(p, lens[..hlit], lens[hlit..]) else NoCodes
  }

  lemma CountsBound(data: seq<byte>, pos: nat)
    ensures Val(data, pos, 5) + 257 <= 288 && Val(data, pos + 5, 5) + 1 <= 32 && Val(data, pos + 10, 4) + 4 <= 19
  {
    ValBound(data, pos, 5);
    ValBound(data, pos + 5, 5);
    ValBound(data, pos + 10, 4);
    SmallPowers();
  }

  // ----- the stream of blocks -----

  /** The fixed length lists leave room for their codes. */
  lemma FixedFit()
    ensures Fits(FixedLengths(288)) && Lengths(FixedLengths(288), 15)
    ensures Fits(Repeat(5, 32)) && Lengths(Repeat(5, 32), 15)
  {
    hide FixedLengths, KraftSum, Repeat, Fits;
    FixedKraft(288);
    FitsIsKraft(FixedLengths(288));
    DistanceKraft(32);
    FitsIsKraft(Repeat(5, 32));
    SmallPowers();
  }

  lemma {:induction false} FixedKraft(n: nat)
    requires n <= 288
    ensures KraftSum(FixedLengths(n), n) ==
            if n <= 144 then 256 * n
            else if n <= 256 then 256 * 144 + 128 * (n - 144)
            else if n <= 280 then 256 * 144 + 128 * 112 + 512 * (n - 256)
            else 256 * 144 + 128 * 112 + 512 * 24 + 256 * (n - 280)
  {
    if n > 0 {
      FixedKraft(n - 1);
      SmallPowers();
      KraftPrefix(FixedLengths(n - 1), FixedLength(n - 1), n - 1);
    }
  }

  lemma {:induction false} DistanceKraft(n: nat)
    ensures KraftSum(Repeat(5, n), n) == 2048 * n
  {
    if n > 0 {
      DistanceKraft(n - 1);
      SmallPowers();
      KraftPrefix(Repeat(5, n - 1), 5, n - 1);
    }
  }

  lemma {:induction false} KraftPrefix(lens: seq<nat>, s: nat, n: nat)
    requires n <= |lens|
    ensures KraftSum(lens + [s], n) == KraftSum(lens, n)
  {
    if n > 0 { KraftPrefix(lens, s, n - 1); }
  }

  /** The body of a block of the given type, after its three header bits. */
  ghost function RefBody(data: seq<byte>, kind: nat, pos: nat, out: seq<byte>, cap: nat): (r: Outcome)
    requires |out| <= cap
    ensures r.Done? ==> r.pos > pos && |out| <= |r.out| <= cap
  {
    if kind == 0 then RefStored(data, pos, out, cap)
    else if kind == 1 then RefSymbols(data, FixedLengths(288), Repeat(5, 32), pos, out, cap)
    else if kind == 2 then
      match RefDynamic(data, pos)
      case NoCodes => Fail
      case Codes(p, lit, dist) => RefSymbols(data, lit, dist, p, out, cap)
    else Fail
  }

  /** Past the end of the input the header bits are zero, which is a stored block that cannot be valid. */
  lemma NoBlockPastEnd(data: seq<byte>, pos: nat, out: seq<byte>, cap: nat)
    requires pos >= 8 * |data| && |out| <= cap
    ensures Val(data, pos, 1) == 0 && Val(data, pos + 1, 2) == 0
    ensures RefBody(data, 0, pos + 3, out, cap).Fail?
  {
    ValPast(data, pos, 1);
    ValPast(data, pos + 1, 2);
    ValPast(data, Align(pos + 3), 16);
    ValPast(data, Align(pos + 3) + 16, 16);
  }

  ghost function RefBlocks(data: seq<byte>, pos: nat, out: seq<byte>, cap: nat): (r: Outcome)
    requires |out| <= cap
    ensures r.Done? ==> r.pos > pos && |out| <= |r.out| <= cap
    decreases 8 * |data| - pos
  {
    match RefBody(data, Val(data, pos + 1, 2), pos + 3, out, cap)
    case Fail => Fail
    case Done(p, o) =>
      if Val(data, pos, 1) == 1 then Done(p, o)
      else
        assert pos < 8 * |data| by {
          if pos >= 8 * |data| { NoBlockPastEnd(data, pos, out, cap); }
        }
        RefBlocks(data, p, o, cap)
  }

  /** One block of the reference decoder. */
  lemma BlocksStep(data: seq<byte>, pos: nat, out: seq<byte>, cap: nat)
    requires |out| <= cap
    ensures var r := RefBlocks(data, pos, out, cap);
      Val(data, pos, 1) < 2 && Val(data, pos + 1, 2) < 4
      && match RefBody(data, Val(data, pos + 1, 2), pos + 3, out, cap)
         case Fail => r == Fail
         case Done(p, o) =>
           pos < 8 * |data| && p > pos &&
           if Val(data, pos, 1) == 1 then r == Done(p, o)
           else r == RefBlocks(data, p, o, cap) && (r.Done? ==> r.pos > p)
  {
    ValBound(data, pos, 1);
    ValBound(data, pos + 1, 2);
    SmallPowers();
    if pos >= 8 * |data| { NoBlockPastEnd(data, pos, out, cap); }
  }

  /** The two header bytes of section 2.2 of RFC 1950; a third byte must follow. */
  predicate HeaderOk(data: seq<byte>)
  {
    |data| > 2 &&
    (data[0] as int * 256 + data[1] as int) % 31 == 0 && data[1] as int / 32 % 2 == 0 && data[0] as int % 16 == 8
  }

  ghost function RefZlib(data: seq<byte>, header: bool, cap: nat): Outcome
  {
    if header && !HeaderOk(data) then Fail
    else RefBlocks(data, if header then 16 else 0, [], cap)
  }
}
