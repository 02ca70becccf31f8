/** DEFLATE from the encoder's side: what a list of blocks looks like as bits and what it stands
    for, and that the reference decoder inverts exactly that. */
module DeflateEncode {
  import opened Bits
  import opened BitStrings
  import opened Canonical
  import opened Deflate

  /** The code of a used symbol. */
  function SymbolBits(lens: seq<nat>, sym: nat): (bits: seq<nat>)
    requires Used(lens, sym)
    ensures |bits| == lens[sym]
  {
    Msb(CodeOf(lens, sym), lens[sym])
  }

  /** A symbol's code is in the stream exactly when the reference decoder reads that symbol. */
  lemma SymbolBitsAt(lens: seq<nat>, data: seq<byte>, pos: nat, sym: nat)
    requires Fits(lens) && Used(lens, sym)
    ensures At(data, pos, SymbolBits(lens, sym)) <==> SymbolAt(lens, data, pos) == Some(sym)
  {
    hide Msb, Code, CodeOf, FirstCode, Pow2;
    var s := lens[sym];
    CodeInInterval(lens, sym);
    assert EndCode(lens, s) <= Pow2(s);
    MsbAt(data, pos, CodeOf(lens, sym), s);
    CodePrefix(data, pos, 16, s);
    if Hit(lens, Code(data, pos, 16), sym) {
      LookupIs(lens, Code(data, pos, 16), sym);
    }
  }

  // ----- compressed symbols -----

  /** A literal byte, or a match given by its length and distance symbols and their extra bits. */
  datatype Token = Literal(b: byte) | Match(l: nat, lx: nat, d: nat, dx: nat)
  {
    predicate Ok(lit: seq<nat>, dist: seq<nat>)
      ensures Ok(lit, dist) && Match? ==> l < 29 && d < 30
    {
      match this
      case Literal(b) => Used(lit, b)
      case Match(l, lx, d, dx) =>
        l < 29 && lx < Pow2(LengthExtra(l)) && d < 30 && dx < Pow2(DistExtra(d))
        && Used(lit, 257 + l) && Used(dist, d)
    }

    function Length(): (n: nat)
      requires Match? && l < 29
      ensures n >= 3
    {
      LengthBase(l) + lx
    }

    function Distance(): (n: nat)
      requires Match? && d < 30
      ensures n >= 1
    {
      DistBase(d) + dx
    }

    function Bits(lit: seq<nat>, dist: seq<nat>): seq<nat>
      requires Ok(lit, dist)
    {
      match this
      case Literal(b) => SymbolBits(lit, b)
      case Match(l, lx, d, dx) => SymbolBits(lit, 257 + l) + PairBits(dist)
    }

    function PairBits(dist: seq<nat>): seq<nat>
      requires Match? && l < 29 && d < 30 && Used(dist, d)
    {
      Lsb(lx, LengthExtra(l)) + SymbolBits(dist, d) + Lsb(dx, DistExtra(d))
    }

    /** The output after this token, unless its distance reaches before the start. */
    function Apply(out: seq<byte>): (r: Option<seq<byte>>)
      requires Match? ==> l < 29 && d < 30
      ensures r.Some? ==> |r.value| > |out|
    {
      match this
      case Literal(b) => Some(out + [b])
      case Match(l, lx, d, dx) =>
        if Distance() > |out| then None else Some(CopyMatch(out, Distance(), Length()))
    }
  }

  ghost predicate TokensOk(lit: seq<nat>, dist: seq<nat>, ts: seq<Token>)
  {
    forall i :: 0 <= i < |ts| ==> ts[i].Ok(lit, dist)
  }

  /** The tokens' bits followed by the end-of-block code. */
  function TokenBits(lit: seq<nat>, dist: seq<nat>, ts: seq<Token>): (bits: seq<nat>)
    requires Used(lit, 256) && forall i :: 0 <= i < |ts| ==> ts[i].Ok(lit, dist)
    ensures |bits| > 0
  {
    if |ts| == 0 then SymbolBits(lit, 256)
    else ts[0].Bits(lit, dist) + TokenBits(lit, dist, ts[1..])
  }

  function Expand(out: seq<byte>, ts: seq<Token>): (r: Option<seq<byte>>)
    requires forall i :: 0 <= i < |ts| ==> ts[i].Match? ==> ts[i].l < 29 && ts[i].d < 30
    ensures r.Some? ==> |r.value| >= |out|
    decreases |ts|
  {
    if |ts| == 0 then Some(out)
    else match ts[0].Apply(out)
      case None => None
      case Some(o) => Expand(o, ts[1..])
  }

  /** Reading a match's two parts back from its bits. */
  lemma PairRoundTrip(data: seq<byte>, dist: seq<nat>, pos: nat, t: Token)
    requires Fits(dist) && t.Match? && t.l < 29 && t.d < 30 && Used(dist, t.d)
    requires t.lx < Pow2(LengthExtra(t.l)) && t.dx < Pow2(DistExtra(t.d))
    ensures At(data, pos, t.PairBits(dist)) <==>
            RefPair(data, dist, pos, t.l) == Pair(pos + |t.PairBits(dist)|, t.Length(), t.Distance())
            && SymbolAt(dist, data, pos + LengthExtra(t.l)) == Some(t.d)
  {
    hide SymbolBits, SymbolAt, LengthExtra, DistExtra, LengthBase, DistBase, Fits, Pow2, Lsb, Val;
    var (a, b, c) := (Lsb(t.lx, LengthExtra(t.l)), SymbolBits(dist, t.d), Lsb(t.dx, DistExtra(t.d)));
    AtConcat(data, pos, a + b, c);
    AtConcat(data, pos, a, b);
    LsbAt(data, pos, t.lx, LengthExtra(t.l));
    SymbolBitsAt(dist, data, pos + |a|, t.d);
    LsbAt(data, pos + |a + b|, t.dx, DistExtra(t.d));
  }

  /** The reference decoder reads one encoded token and carries on with its effect. */
  lemma TokenRead(
    data: seq<byte>, lit: seq<nat>, dist: seq<nat>, pos: nat, out: seq<byte>, cap: nat, t: Token)
    requires Fits(lit) && Fits(dist) && t.Ok(lit, dist) && |out| <= cap
    requires At(data, pos, t.Bits(lit, dist))
    ensures var r := RefSymbols(data, lit, dist, pos, out, cap);
            match t.Apply(out)
            case None => r == Fail
            case Some(o) =>
              r == if |o| > cap then Fail else RefSymbols(data, lit, dist, pos + |t.Bits(lit, dist)|, o, cap)
  {
    hide SymbolBits, SymbolAt, LengthExtra, DistExtra, LengthBase, DistBase, Fits, Pow2, Lsb, Val, CopyMatch, RefPair,
         RefSymbols;
    SymbolsStep(data, lit, dist, pos, out, cap);
    if t.Literal? {
      SymbolBitsAt(lit, data, pos, t.b);
    } else {
      AtConcat(data, pos, SymbolBits(lit, 257 + t.l), t.PairBits(dist));
      SymbolBitsAt(lit, data, pos, 257 + t.l);
      PairRoundTrip(data, dist, pos + lit[257 + t.l], t);
    }
  }

  /** Any valid token list, encoded, decodes to its expansion. */
  lemma {:induction false} TokensRoundTrip(
    data: seq<byte>, lit: seq<nat>, dist: seq<nat>, pos: nat, out: seq<byte>, cap: nat, ts: seq<Token>)
    requires Fits(lit) && Fits(dist) && Used(lit, 256) && TokensOk(lit, dist, ts)
    requires At(data, pos, TokenBits(lit, dist, ts))
    requires Expand(out, ts).Some? && |Expand(out, ts).value| <= cap
    ensures |out| <= cap
    ensures RefSymbols(data, lit, dist, pos, out, cap)
            == Done(pos + |TokenBits(lit, dist, ts)|, Expand(out, ts).value)
    decreases |ts|
  {
    hide SymbolBits, SymbolAt, Fits, RefSymbols, Token.Apply, Token.Bits, Token.Ok;
    if |ts| == 0 {
      SymbolsStep(data, lit, dist, pos, out, cap);
      SymbolBitsAt(lit, data, pos, 256);
    } else {
      var b := ts[0].Bits(lit, dist);
      AtConcat(data, pos, b, TokenBits(lit, dist, ts[1..]));
      TokensRoundTrip(data, lit, dist, pos + |b|, ts[0].Apply(out).value, cap, ts[1..]);
      TokenRead(data, lit, dist, pos, out, cap, ts[0]);
    }
  }

  /** A match the reference decoder read is encoded in the stream. */
  lemma PairFound(data: seq<byte>, dist: seq<nat>, pos: nat, l: nat) returns (t: Token)
    requires Fits(dist) && l < 29 && RefPair(data, dist, pos, l).Pair?
    ensures t.Match? && t.l == l && t.d < 30 && Used(dist, t.d)
    ensures t.lx < Pow2(LengthExtra(t.l)) && t.dx < Pow2(DistExtra(t.d))
    ensures At(data, pos, t.PairBits(dist))
    ensures RefPair(data, dist, pos, l) == Pair(pos + |t.PairBits(dist)|, t.Length(), t.Distance())
  {
    hide SymbolBits, LengthExtra, DistExtra, LengthBase, DistBase, Fits, Pow2, Lsb, Val;
    var p2 := pos + LengthExtra(l);
    var d := SymbolAt(dist, data, p2).value;
    var p3 := p2 + dist[d];
    ValBound(data, pos, LengthExtra(l));
    ValBound(data, p3, DistExtra(d));
    t := Match(l, Val(data, pos, LengthExtra(l)), d, Val(data, p3, DistExtra(d)));
    PairRoundTrip(data, dist, pos, t);
  }

  /** The token the reference decoder reads next, when it is neither done nor failing. */
  lemma TokenFound(
    data: seq<byte>, lit: seq<nat>, dist: seq<nat>, pos: nat, out: seq<byte>, cap: nat) returns (t: Token)
    requires Fits(lit) && Fits(dist) && |out| <= cap
    requires RefSymbols(data, lit, dist, pos, out, cap).Done? && SymbolAt(lit, data, pos) != Some(256)
    ensures t.Ok(lit, dist) && At(data, pos, t.Bits(lit, dist))
  {
    hide SymbolBits, SymbolAt, Fits, RefSymbols, LengthExtra, DistExtra, Pow2, Lsb, RefPair;
    SymbolsStep(data, lit, dist, pos, out, cap);
    var z := SymbolAt(lit, data, pos).value;
    SymbolBitsAt(lit, data, pos, z);
    if z < 256 {
      t := Literal(z);
    } else {
      t := PairFound(data, dist, pos + lit[z], z - 257);
      AtConcat(data, pos, SymbolBits(lit, z), t.PairBits(dist));
    }
  }

  /** Whatever the reference decoder accepts is the encoding of some token list. */
  lemma {:induction false} TokensFound(
    data: seq<byte>, lit: seq<nat>, dist: seq<nat>, pos: nat, out: seq<byte>, cap: nat) returns (ts: seq<Token>)
    requires Fits(lit) && Fits(dist) && |out| <= cap
    requires RefSymbols(data, lit, dist, pos, out, cap).Done?
    ensures Used(lit, 256) && TokensOk(lit, dist, ts)
    ensures At(data, pos, TokenBits(lit, dist, ts))
    ensures Expand(out, ts).Some?
    ensures RefSymbols(data, lit, dist, pos, out, cap)
            == Done(pos + |TokenBits(lit, dist, ts)|, Expand(out, ts).value)
    decreases cap - |out|
  {
    hide SymbolBits, SymbolAt, Fits, RefSymbols, Token.Apply, Token.Bits, Token.Ok;
    if SymbolAt(lit, data, pos) == Some(256) {
      SymbolsStep(data, lit, dist, pos, out, cap);
      SymbolBitsAt(lit, data, pos, 256);
      ts := [];
    } else {
      var t := TokenFound(data, lit, dist, pos, out, cap);
      TokenRead(data, lit, dist, pos, out, cap, t);
      var b := t.Bits(lit, dist);
      var rest := TokensFound(data, lit, dist, pos + |b|, t.Apply(out).value, cap);
      ts := [t] + rest;
      assert ts[1..] == rest;
      AtConcat(data, pos, b, TokenBits(lit, dist, rest));
    }
  }

  // ----- code lengths -----

  /** A symbol of the code length alphabet and its extra bits. */
  datatype LenToken = LenToken(c: nat, x: nat)
  {
    function ExtraBits(): (n: nat)
      ensures n <= 7
    {
      if c == 16 then 2 else if c == 17 then 3 else if c == 18 then 7 else 0
    }

    predicate Ok(cl: seq<nat>)
      ensures Ok(cl) ==> c < 19
    {
      c < 19 && Used(cl, c) && x < Pow2(ExtraBits())
    }

    function Bits(cl: seq<nat>): (bits: seq<nat>)
      requires Ok(cl)
      ensures |bits| == cl[c] + ExtraBits()
    {
      SymbolBits(cl, c) + Lsb(x, ExtraBits())
    }

    /** The lengths after this symbol; repeating needs a previous length. */
    function Apply(acc: seq<nat>): (r: Option<seq<nat>>)
      requires c < 19 && Lengths(acc, 15)
      ensures r.Some? ==> |r.value| > |acc| && Lengths(r.value, 15)
    {
      if c < 16 then Some(acc + [c])
      else if c == 16 then (if |acc| == 0 then None else Some(acc + Repeat(acc[|acc| - 1], 3 + x)))
      else if c == 17 then Some(acc + Repeat(0, 3 + x))
      else Some(acc + Repeat(0, 11 + x))
    }
  }

  function LenTokenBits(cl: seq<nat>, ts: seq<LenToken>): seq<nat>
    requires forall i :: 0 <= i < |ts| ==> ts[i].Ok(cl)
  {
    if |ts| == 0 then [] else ts[0].Bits(cl) + LenTokenBits(cl, ts[1..])
  }

  function LenExpand(acc: seq<nat>, ts: seq<LenToken>): (r: Option<seq<nat>>)
    requires Lengths(acc, 15)
    requires forall i :: 0 <= i < |ts| ==> ts[i].c < 19
    ensures r.Some? ==> |r.value| >= |acc| && (|ts| > 0 ==> |r.value| > |acc|)
    decreases |ts|
  {
    if |ts| == 0 then Some(acc)
    else match ts[0].Apply(acc)
      case None => None
      case Some(a) => LenExpand(a, ts[1..])
  }

  lemma LenTokenRead(data: seq<byte>, cl: seq<nat>, pos: nat, acc: seq<nat>, total: nat, t: LenToken)
    requires Fits(cl) && t.Ok(cl) && |acc| < total && Lengths(acc, 15)
    requires At(data, pos, t.Bits(cl))
    ensures var r := RefLengths(data, cl, pos, acc, total);
            match t.Apply(acc)
            case None => r == NoLens
            case Some(a) =>
              r == if |a| > total then NoLens else RefLengths(data, cl, pos + |t.Bits(cl)|, a, total)
  {
    hide SymbolBits, SymbolAt, Fits, RefLengths, Pow2, Lsb, Val, Repeat;
    LengthsStep(data, cl, pos, acc, total);
    AtConcat(data, pos, SymbolBits(cl, t.c), Lsb(t.x, t.ExtraBits()));
    SymbolBitsAt(cl, data, pos, t.c);
    LsbAt(data, pos + cl[t.c], t.x, t.ExtraBits());
  }

  lemma {:induction false} LensRoundTrip(
    data: seq<byte>, cl: seq<nat>, pos: nat, acc: seq<nat>, total: nat, ts: seq<LenToken>)
    requires Fits(cl) && Lengths(acc, 15)
    requires forall i :: 0 <= i < |ts| ==> ts[i].Ok(cl)
    requires At(data, pos, LenTokenBits(cl, ts))
    requires LenExpand(acc, ts).Some? && |LenExpand(acc, ts).value| == total
    ensures RefLengths(data, cl, pos, acc, total)
            == Lens(pos + |LenTokenBits(cl, ts)|, LenExpand(acc, ts).value)
    decreases |ts|
  {
    hide Fits, RefLengths, LenToken.Apply, LenToken.Ok, LenToken.Bits;
    if |ts| == 0 {
      LengthsDone(data, cl, pos, acc, total);
    } else {
      var b := ts[0].Bits(cl);
      AtConcat(data, pos, b, LenTokenBits(cl, ts[1..]));
      LensRoundTrip(data, cl, pos + |b|, ts[0].Apply(acc).value, total, ts[1..]);
      LenTokenRead(data, cl, pos, acc, total, ts[0]);
    }
  }

  lemma LenTokenFound(data: seq<byte>, cl: seq<nat>, pos: nat, acc: seq<nat>, total: nat) returns (t: LenToken)
    requires Fits(cl) && |acc| < total && Lengths(acc, 15)
    requires RefLengths(data, cl, pos, acc, total).Lens?
    ensures t.Ok(cl) && At(data, pos, t.Bits(cl))
  {
    hide SymbolBits, SymbolAt, Fits, RefLengths, Pow2, Lsb, Val, Repeat;
    LengthsStep(data, cl, pos, acc, total);
    var c := SymbolAt(cl, data, pos).value;
    var n := LenToken(c, 0).ExtraBits();
    t := LenToken(c, Val(data, pos + cl[c], n));
    ValBound(data, pos + cl[c], n);
    SymbolBitsAt(cl, data, pos, c);
    LsbAt(data, pos + cl[c], t.x, n);
    AtConcat(data, pos, SymbolBits(cl, c), Lsb(t.x, n));
  }

  lemma {:induction false} LensFound(data: seq<byte>, cl: seq<nat>, pos: nat, acc: seq<nat>, total: nat)
    returns (ts: seq<LenToken>)
    requires Fits(cl) && |acc| <= total && Lengths(acc, 15)
    requires RefLengths(data, cl, pos, acc, total).Lens?
    ensures forall i :: 0 <= i < |ts| ==> ts[i].Ok(cl)
    ensures At(data, pos, LenTokenBits(cl, ts))
    ensures LenExpand(acc, ts).Some?
    ensures RefLengths(data, cl, pos, acc, total)
            == Lens(pos + |LenTokenBits(cl, ts)|, LenExpand(acc, ts).value)
    decreases total - |acc|
  {
    hide Fits, RefLengths, LenToken.Apply, LenToken.Ok, LenToken.Bits;
    if |acc| == total {
      LengthsDone(data, cl, pos, acc, total);
      ts := [];
    } else {
      var t := LenTokenFound(data, cl, pos, acc, total);
      LenTokenRead(data, cl, pos, acc, total, t);
      var b := t.Bits(cl);
      var rest := LensFound(data, cl, pos + |b|, t.Apply(acc).value, total);
      ts := [t] + rest;
      assert ts[1..] == rest;
      AtConcat(data, pos, b, LenTokenBits(cl, rest));
    }
  }

  // ----- the code length code's own lengths -----

  /** `cl` with the lengths not among the first `n` of the fixed order cleared. */
  function Listed(cl: seq<nat>, n: nat): (s: seq<nat>)
    requires |cl| == 19 && n <= 19
    ensures |s| == 19
  {
    if n == 0 then Repeat(0, 19)
    else Listed(cl, n - 1)[CodeLengthSymbol(n - 1) := cl[CodeLengthSymbol(n - 1)]]
  }

  function SizesBits(cl: seq<nat>, n: nat): (bits: seq<nat>)
    requires |cl| == 19 && n <= 19
    ensures |bits| == 3 * n
  {
    if n == 0 then [] else SizesBits(cl, n - 1) + Lsb(cl[CodeLengthSymbol(n - 1)], 3)
  }

  lemma {:induction false} SizesRoundTrip(data: seq<byte>, pos: nat, cl: seq<nat>, n: nat)
    requires |cl| == 19 && Lengths(cl, 7) && n <= 19
    requires At(data, pos, SizesBits(cl, n))
    ensures CodeLengthSizes(data, pos, n) == Listed(cl, n)
  {
    hide Lsb, Val, CodeLengthSymbol;
    if n > 0 {
      var v := cl[CodeLengthSymbol(n - 1)];
      AtConcat(data, pos, SizesBits(cl, n - 1), Lsb(v, 3));
      SizesRoundTrip(data, pos, cl, n - 1);
      SmallPowers();
      LsbAt(data, pos + 3 * (n - 1), v, 3);
    }
  }

  const CODE_LENGTH_INDEX: seq<nat> := [3, 17, 15, 13, 11, 9, 7, 5, 4, 6, 8, 10, 12, 14, 16, 18, 0, 1, 2]

  lemma OrderInjective(i: nat, j: nat)
    requires i < 19 && j < 19 && CodeLengthSymbol(i) == CodeLengthSymbol(j)
    ensures i == j
  {
    assert CODE_LENGTH_INDEX[CODE_LENGTH_ORDER[i]] == i;
    assert CODE_LENGTH_INDEX[CODE_LENGTH_ORDER[j]] == j;
  }

  lemma {:induction false} SizesAre(data: seq<byte>, pos: nat, n: nat, i: nat)
    requires i < n <= 19
    ensures CodeLengthSizes(data, pos, n)[CodeLengthSymbol(i)] == Val(data, pos + 3 * i, 3)
  {
    hide Val, CodeLengthSymbol;
    if i < n - 1 {
      SizesAre(data, pos, n - 1, i);
      if CodeLengthSymbol(i) == CodeLengthSymbol(n - 1) { OrderInjective(i, n - 1); }
    }
  }

  lemma {:induction false} SizesFound(data: seq<byte>, pos: nat, n: nat, k: nat)
    requires k <= n <= 19
    ensures var cl := CodeLengthSizes(data, pos, n);
            At(data, pos, SizesBits(cl, k)) && Listed(cl, k) == CodeLengthSizes(data, pos, k)
  {
    hide Lsb, Val, CodeLengthSymbol;
    if k > 0 {
      var cl := CodeLengthSizes(data, pos, n);
      SizesFound(data, pos, n, k - 1);
      SizesAre(data, pos, n, k - 1);
      SmallPowers();
      var v := cl[CodeLengthSymbol(k - 1)];
      LsbAt(data, pos + 3 * (k - 1), v, 3);
      AtConcat(data, pos, SizesBits(cl, k - 1), Lsb(v, 3));
    }
  }

  // ----- dynamic headers -----

  /** The header of a dynamic block: the two code length lists and how they are written. */
  datatype Header = Header(lit: seq<nat>, dist: seq<nat>, hclen: nat, cl: seq<nat>, ts: seq<LenToken>)
  {
    ghost predicate Ok()
    {
      && 257 <= |lit| <= 288 && 1 <= |dist| <= 32 && 4 <= hclen <= 19
      && |cl| == 19 && Lengths(cl, 7) && Fits(cl) && Listed(cl, hclen) == cl
      && (forall i :: 0 <= i < |ts| ==> ts[i].Ok(cl))
      && LenExpand([], ts) == Some(lit + dist)
      && Fits(lit) && Fits(dist)
    }

    ghost function Bits(): (bits: seq<nat>)
      requires Ok()
      ensures |bits| > 0
    {
      Counts() + SizesBits(cl, hclen) + LenTokenBits(cl, ts)
    }

    function Counts(): (bits: seq<nat>)
      requires |lit| >= 257 && |dist| >= 1 && hclen >= 4
      ensures |bits| == 14
    {
      Lsb(|lit| - 257, 5) + Lsb(|dist| - 1, 5) + Lsb(hclen - 4, 4)
    }
  }

  lemma CountsAt(data: seq<byte>, pos: nat, h: Header)
    requires 257 <= |h.lit| <= 288 && 1 <= |h.dist| <= 32 && 4 <= h.hclen <= 19
    ensures At(data, pos, h.Counts()) <==>
            Val(data, pos, 5) == |h.lit| - 257 && Val(data, pos + 5, 5) == |h.dist| - 1
              && Val(data, pos + 10, 4) == h.hclen - 4
  {
    hide Lsb, Val;
    SmallPowers();
    var (a, b, c) := (Lsb(|h.lit| - 257, 5), Lsb(|h.dist| - 1, 5), Lsb(h.hclen - 4, 4));
    AtConcat(data, pos, a + b, c);
    AtConcat(data, pos, a, b);
    LsbAt(data, pos, |h.lit| - 257, 5);
    LsbAt(data, pos + 5, |h.dist| - 1, 5);
    LsbAt(data, pos + 10, h.hclen - 4, 4);
  }

  lemma HeaderRoundTrip(data: seq<byte>, pos: nat, h: Header)
    requires h.Ok() && At(data, pos, h.Bits())
    ensures RefDynamic(data, pos) == Codes(pos + |h.Bits()|, h.lit, h.dist)
  {
    hide Val, Fits, Lsb, CodeLengthSizes, Listed, SizesBits, LenTokenBits, LenExpand, RefLengths, Header.Counts;
    var (a, b, c) := (h.Counts(), SizesBits(h.cl, h.hclen), LenTokenBits(h.cl, h.ts));
    AtConcat(data, pos, a + b, c);
    AtConcat(data, pos, a, b);
    CountsAt(data, pos, h);
    SizesRoundTrip(data, pos + 14, h.cl, h.hclen);
    LensRoundTrip(data, h.cl, pos + 14 + 3 * h.hclen, [], |h.lit| + |h.dist|, h.ts);
    assert (h.lit + h.dist)[..|h.lit|] == h.lit && (h.lit + h.dist)[|h.lit|..] == h.dist;
  }

  lemma HeaderFound(data: seq<byte>, pos: nat) returns (h: Header)
    requires RefDynamic(data, pos).Codes?
    ensures h.Ok() && At(data, pos, h.Bits())
    ensures RefDynamic(data, pos) == Codes(pos + |h.Bits()|, h.lit, h.dist)
  {
    hide Val, Fits, Lsb, CodeLengthSizes, Listed, SizesBits, LenTokenBits, LenExpand, RefLengths, Header.Counts;
    var hlit, hdist, hclen := Val(data, pos, 5) + 257, Val(data, pos + 5, 5) + 1, Val(data, pos + 10, 4) + 4;
    CountsBound(data, pos);
    var cl := CodeLengthSizes(data, pos + 14, hclen);
    var ts := LensFound(data, cl, pos + 14 + 3 * hclen, [], hlit + hdist);
    var lens := LenExpand([], ts).value;
    h := Header(lens[..hlit], lens[hlit..], hclen, cl, ts);
    assert lens[..hlit] + lens[hlit..] == lens;
    SizesFound(data, pos + 14, hclen, hclen);
    CountsAt(data, pos, h);
    var (a, b, c) := (h.Counts(), SizesBits(h.cl, h.hclen), LenTokenBits(h.cl, h.ts));
    AtConcat(data, pos, a + b, c);
    AtConcat(data, pos, a, b);
  }
}
