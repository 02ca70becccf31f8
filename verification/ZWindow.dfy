/** Which streams the program's decoder accepts, exactly: the reference decoder of `Deflate` with the
    bookkeeping of the 32-bit window. How far the window was filled, and whether the sixteen implicit
    zero bits were added, are functions of the positions read; they decide which streams that run
    past the input are refused. */
module ZWindow {
  import opened Bits
  import opened Canonical
  import opened Deflate

  /** Bits consumed, bits handed to the window, and whether the implicit zeros are among them. */
  datatype Window = Window(pos: nat, fed: nat, hit: bool)
  {
    function Skip(n: nat): Window
    {
      this.(pos := pos + n)
    }
  }

  /** Whole bytes until more than 24 bits are in the window. */
  function Refill(w: Window): (v: Window)
    ensures w.pos + 24 < v.fed <= w.pos + 32 && v.fed % 8 == 0
  {
    w.(fed := 8 * ((w.pos + 24) / 8 + 1))
  }

  /** Reading `n` bits refills a window that holds fewer, whether input is left or not. */
  function Take(w: Window, n: nat): Window
  {
    (if w.fed < w.pos + n then Refill(w) else w).Skip(n)
  }

  function TakeThrees(w: Window, n: nat): (v: Window)
    ensures v.pos == w.pos + 3 * n && v.hit == w.hit
  {
    if n == 0 then w else Take(TakeThrees(w, n - 1), 3)
  }

  /** Before a code the window must hold 16 bits. Past the input they are added once, as zeros. */
  function Ready(data: seq<byte>, w: Window): Option<Window>
  {
    if w.fed >= w.pos + 16 then Some(w)
    else if w.fed < 8 * |data| then Some(Refill(w))
    else if !w.hit then Some(Window(w.pos, w.fed + 16, true))
    else None
  }

  datatype Read = Symbol(z: nat, w: Window) | NoSymbol

  /** The next symbol and the window behind its code. */
  ghost function NextSymbol(data: seq<byte>, lens: seq<nat>, w: Window): (r: Read)
    ensures r.Symbol? ==> r.w.pos > w.pos
  {
    var v, s := Ready(data, w), SymbolAt(lens, data, w.pos);
    if v.None? || s.None? then NoSymbol else Symbol(s.value, v.value.Skip(lens[s.value]))
  }

  datatype Exact = Got(w: Window, out: seq<byte>) | Refused

  datatype MatchPair = MatchPair(w: Window, len: nat, dist: nat) | NoMatch

  ghost function ExactPair(data: seq<byte>, dist: seq<nat>, w: Window, l: nat): (r: MatchPair)
    requires l < 29
    ensures r.MatchPair? ==> r.w.pos > w.pos && r.len >= 3 && r.dist >= 1
  {
    var v := Take(w, LengthExtra(l));
    match NextSymbol(data, dist, v)
    case NoSymbol => NoMatch
    case Symbol(d, u) =>
      if d >= 30 then NoMatch else
      MatchPair(Take(u, DistExtra(d)), LengthBase(l) + Val(data, w.pos, LengthExtra(l)),
                DistBase(d) + Val(data, u.pos, DistExtra(d)))
  }

  /** A block of compressed symbols. At its end the implicit zeros must not have been touched. */
  ghost function ExactSymbols(data: seq<byte>, lit: seq<nat>, dist: seq<nat>, w: Window, out: seq<byte>,
        cap: nat): (r: Exact)
    requires |out| <= cap
    ensures r.Got? ==> r.w.pos > w.pos && |out| <= |r.out| <= cap
    decreases cap - |out|
  {
    match NextSymbol(data, lit, w)
    case NoSymbol => Refused
    case Symbol(z, v) =>
      if z < 256 then
        if |out| + 1 > cap then Refused else ExactSymbols(data, lit, dist, v, out + [z], cap)
      else if z == 256 then
        if v.hit && v.fed < v.pos + 16 then Refused else Got(v, out)
      else if z >= 286 then Refused
      else ExactMatch(data, lit, dist, v, z - 257, out, cap)
  }

  ghost function ExactMatch(data: seq<byte>, lit: seq<nat>, dist: seq<nat>, w: Window, l: nat, out: seq<byte>,
        cap: nat): (r: Exact)
    requires |out| <= cap && l < 29
    ensures r.Got? ==> r.w.pos > w.pos && |out| <= |r.out| <= cap
    decreases cap - |out|, 0
  {
    match ExactPair(data, dist, w, l)
    case NoMatch => Refused
    case MatchPair(v, len, d) =>
      if |out| < d || |out| + len > cap then Refused
      else ExactSymbols(data, lit, dist, v, CopyMatch(out, d, len), cap)
  }

  /** One turn of the symbol loop. */
  lemma ExactStep(data: seq<byte>, lit: seq<nat>, dist: seq<nat>, w: Window, out: seq<byte>, cap: nat)
    requires |out| <= cap
    ensures var r := ExactSymbols(data, lit, dist, w, out, cap);
      match NextSymbol(data, lit, w)
      case NoSymbol => r == Refused
      case Symbol(z, v) =>
        if z < 256 then
          r == if |out| + 1 > cap then Refused else ExactSymbols(data, lit, dist, v, out + [z], cap)
        else if z == 256 then
          r == if v.hit && v.fed < v.pos + 16 then Refused else Got(v, out)
        else if z >= 286 then r == Refused
        else r == ExactMatch(data, lit, dist, v, z - 257, out, cap)
  {}

  /** A stored block leaves an empty window. */
  ghost function ExactStored(data: seq<byte>, w: Window, out: seq<byte>, cap: nat): (r: Exact)
    requires |out| <= cap
    ensures r.Got? ==> w.pos < r.w.pos <= 8 * |data| && |out| <= |r.out| <= cap
  {
    match RefStored(data, w.pos, out, cap)
    case Fail => Refused
    case Done(p, o) => Got(Window(p, p, w.hit), o)
  }

  datatype ExactLens = LensGot(w: Window, lens: seq<nat>) | LensRefused
  datatype ExactCodes = CodesGot(w: Window, lit: seq<nat>, dist: seq<nat>) | CodesRefused

  ghost function ExactLengths(data: seq<byte>, cl: seq<nat>, w: Window, acc: seq<nat>, total: nat): (r: ExactLens)
    requires |acc| <= total && Lengths(acc, 15)
    ensures r.LensGot? ==> r.w.pos >= w.pos && |r.lens| == total && Lengths(r.lens, 15)
    decreases total - |acc|
  {
    if |acc| == total then LensGot(w, acc) else
    match NextSymbol(data, cl, w)
    case NoSymbol => LensRefused
    case Symbol(c, v) =>
      if c < 16 then ExactLengths(data, cl, v, acc + [c], total)
      else if c >= 19 || (c == 16 && |acc| == 0) then LensRefused
      else
        var t := RunOf(data, v.pos, c, acc);
        if |acc| + t.1 > total then LensRefused
        else ExactLengths(data, cl, Take(v, t.2), acc + Repeat(t.0, t.1), total)
  }

  lemma ExactLengthsStep(data: seq<byte>, cl: seq<nat>, w: Window, acc: seq<nat>, total: nat)
    requires |acc| < total && Lengths(acc, 15)
    ensures var r := ExactLengths(data, cl, w, acc, total);
      match NextSymbol(data, cl, w)
      case NoSymbol => r == LensRefused
      case Symbol(c, v) =>
        if c < 16 then r == ExactLengths(data, cl, v, acc + [c], total)
        else if c >= 19 || (c == 16 && |acc| == 0) then r == LensRefused
        else
          var t := RunOf(data, v.pos, c, acc);
          r == if |acc| + t.1 > total then LensRefused
               else ExactLengths(data, cl, Take(v, t.2), acc + Repeat(t.0, t.1), total)
  {}

  lemma ExactLengthsDone(data: seq<byte>, cl: seq<nat>, w: Window, acc: seq<nat>, total: nat)
    requires |acc| == total && Lengths(acc, 15)
    ensures ExactLengths(data, cl, w, acc, total) == LensGot(w, acc)
  {}

  /** The window behind the three counts of a dynamic header. */
  function TakeCounts(w: Window): (v: Window)
    ensures v.pos == w.pos + 14
  {
    Take(Take(Take(w, 5), 5), 4)
  }

  ghost function ExactDynamic(data: seq<byte>, w: Window): (r: ExactCodes)
    ensures r.CodesGot? ==> r.w.pos > w.pos && Fits(r.lit) && Fits(r.dist)
    ensures r.CodesGot? ==> Lengths(r.lit, 15) && Lengths(r.dist, 15) && |r.lit| <= 288 && |r.dist| <= 32
  {
    var pos := w.pos;
    var hlit, hdist, hclen := Val(data, pos, 5) + 257, Val(data, pos + 5, 5) + 1, Val(data, pos + 10, 4) + 4;
    CountsBound(data, pos);
    var cl := CodeLengthSizes(data, pos + 14, hclen);
    if !Fits(cl) then CodesRefused else
    match ExactLengths(data, cl, TakeThrees(TakeCounts(w), hclen), [], hlit + hdist)
    case LensRefused => CodesRefused
    case LensGot(v, lens) =>
      if Fits(lens[..hlit]) && Fits(lens[hlit..]) then CodesGot(v, lens[..hlit], lens[hlit..]) else CodesRefused
  }

  ghost function ExactBody(data: seq<byte>, kind: nat, w: Window, out: seq<byte>, cap: nat): (r: Exact)
    requires |out| <= cap
    ensures r.Got? ==> r.w.pos > w.pos && |out| <= |r.out| <= cap
  {
    if kind == 0 then ExactStored(data, w, out, cap)
    else if kind == 1 then ExactSymbols(data, FixedLengths(288), Repeat(5, 32), w, out, cap)
    else if kind == 2 then
      match ExactDynamic(data, w)
      case CodesRefused => Refused
      case CodesGot(v, lit, dist) => ExactSymbols(data, lit, dist, v, out, cap)
    else Refused
  }

  function TakeHeader(w: Window): (v: Window)
    ensures v.pos == w.pos + 3
  {
    Take(Take(w, 1), 2)
  }

  ghost function ExactBlocks(data: seq<byte>, w: Window, out: seq<byte>, cap: nat): (r: Exact)
    requires |out| <= cap
    ensures r.Got? ==> r.w.pos > w.pos && |out| <= |r.out| <= cap
    decreases 8 * |data| - w.pos
  {
    hide ExactSymbols, ExactDynamic, Val;
    match ExactBody(data, Val(data, w.pos + 1, 2), TakeHeader(w), out, cap)
    case Refused => Refused
    case Got(v, o) =>
      if Val(data, w.pos, 1) == 1 then Got(v, o)
      else
        assert w.pos < 8 * |data| by {
          if w.pos >= 8 * |data| { NoBlockPastEnd(data, w.pos, out, cap); }
        }
        ExactBlocks(data, v, o, cap)
  }

  /** No block starts past the end of the input. */
  lemma NoExactPastEnd(data: seq<byte>, w: Window, out: seq<byte>, cap: nat)
    requires w.pos >= 8 * |data| && |out| <= cap
    ensures ExactBody(data, Val(data, w.pos + 1, 2), TakeHeader(w), out, cap) == Refused
  {
    hide Val, TakeHeader, RefStored;
    NoBlockPastEnd(data, w.pos, out, cap);
  }

  lemma ExactBlocksStep(data: seq<byte>, w: Window, out: seq<byte>, cap: nat)
    requires |out| <= cap
    ensures var r := ExactBlocks(data, w, out, cap);
      Val(data, w.pos, 1) < 2 && Val(data, w.pos + 1, 2) < 4
      && match ExactBody(data, Val(data, w.pos + 1, 2), TakeHeader(w), out, cap)
         case Refused => r == Refused
         case Got(v, o) =>
           w.pos < 8 * |data| && v.pos > w.pos
           && r == if Val(data, w.pos, 1) == 1 then Got(v, o) else ExactBlocks(data, v, o, cap)
  {
    hide ExactSymbols, ExactDynamic, ExactBody, Val, TakeHeader, RefBody;
    ValBound(data, w.pos, 1);
    ValBound(data, w.pos + 1, 2);
    SmallPowers();
    if w.pos >= 8 * |data| { NoExactPastEnd(data, w, out, cap); }
  }

  function Start(header: bool): Window
  {
    if header then Window(16, 16, false) else Window(0, 0, false)
  }

  /** The whole stream. */
  ghost function ExactZlib(data: seq<byte>, header: bool, cap: nat): Exact
  {
    if header && !HeaderOk(data) then Refused else ExactBlocks(data, Start(header), [], cap)
  }

  // ----- what is accepted is right, and what is complete is accepted -----

  /** The implicit zeros are added only when the input is used up. */
  predicate Sane(data: seq<byte>, w: Window)
  {
    w.pos <= w.fed <= w.pos + 32 && w.fed % 8 == 0 && (w.hit ==> w.fed >= 8 * |data| + 16)
  }

  lemma TakeSane(data: seq<byte>, w: Window, n: nat)
    requires Sane(data, w) && n <= 24
    ensures Sane(data, Take(w, n)) && Take(w, n).pos == w.pos + n && Take(w, n).hit == w.hit
  {}

  /** A code that starts inside the input is never refused for want of bits. */
  lemma NextAgrees(data: seq<byte>, lens: seq<nat>, w: Window)
    ensures NextSymbol(data, lens, w).Symbol? ==>
              SymbolAt(lens, data, w.pos) == Some(NextSymbol(data, lens, w).z)
              && NextSymbol(data, lens, w).w.pos == w.pos + lens[NextSymbol(data, lens, w).z]
    ensures Sane(data, w) && w.pos <= 8 * |data| && SymbolAt(lens, data, w.pos).Some? && Lengths(lens, 15) ==>
              NextSymbol(data, lens, w).Symbol? && Sane(data, NextSymbol(data, lens, w).w)
  {
    hide SymbolAt;
  }

  lemma PairAgrees(data: seq<byte>, dist: seq<nat>, w: Window, l: nat)
    requires l < 29 && Lengths(dist, 15)
    ensures var e, r := ExactPair(data, dist, w, l), RefPair(data, dist, w.pos, l);
            (e.MatchPair? ==> r == Pair(e.w.pos, e.len, e.dist))
            && (Sane(data, w) && r.Pair? && r.pos <= 8 * |data| ==> e.MatchPair? && Sane(data, e.w))
  {
    hide SymbolAt, NextSymbol, Take, Sane, Val, LengthBase, LengthExtra, DistBase, DistExtra;
    var v := Take(w, LengthExtra(l));
    TakePos(w, LengthExtra(l));
    if Sane(data, w) { TakeSane(data, w, LengthExtra(l)); }
    NextAgrees(data, dist, v);
    var n := NextSymbol(data, dist, v);
    if n.Symbol? && n.z < 30 {
      TakePos(n.w, DistExtra(n.z));
      if Sane(data, n.w) { TakeSane(data, n.w, DistExtra(n.z)); }
    }
  }

  lemma TakePos(w: Window, n: nat)
    ensures Take(w, n).pos == w.pos + n && Take(w, n).hit == w.hit
  {}

  /** Blocks of symbols. */
  lemma {:induction false} SymbolsAgree(data: seq<byte>, lit: seq<nat>, dist: seq<nat>, w: Window, out: seq<byte>,
        cap: nat)
    requires |out| <= cap && Lengths(lit, 15) && Lengths(dist, 15)
    ensures var e, r := ExactSymbols(data, lit, dist, w, out, cap), RefSymbols(data, lit, dist, w.pos, out, cap);
            (e.Got? ==> r == Done(e.w.pos, e.out))
            && (Sane(data, w) && r.Done? && r.pos <= 8 * |data| ==> e.Got? && Sane(data, e.w))
    decreases cap - |out|
  {
    hide RefSymbols, ExactSymbols, SymbolAt, NextSymbol, ExactPair, RefPair, Lengths, CopyMatch, Sane;
    ExactStep(data, lit, dist, w, out, cap);
    SymbolsStep(data, lit, dist, w.pos, out, cap);
    NextAgrees(data, lit, w);
    var n := NextSymbol(data, lit, w);
    if n.Symbol? {
      if n.z < 256 {
        if |out| + 1 <= cap { SymbolsAgree(data, lit, dist, n.w, out + [n.z], cap); }
      } else if n.z == 256 {
        SaneBounds(data, n.w);
      } else if n.z < 286 {
        PairAgrees(data, dist, n.w, n.z - 257);
        var p := ExactPair(data, dist, n.w, n.z - 257);
        if p.MatchPair? && p.dist <= |out| && |out| + p.len <= cap {
          SymbolsAgree(data, lit, dist, p.w, CopyMatch(out, p.dist, p.len), cap);
        }
      }
    }
  }

  lemma SaneBounds(data: seq<byte>, w: Window)
    ensures Sane(data, w) ==> w.pos <= w.fed <= w.pos + 32 && (w.hit ==> w.fed >= 8 * |data| + 16)
  {}

  lemma StoredAgrees(data: seq<byte>, w: Window, out: seq<byte>, cap: nat)
    requires |out| <= cap
    ensures var e, r := ExactStored(data, w, out, cap), RefStored(data, w.pos, out, cap);
            (e.Got? ==> r == Done(e.w.pos, e.out)) && (r.Done? ==> e.Got?)
            && (Sane(data, w) && r.Done? ==> Sane(data, e.w))
  {
    hide Val;
  }

  lemma {:induction false} LengthsAgree(data: seq<byte>, cl: seq<nat>, w: Window, acc: seq<nat>, total: nat)
    requires |acc| <= total && Lengths(acc, 15) && Lengths(cl, 15)
    ensures var e, r := ExactLengths(data, cl, w, acc, total), RefLengths(data, cl, w.pos, acc, total);
            (e.LensGot? ==> r == Lens(e.w.pos, e.lens))
            && (Sane(data, w) && r.Lens? && r.pos <= 8 * |data| ==> e.LensGot? && Sane(data, e.w))
    decreases total - |acc|
  {
    hide RefLengths, ExactLengths, SymbolAt, NextSymbol, Sane, Take, Val;
    if |acc| == total {
      LengthsDone(data, cl, w.pos, acc, total);
      ExactLengthsDone(data, cl, w, acc, total);
    } else {
      ExactLengthsStep(data, cl, w, acc, total);
      LengthsStep(data, cl, w.pos, acc, total);
      NextAgrees(data, cl, w);
      var n := NextSymbol(data, cl, w);
      if n.Symbol? {
        if n.z < 16 {
          LengthsAgree(data, cl, n.w, acc + [n.z], total);
        } else if n.z < 19 && (n.z != 16 || |acc| > 0) {
          var t := RunOf(data, n.w.pos, n.z, acc);
          TakePos(n.w, t.2);
          if Sane(data, n.w) { TakeSane(data, n.w, t.2); }
          if |acc| + t.1 <= total { LengthsAgree(data, cl, Take(n.w, t.2), acc + Repeat(t.0, t.1), total); }
        }
      }
    }
  }

  lemma {:induction false} ThreesSane(data: seq<byte>, w: Window, n: nat)
    requires Sane(data, w)
    ensures Sane(data, TakeThrees(w, n))
  {
    hide Take, Sane;
    if n > 0 {
      ThreesSane(data, w, n - 1);
      TakeSane(data, TakeThrees(w, n - 1), 3);
    }
  }

  lemma CountsSane(data: seq<byte>, w: Window)
    requires Sane(data, w)
    ensures Sane(data, TakeCounts(w)) && Sane(data, TakeHeader(w))
  {
    hide Take, Sane;
    TakeSane(data, w, 5);
    TakeSane(data, Take(w, 5), 5);
    TakeSane(data, Take(Take(w, 5), 5), 4);
    TakeSane(data, w, 1);
    TakeSane(data, Take(w, 1), 2);
  }

  lemma DynamicAgrees(data: seq<byte>, w: Window)
    ensures var e, r := ExactDynamic(data, w), RefDynamic(data, w.pos);
            (e.CodesGot? ==> r == Codes(e.w.pos, e.lit, e.dist))
            && (Sane(data, w) && r.Codes? && r.pos <= 8 * |data| ==> e.CodesGot? && Sane(data, e.w))
  {
    hide RefLengths, ExactLengths, Sane, Take, Val, Fits, CodeLengthSizes, TakeThrees, TakeCounts;
    CountsBound(data, w.pos);
    var hclen := Val(data, w.pos + 10, 4) + 4;
    var cl := CodeLengthSizes(data, w.pos + 14, hclen);
    if Sane(data, w) {
      CountsSane(data, w);
      ThreesSane(data, TakeCounts(w), hclen);
    }
    LengthsAgree(data, cl, TakeThrees(TakeCounts(w), hclen), [],
      Val(data, w.pos, 5) + 257 + (Val(data, w.pos + 5, 5) + 1));
  }

  lemma BodyAgrees(data: seq<byte>, kind: nat, w: Window, out: seq<byte>, cap: nat)
    requires |out| <= cap
    ensures var e, r := ExactBody(data, kind, w, out, cap), RefBody(data, kind, w.pos, out, cap);
            (e.Got? ==> r == Done(e.w.pos, e.out))
            && (Sane(data, w) && r.Done? && r.pos <= 8 * |data| ==> e.Got? && Sane(data, e.w))
  {
    hide RefSymbols, ExactSymbols, RefDynamic, ExactDynamic, RefStored, ExactStored, Sane, Fits;
    StoredAgrees(data, w, out, cap);
    FixedFit();
    SymbolsAgree(data, FixedLengths(288), Repeat(5, 32), w, out, cap);
    DynamicAgrees(data, w);
    var e := ExactDynamic(data, w);
    if e.CodesGot? { SymbolsAgree(data, e.lit, e.dist, e.w, out, cap); }
  }

  lemma {:induction false} BlocksAgree(data: seq<byte>, w: Window, out: seq<byte>, cap: nat)
    requires |out| <= cap
    ensures var e, r := ExactBlocks(data, w, out, cap), RefBlocks(data, w.pos, out, cap);
            (e.Got? ==> r == Done(e.w.pos, e.out))
            && (Sane(data, w) && r.Done? && r.pos <= 8 * |data| ==> e.Got? && Sane(data, e.w))
    decreases 8 * |data| - w.pos
  {
    hide RefBlocks, ExactBlocks, RefBody, ExactBody, Sane, Val, TakeHeader;
    ExactBlocksStep(data, w, out, cap);
    BlocksStep(data, w.pos, out, cap);
    if Sane(data, w) { CountsSane(data, w); }
    BodyAgrees(data, Val(data, w.pos + 1, 2), TakeHeader(w), out, cap);
    var e := ExactBody(data, Val(data, w.pos + 1, 2), TakeHeader(w), out, cap);
    if e.Got? && Val(data, w.pos, 1) != 1 { BlocksAgree(data, e.w, e.out, cap); }
  }

  /** What the program accepts is what the reference decoder decodes, and every stream that lies
      within the input is accepted. */
  lemma ZlibAgrees(data: seq<byte>, header: bool, cap: nat)
    ensures var e, r := ExactZlib(data, header, cap), RefZlib(data, header, cap);
            (e.Got? ==> r == Done(e.w.pos, e.out)) && (r.Done? && r.pos <= 8 * |data| ==> e.Got?)
  {
    hide ExactBlocks, RefBlocks;
    BlocksAgree(data, Start(header), [], cap);
  }

  // ----- the output limit -----

  lemma {:induction false} ExactSymbolsCap(
    data: seq<byte>, lit: seq<nat>, dist: seq<nat>, w: Window, out: seq<byte>, c1: nat, c2: nat)
    requires |out| <= c1 && |out| <= c2
    requires var e := ExactSymbols(data, lit, dist, w, out, c1); e.Got? && |e.out| <= c2
    ensures ExactSymbols(data, lit, dist, w, out, c2) == ExactSymbols(data, lit, dist, w, out, c1)
    decreases c1 - |out|
  {
    hide ExactSymbols, CopyMatch, NextSymbol, ExactPair;
    ExactStep(data, lit, dist, w, out, c1);
    ExactStep(data, lit, dist, w, out, c2);
    var n := NextSymbol(data, lit, w);
    if n.z < 256 {
      ExactSymbolsCap(data, lit, dist, n.w, out + [n.z], c1, c2);
    } else if n.z > 256 {
      var p := ExactPair(data, dist, n.w, n.z - 257);
      ExactSymbolsCap(data, lit, dist, p.w, CopyMatch(out, p.dist, p.len), c1, c2);
    }
  }

  lemma ExactBodyCap(data: seq<byte>, kind: nat, w: Window, out: seq<byte>, c1: nat, c2: nat)
    requires |out| <= c1 && |out| <= c2
    requires var e := ExactBody(data, kind, w, out, c1); e.Got? && |e.out| <= c2
    ensures ExactBody(data, kind, w, out, c2) == ExactBody(data, kind, w, out, c1)
  {
    hide ExactSymbols, ExactDynamic, Val, FixedLengths, Repeat;
    if kind == 1 {
      ExactSymbolsCap(data, FixedLengths(288), Repeat(5, 32), w, out, c1, c2);
    } else if kind == 2 {
      var c := ExactDynamic(data, w);
      ExactSymbolsCap(data, c.lit, c.dist, c.w, out, c1, c2);
    }
  }

  lemma {:induction false} ExactBlocksCap(data: seq<byte>, w: Window, out: seq<byte>, c1: nat, c2: nat)
    requires |out| <= c1 && |out| <= c2
    requires var e := ExactBlocks(data, w, out, c1); e.Got? && |e.out| <= c2
    ensures ExactBlocks(data, w, out, c2) == ExactBlocks(data, w, out, c1)
    decreases 8 * |data| - w.pos
  {
    hide ExactBlocks, ExactBody, Val, TakeHeader;
    ExactBlocksStep(data, w, out, c1);
    ExactBlocksStep(data, w, out, c2);
    var kind := Val(data, w.pos + 1, 2);
    var e := ExactBody(data, kind, TakeHeader(w), out, c1);
    if Val(data, w.pos, 1) != 1 {
      assert |e.out| <= |ExactBlocks(data, e.w, e.out, c1).out|;
    }
    ExactBodyCap(data, kind, TakeHeader(w), out, c1, c2);
    if Val(data, w.pos, 1) != 1 { ExactBlocksCap(data, e.w, e.out, c1, c2); }
  }

  /** The size of the output buffer decides nothing but whether the output has room, on every input:
      two decoders whose limits hold the output accept the same streams, read past the end or not. */
  lemma SizeIrrelevant(data: seq<byte>, header: bool, c1: nat, c2: nat)
    requires var e := ExactZlib(data, header, c1); e.Got? && |e.out| <= c2
    ensures ExactZlib(data, header, c2) == ExactZlib(data, header, c1)
  {
    hide ExactBlocks;
    ExactBlocksCap(data, Start(header), [], c1, c2);
  }
}
