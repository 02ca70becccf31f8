/** What the end-of-input check of the zlib decoder does and does not catch: which accepted streams
    lie within the input, how far the others can reach past it, and one that does. */
module Truncation {
  import opened Bits
  import opened BitStrings
  import opened Canonical
  import opened Deflate
  import opened DeflateEncode
  import opened DeflateStream
  import opened ZWindow
  import opened ZBuf

  lemma {:induction false} NoShortFixedCodes(n: nat, s: nat)
    requires n <= 288 && s < 7
    ensures Count(FixedLengths(288), n, s) == 0
  {
    hide FixedLengths;
    if n > 0 { NoShortFixedCodes(n - 1, s); }
  }

  lemma {:induction false} SevenBitsFrom256(n: nat)
    requires n <= 256
    ensures Count(FixedLengths(288), n, 7) == 0
  {
    hide FixedLengths;
    if n > 0 { SevenBitsFrom256(n - 1); }
  }

  lemma {:induction false} FirstCodeZero(s: nat)
    requires s <= 7
    ensures FirstCode(FixedLengths(288), s) == 0
  {
    hide FixedLengths, Count;
    if s > 0 {
      FirstCodeZero(s - 1);
      NoShortFixedCodes(288, s - 1);
    }
  }

  /** The fixed end-of-block code is seven zero bits. */
  lemma ZerosEndTheBlock(data: seq<byte>, pos: nat)
    requires Code(data, pos, 16) == 0
    ensures SymbolAt(FixedLengths(288), data, pos) == Some(256) && FixedLengths(288)[256] == 7
  {
    hide FixedLengths, Count, FirstCode;
    FirstCodeZero(7);
    SevenBitsFrom256(256);
    ShrZero(9);
    assert CodeOf(FixedLengths(288), 256) == 0;
    LookupIs(FixedLengths(288), 0, 256);
  }

  const CUT_STREAM: seq<byte> := [3]

  lemma {:induction false} CutZeros(pos: nat, n: nat)
    requires pos >= 3
    ensures Code(CUT_STREAM, pos, n) == 0
  {
    if n > 0 {
      CutZeros(pos, n - 1);
      var i := pos + n - 1;
      if i < 8 {
        BitOfShr(3, i);
        ShrShr(3, 2, i - 2);
        assert Shr(3, 2) == 0 by { assert Shr(3, 1) == 1; }
        ShrZero(i - 2);
      }
    }
  }

  lemma CutHeader()
    ensures Val(CUT_STREAM, 0, 1) == 1 && Val(CUT_STREAM, 1, 2) == 1
  {
    assert StreamBit(CUT_STREAM, 0) == 1 && StreamBit(CUT_STREAM, 1) == 1 && StreamBit(CUT_STREAM, 2) == 0;
    assert Val(CUT_STREAM, 1, 0) == 0 && Val(CUT_STREAM, 3, 0) == 0;
    assert Val(CUT_STREAM, 2, 1) == 0;
  }

  /** One byte with a last-block flag and the fixed type, cut inside its end-of-block code, is
      accepted: the code ends two bits past the input, within the bytes the window was filled with. */
  lemma CutStreamExact(cap: nat)
    ensures ExactZlib(CUT_STREAM, false, cap) == Got(Window(10, 32, false), [])
  {
    hide Val, Code, SymbolAt, FixedLengths, Repeat, ExactSymbols;
    CutHeader();
    CutZeros(3, 16);
    ZerosEndTheBlock(CUT_STREAM, 3);
    ExactBlocksStep(CUT_STREAM, Start(false), [], cap);
    ExactStep(CUT_STREAM, FixedLengths(288), Repeat(5, 32), TakeHeader(Start(false)), [], cap);
  }

  /** The program's entry point on that byte: an empty output instead of a refusal. */
  method CutStreamAccepted(obuffer: array<byte>) returns (n: int)
    requires obuffer.Length <= INT_MAX
    modifies obuffer
    ensures n == 0
  {
    hide ExactZlib, RefZlib;
    CutStreamExact(obuffer.Length);
    n := DecodeBuffer(obuffer, CUT_STREAM, false);
  }

  // ----- end-of-block codes that end in a one -----

  lemma {:induction false} LastTokenBit(lit: seq<nat>, dist: seq<nat>, ts: seq<Token>)
    requires Used(lit, 256) && TokensOk(lit, dist, ts)
    ensures var bits := TokenBits(lit, dist, ts); bits[|bits| - 1] == CodeOf(lit, 256) % 2
    decreases |ts|
  {
    hide CodeOf, Token.Bits, Token.Ok;
    if |ts| > 0 { LastTokenBit(lit, dist, ts[1..]); }
  }

  /** A one is never read past the input. */
  lemma OneInside(data: seq<byte>, pos: nat, bits: seq<nat>)
    requires At(data, pos, bits) && |bits| > 0 && bits[|bits| - 1] == 1
    ensures pos + |bits| <= 8 * |data|
  {
    assert StreamBit(data, pos + (|bits| - 1)) == 1;
  }

  /** The block ends in bits that zeros past the input cannot stand for: a stored block, or an
      end-of-block code whose last bit is a one. */
  ghost predicate EndsInOne(b: Block)
  {
    match b
    case StoredBlock(_, _) => true
    case FixedBlock(_) => false
    case DynamicBlock(h, _) => Used(h.lit, 256) && CodeOf(h.lit, 256) % 2 == 1
  }

  // ----- blocks of literals -----

  predicate Literals(ts: seq<Token>)
  {
    forall i :: 0 <= i < |ts| ==> ts[i].Literal?
  }

  /** The window was last filled inside the input, or not far behind it. */
  predicate Near(data: seq<byte>, w: Window)
  {
    Sane(data, w) && w.fed <= 8 * |data| + (if w.hit then 48 else 32)
  }

  /** Codes alone refill the window only inside the input. */
  lemma CodeKeepsNear(data: seq<byte>, lens: seq<nat>, w: Window)
    requires Near(data, w) && NextSymbol(data, lens, w).Symbol? && Lengths(lens, 15)
    ensures Near(data, NextSymbol(data, lens, w).w)
  {
    hide SymbolAt;
  }

  lemma {:induction false} LiteralsEnd(
    data: seq<byte>, lit: seq<nat>, dist: seq<nat>, w: Window, out: seq<byte>, cap: nat, ts: seq<Token>)
    requires Fits(lit) && Lengths(lit, 15) && Used(lit, 256) && TokensOk(lit, dist, ts) && Literals(ts)
    requires Near(data, w) && At(data, w.pos, TokenBits(lit, dist, ts))
    requires |out| <= cap && ExactSymbols(data, lit, dist, w, out, cap).Got?
    ensures ExactSymbols(data, lit, dist, w, out, cap).w.pos <= 8 * |data| + 32
    decreases |ts|
  {
    hide SymbolBits, SymbolAt, NextSymbol, Fits, ExactSymbols, Near, Used, Token.Bits, Lengths;
    ExactStep(data, lit, dist, w, out, cap);
    NextAgrees(data, lit, w);
    var n := NextSymbol(data, lit, w);
    CodeKeepsNear(data, lit, w);
    if |ts| == 0 {
      SymbolBitsAt(lit, data, w.pos, 256);
      NearEnd(data, n.w);
    } else {
      TokenSplits(data, lit, dist, w.pos, ts);
      SymbolBitsAt(lit, data, w.pos, ts[0].b);
      LiteralsEnd(data, lit, dist, n.w, out + [n.z], cap, ts[1..]);
    }
  }

  lemma NearEnd(data: seq<byte>, w: Window)
    requires Near(data, w) && !(w.hit && w.fed < w.pos + 16)
    ensures w.pos <= 8 * |data| + 32
  {}

  lemma TokenSplits(data: seq<byte>, lit: seq<nat>, dist: seq<nat>, pos: nat, ts: seq<Token>)
    requires |ts| > 0 && Used(lit, 256) && TokensOk(lit, dist, ts) && ts[0].Literal?
    requires At(data, pos, TokenBits(lit, dist, ts))
    ensures Used(lit, ts[0].b) && At(data, pos, SymbolBits(lit, ts[0].b))
    ensures At(data, pos + lit[ts[0].b], TokenBits(lit, dist, ts[1..]))
  {
    hide SymbolBits, At;
    assert ts[0].Ok(lit, dist);
    AtConcat(data, pos, SymbolBits(lit, ts[0].b), TokenBits(lit, dist, ts[1..]));
  }

  // ----- whole streams -----

  /** Where the body of the last block starts. */
  ghost function LastPos(blocks: seq<Block>, pos: nat): nat
    requires StreamOk(blocks, pos)
    decreases |blocks|
  {
    hide Block.Ok, Block.Bits;
    if |blocks| == 1 then pos + 3
    else LastPos(blocks[1..], pos + 3 + |blocks[0].Bits(pos + 3)|)
  }

  /** The symbols of the block are literals; those behind a dynamic header start inside the input. */
  ghost predicate LiteralTail(data: seq<byte>, b: Block, pos: nat)
  {
    match b
    case StoredBlock(_, _) => true
    case FixedBlock(ts) => Literals(ts)
    case DynamicBlock(h, ts) => Literals(ts) && h.Ok() && pos + |h.Bits()| <= 8 * |data|
  }

  /** The end of the last block, which starts inside the input. */
  lemma LastBlockEnd(data: seq<byte>, w: Window, out: seq<byte>, cap: nat, b: Block)
    requires Sane(data, w) && w.pos < 8 * |data| && |out| <= cap && b.Ok(w.pos + 3)
    requires At(data, w.pos + 3, b.Bits(w.pos + 3))
    requires ExactBody(data, b.Kind(), TakeHeader(w), out, cap).Got?
    requires ExactBody(data, b.Kind(), TakeHeader(w), out, cap).w.pos == w.pos + 3 + |b.Bits(w.pos + 3)|
    ensures var e := ExactBody(data, b.Kind(), TakeHeader(w), out, cap);
            (EndsInOne(b) ==> e.w.pos <= 8 * |data|)
            && (LiteralTail(data, b, w.pos + 3) ==> e.w.pos <= 8 * |data| + 32)
  {
    hide At, Fits, Header.Ok, Header.Bits, TokenBits, ExactSymbols, ExactStored, FixedLengths, Repeat, ExactDynamic,
         Align, StoredBits, TakeHeader, Sane, Near, CodeOf, Lengths, Used, Literals, Token.Ok;
    var v := TakeHeader(w);
    match b
    case StoredBlock(_, _) =>
    case FixedBlock(ts) =>
      FixedFit();
      HeaderNear(data, w);
      if Literals(ts) { LiteralsEnd(data, FixedLengths(288), Repeat(5, 32), v, out, cap, ts); }
    case DynamicBlock(h, ts) =>
      var p := w.pos + 3;
      CountsSane(data, w);
      AtConcat(data, p, h.Bits(), TokenBits(h.lit, h.dist, ts));
      DynamicEnd(data, v, out, cap, h, ts);
  }

  lemma DynamicEnd(data: seq<byte>, v: Window, out: seq<byte>, cap: nat, h: Header, ts: seq<Token>)
    requires |out| <= cap && h.Ok() && Used(h.lit, 256) && TokensOk(h.lit, h.dist, ts)
    requires At(data, v.pos, h.Bits()) && At(data, v.pos + |h.Bits()|, TokenBits(h.lit, h.dist, ts))
    requires Sane(data, v) && ExactBody(data, 2, v, out, cap).Got?
    requires ExactBody(data, 2, v, out, cap).w.pos == v.pos + |h.Bits()| + |TokenBits(h.lit, h.dist, ts)|
    ensures CodeOf(h.lit, 256) % 2 == 1 ==> ExactBody(data, 2, v, out, cap).w.pos <= 8 * |data|
    ensures Literals(ts) && v.pos + |h.Bits()| <= 8 * |data| ==>
              ExactBody(data, 2, v, out, cap).w.pos <= 8 * |data| + 32
  {
    hide At, Fits, Header.Ok, Header.Bits, TokenBits, ExactSymbols, ExactDynamic, RefDynamic, Sane, Near, CodeOf,
         Lengths, Used, Literals, Token.Ok;
    HeaderFits(h);
    HeaderRoundTrip(data, v.pos, h);
    DynamicAgrees(data, v);
    var c := ExactDynamic(data, v);
    LastTokenBit(h.lit, h.dist, ts);
    if CodeOf(h.lit, 256) % 2 == 1 {
      OneInside(data, v.pos + |h.Bits()|, TokenBits(h.lit, h.dist, ts));
    }
    if Literals(ts) && c.w.pos <= 8 * |data| {
      SaneNear(data, c.w);
      LiteralsEnd(data, c.lit, c.dist, c.w, out, cap, ts);
    }
  }

  lemma SaneNear(data: seq<byte>, w: Window)
    requires Sane(data, w) && w.pos <= 8 * |data|
    ensures Near(data, w)
  {}

  /** Three bits past a place inside the input. */
  lemma HeaderNear(data: seq<byte>, w: Window)
    requires Sane(data, w) && w.pos < 8 * |data|
    ensures Near(data, TakeHeader(w)) && Sane(data, TakeHeader(w))
  {}

  /** Bits `pos..end` of the input, zeros appended, are these blocks, and they turn `before` into `out`. */
  ghost predicate Encodes(data: seq<byte>, blocks: seq<Block>, pos: nat, end: nat, before: seq<byte>, out: seq<byte>)
  {
    && StreamOk(blocks, pos) && At(data, pos, StreamBits(blocks, pos))
    && end == pos + |StreamBits(blocks, pos)| && StreamOutput(blocks, pos, before) == Some(out)
  }

  /** How far past the input a stream can end, by its last block: not at all when that is stored or
      its end-of-block code ends in a one, and at most four bytes when it is made of literals. */
  ghost predicate EndBounds(data: seq<byte>, blocks: seq<Block>, pos: nat, end: nat)
    requires StreamOk(blocks, pos)
  {
    var b := blocks[|blocks| - 1];
    && (EndsInOne(b) ==> end <= 8 * |data|)
    && (LiteralTail(data, b, LastPos(blocks, pos)) ==> end <= 8 * |data| + 32)
  }

  /** One block behind its header. */
  ghost predicate Written(
    data: seq<byte>, b: Block, last: bool, pos: nat, end: nat, before: seq<byte>, out: seq<byte>)
  {
    && b.Ok(pos + 3) && At(data, pos, BlockHeader(b, last)) && At(data, pos + 3, b.Bits(pos + 3))
    && end == pos + 3 + |b.Bits(pos + 3)| && b.Apply(pos + 3, before) == Some(out)
  }

  lemma Prepended(data: seq<byte>, b: Block, rest: seq<Block>, pos: nat, mid: nat, end: nat, before: seq<byte>,
        between: seq<byte>, out: seq<byte>)
    requires Written(data, b, false, pos, mid, before, between)
    requires Encodes(data, rest, mid, end, between, out) && EndBounds(data, rest, mid, end)
    ensures Encodes(data, [b] + rest, pos, end, before, out) && EndBounds(data, [b] + rest, pos, end)
  {
    hide Block.Ok, Block.Bits, Block.Apply, BlockHeader, EndsInOne, LiteralTail, At;
    var bits := b.Bits(pos + 3);
    assert ([b] + rest)[1..] == rest;
    AtConcat(data, pos, BlockHeader(b, false), bits);
    AtConcat(data, pos, BlockHeader(b, false) + bits, StreamBits(rest, mid));
  }

  lemma NextStartsInside(data: seq<byte>, w: Window, out: seq<byte>, cap: nat)
    requires |out| <= cap && ExactBlocks(data, w, out, cap).Got?
    ensures w.pos < 8 * |data|
  {
    hide ExactBlocks, ExactBody, Val, TakeHeader;
    ExactBlocksStep(data, w, out, cap);
  }

  /** What is accepted from one block on is an encoding of blocks; the last of them decides where it ends. */
  lemma {:induction false} BlocksEnd(data: seq<byte>, w: Window, out: seq<byte>, cap: nat)
      returns (blocks: seq<Block>)
    requires Sane(data, w) && |out| <= cap && ExactBlocks(data, w, out, cap).Got?
    ensures var e := ExactBlocks(data, w, out, cap);
            Encodes(data, blocks, w.pos, e.w.pos, out, e.out) && EndBounds(data, blocks, w.pos, e.w.pos)
    decreases 8 * |data| - w.pos
  {
    hide Block.Ok, Block.Bits, Block.Apply, Block.Kind, BlockHeader, ExactBlocks, ExactBody, RefBody, Val, Sane,
         TakeHeader, EndsInOne, LiteralTail;
    ExactBlocksStep(data, w, out, cap);
    var kind := Val(data, w.pos + 1, 2);
    CountsSane(data, w);
    BodyAgrees(data, kind, TakeHeader(w), out, cap);
    var e := ExactBody(data, kind, TakeHeader(w), out, cap);
    var b := BlockFound(data, kind, w.pos + 3, out, cap);
    var bits := b.Bits(w.pos + 3);
    var last := Val(data, w.pos, 1) == 1;
    BlockHeaderAt(data, w.pos, b, last);
    if last {
      blocks := [b];
      AtConcat(data, w.pos, BlockHeader(b, last), bits);
      AtConcat(data, w.pos, BlockHeader(b, last) + bits, []);
      LastBlockEnd(data, w, out, cap, b);
    } else {
      NextStartsInside(data, e.w, e.out, cap);
      var rest := BlocksEnd(data, e.w, e.out, cap);
      blocks := [b] + rest;
      var r := ExactBlocks(data, e.w, e.out, cap);
      Prepended(data, b, rest, w.pos, e.w.pos, r.w.pos, out, e.out, r.out);
    }
  }

  /** The program accepts encodings of blocks only, and the last block bounds what it accepts past
      the end of the input. */
  lemma AcceptedEnd(data: seq<byte>, header: bool, cap: nat) returns (blocks: seq<Block>)
    requires ExactZlib(data, header, cap).Got?
    ensures var e, pos := ExactZlib(data, header, cap), StartOf(header);
            Encodes(data, blocks, pos, e.w.pos, [], e.out) && EndBounds(data, blocks, pos, e.w.pos)
  {
    hide ExactBlocks, Encodes, EndBounds, HeaderOk;
    blocks := BlocksEnd(data, Start(header), [], cap);
  }

  lemma {:induction false} StreamEndsInOne(blocks: seq<Block>, pos: nat)
    requires StreamOk(blocks, pos)
    requires EndsInOne(blocks[|blocks| - 1]) && !blocks[|blocks| - 1].StoredBlock?
    ensures var bits := StreamBits(blocks, pos); |bits| > 0 && bits[|bits| - 1] == 1
    decreases |blocks|
  {
    hide Block.Ok, Block.Bits, EndsInOne, BlockHeader;
    if |blocks| == 1 {
      BlockEndsInOne(blocks[0], pos + 3);
    } else {
      StreamEndsInOne(blocks[1..], pos + 3 + |blocks[0].Bits(pos + 3)|);
    }
  }

  lemma BlockEndsInOne(b: Block, pos: nat)
    requires b.Ok(pos) && EndsInOne(b) && !b.StoredBlock?
    ensures var bits := b.Bits(pos); |bits| > 0 && bits[|bits| - 1] == 1
  {
    hide Header.Ok, Header.Bits, CodeOf, Fits, TokenBits, Used, Token.Ok;
    LastTokenBit(b.h.lit, b.h.dist, b.ts);
  }

  ghost predicate LastEndsInOne(blocks: seq<Block>)
  {
    |blocks| > 0 && EndsInOne(blocks[|blocks| - 1])
  }

  lemma LastDecides(data: seq<byte>, header: bool, cap: nat, blocks: seq<Block>)
    requires RefZlib(data, header, cap).Done? && LastEndsInOne(blocks)
    requires StreamOk(blocks, StartOf(header)) && At(data, StartOf(header), StreamBits(blocks, StartOf(header)))
    requires RefZlib(data, header, cap).pos == StartOf(header) + |StreamBits(blocks, StartOf(header))|
    requires blocks[|blocks| - 1].StoredBlock? ==> RefZlib(data, header, cap).pos <= 8 * |data|
    ensures RefZlib(data, header, cap).pos <= 8 * |data| && ExactZlib(data, header, cap).Got?
  {
    hide RefZlib, ExactZlib, StreamOk, StreamBits, At, EndsInOne;
    if !blocks[|blocks| - 1].StoredBlock? {
      StreamEndsInOne(blocks, StartOf(header));
      OneInside(data, StartOf(header), StreamBits(blocks, StartOf(header)));
    }
    ZlibAgrees(data, header, cap);
  }

  /** Both decoders end at the same place inside the input, with the same output. */
  ghost predicate SameInside(data: seq<byte>, e: Exact, r: Outcome)
  {
    e.Got? && r == Done(e.w.pos, e.out) && r.pos <= 8 * |data|
  }

  ghost predicate Stands(data: seq<byte>, blocks: seq<Block>, pos: nat, r: Outcome)
  {
    r.Done? && Encodes(data, blocks, pos, r.pos, [], r.out)
  }

  /** When the last block of what the reference decoder reads is stored or its end-of-block code ends
      in a one, the end-of-input check is exact: the program gives the same result. */
  lemma CheckIsExact(data: seq<byte>, header: bool, cap: nat) returns (blocks: seq<Block>)
    requires RefZlib(data, header, cap).Done?
    ensures Stands(data, blocks, StartOf(header), RefZlib(data, header, cap))
    ensures LastEndsInOne(blocks) ==> SameInside(data, ExactZlib(data, header, cap), RefZlib(data, header, cap))
  {
    hide RefBlocks, ExactZlib, StreamOk, StreamBits, StreamOutput, At, EndsInOne, HeaderOk;
    blocks := StreamFound(data, StartOf(header), [], cap);
    if LastEndsInOne(blocks) {
      LastDecides(data, header, cap, blocks);
      ZlibAgrees(data, header, cap);
    }
  }
}
