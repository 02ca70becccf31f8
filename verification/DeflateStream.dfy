/** Whole DEFLATE streams: encoding any list of blocks, and the theorems that tie the reference
    decoder to it in both directions. */
module DeflateStream {
  import opened Bits
  import opened BitStrings
  import opened Canonical
  import opened Deflate
  import opened DeflateEncode

  function ByteBits(bytes: seq<byte>): (bits: seq<nat>)
    ensures |bits| == 8 * |bytes|
  {
    if |bytes| == 0 then [] else Lsb(bytes[0], 8) + ByteBits(bytes[1..])
  }

  /** Aligned bytes inside the input are the input's bytes. */
  lemma {:induction false} ByteBitsAt(data: seq<byte>, s: nat, bytes: seq<byte>)
    requires s + |bytes| <= |data|
    ensures At(data, 8 * s, ByteBits(bytes)) <==> data[s..s + |bytes|] == bytes
    decreases |bytes|
  {
    hide Val, Lsb;
    if |bytes| > 0 {
      SmallPowers();
      AtConcat(data, 8 * s, Lsb(bytes[0], 8), ByteBits(bytes[1..]));
      LsbAt(data, 8 * s, bytes[0], 8);
      ValByte(data, s);
      ByteBitsAt(data, s + 1, bytes[1..]);
      assert 8 * s + 8 == 8 * (s + 1);
      var d := data[s..s + |bytes|];
      assert d == [data[s]] + data[s + 1..s + 1 + |bytes[1..]|];
      assert bytes == [bytes[0]] + bytes[1..];
      if d == bytes {
        assert d[0] == bytes[0] && d[1..] == bytes[1..];
      }
    }
  }

  datatype Block =
    | StoredBlock(pad: seq<nat>, bytes: seq<byte>)
    | FixedBlock(ts: seq<Token>)
    | DynamicBlock(h: Header, ts: seq<Token>)
  {
    function Kind(): (k: nat)
      ensures k < 3
    {
      match this
      case StoredBlock(_, _) => 0
      case FixedBlock(_) => 1
      case DynamicBlock(_, _) => 2
    }

    /** The block can be written with its body starting at bit `pos`. */
    ghost predicate Ok(pos: nat)
    {
      match this
      case StoredBlock(pad, bytes) => |pad| == Align(pos) - pos && |bytes| <= 0xffff
      case FixedBlock(ts) =>
        Used(FixedLengths(288), 256) && TokensOk(FixedLengths(288), Repeat(5, 32), ts)
      case DynamicBlock(h, ts) => h.Ok() && Used(h.lit, 256) && TokensOk(h.lit, h.dist, ts)
    }

    ghost function Bits(pos: nat): seq<nat>
      requires Ok(pos)
    {
      match this
      case StoredBlock(pad, bytes) => pad + StoredBits(bytes)
      case FixedBlock(ts) => TokenBits(FixedLengths(288), Repeat(5, 32), ts)
      case DynamicBlock(h, ts) => h.Bits() + TokenBits(h.lit, h.dist, ts)
    }

    /** The output after the block. */
    ghost function Apply(pos: nat, out: seq<byte>): (r: Option<seq<byte>>)
      requires Ok(pos)
      ensures r.Some? ==> |r.value| >= |out|
    {
      match this
      case StoredBlock(pad, bytes) => Some(out + bytes)
      case FixedBlock(ts) => Expand(out, ts)
      case DynamicBlock(h, ts) => Expand(out, ts)
    }
  }

  /** LEN, its complement and the payload. */
  function StoredBits(bytes: seq<byte>): (bits: seq<nat>)
    requires |bytes| <= 0xffff
    ensures |bits| == 32 + 8 * |bytes|
  {
    Lsb(|bytes|, 16) + Lsb(0xffff - |bytes|, 16) + ByteBits(bytes)
  }

  /** A stored block's bits are in the stream exactly when the reference decoder copies its payload. */
  lemma StoredAt(data: seq<byte>, pos: nat, out: seq<byte>, cap: nat, bytes: seq<byte>)
    requires |bytes| <= 0xffff && |out| + |bytes| <= cap
    requires Align(pos) / 8 + 4 + |bytes| <= |data|
    ensures At(data, Align(pos), StoredBits(bytes)) <==>
            RefStored(data, pos, out, cap) == Done(Align(pos) + 32 + 8 * |bytes|, out + bytes)
  {
    hide Val, Lsb, ByteBits, Align;
    AlignsToByte(pos);
    SmallPowers();
    var p := Align(pos);
    var (a, b, c) := (Lsb(|bytes|, 16), Lsb(0xffff - |bytes|, 16), ByteBits(bytes));
    AtConcat(data, p, a + b, c);
    AtConcat(data, p, a, b);
    LsbAt(data, p, |bytes|, 16);
    LsbAt(data, p + 16, 0xffff - |bytes|, 16);
    var start := p / 8 + 4;
    assert p + 32 == 8 * start;
    ByteBitsAt(data, start, bytes);
    var r := RefStored(data, pos, out, cap);
    if r == Done(p + 32 + 8 * |bytes|, out + bytes) {
      assert r.out[|out|..] == data[start..start + |bytes|];
      assert r.out[|out|..] == bytes;
    }
  }

  lemma AlignsToByte(pos: nat)
    ensures Align(pos) % 8 == 0 && Align(pos) == 8 * (Align(pos) / 8)
  {}

  lemma StoredRoundTrip(data: seq<byte>, pos: nat, out: seq<byte>, cap: nat, pad: seq<nat>, bytes: seq<byte>)
    requires |pad| == Align(pos) - pos && |bytes| <= 0xffff && At(data, pos, pad + StoredBits(bytes))
    requires |out| + |bytes| <= cap && Align(pos) + 32 + 8 * |bytes| <= 8 * |data|
    ensures RefStored(data, pos, out, cap) == Done(Align(pos) + 32 + 8 * |bytes|, out + bytes)
  {
    hide RefStored, Align, StoredBits;
    AtConcat(data, pos, pad, StoredBits(bytes));
    AlignsToByte(pos);
    StoredAt(data, pos, out, cap, bytes);
  }

  lemma DynamicRoundTrip(data: seq<byte>, pos: nat, out: seq<byte>, cap: nat, h: Header, ts: seq<Token>)
    requires h.Ok() && Used(h.lit, 256) && TokensOk(h.lit, h.dist, ts)
    requires At(data, pos, h.Bits() + TokenBits(h.lit, h.dist, ts))
    requires Expand(out, ts).Some? && |Expand(out, ts).value| <= cap
    ensures RefDynamic(data, pos) == Codes(pos + |h.Bits()|, h.lit, h.dist)
    ensures RefSymbols(data, h.lit, h.dist, pos + |h.Bits()|, out, cap)
            == Done(pos + |h.Bits()| + |TokenBits(h.lit, h.dist, ts)|, Expand(out, ts).value)
  {
    hide Fits, Header.Ok, Header.Bits, TokenBits, Expand, RefSymbols, RefDynamic;
    HeaderFits(h);
    AtConcat(data, pos, h.Bits(), TokenBits(h.lit, h.dist, ts));
    HeaderRoundTrip(data, pos, h);
    TokensRoundTrip(data, h.lit, h.dist, pos + |h.Bits()|, out, cap, ts);
  }

  /** The reference decoder inverts the encoding of one block. */
  lemma BlockRoundTrip(data: seq<byte>, pos: nat, out: seq<byte>, cap: nat, b: Block)
    requires b.Ok(pos) && At(data, pos, b.Bits(pos))
    requires b.Apply(pos, out).Some? && |b.Apply(pos, out).value| <= cap
    requires pos + |b.Bits(pos)| <= 8 * |data|
    ensures RefBody(data, b.Kind(), pos, out, cap) == Done(pos + |b.Bits(pos)|, b.Apply(pos, out).value)
  {
    hide At, Fits, Header.Ok, Header.Bits, TokenBits, Expand, RefSymbols, RefStored, FixedLengths, Repeat, RefDynamic,
         Align, StoredBits;
    match b
    case StoredBlock(pad, bytes) =>
      StoredRoundTrip(data, pos, out, cap, pad, bytes);
    case FixedBlock(ts) =>
      FixedFit();
      TokensRoundTrip(data, FixedLengths(288), Repeat(5, 32), pos, out, cap, ts);
    case DynamicBlock(h, ts) =>
      DynamicRoundTrip(data, pos, out, cap, h, ts);
  }

  lemma HeaderFits(h: Header)
    requires h.Ok()
    ensures Fits(h.lit) && Fits(h.dist)
  {}

  /** Bits `pos..end` of the stream. */
  function BitRange(data: seq<byte>, pos: nat, end: nat): (bits: seq<nat>)
    requires pos <= end
    ensures |bits| == end - pos && At(data, pos, bits)
    decreases end - pos
  {
    if pos == end then []
    else
      var bits := BitRange(data, pos, end - 1) + [StreamBit(data, end - 1)];
      assert At(data, pos, bits) by {
        AtConcat(data, pos, BitRange(data, pos, end - 1), [StreamBit(data, end - 1)]);
      }
      bits
  }

  lemma StoredFound(data: seq<byte>, pos: nat, out: seq<byte>, cap: nat) returns (pad: seq<nat>, bytes: seq<byte>)
    requires |out| <= cap && RefStored(data, pos, out, cap).Done?
    ensures |pad| == Align(pos) - pos && |bytes| <= 0xffff && At(data, pos, pad + StoredBits(bytes))
    ensures RefStored(data, pos, out, cap) == Done(Align(pos) + 32 + 8 * |bytes|, out + bytes)
  {
    hide Align, StoredBits, BitRange, Val;
    var p := Align(pos);
    AlignsToByte(pos);
    var len := Val(data, p, 16);
    ValBound(data, p, 16);
    SmallPowers();
    bytes := data[p / 8 + 4..p / 8 + 4 + len];
    pad := BitRange(data, pos, p);
    StoredAt(data, pos, out, cap, bytes);
    AtConcat(data, pos, pad, StoredBits(bytes));
  }

  lemma DynamicFound(data: seq<byte>, pos: nat, out: seq<byte>, cap: nat) returns (h: Header, ts: seq<Token>)
    requires |out| <= cap && RefDynamic(data, pos).Codes?
    requires var c := RefDynamic(data, pos); RefSymbols(data, c.lit, c.dist, c.pos, out, cap).Done?
    ensures h.Ok() && Used(h.lit, 256) && TokensOk(h.lit, h.dist, ts)
    ensures At(data, pos, h.Bits() + TokenBits(h.lit, h.dist, ts))
    ensures Expand(out, ts).Some?
    ensures RefDynamic(data, pos) == Codes(pos + |h.Bits()|, h.lit, h.dist)
    ensures RefSymbols(data, h.lit, h.dist, pos + |h.Bits()|, out, cap)
            == Done(pos + |h.Bits()| + |TokenBits(h.lit, h.dist, ts)|, Expand(out, ts).value)
  {
    hide Fits, Header.Ok, Header.Bits, TokenBits, Expand, RefSymbols, RefDynamic;
    h := HeaderFound(data, pos);
    HeaderFits(h);
    ts := TokensFound(data, h.lit, h.dist, pos + |h.Bits()|, out, cap);
    AtConcat(data, pos, h.Bits(), TokenBits(h.lit, h.dist, ts));
  }

  /** Whatever block the reference decoder accepts is the encoding of some block. */
  lemma BlockFound(data: seq<byte>, kind: nat, pos: nat, out: seq<byte>, cap: nat) returns (b: Block)
    requires |out| <= cap && RefBody(data, kind, pos, out, cap).Done?
    ensures b.Kind() == kind && b.Ok(pos) && At(data, pos, b.Bits(pos))
    ensures b.Apply(pos, out).Some?
    ensures RefBody(data, kind, pos, out, cap) == Done(pos + |b.Bits(pos)|, b.Apply(pos, out).value)
    ensures b.StoredBlock? ==> RefBody(data, kind, pos, out, cap).pos <= 8 * |data|
  {
    hide At, Fits, Header.Ok, Header.Bits, TokenBits, Expand, RefSymbols, RefStored, FixedLengths, Repeat, RefDynamic,
         Align, StoredBits;
    if kind == 0 {
      var pad, bytes := StoredFound(data, pos, out, cap);
      b := StoredBlock(pad, bytes);
    } else if kind == 1 {
      FixedFit();
      var ts := TokensFound(data, FixedLengths(288), Repeat(5, 32), pos, out, cap);
      b := FixedBlock(ts);
    } else {
      var h, ts := DynamicFound(data, pos, out, cap);
      b := DynamicBlock(h, ts);
    }
  }

  // ----- streams -----

  /** Three header bits: the last-block flag, then the type. */
  function BlockHeader(b: Block, last: bool): (bits: seq<nat>)
    ensures |bits| == 3
  {
    Lsb(if last then 1 else 0, 1) + Lsb(b.Kind(), 2)
  }

  lemma BlockHeaderAt(data: seq<byte>, pos: nat, b: Block, last: bool)
    ensures At(data, pos, BlockHeader(b, last)) <==>
            Val(data, pos, 1) == (if last then 1 else 0) && Val(data, pos + 1, 2) == b.Kind()
  {
    hide Lsb, Val, Block.Kind;
    SmallPowers();
    var f := if last then 1 else 0;
    AtConcat(data, pos, Lsb(f, 1), Lsb(b.Kind(), 2));
    LsbAt(data, pos, f, 1);
    LsbAt(data, pos + 1, b.Kind(), 2);
  }

  ghost predicate StreamOk(blocks: seq<Block>, pos: nat)
    decreases |blocks|
  {
    |blocks| > 0 && blocks[0].Ok(pos + 3)
    && (|blocks| > 1 ==> StreamOk(blocks[1..], pos + 3 + |blocks[0].Bits(pos + 3)|))
  }

  /** The stream that starts at bit `pos`: each block behind its header, the last one flagged. */
  ghost function StreamBits(blocks: seq<Block>, pos: nat): (bits: seq<nat>)
    requires StreamOk(blocks, pos)
    decreases |blocks|
  {
    hide Block.Ok, Block.Bits;
    var b := blocks[0].Bits(pos + 3);
    BlockHeader(blocks[0], |blocks| == 1) + b
    + if |blocks| == 1 then [] else StreamBits(blocks[1..], pos + 3 + |b|)
  }

  /** What the blocks stand for, after the output `out`. */
  ghost function StreamOutput(blocks: seq<Block>, pos: nat, out: seq<byte>): (r: Option<seq<byte>>)
    requires StreamOk(blocks, pos)
    ensures r.Some? ==> |r.value| >= |out|
    decreases |blocks|
  {
    hide Block.Ok, Block.Bits, Block.Apply;
    match blocks[0].Apply(pos + 3, out)
    case None => None
    case Some(o) =>
      if |blocks| == 1 then Some(o)
      else StreamOutput(blocks[1..], pos + 3 + |blocks[0].Bits(pos + 3)|, o)
  }

  /** The reference decoder reads one encoded block and carries on with its effect. */
  lemma BlockRead(data: seq<byte>, pos: nat, out: seq<byte>, cap: nat, b: Block, last: bool)
    requires b.Ok(pos + 3) && At(data, pos, BlockHeader(b, last) + b.Bits(pos + 3))
    requires b.Apply(pos + 3, out).Some? && |b.Apply(pos + 3, out).value| <= cap
    requires pos + 3 + |b.Bits(pos + 3)| <= 8 * |data|
    ensures var p, o := pos + 3 + |b.Bits(pos + 3)|, b.Apply(pos + 3, out).value;
            RefBlocks(data, pos, out, cap) == if last then Done(p, o) else RefBlocks(data, p, o, cap)
  {
    hide At, Block.Ok, Block.Bits, Block.Apply, Block.Kind, BlockHeader, RefBlocks, RefBody, Val;
    AtConcat(data, pos, BlockHeader(b, last), b.Bits(pos + 3));
    BlockHeaderAt(data, pos, b, last);
    BlockRoundTrip(data, pos + 3, out, cap, b);
    BlocksStep(data, pos, out, cap);
  }

  /** Decoding any encoded list of blocks gives what the blocks stand for. */
  lemma {:induction false} StreamRoundTrip(data: seq<byte>, pos: nat, out: seq<byte>, cap: nat, blocks: seq<Block>)
    requires StreamOk(blocks, pos) && At(data, pos, StreamBits(blocks, pos))
    requires pos + |StreamBits(blocks, pos)| <= 8 * |data|
    requires StreamOutput(blocks, pos, out).Some? && |StreamOutput(blocks, pos, out).value| <= cap
    ensures |out| <= cap
    ensures RefBlocks(data, pos, out, cap)
            == Done(pos + |StreamBits(blocks, pos)|, StreamOutput(blocks, pos, out).value)
    decreases |blocks|
  {
    hide At, Block.Ok, Block.Bits, Block.Apply, BlockHeader, RefBlocks;
    var b := blocks[0];
    var bits := b.Bits(pos + 3);
    var o := b.Apply(pos + 3, out).value;
    if |blocks| == 1 {
      assert BlockHeader(b, true) + bits + [] == BlockHeader(b, true) + bits;
      BlockRead(data, pos, out, cap, b, true);
    } else {
      AtConcat(data, pos, BlockHeader(b, false) + bits, StreamBits(blocks[1..], pos + 3 + |bits|));
      StreamRoundTrip(data, pos + 3 + |bits|, o, cap, blocks[1..]);
      BlockRead(data, pos, out, cap, b, false);
    }
  }

  /** Whatever stream the reference decoder accepts is the encoding of some list of blocks, inside
      the input when the last of them is stored. */
  lemma {:induction false} StreamFound(data: seq<byte>, pos: nat, out: seq<byte>, cap: nat) returns (blocks: seq<Block>)
    requires |out| <= cap && RefBlocks(data, pos, out, cap).Done?
    ensures StreamOk(blocks, pos) && At(data, pos, StreamBits(blocks, pos))
    ensures StreamOutput(blocks, pos, out).Some?
    ensures RefBlocks(data, pos, out, cap)
            == Done(pos + |StreamBits(blocks, pos)|, StreamOutput(blocks, pos, out).value)
    ensures blocks[|blocks| - 1].StoredBlock? ==> RefBlocks(data, pos, out, cap).pos <= 8 * |data|
    decreases 8 * |data| - pos
  {
    hide Block.Ok, Block.Bits, Block.Apply, Block.Kind, BlockHeader, RefBlocks, RefBody, Val;
    BlocksStep(data, pos, out, cap);
    var b := BlockFound(data, Val(data, pos + 1, 2), pos + 3, out, cap);
    var bits := b.Bits(pos + 3);
    var o := b.Apply(pos + 3, out).value;
    var last := Val(data, pos, 1) == 1;
    BlockHeaderAt(data, pos, b, last);
    AtConcat(data, pos, BlockHeader(b, last), bits);
    if last {
      blocks := [b];
      AtConcat(data, pos, BlockHeader(b, last) + bits, []);
    } else {
      var rest := StreamFound(data, pos + 3 + |bits|, o, cap);
      blocks := [b] + rest;
      assert blocks[1..] == rest;
      AtConcat(data, pos, BlockHeader(b, last) + bits, StreamBits(rest, pos + 3 + |bits|));
    }
  }

  // ----- the output limit -----

  lemma {:induction false} SymbolsCap(
    data: seq<byte>, lit: seq<nat>, dist: seq<nat>, pos: nat, out: seq<byte>, c1: nat, c2: nat)
    requires |out| <= c1 && |out| <= c2
    requires RefSymbols(data, lit, dist, pos, out, c1).Done? && |RefSymbols(data, lit, dist, pos, out, c1).out| <= c2
    ensures RefSymbols(data, lit, dist, pos, out, c2) == RefSymbols(data, lit, dist, pos, out, c1)
    decreases c1 - |out|
  {
    hide RefSymbols, CopyMatch, SymbolAt, RefPair;
    SymbolsStep(data, lit, dist, pos, out, c1);
    SymbolsStep(data, lit, dist, pos, out, c2);
    var z := SymbolAt(lit, data, pos).value;
    var p := pos + lit[z];
    if z < 256 {
      SymbolsCap(data, lit, dist, p, out + [z], c1, c2);
    } else if z > 256 {
      var pair := RefPair(data, dist, p, z - 257);
      SymbolsCap(data, lit, dist, pair.pos, CopyMatch(out, pair.dist, pair.len), c1, c2);
    }
  }

  lemma BodyCap(data: seq<byte>, kind: nat, pos: nat, out: seq<byte>, c1: nat, c2: nat)
    requires |out| <= c1 && |out| <= c2
    requires RefBody(data, kind, pos, out, c1).Done? && |RefBody(data, kind, pos, out, c1).out| <= c2
    ensures RefBody(data, kind, pos, out, c2) == RefBody(data, kind, pos, out, c1)
  {
    hide RefSymbols, RefDynamic, Val, FixedLengths, Repeat;
    if kind == 1 {
      SymbolsCap(data, FixedLengths(288), Repeat(5, 32), pos, out, c1, c2);
    } else if kind == 2 {
      var c := RefDynamic(data, pos);
      SymbolsCap(data, c.lit, c.dist, c.pos, out, c1, c2);
    }
  }

  /** Growth is transparent: any limit that holds the output gives the same output. */
  lemma {:induction false} BlocksCap(data: seq<byte>, pos: nat, out: seq<byte>, c1: nat, c2: nat)
    requires |out| <= c1 && |out| <= c2
    requires RefBlocks(data, pos, out, c1).Done? && |RefBlocks(data, pos, out, c1).out| <= c2
    ensures RefBlocks(data, pos, out, c2) == RefBlocks(data, pos, out, c1)
    decreases 8 * |data| - pos
  {
    hide RefBlocks, RefBody, Val;
    BlocksStep(data, pos, out, c1);
    BlocksStep(data, pos, out, c2);
    var kind := Val(data, pos + 1, 2);
    var r := RefBody(data, kind, pos + 3, out, c1);
    if Val(data, pos, 1) != 1 {
      assert |r.out| <= |RefBlocks(data, r.pos, r.out, c1).out|;
    }
    BodyCap(data, kind, pos + 3, out, c1, c2);
    if Val(data, pos, 1) != 1 { BlocksCap(data, r.pos, r.out, c1, c2); }
  }

  /** A decoder whose buffer grows and one whose fixed buffer is large enough agree, whatever the sizes. */
  lemma OutputLimitIrrelevant(data: seq<byte>, header: bool, c1: nat, c2: nat)
    requires RefZlib(data, header, c1).Done? && |RefZlib(data, header, c1).out| <= c2
    ensures RefZlib(data, header, c2) == RefZlib(data, header, c1)
  {
    BlocksCap(data, if header then 16 else 0, [], c1, c2);
  }

  // ----- zlib streams -----

  function StartOf(header: bool): nat
  {
    if header then 16 else 0
  }

  /** A zlib stream of encoded blocks decodes to what the blocks stand for, whatever follows it. */
  lemma ZlibRoundTrip(data: seq<byte>, header: bool, cap: nat, blocks: seq<Block>)
    requires header ==> HeaderOk(data)
    requires var p := StartOf(header);
             && StreamOk(blocks, p) && At(data, p, StreamBits(blocks, p))
             && p + |StreamBits(blocks, p)| <= 8 * |data|
             && StreamOutput(blocks, p, []).Some? && |StreamOutput(blocks, p, []).value| <= cap
    ensures RefZlib(data, header, cap)
            == Done(StartOf(header) + |StreamBits(blocks, StartOf(header))|,
                    StreamOutput(blocks, StartOf(header), []).value)
  {
    StreamRoundTrip(data, StartOf(header), [], cap, blocks);
  }

  /** An accepted stream is an encoded list of blocks, if need be only after zero bytes are appended:
      that is all that reading past the end can add. */
  lemma AcceptedWithZeros(data: seq<byte>, zeros: seq<byte>, header: bool, cap: nat)
    requires forall i :: 0 <= i < |zeros| ==> zeros[i] == 0
    requires RefZlib(data, header, cap).Done? && RefZlib(data, header, cap).pos <= 8 * |data + zeros|
    ensures RefZlib(data + zeros, header, cap) == RefZlib(data, header, cap)
  {
    hide At, StreamOk, StreamBits, StreamOutput, RefBlocks;
    var p := StartOf(header);
    var blocks := StreamFound(data, p, [], cap);
    AtWithZeros(data, zeros, p, StreamBits(blocks, p));
    StreamRoundTrip(data + zeros, p, [], cap, blocks);
  }

  lemma AtWithZeros(data: seq<byte>, zeros: seq<byte>, pos: nat, bits: seq<nat>)
    requires forall k :: 0 <= k < |zeros| ==> zeros[k] == 0
    requires At(data, pos, bits)
    ensures At(data + zeros, pos, bits)
  {
    forall i | 0 <= i < |bits| ensures StreamBit(data + zeros, pos + i) == bits[i] {
      ZerosInStream(data, zeros, pos + i);
    }
  }

  lemma ZerosInStream(data: seq<byte>, zeros: seq<byte>, i: nat)
    requires forall k :: 0 <= k < |zeros| ==> zeros[k] == 0
    ensures StreamBit(data + zeros, i) == StreamBit(data, i)
  {
    ZeroBit(i % 8);
  }
}
