/** A PNG writer, to show that every grey or colour image of any bit depth has a file that loads as it:
    packed and filtered rows in stored blocks, cut into data chunks. */
module PngWriter {
  import opened Bits
  import opened BitStrings
  import opened Canonical
  import opened PixelGrid
  import opened Png
  import opened PngPack
  import opened Adam7
  import opened PngPasses
  import opened PngRoundTrip
  import opened PngChunks
  import opened PngFile
  import opened PngEndToEnd
  import opened Deflate
  import opened DeflateEncode
  import opened DeflateStream

  const STORED_MAX := 0xffff
  const CHUNK_MAX := 0x10_0000

  // ----- stored blocks -----

  function Stored(bytes: seq<byte>): (b: Block)
  {
    StoredBlock([0, 0, 0, 0, 0], bytes)
  }

  function StoredBlocks(data: seq<byte>): (blocks: seq<Block>)
    ensures |blocks| > 0
    decreases |data|
  {
    if |data| <= STORED_MAX then [Stored(data)] else [Stored(data[..STORED_MAX])] + StoredBlocks(data[STORED_MAX..])
  }

  /** The bytes of one stored block. */
  function BlockBytes(bytes: seq<byte>, last: bool): (s: seq<byte>)
    requires |bytes| <= STORED_MAX
    ensures |s| == 5 + |bytes|
  {
    var n := STORED_MAX - |bytes|;
    [if last then 1 else 0, |bytes| % 256, |bytes| / 256, n % 256, n / 256] + bytes
  }

  function StoredBytes(data: seq<byte>): (s: seq<byte>)
    decreases |data|
  {
    if |data| <= STORED_MAX then BlockBytes(data, true)
    else BlockBytes(data[..STORED_MAX], false) + StoredBytes(data[STORED_MAX..])
  }

  lemma TwoBytes(z: seq<byte>, p: nat, v: nat)
    requires p + 1 < |z| && v <= STORED_MAX && z[p] == v % 256 && z[p + 1] == v / 256
    ensures Val(z, 8 * p, 16) == v
  {
    hide Val;
    ValByte(z, p);
    ValByte(z, p + 1);
    ValSplit(z, 8 * p, 8, 8);
    assert 8 * p + 8 == 8 * (p + 1);
    Shl8(z[p + 1]);
  }

  /** A block's header and padding are its first byte. */
  lemma FlagByte(z: seq<byte>, p: nat, last: bool, bytes: seq<byte>)
    requires p < |z| && z[p] == if last then 1 else 0
    ensures At(z, 8 * p, BlockHeader(Stored(bytes), last) + [0, 0, 0, 0, 0])
  {
    hide Val, Lsb, BlockHeader, At;
    var f: nat := z[p];
    ValByte(z, p);
    ValSplit(z, 8 * p, 1, 7);
    ValSplit(z, 8 * p + 1, 2, 5);
    SmallFlag(f, Val(z, 8 * p, 1), Val(z, 8 * p + 1, 2), Val(z, 8 * p + 3, 5));
    ValBound(z, 8 * p, 1);
    assert 8 * p + 1 + 2 == 8 * p + 3;
    BlockHeaderAt(z, 8 * p, Stored(bytes), last);
    ZeroBits(z, 8 * p + 3);
    AtConcat(z, 8 * p, BlockHeader(Stored(bytes), last), [0, 0, 0, 0, 0]);
  }

  lemma SmallFlag(f: nat, a: nat, b: nat, c: nat)
    requires f <= 1 && f == a + Shl(b + Shl(c, 2), 1)
    ensures a == f && b == 0 && c == 0
  {
    assert Shl(b + Shl(c, 2), 0) == b + Shl(c, 2);
    assert Shl(b + Shl(c, 2), 1) == 2 * (b + Shl(c, 2));
  }

  lemma ZeroBits(z: seq<byte>, pos: nat)
    requires Val(z, pos, 5) == 0
    ensures At(z, pos, [0, 0, 0, 0, 0])
  {
    hide StreamBit;
    assert Val(z, pos, 5) == StreamBit(z, pos) + 2 * Val(z, pos + 1, 4);
    assert Val(z, pos + 1, 4) == StreamBit(z, pos + 1) + 2 * Val(z, pos + 2, 3);
    assert Val(z, pos + 2, 3) == StreamBit(z, pos + 2) + 2 * Val(z, pos + 3, 2);
    assert Val(z, pos + 3, 2) == StreamBit(z, pos + 3) + 2 * Val(z, pos + 4, 1);
    assert Val(z, pos + 4, 1) == StreamBit(z, pos + 4) + 2 * Val(z, pos + 5, 0);
  }

  lemma AlignedBlock(p: nat)
    ensures Align(8 * p + 3) == 8 * p + 8
  {}

  /** Length, complement and payload. */
  lemma PayloadWritten(z: seq<byte>, q: nat, bytes: seq<byte>)
    requires |bytes| <= STORED_MAX && q + 4 + |bytes| <= |z| && z[q + 4..q + 4 + |bytes|] == bytes
    requires z[q] == |bytes| % 256 && z[q + 1] == |bytes| / 256
    requires z[q + 2] == (STORED_MAX - |bytes|) % 256 && z[q + 3] == (STORED_MAX - |bytes|) / 256
    ensures At(z, 8 * q, StoredBits(bytes))
  {
    hide At, Lsb, Val, ByteBits;
    var n := STORED_MAX - |bytes|;
    TwoBytes(z, q, |bytes|);
    TwoBytes(z, q + 2, n);
    SmallPowers();
    LsbAt(z, 8 * q, |bytes|, 16);
    LsbAt(z, 8 * (q + 2), n, 16);
    ByteBitsAt(z, q + 4, bytes);
    AtConcat(z, 8 * q, Lsb(|bytes|, 16), Lsb(n, 16));
    AtConcat(z, 8 * q, Lsb(|bytes|, 16) + Lsb(n, 16), ByteBits(bytes));
  }

  lemma BlockParts(z: seq<byte>, p: nat, bytes: seq<byte>, last: bool)
    requires |bytes| <= STORED_MAX && Holds(z, p, BlockBytes(bytes, last))
    ensures p + 5 + |bytes| <= |z| && z[p] == (if last then 1 else 0) && z[p + 5..p + 5 + |bytes|] == bytes
    ensures z[p + 1] == |bytes| % 256 && z[p + 2] == |bytes| / 256
    ensures z[p + 3] == (STORED_MAX - |bytes|) % 256 && z[p + 4] == (STORED_MAX - |bytes|) / 256
  {
    var all := z[p..p + 5 + |bytes|];
    assert all[0] == z[p] && all[1] == z[p + 1] && all[2] == z[p + 2] && all[3] == z[p + 3] && all[4] == z[p + 4];
    assert all[5..] == bytes && all[5..] == z[p + 5..p + 5 + |bytes|];
  }

  /** A stored block's bytes are its bits. */
  lemma BlockWritten(z: seq<byte>, p: nat, bytes: seq<byte>, last: bool)
    requires |bytes| <= STORED_MAX && Holds(z, p, BlockBytes(bytes, last))
    ensures Stored(bytes).Ok(8 * p + 3)
    ensures At(z, 8 * p, BlockHeader(Stored(bytes), last) + Stored(bytes).Bits(8 * p + 3))
    ensures |Stored(bytes).Bits(8 * p + 3)| == 8 * (4 + |bytes|) + 5
  {
    hide At, StoredBits, BlockHeader, BlockBytes, Align, Holds;
    AlignedBlock(p);
    BlockParts(z, p, bytes, last);
    FlagByte(z, p, last, bytes);
    PayloadWritten(z, p + 1, bytes);
    var head := BlockHeader(Stored(bytes), last) + [0, 0, 0, 0, 0];
    assert 8 * p + |head| == 8 * (p + 1);
    AtConcat(z, 8 * p, head, StoredBits(bytes));
    assert BlockHeader(Stored(bytes), last) + Stored(bytes).Bits(8 * p + 3) == head + StoredBits(bytes);
  }

  lemma OneBlock(b: Block, pos: nat, out: seq<byte>)
    requires b.Ok(pos + 3)
    ensures StreamOk([b], pos) && StreamBits([b], pos) == BlockHeader(b, true) + b.Bits(pos + 3)
    ensures StreamOutput([b], pos, out) == b.Apply(pos + 3, out)
  {
    hide Block.Ok, Block.Bits, Block.Apply, BlockHeader;
    assert BlockHeader(b, true) + b.Bits(pos + 3) + [] == BlockHeader(b, true) + b.Bits(pos + 3);
  }

  lemma MoreBlocks(b: Block, rest: seq<Block>, blocks: seq<Block>, pos: nat, next: nat, out: seq<byte>, o: seq<byte>)
    requires b.Ok(pos + 3) && next == pos + 3 + |b.Bits(pos + 3)| && b.Apply(pos + 3, out) == Some(o)
    requires StreamOk(rest, next) && blocks == [b] + rest
    ensures StreamOk(blocks, pos)
    ensures StreamBits(blocks, pos) == BlockHeader(b, false) + b.Bits(pos + 3) + StreamBits(rest, next)
    ensures StreamOutput(blocks, pos, out) == StreamOutput(rest, next, o)
  {
    hide Block.Ok, Block.Bits, Block.Apply, BlockHeader;
    assert blocks[1..] == rest;
  }

  /** The stored blocks of any data are a stream that stands for the data. */
  lemma {:induction false} StoredWritten(z: seq<byte>, p: nat, data: seq<byte>, out: seq<byte>)
    requires Holds(z, p, StoredBytes(data))
    ensures StreamOk(StoredBlocks(data), 8 * p)
    ensures At(z, 8 * p, StreamBits(StoredBlocks(data), 8 * p))
    ensures |StreamBits(StoredBlocks(data), 8 * p)| == 8 * |StoredBytes(data)|
    ensures StreamOutput(StoredBlocks(data), 8 * p, out) == Some(out + data)
    decreases |data|
  {
    hide At, Block.Bits, Block.Ok, Block.Apply, Align, BlockBytes, Holds, StreamOk, StreamBits, StreamOutput,
         BlockHeader;
    if |data| <= STORED_MAX {
      BlockWritten(z, p, data, true);
      StoredApplies(p, data, out);
      OneBlock(Stored(data), 8 * p, out);
    } else {
      var head, tail := data[..STORED_MAX], data[STORED_MAX..];
      HoldsSplit(z, p, BlockBytes(head, false), StoredBytes(tail));
      BlockWritten(z, p, head, false);
      StoredApplies(p, head, out);
      var q := p + 5 + STORED_MAX;
      StoredWritten(z, q, tail, out + head);
      MoreBlocks(Stored(head), StoredBlocks(tail), StoredBlocks(data), 8 * p, 8 * q, out, out + head);
      assert out + head + tail == out + data;
      AtConcat(z, 8 * p, BlockHeader(Stored(head), false) + Stored(head).Bits(8 * p + 3),
        StreamBits(StoredBlocks(tail), 8 * q));
    }
  }

  lemma StoredApplies(p: nat, data: seq<byte>, out: seq<byte>)
    requires Stored(data).Ok(8 * p + 3)
    ensures Stored(data).Apply(8 * p + 3, out) == Some(out + data)
  {}

  /** A zlib stream of stored blocks. */
  function Zlib(data: seq<byte>): seq<byte>
  {
    [0x78, 0x01] + StoredBytes(data)
  }

  lemma {:induction false} StoredNotEmpty(data: seq<byte>)
    ensures |StoredBytes(data)| >= 5
    decreases |data|
  {}

  lemma ZlibWritten(data: seq<byte>)
    ensures Compresses(Zlib(data), StoredBlocks(data), data)
  {
    hide At, StoredBytes, StoredBlocks, StreamOk, StreamBits, StreamOutput;
    StoredNotEmpty(data);
    var z := Zlib(data);
    assert z[2..2 + |StoredBytes(data)|] == StoredBytes(data);
    StoredWritten(z, 2, data, []);
    assert [] + data == data;
  }

  // ----- filtered data -----

  /** One known filter for every row, of the image or of each pass. */
  ghost predicate FiltersFit(h: Head, filters: seq<seq<nat>>)
  {
    |filters| == PASSES
    && if h.interlaced then forall p :: 0 <= p < PASSES ==> RowFilters(filters[p], PassH(h.y, p))
       else RowFilters(filters[0], h.y)
  }

  ghost predicate RowFilters(filters: seq<nat>, rows: nat)
  {
    |filters| == rows && forall i :: 0 <= i < rows ==> filters[i] <= 4
  }

  /** `img` is an image with the header's sizes and bit depth. */
  predicate ImageFits(h: Head, img: seq<byte>)
  {
    1 <= h.n <= 4 && Depth(h.depth) && |img| == h.x * h.y * OutBytes(h.n, h.depth) && Packable(img, h.depth, h.color)
  }

  /** The rows of pass `p`. */
  function RowsOfPass(h: Head, img: seq<byte>, p: nat): (rows: seq<seq<byte>>)
    requires p < PASSES
    ensures |rows| == PassH(h.y, p)
  {
    PassRows(img, h.x, OutBytes(h.n, h.depth), p, PassH(h.y, p))
  }

  lemma {:induction false} PassRowPackable(img: seq<byte>, w: nat, b: nat, p: nat, j: nat, i: nat, depth: nat,
        color: nat)
    requires p < PASSES && Packable(img, depth, color)
    ensures Packable(PngRoundTrip.PassRow(img, w, b, p, j, i), depth, color)
  {
    hide Level, Index, PixelX, PixelY;
    if i > 0 { PassRowPackable(img, w, b, p, j, i - 1, depth, color); }
  }

  /** They can be written. */
  lemma PassRowsOk(h: Head, img: seq<byte>, p: nat)
    requires ImageFits(h, img) && p < PASSES
    ensures forall r :: 0 <= r < PassH(h.y, p) ==>
              RowOk(RowsOfPass(h, img, p)[r], PassW(h.x, p), h.n, h.depth, h.color)
  {
    hide PassW, PassH, OutBytes, Packable, PngRoundTrip.PassRow;
    var b := OutBytes(h.n, h.depth);
    forall r | 0 <= r < PassH(h.y, p)
      ensures RowOk(RowsOfPass(h, img, p)[r], PassW(h.x, p), h.n, h.depth, h.color)
    {
      PassRowLength(img, h.x, h.y, b, p, r, PassW(h.x, p));
      PassRowPackable(img, h.x, b, p, r, PassW(h.x, p), h.depth, h.color);
    }
  }

  /** The packed and filtered rows of pass `p`; none if it has no pixels. */
  function PassBytes(h: Head, img: seq<byte>, filters: seq<nat>, p: nat): (s: seq<byte>)
    requires ImageFits(h, img) && p < PASSES && RowFilters(filters, PassH(h.y, p))
    ensures |s| == PassLength(h.n, h.depth, PassW(h.x, p), PassH(h.y, p))
  {
    hide PassW, PassH, RowBytes, FilteredRows, RowsOfPass, PackedRows, ImageFits, RowOk;
    var x, y := PassW(h.x, p), PassH(h.y, p);
    if x > 0 && y > 0 then
      PassRowsOk(h, img, p);
      SizesKnown(h, img);
      FilteredRows(PackedRows(RowsOfPass(h, img, p), x, h.n, h.depth, h.color), filters, RowBytes(h.n, x, h.depth),
        PixelStep(h.n, h.depth), y)
    else []
  }

  lemma SizesKnown(h: Head, img: seq<byte>)
    requires ImageFits(h, img)
    ensures 1 <= h.n <= 4 && Depth(h.depth)
  {}

  ghost predicate AllRowFilters(h: Head, filters: seq<seq<nat>>)
  {
    |filters| == PASSES && forall p :: 0 <= p < PASSES ==> RowFilters(filters[p], PassH(h.y, p))
  }

  /** The first `k` passes. */
  ghost function PassData(h: Head, img: seq<byte>, filters: seq<seq<nat>>, k: nat): (s: seq<byte>)
    requires k <= PASSES && ImageFits(h, img) && AllRowFilters(h, filters)
    ensures |s| == PassStart(h.n, h.depth, h.x, h.y, k)
  {
    hide PassW, PassH, PassBytes, PassLength, ImageFits, RowFilters;
    if k == 0 then [] else PassData(h, img, filters, k - 1) + PassBytes(h, img, filters[k - 1], k - 1)
  }

  lemma {:induction false} PassDataAt(h: Head, img: seq<byte>, filters: seq<seq<nat>>, k: nat, p: nat)
    requires p < k <= PASSES && ImageFits(h, img) && AllRowFilters(h, filters)
    ensures PassStart(h.n, h.depth, h.x, h.y, p) <= |PassData(h, img, filters, k)|
    ensures PassBytes(h, img, filters[p], p)
            <= PassData(h, img, filters, k)[PassStart(h.n, h.depth, h.x, h.y, p)..]
  {
    hide PassW, PassH, PassBytes, PassLength, PassStart, ImageFits, RowFilters;
    var all, before := PassData(h, img, filters, k), PassData(h, img, filters, k - 1);
    var start := PassStart(h.n, h.depth, h.x, h.y, p);
    if p < k - 1 {
      PassDataAt(h, img, filters, k - 1, p);
      assert all[|before|..] == PassBytes(h, img, filters[k - 1], k - 1);
      assert before[start..] <= all[start..];
    } else {
      assert all[|before|..] == PassBytes(h, img, filters[p], p);
    }
  }

  /** The rows of an image that is not interlaced. */
  function PlainRows(h: Head, img: seq<byte>): (rows: seq<seq<byte>>)
    requires ImageFits(h, img)
    ensures |rows| == h.y && forall r :: 0 <= r < h.y ==> RowOk(rows[r], h.x, h.n, h.depth, h.color)
  {
    hide OutBytes, Packable;
    PlainLength(h, img);
    PlainRowsPackable(img, OutBytes(h.n, h.depth) * h.x, h.y, h.depth, h.color);
    ImageRows(img, OutBytes(h.n, h.depth) * h.x, h.y)
  }

  lemma {:induction false} PlainRowsPackable(img: seq<byte>, w: nat, y: nat, depth: nat, color: nat)
    requires RowOffset(w, y) <= |img| && Packable(img, depth, color)
    ensures forall r :: 0 <= r < y ==> Packable(ImageRows(img, w, y)[r], depth, color)
  {
    hide Level;
    if y > 0 { PlainRowsPackable(img, w, y - 1, depth, color); }
  }

  lemma PlainLength(h: Head, img: seq<byte>)
    requires |img| == h.x * h.y * OutBytes(h.n, h.depth)
    ensures RowOffset(OutBytes(h.n, h.depth) * h.x, h.y) == |img|
  {
    hide OutBytes;
    var b := OutBytes(h.n, h.depth);
    RowOffsetIs(b * h.x, h.y);
    assert b * h.x * h.y == h.x * h.y * b;
  }

  /** All rows, packed and filtered, in file order. */
  ghost function ImageData(h: Head, img: seq<byte>, filters: seq<seq<nat>>): seq<byte>
    requires ImageFits(h, img) && FiltersFit(h, filters)
  {
    if h.interlaced then PassData(h, img, filters, PASSES)
    else
      FilteredRows(PackedRows(PlainRows(h, img), h.x, h.n, h.depth, h.color), filters[0],
        RowBytes(h.n, h.x, h.depth), PixelStep(h.n, h.depth), h.y)
  }

  lemma DataFiltered(h: Head, img: seq<byte>, filters: seq<seq<nat>>)
    requires ImageFits(h, img) && FiltersFit(h, filters)
    ensures Filters(ImageData(h, img, filters), img, h, filters)
  {
    hide PassW, PassH, FilteredRows, PassBytes, PackedRows, PassStart, PassData, OutBytes, RowBytes, Packable;
    PlainLength(h, img);
    var b := OutBytes(h.n, h.depth);
    assert h.x * h.y * b == b * (h.x * h.y);
    if h.interlaced { PassesFiltered(h, img, filters); }
  }

  lemma PassesFiltered(h: Head, img: seq<byte>, filters: seq<seq<nat>>)
    requires ImageFits(h, img) && FiltersFit(h, filters) && h.interlaced
    ensures EncodesPasses(ImageData(h, img, filters), img, h.x, h.y, h.n, h.depth, h.color, filters)
  {
    hide PassW, PassH, FilteredRows, PassStart, PassData, PackedRows, OutBytes, RowBytes, PixelStep, PassRows, RowOk,
         Packable;
    var data := ImageData(h, img, filters);
    forall p | 0 <= p < PASSES && PassW(h.x, p) > 0 && PassH(h.y, p) > 0
      ensures PassStart(h.n, h.depth, h.x, h.y, p) <= |data|
      ensures Encodes(data[PassStart(h.n, h.depth, h.x, h.y, p)..], RowsOfPass(h, img, p), filters[p], PassW(h.x, p),
                h.n, h.depth, h.color)
    {
      PassDataAt(h, img, filters, PASSES, p);
      PassRowsOk(h, img, p);
    }
  }

  // ----- chunks -----

  const NO_CRC: seq<byte> := [0, 0, 0, 0]

  /** The stream in data chunks of at most a mebibyte. */
  function Cut(z: seq<byte>): (cs: seq<Chunk>)
    ensures AllBetween(cs)
    decreases |z|
  {
    if |z| <= CHUNK_MAX then [Chunk(IDAT, z, NO_CRC)] else [Chunk(IDAT, z[..CHUNK_MAX], NO_CRC)] + Cut(z[CHUNK_MAX..])
  }

  lemma {:induction false} CutGathers(z: seq<byte>)
    ensures Gathered(Cut(z)) == z
    decreases |z|
  {
    var cs := Cut(z);
    assert Gathered([]) == [];
    if |z| <= CHUNK_MAX {
      assert cs[1..] == [];
    } else {
      assert cs[1..] == Cut(z[CHUNK_MAX..]);
      CutGathers(z[CHUNK_MAX..]);
    }
  }

  /** The file: signature, header, data, end. */
  function FileBytes(h: Head, data: seq<byte>): seq<byte>
    requires HeadOk(h)
  {
    SIGNATURE + (HeadChunk(h, NO_CRC).Bytes() + (ChunksBytes(Cut(Zlib(data))) + EndChunk(NO_CRC).Bytes()))
  }

  /** Every grey or colour image of any bit depth, with any filters and interlaced or not, has a file
      that loads as the image. */
  lemma WriterLoads(h: Head, img: seq<byte>, filters: seq<seq<nat>>, req_comp: nat, b: nat, a: nat, r: LoadResult)
    requires HeadOk(h) && ImageFits(h, img) && FiltersFit(h, filters) && req_comp <= 4
    requires |ImageData(h, img, filters)| <= INT_MAX && |Zlib(ImageData(h, img, filters))| <= INT_MAX
    requires Loadable(h, OutChannels(h.n, req_comp)) && OutPixels(h.n, OutChannels(h.n, req_comp), h.depth, b, a)
    requires LoadedFrom(FileBytes(h, ImageData(h, img, filters)), req_comp, r)
    ensures |img| == b * (h.x * h.y) && r == Expected(h, img, OutChannels(h.n, req_comp), b, a)
  {
    hide HeadOk, FiltersFit, ImageData, Zlib, LoadedFrom, Expected, Cut, ChunksBytes, Chunk.Bytes, Compresses, Filters,
         AllBetween, ImageFits, Loadable, OutPixels;
    var data := ImageData(h, img, filters);
    var file := FileBytes(h, data);
    var e := Writing(NO_CRC, Cut(Zlib(data)), NO_CRC, StoredBlocks(data), data, filters);
    assert file[0..|file|] == file;
    assert FileOf(file, h, NO_CRC, Cut(Zlib(data)), NO_CRC);
    CutGathers(Zlib(data));
    ZlibWritten(data);
    DataFiltered(h, img, filters);
    EndToEnd(e, file, h, img, req_comp, b, a, r);
  }
}
