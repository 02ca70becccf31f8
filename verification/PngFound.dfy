/** The other direction of reading PNG chunks: a file that is accepted is one the standard's way of writing
    produces, up to checksums and the length field of the end chunk, which the program does not look at. */
module PngFound {
  import opened Bits
  import opened Context
  import opened Png
  import opened PngChunks

  lemma HoldsJoin(file: seq<byte>, pos: nat, a: seq<byte>, b: seq<byte>)
    requires Holds(file, pos, a) && Holds(file, pos + |a|, b)
    ensures Holds(file, pos, a + b)
  {
    assert file[pos..pos + |a + b|] == file[pos..pos + |a|] + file[pos + |a|..pos + |a| + |b|];
  }

  lemma HoldsThere(file: seq<byte>, pos: nat, n: nat)
    requires pos + n <= |file|
    ensures Holds(file, pos, file[pos..pos + n])
  {}

  lemma Be32Found(file: seq<byte>, pos: nat)
    requires pos + 4 <= |file|
    ensures Holds(file, pos, Be32Bytes(Be32(file, pos)))
  {
    var b3: nat, b2: nat, b1: nat, b0: nat := file[pos], file[pos + 1], file[pos + 2], file[pos + 3];
    FourDigits(Be32(file, pos), b3, b2, b1, b0);
  }

  lemma FourDigits(v: nat, b3: nat, b2: nat, b1: nat, b0: nat)
    requires b3 < 256 && b2 < 256 && b1 < 256 && b0 < 256 && v == (b3 * 256 + b2) * 0x1_0000 + (b1 * 256 + b0)
    ensures v / 0x100_0000 == b3 && v / 0x1_0000 % 256 == b2 && v / 256 % 256 == b1 && v % 256 == b0
  {
    assert v / 256 == (b3 * 256 + b2) * 256 + b1;
    assert v / 0x1_0000 == b3 * 256 + b2;
  }

  // ----- the header -----

  /** A header that is accepted is the header of the image it is accepted as. */
  lemma HeadFound(file: seq<byte>, pos: nat)
    requires ReadHead(file, pos).Good? && pos + 13 <= |file|
    ensures Holds(file, pos, HeadBytes(ReadHead(file, pos).head))
  {
    hide Be32, Be32Bytes, Channels;
    var h := ReadHead(file, pos).head;
    var rest := [h.depth, h.color, 0, 0, if h.interlaced then 1 else 0];
    Be32Found(file, pos);
    Be32Found(file, pos + 4);
    assert file[pos + 8..pos + 13] == rest;
    HoldsJoin(file, pos + 4, Be32Bytes(h.y), rest);
    HoldsJoin(file, pos, Be32Bytes(h.x), Be32Bytes(h.y) + rest);
  }

  // ----- chunks -----

  /** Nothing is accepted past the end of the file. */
  lemma PastEnd(file: seq<byte>, pos: nat, st: State)
    requires StateOk(st) && pos >= |file|
    ensures !Scan(file, pos, st).Whole?
  {
    hide Be32, ReadHead, HeadOk, Scan, Ancillary;
    ScanStep(file, pos, st);
    NotAncillary();
  }

  lemma NotAncillary()
    ensures !Ancillary(0)
  {}

  /** The type of a chunk that is cut short ends in a zero byte. */
  lemma CutType(file: seq<byte>, pos: nat)
    requires pos + 8 > |file|
    ensures Be32(file, pos + 4) % 256 == 0
  {}

  lemma TypeThere(file: seq<byte>, pos: nat, st: State)
    requires StateOk(st) && st.Body? && Scan(file, pos, st).Whole?
    ensures pos + 8 <= |file|
  {
    hide Be32, HeadOk, Scan, Ancillary, ReadHead;
    ScanStep(file, pos, st);
    if pos + 8 > |file| {
      CutType(file, pos);
      match ChunkStep(file, pos, st) {
        case Go(p, next) => PastEnd(file, p, next);
        case Stop(_) =>
      }
    }
  }

  /** The chunk at `pos`. */
  function ChunkAt(file: seq<byte>, pos: nat): Chunk
    requires pos + 12 + Be32(file, pos) <= |file|
  {
    hide Be32;
    var end := pos + 8 + Be32(file, pos);
    Chunk(Be32(file, pos + 4), file[pos + 8..end], file[end..end + 4])
  }

  lemma ChunkThere(file: seq<byte>, pos: nat)
    requires pos + 12 + Be32(file, pos) <= |file|
    ensures ChunkAt(file, pos).Ok() && Holds(file, pos, ChunkAt(file, pos).Bytes())
    ensures |ChunkAt(file, pos).Bytes()| == 12 + Be32(file, pos)
  {
    hide Be32, Be32Bytes, Holds;
    var len := Be32(file, pos);
    var c := ChunkAt(file, pos);
    Be32Found(file, pos);
    Be32Found(file, pos + 4);
    HoldsThere(file, pos + 8, len);
    HoldsThere(file, pos + 8 + len, 4);
    HoldsJoin(file, pos + 8, c.body, c.crc);
    HoldsJoin(file, pos + 4, Be32Bytes(c.kind), c.body + c.crc);
    HoldsJoin(file, pos, Be32Bytes(len), Be32Bytes(c.kind) + (c.body + c.crc));
  }

  /** A step over a chunk, with more to come, was over a whole chunk that may stand there. */
  lemma BetweenFound(file: seq<byte>, pos: nat, st: State)
    requires StateOk(st) && st.Body? && pos + 8 <= |file|
    requires ChunkStep(file, pos, st).Go? && ChunkStep(file, pos, st).pos < |file|
    ensures pos + 12 + Be32(file, pos) <= |file|
    ensures var c := ChunkAt(file, pos);
            c.Between() && ChunkStep(file, pos, st) == Go(pos + 12 + |c.body|, Body(st.head, st.idat + Idat(c)))
  {
    hide Be32, HeadOk, ReadHead, LowerCase;
    AncillaryIs(Be32(file, pos + 4));
    assert st.idat + [] == st.idat;
  }

  /** The rest of an accepted file is chunks that may stand between header and end, and the end chunk. */
  ghost predicate RestIs(file: seq<byte>, pos: nat, st: State, cs: seq<Chunk>)
    requires StateOk(st) && st.Body?
  {
    && AllBetween(cs) && Holds(file, pos, ChunksBytes(cs))
    && pos + |ChunksBytes(cs)| + 8 <= |file| && Be32(file, pos + |ChunksBytes(cs)| + 4) == IEND
    && Scan(file, pos, st) == Whole(st.head, st.idat + Gathered(cs))
  }

  lemma {:induction false} ChunksFound(file: seq<byte>, pos: nat, st: State) returns (cs: seq<Chunk>)
    requires StateOk(st) && st.Body? && Scan(file, pos, st).Whole?
    ensures RestIs(file, pos, st, cs)
    decreases |file| - pos
  {
    hide ChunkStep, Scan, HeadOk, Be32, RestIs;
    TypeThere(file, pos, st);
    ScanStep(file, pos, st);
    match ChunkStep(file, pos, st)
    case Stop(_) =>
      cs := [];
      EndFound(file, pos, st);
    case Go(p, next) =>
      if p >= |file| { PastEnd(file, p, next); }
      BetweenFound(file, pos, st);
      var rest := ChunksFound(file, p, next);
      cs := [ChunkAt(file, pos)] + rest;
      RestMore(file, pos, st, rest);
  }

  lemma EndFound(file: seq<byte>, pos: nat, st: State)
    requires StateOk(st) && st.Body? && pos + 8 <= |file|
    requires ChunkStep(file, pos, st).Stop? && Scan(file, pos, st).Whole?
    ensures RestIs(file, pos, st, [])
  {
    hide Be32, HeadOk, Scan, ReadHead, Ancillary;
    ScanStep(file, pos, st);
    assert st.idat + [] == st.idat;
  }

  lemma RestMore(file: seq<byte>, pos: nat, st: State, rest: seq<Chunk>)
    requires StateOk(st) && st.Body? && pos + 12 + Be32(file, pos) <= |file| && ChunkAt(file, pos).Between()
    requires var c := ChunkAt(file, pos);
             var next := Body(st.head, st.idat + Idat(c));
             && StateOk(next) && Scan(file, pos, st) == Scan(file, pos + 12 + |c.body|, next)
             && RestIs(file, pos + 12 + |c.body|, next, rest)
    ensures RestIs(file, pos, st, [ChunkAt(file, pos)] + rest)
  {
    hide Be32, HeadOk, Scan, ChunkAt, Chunk.Between, Chunk.Bytes, Holds, Idat;
    var c := ChunkAt(file, pos);
    ChunkThere(file, pos);
    ChunkSize(file, pos);
    var cs := [c] + rest;
    assert cs[1..] == rest;
    HoldsJoin(file, pos, c.Bytes(), ChunksBytes(rest));
    assert st.idat + Idat(c) + Gathered(rest) == st.idat + Gathered(cs);
  }

  lemma ChunkSize(file: seq<byte>, pos: nat)
    requires pos + 12 + Be32(file, pos) <= |file|
    ensures |ChunkAt(file, pos).body| == Be32(file, pos)
  {
    hide Be32;
  }

  // ----- files -----

  /** The signature, a header chunk, and chunks that may follow it up to the end chunk. */
  ghost predicate Accepted(file: seq<byte>, h: Head, crc: seq<byte>, cs: seq<Chunk>)
  {
    HeadOk(h) && |crc| == 4 && AllBetween(cs)
    && var start := SIGNATURE + (HeadChunk(h, crc).Bytes() + ChunksBytes(cs));
       Holds(file, 0, start) && |start| + 8 <= |file| && Be32(file, |start| + 4) == IEND
  }

  /** Whatever the program reads as a whole image is such a file, and gives its header and its data. */
  lemma FileFound(file: seq<byte>) returns (h: Head, crc: seq<byte>, cs: seq<Chunk>)
    requires ScanFile(file).Whole?
    ensures Accepted(file, h, crc, cs) && ScanFile(file) == Whole(h, Gathered(cs)) && |Gathered(cs)| > 0
  {
    hide ChunkStep, Scan, HeadOk, Be32, Chunk.Bytes, ChunksBytes;
    h := FirstFound(file);
    crc := file[29..33];
    ScanStep(file, 8, Start);
    cs := ChunksFound(file, 33, Body(h, []));
    assert [] + Gathered(cs) == Gathered(cs);
    var head := HeadChunk(h, crc).Bytes();
    HoldsThere(file, 0, 8);
    HoldsJoin(file, 8, head, ChunksBytes(cs));
    HoldsJoin(file, 0, SIGNATURE, head + ChunksBytes(cs));
  }

  lemma FirstFound(file: seq<byte>) returns (h: Head)
    requires ScanFile(file).Whole?
    ensures HeadOk(h) && |file| > 33 && SIGNATURE <= file && ChunkStep(file, 8, Start) == Go(33, Body(h, []))
    ensures Holds(file, 8, HeadChunk(h, file[29..33]).Bytes())
  {
    hide Scan, HeadOk, Be32, ReadHead, Chunk.Bytes, HeadBytes, Holds;
    ScanStep(file, 8, Start);
    var r := ChunkStep(file, 8, Start);
    if r.pos >= |file| { PastEnd(file, r.pos, r.st); }
    h := r.st.head;
    ChunkThere(file, 8);
    ChunkSize(file, 8);
    HeadFound(file, 16);
    SameBytes(file, 16, HeadBytes(h), file[16..29]);
  }

  lemma SameBytes(file: seq<byte>, pos: nat, a: seq<byte>, b: seq<byte>)
    requires Holds(file, pos, a) && |a| == |b| && pos + |b| <= |file| && b == file[pos..pos + |b|]
    ensures a == b
  {}
}
