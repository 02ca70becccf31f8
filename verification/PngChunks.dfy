/** PNG files as chunks: what reading them in order gives, and files written the standard's way. */
module PngChunks {
  import opened Arithmetic
  import opened Bits
  import opened Context
  import opened Png
  import opened SizeChecks

  const SIGNATURE: seq<byte> := [137, 80, 78, 71, 13, 10, 26, 10]

  const CGBI := 0x4367_4249
  const IHDR := 0x4948_4452
  const PLTE := 0x504c_5445
  const TRNS := 0x7452_4e53
  const IDAT := 0x4944_4154
  const IEND := 0x4945_4e44

  const MAX_PIXEL_BYTES := 0x4000_0000

  // ----- the image header -----

  datatype Head = Head(x: nat, y: nat, n: nat, depth: nat, color: nat, interlaced: bool)

  /** Headers of the non-palette images the decoder goes on with. */
  predicate HeadOk(h: Head)
  {
    1 <= h.x <= MAX_DIMENSIONS && 1 <= h.y <= MAX_DIMENSIONS && Depth(h.depth)
    && (h.color == 0 || h.color == 2 || h.color == 4 || h.color == 6) && h.n == Channels(h.color)
    && h.x * h.n * h.y <= MAX_PIXEL_BYTES
  }

  function Channels(color: nat): (n: nat)
    ensures 1 <= n <= 4
  {
    (if color / 2 % 2 == 1 then 3 else 1) + (if color / 4 % 2 == 1 then 1 else 0)
  }

  /** Colour types and their samples per pixel: grey, colour, and both with alpha. */
  lemma HeadOkIs(h: Head)
    ensures HeadOk(h) <==>
            && 1 <= h.x <= 0x100_0000 && 1 <= h.y <= 0x100_0000 && h.depth in {1, 2, 4, 8, 16}
            && ((h.color == 0 && h.n == 1) || (h.color == 2 && h.n == 3) || (h.color == 4 && h.n == 2)
                || (h.color == 6 && h.n == 4))
            && h.x * h.n * h.y <= 0x4000_0000
  {}

  datatype HeadRead = Good(head: Head) | Palette | Wrong

  /** The 13 bytes of an image header. */
  function ReadHead(file: seq<byte>, pos: nat): (r: HeadRead)
    ensures r.Good? ==> HeadOk(r.head)
  {
    hide Be32, Peek;
    var x, y := Be32(file, pos), Be32(file, pos + 4);
    var depth, color := Peek(file, pos + 8), Peek(file, pos + 9);
    if x > MAX_DIMENSIONS || y > MAX_DIMENSIONS || x == 0 || y == 0 then Wrong
    else if !Depth(depth) || color > 6 || (color == 3 && depth == 16) || (color != 3 && color % 2 == 1) then Wrong
    else if Peek(file, pos + 10) != 0 || Peek(file, pos + 11) != 0 || Peek(file, pos + 12) > 1 then Wrong
    else if color == 3 then (if x * 4 * y > MAX_PIXEL_BYTES then Wrong else Palette)
    else if x * Channels(color) * y > MAX_PIXEL_BYTES then Wrong
    else Good(Head(x, y, Channels(color), depth, color, Peek(file, pos + 12) == 1))
  }

  /** Two divisions find exactly the sizes whose product stays within the limit. */
  lemma TwoDivisions(a: nat, x: nat, n: nat, y: nat)
    requires x > 0 && n > 0
    ensures a / x / n < y <==> x * n * y > a
  {
    var q := a / x;
    DivAtLeast(q, n, y);
    DivAtLeast(a, x, y * n);
    assert y * n * x == x * n * y;
  }

  lemma PixelSizes(x: nat, y: nat, n: nat)
    requires x * y * n <= MAX_PIXEL_BYTES && 1 <= n <= 4 && x <= MAX_DIMENSIONS
    ensures Mul2Valid(x, y) && Mul2Valid(x * y, n) && Mul2Valid(n, x) && Mul2Valid(n * x, 8) && Mul2Valid(n * x, y)
            && Mul2Valid(n * x, 2)
    ensures n * x <= 4 * MAX_DIMENSIONS && n * x * y <= MAX_PIXEL_BYTES
  {
    hide Mul2Valid;
    assert n * x * y == n * (x * y) == x * y * n;
    Product(1, n, x * y);
    Product(n, 4, x);
    Mul2Exact(x, y);
    Mul2Exact(x * y, n);
    Mul2Exact(n, x);
    Mul2Exact(n * x, 8);
    Mul2Exact(n * x, y);
    Mul2Exact(n * x, 2);
  }

  lemma HeadPixels(h: Head)
    requires HeadOk(h)
    ensures h.x * h.y * h.n <= MAX_PIXEL_BYTES && 1 <= h.n <= 4
  {
    assert h.x * h.n * h.y == h.x * h.y * h.n;
  }

  // ----- reading chunks -----

  datatype State = Start | Body(head: Head, idat: seq<byte>)

  datatype Parsed = Whole(head: Head, idat: seq<byte>) | Bad | Unmodelled

  datatype Step = Go(pos: nat, st: State) | Stop(end: Parsed)

  /** Chunk types whose first letter is lower case may be skipped. */
  predicate Ancillary(kind: nat)
  {
    kind / 0x2000_0000 % 2 == 1
  }

  /** A letter of a chunk name is lower case if bit 5 is set (section 3.3 of RFC 2083). */
  predicate LowerCase(letter: nat)
  {
    BitOf(letter, 5) == 1
  }

  /** The ancillary bit is the case of the first letter. */
  lemma AncillaryIs(kind: nat)
    ensures Ancillary(kind) <==> LowerCase(kind / 0x100_0000)
  {
    var letter := kind / 0x100_0000;
    FifthBit(letter);
    assert letter / 0x20 == kind / 0x2000_0000;
  }

  lemma FifthBit(letter: nat)
    ensures BitOf(letter, 5) == letter / 0x20 % 2
  {
    assert BitOf(letter, 5) == BitOf(letter / 2 / 2 / 2 / 2 / 2, 0);
  }

  /** The chunk types are their names. */
  lemma ChunkNames()
    ensures Be32Bytes(CGBI) == Name('C', 'g', 'B', 'I') && Be32Bytes(IHDR) == Name('I', 'H', 'D', 'R')
    ensures Be32Bytes(PLTE) == Name('P', 'L', 'T', 'E') && Be32Bytes(TRNS) == Name('t', 'R', 'N', 'S')
    ensures Be32Bytes(IDAT) == Name('I', 'D', 'A', 'T') && Be32Bytes(IEND) == Name('I', 'E', 'N', 'D')
    ensures SIGNATURE == [137] + Name('P', 'N', 'G', '\r') + Name('\n', 26 as char, '\n', 'x')[..3]
  {
  }

  function Name(a: char, b: char, c: char, d: char): (s: seq<byte>)
    requires a < 128 as char && b < 128 as char && c < 128 as char && d < 128 as char
  {
    [a as int, b as int, c as int, d as int]
  }

  predicate StateOk(st: State)
  {
    st.Body? ==> HeadOk(st.head) && |st.idat| <= INT_MAX
  }

  /** One chunk. Palettes, transparency chunks and the iPhone variant are not modelled. */
  function ChunkStep(file: seq<byte>, pos: nat, st: State): (r: Step)
    requires StateOk(st)
    ensures r.Go? ==> pos < |file| && r.pos > pos && StateOk(r.st)
    ensures r.Stop? && r.end.Whole? ==> HeadOk(r.end.head) && 0 < |r.end.idat| <= INT_MAX
  {
    hide Be32, ReadHead, HeadOk;
    var len, kind, p := Be32(file, pos), Be32(file, pos + 4), Next(file, pos, 8);
    if kind == CGBI then Stop(Unmodelled)
    else if kind == IHDR then
      if st.Body? || len != 13 then Stop(Bad) else
      match ReadHead(file, p)
      case Wrong => Stop(Bad)
      case Palette => Stop(Unmodelled)
      case Good(h) => Go(Next(file, p, 17), Body(h, []))
    else if st.Start? then Stop(Bad)
    else LaterStep(file, p, len, kind, st)
  }

  /** A chunk after the header; `p` is past its type. */
  function LaterStep(file: seq<byte>, p: nat, len: nat, kind: nat, st: State): (r: Step)
    requires StateOk(st) && st.Body?
    ensures r.Go? ==> r.pos >= p || r.pos >= |file|
    ensures r.Go? ==> kind != 0 && StateOk(r.st)
    ensures r.Stop? && r.end.Whole? ==> HeadOk(r.end.head) && 0 < |r.end.idat| <= INT_MAX
  {
    hide HeadOk;
    if kind == PLTE then
      if len > 768 || len % 3 != 0 then Stop(Bad) else Go(Next(file, p, len + 4), st)
    else if kind == TRNS then Stop(Unmodelled)
    else if kind == IDAT then
      if len > MAX_PIXEL_BYTES || |st.idat| + len > INT_MAX || p + len > |file| then Stop(Bad)
      else Go(Next(file, p + len, 4), Body(st.head, st.idat + file[p..p + len]))
    else if kind == IEND then
      if |st.idat| == 0 then Stop(Bad) else Stop(Whole(st.head, st.idat))
    else if !Ancillary(kind) then Stop(Bad)
    else Go(Next(file, Skipped(file, p, len), 4), st)
  }

  /** The whole file from `pos` on. */
  function Scan(file: seq<byte>, pos: nat, st: State): (r: Parsed)
    requires StateOk(st)
    ensures r.Whole? ==> HeadOk(r.head) && 0 < |r.idat| <= INT_MAX
    decreases if pos < |file| then |file| - pos else 0
  {
    hide ChunkStep, HeadOk;
    match ChunkStep(file, pos, st)
    case Stop(end) => end
    case Go(p, next) => Scan(file, p, next)
  }

  lemma ScanStep(file: seq<byte>, pos: nat, st: State)
    requires StateOk(st)
    ensures Scan(file, pos, st) == match ChunkStep(file, pos, st)
                                   case Stop(end) => end
                                   case Go(p, next) => Scan(file, p, next)
  {}

  function ScanFile(file: seq<byte>): (r: Parsed)
    ensures r.Whole? ==> HeadOk(r.head) && 0 < |r.idat| <= INT_MAX
  {
    hide Scan, HeadOk;
    if SIGNATURE <= file then Scan(file, 8, Start) else Bad
  }

  // ----- writing chunks -----

  /** `bytes` are in the file at `pos`. */
  ghost predicate Holds(file: seq<byte>, pos: nat, bytes: seq<byte>)
  {
    pos + |bytes| <= |file| && file[pos..pos + |bytes|] == bytes
  }

  lemma HoldsSplit(file: seq<byte>, pos: nat, a: seq<byte>, b: seq<byte>)
    requires Holds(file, pos, a + b)
    ensures Holds(file, pos, a) && Holds(file, pos + |a|, b)
  {
    var s := file[pos..pos + |a + b|];
    assert s[..|a|] == a && s[|a|..] == b;
  }

  function Be32Bytes(v: nat): (s: seq<byte>)
    requires v <= UINT_MAX
    ensures |s| == 4
  {
    [v / 0x100_0000, v / 0x1_0000 % 256, v / 256 % 256, v % 256]
  }

  lemma Be32RoundTrip(file: seq<byte>, pos: nat, v: nat)
    requires v <= UINT_MAX && Holds(file, pos, Be32Bytes(v))
    ensures Be32(file, pos) == v
  {
    FourBytes(v, v / 0x100_0000, v / 0x1_0000 % 256, v / 256 % 256, v % 256);
    var s := file[pos..pos + 4];
    assert file[pos] == s[0] && file[pos + 1] == s[1] && file[pos + 2] == s[2] && file[pos + 3] == s[3];
  }

  lemma FourBytes(v: nat, b3: nat, b2: nat, b1: nat, b0: nat)
    requires b3 == v / 0x100_0000 && b2 == v / 0x1_0000 % 256 && b1 == v / 256 % 256 && b0 == v % 256
    ensures (b3 * 256 + b2) * 0x1_0000 + (b1 * 256 + b0) == v
  {
    var a := v / 0x100;
    var b := a / 0x100;
    assert v / 0x1_0000 == b && v / 0x100_0000 == b / 0x100;
  }

  datatype Chunk = Chunk(kind: nat, body: seq<byte>, crc: seq<byte>)
  {
    predicate Ok()
    {
      kind <= UINT_MAX && |body| <= UINT_MAX && |crc| == 4
    }

    function Bytes(): (s: seq<byte>)
      requires Ok()
      ensures |s| == 12 + |body|
    {
      Be32Bytes(|body|) + (Be32Bytes(kind) + (body + crc))
    }

    /** Chunks that may stand between the header and the end of the image: data, and anything the
        decoder reads over. */
    predicate Between(): (r: bool)
      ensures r ==> Ok()
    {
      && Ok()
      && (kind == IDAT ==> |body| <= MAX_PIXEL_BYTES)
      && (kind == PLTE ==> |body| <= 768 && |body| % 3 == 0)
      && (kind != IDAT && kind != PLTE ==> kind != TRNS && LowerCase(kind / 0x100_0000) && |body| <= INT_MAX)
    }
  }

  lemma ChunkRead(file: seq<byte>, pos: nat, c: Chunk)
    requires c.Ok() && Holds(file, pos, c.Bytes())
    ensures Be32(file, pos) == |c.body| && Be32(file, pos + 4) == c.kind && Next(file, pos, 8) == pos + 8
    ensures Holds(file, pos + 8, c.body) && pos + 12 + |c.body| <= |file|
  {
    hide Be32, Be32Bytes;
    HoldsSplit(file, pos, Be32Bytes(|c.body|), Be32Bytes(c.kind) + (c.body + c.crc));
    HoldsSplit(file, pos + 4, Be32Bytes(c.kind), c.body + c.crc);
    HoldsSplit(file, pos + 8, c.body, c.crc);
    Be32RoundTrip(file, pos, |c.body|);
    Be32RoundTrip(file, pos + 4, c.kind);
  }

  function Idat(c: Chunk): seq<byte>
  {
    if c.kind == IDAT then c.body else []
  }

  /** A chunk between header and end adds its data, if any, and is passed over. */
  lemma BetweenStep(file: seq<byte>, pos: nat, st: State, c: Chunk)
    requires StateOk(st) && st.Body? && c.Between() && Holds(file, pos, c.Bytes()) && |st.idat + Idat(c)| <= INT_MAX
    ensures ChunkStep(file, pos, st) == Go(pos + 12 + |c.body|, Body(st.head, st.idat + Idat(c)))
  {
    hide Be32, HeadOk, Chunk.Bytes, LowerCase;
    AncillaryIs(c.kind);
    ChunkRead(file, pos, c);
    assert st.idat + [] == st.idat;
  }

  predicate AllBetween(cs: seq<Chunk>)
  {
    forall i {:trigger cs[i]} :: 0 <= i < |cs| ==> cs[i].Between()
  }

  function ChunksBytes(cs: seq<Chunk>): (s: seq<byte>)
    requires AllBetween(cs)
  {
    if cs == [] then [] else cs[0].Bytes() + ChunksBytes(cs[1..])
  }

  /** The data chunks put together again. */
  function Gathered(cs: seq<Chunk>): seq<byte>
  {
    if cs == [] then [] else Idat(cs[0]) + Gathered(cs[1..])
  }

  function EndChunk(crc: seq<byte>): Chunk
  {
    Chunk(IEND, [], crc)
  }

  /** Any chunks and the end of the image: the data chunks are gathered in order. */
  lemma {:induction false} ChunksRoundTrip(file: seq<byte>, pos: nat, st: State, cs: seq<Chunk>, crc: seq<byte>)
    requires StateOk(st) && st.Body? && |crc| == 4
    requires AllBetween(cs)
    requires Holds(file, pos, ChunksBytes(cs) + EndChunk(crc).Bytes())
    requires 0 < |st.idat + Gathered(cs)| <= INT_MAX
    ensures Scan(file, pos, st) == Whole(st.head, st.idat + Gathered(cs))
    decreases |cs|
  {
    hide ChunkStep, Scan, HeadOk, Chunk.Bytes, Chunk.Between, Holds;
    ScanStep(file, pos, st);
    if cs == [] {
      assert ChunksBytes(cs) + EndChunk(crc).Bytes() == EndChunk(crc).Bytes();
      EndStep(file, pos, st, crc);
      assert st.idat + Gathered(cs) == st.idat;
    } else {
      var c := cs[0];
      var next := Body(st.head, st.idat + Idat(c));
      assert st.idat + Gathered(cs) == next.idat + Gathered(cs[1..]);
      assert ChunksBytes(cs) + EndChunk(crc).Bytes() == c.Bytes() + (ChunksBytes(cs[1..]) + EndChunk(crc).Bytes());
      HoldsSplit(file, pos, c.Bytes(), ChunksBytes(cs[1..]) + EndChunk(crc).Bytes());
      BetweenStep(file, pos, st, c);
      ChunksRoundTrip(file, pos + 12 + |c.body|, next, cs[1..], crc);
    }
  }

  lemma EndStep(file: seq<byte>, pos: nat, st: State, crc: seq<byte>)
    requires StateOk(st) && st.Body? && |crc| == 4 && |st.idat| > 0 && Holds(file, pos, EndChunk(crc).Bytes())
    ensures ChunkStep(file, pos, st) == Stop(Whole(st.head, st.idat))
  {
    hide Be32, HeadOk, Chunk.Bytes;
    ChunkRead(file, pos, EndChunk(crc));
  }

  /** The header chunk of an image. */
  function HeadBytes(h: Head): (s: seq<byte>)
    requires HeadOk(h)
    ensures |s| == 13
  {
    hide Channels;
    Be32Bytes(h.x) + (Be32Bytes(h.y) + [h.depth, h.color, 0, 0, if h.interlaced then 1 else 0])
  }

  function HeadChunk(h: Head, crc: seq<byte>): Chunk
    requires HeadOk(h)
  {
    Chunk(IHDR, HeadBytes(h), crc)
  }

  lemma HeadRoundTrip(file: seq<byte>, pos: nat, h: Head)
    requires HeadOk(h) && Holds(file, pos, HeadBytes(h))
    ensures ReadHead(file, pos) == Good(h)
  {
    hide Be32, Be32Bytes, Channels, Holds;
    var rest := [h.depth, h.color, 0, 0, if h.interlaced then 1 else 0];
    HoldsSplit(file, pos, Be32Bytes(h.x), Be32Bytes(h.y) + rest);
    HoldsSplit(file, pos + 4, Be32Bytes(h.y), rest);
    Be32RoundTrip(file, pos, h.x);
    Be32RoundTrip(file, pos + 4, h.y);
    FiveBytes(file, pos + 8, rest);
  }

  lemma FiveBytes(file: seq<byte>, pos: nat, s: seq<byte>)
    requires |s| == 5 && Holds(file, pos, s)
    ensures Peek(file, pos) == s[0] && Peek(file, pos + 1) == s[1] && Peek(file, pos + 2) == s[2]
    ensures Peek(file, pos + 3) == s[3] && Peek(file, pos + 4) == s[4]
  {
    var t := file[pos..pos + 5];
    assert t[0] == file[pos] && t[1] == file[pos + 1] && t[2] == file[pos + 2] && t[3] == file[pos + 3]
           && t[4] == file[pos + 4];
  }

  lemma HeadStep(file: seq<byte>, pos: nat, h: Head, crc: seq<byte>)
    requires HeadOk(h) && |crc| == 4 && Holds(file, pos, HeadChunk(h, crc).Bytes())
    ensures ChunkStep(file, pos, Start) == Go(pos + 25, Body(h, []))
  {
    hide Be32, HeadOk, Chunk.Bytes, ReadHead, HeadBytes;
    ChunkRead(file, pos, HeadChunk(h, crc));
    HeadRoundTrip(file, pos + 8, h);
  }

  /** A file as the standard lays it out, with whatever follows the end chunk. */
  ghost predicate FileOf(file: seq<byte>, h: Head, crc: seq<byte>, cs: seq<Chunk>, end: seq<byte>)
  {
    HeadOk(h) && |crc| == 4 && |end| == 4 && AllBetween(cs)
    && Holds(file, 0, SIGNATURE + (HeadChunk(h, crc).Bytes() + (ChunksBytes(cs) + EndChunk(end).Bytes())))
  }

  /** Reading such a file gives the header and the data chunks' bytes, however they were cut. */
  lemma FileRoundTrip(file: seq<byte>, h: Head, crc: seq<byte>, cs: seq<Chunk>, end: seq<byte>)
    requires FileOf(file, h, crc, cs, end) && 0 < |Gathered(cs)| <= INT_MAX
    ensures ScanFile(file) == Whole(h, Gathered(cs))
  {
    hide ChunkStep, Scan, HeadOk, Chunk.Bytes, Chunk.Between, ChunksBytes, HeadBytes;
    var body := HeadChunk(h, crc).Bytes();
    var tail := ChunksBytes(cs) + EndChunk(end).Bytes();
    HoldsSplit(file, 0, SIGNATURE, body + tail);
    assert |SIGNATURE| == 8 && SIGNATURE <= file;
    HoldsSplit(file, 8, body, tail);
    HeadStep(file, 8, h, crc);
    ScanStep(file, 8, Start);
    assert [] + Gathered(cs) == Gathered(cs);
    ChunksRoundTrip(file, 33, Body(h, []), cs, end);
  }
}
