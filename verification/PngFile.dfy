/** `stbi__parse_png_file`: from the bytes of a file to its samples. */
module PngFile {
  import opened Arithmetic
  import opened Bits
  import opened Canonical
  import opened Context
  import opened Png
  import opened SizeChecks
  import opened Adam7
  import opened PngPasses
  import opened PngDecoder
  import opened PngChunks
  import opened Deflate
  import opened ZBuf
  import opened ZWindow

  datatype LoadResult = Loaded(x: nat, y: nat, n: nat, out_n: nat, depth: nat, out: seq<byte>) | Failed | NotModelled

  /** An unsigned value seen as a signed one. */
  function ToInt(v: nat): int
  {
    if v > INT_MAX then v - 0x1_0000_0000 else v
  }

  /** Channels of the output: one more than the file's when that is what the caller asked for. */
  function OutChannels(n: nat, req_comp: nat): nat
  {
    if req_comp == n + 1 && req_comp != 3 then n + 1 else n
  }

  /** Grey and colour get alpha when two or four channels are asked for; nothing else changes here. */
  lemma OutChannelsAre(n: nat, req_comp: nat)
    requires 1 <= n <= 4 && req_comp <= 4
    ensures OutChannels(n, req_comp) == if n == 1 && req_comp == 2 then 2 else if n == 3 && req_comp == 4 then 4 else n
  {}

  /** Bytes per line and channel. */
  function BytesPerLine(x: nat, depth: nat): nat
  {
    (x * depth + 7) / 8
  }

  /** The decompressed size the program guesses. */
  function Guess(h: Head): nat
  {
    BytesPerLine(h.x, h.depth) * h.y * h.n + h.y
  }

  lemma LineBytes(x: nat, depth: nat)
    requires 1 <= x <= MAX_DIMENSIONS && depth <= 16
    ensures x * depth + 7 <= UINT_MAX && BytesPerLine(x, depth) <= 2 * x
  {
    Product(depth, 16, x);
    assert depth * x == x * depth;
  }

  lemma GuessBound(bpl: nat, x: nat, y: nat, n: nat, max: nat)
    requires bpl <= 2 * x && x * n * y <= max && n > 0
    ensures bpl * y * n <= 2 * max && bpl * y <= 2 * max
  {
    Product(bpl, 2 * x, y);
    Product(bpl * y, 2 * x * y, n);
    assert 2 * x * y * n == 2 * (x * n * y);
    Product(1, n, bpl * y);
    assert n * (bpl * y) == bpl * y * n;
  }

  /** The unsigned arithmetic of the guess never wraps. */
  lemma GuessFits(h: Head)
    requires HeadOk(h)
    ensures h.x * h.depth + 7 <= UINT_MAX
    ensures BytesPerLine(h.x, h.depth) * h.y <= UINT_MAX && BytesPerLine(h.x, h.depth) * h.y * h.n <= UINT_MAX
    ensures 0 < Guess(h) <= UINT_MAX
  {
    hide BytesPerLine, Channels;
    LineBytes(h.x, h.depth);
    GuessBound(BytesPerLine(h.x, h.depth), h.x, h.y, h.n, MAX_PIXEL_BYTES);
  }

  /** The filtered rows of the image, or of every pass of it, are all there. */
  ghost predicate ImageOk(data: seq<byte>, h: Head, out_n: nat)
  {
    if h.interlaced then
      Mad3Valid(h.x, h.y, OutBytes(out_n, h.depth), 0) && PassesOk(data, h.n, out_n, h.depth, h.x, h.y, PASSES)
    else
      Readable(data, h.n, out_n, h.depth, h.x, h.y)
  }

  /** `out` is the image those rows stand for. */
  ghost predicate Shows(out: seq<byte>, data: seq<byte>, h: Head, out_n: nat)
    requires HeadOk(h) && Layout(h.n, out_n) && ImageOk(data, h, out_n)
  {
    if h.interlaced then
      && |out| == h.x * h.y * OutBytes(out_n, h.depth)
      && forall p :: 0 <= p < PASSES ==>
           Placed(out, PassOut(data, h.n, out_n, h.depth, h.color, h.x, h.y, p),
                  h.x, h.y, OutBytes(out_n, h.depth), p, PassH(h.y, p), 0)
    else
      out == ImageOut(data, h.x, h.n, out_n, h.depth, h.color, h.y)
  }

  /** The result the file's header and data call for. A size guess that is negative as an `int`
      fails in the allocator. */
  ghost predicate Finished(h: Head, idat: seq<byte>, req_comp: nat, r: LoadResult)
    requires HeadOk(h) && req_comp <= 4
  {
    var out_n := OutChannels(h.n, req_comp);
    if Guess(h) > INT_MAX then r == Failed else
    GuessFits(h);
    var z := ExactZlib(idat, true, MaxLimit(Guess(h)));
    if z.Refused? || !ImageOk(z.out, h, out_n) then r == Failed else
    match r
    case NotModelled => false
    case Failed => false
    case Loaded(x, y, n, o, depth, out) =>
      x == h.x && y == h.y && n == h.n && o == out_n && depth == h.depth && Shows(out, z.out, h, out_n)
  }

  /** The result a file calls for. */
  ghost predicate LoadedFrom(file: seq<byte>, req_comp: nat, r: LoadResult)
    requires req_comp <= 4
  {
    match ScanFile(file)
    case Bad => r == Failed
    case Unmodelled => r == NotModelled
    case Whole(h, idat) => Finished(h, idat, req_comp, r)
  }

  datatype ChunkOutcome = Continue | End(result: Parsed)

  class Parser {
    const s: Source
    var first: bool
    var head: Head
    var idata: array<byte>
    var ioff: nat

    ghost predicate Valid()
      reads this
    {
      && ioff <= idata.Length && ioff <= INT_MAX && idata.Length <= UINT_MAX
      && (first ==> ioff == 0) && (!first ==> HeadOk(head))
      && (idata.Length == 0 <==> ioff == 0)
    }

    ghost function St(): (st: State)
      requires Valid()
      reads this, idata
      ensures StateOk(st)
    {
      if first then Start else Body(head, idata[..ioff])
    }

    constructor (data: seq<byte>)
      ensures s.data == data && s.img_buffer == 0 && Valid() && St() == Start && fresh(idata) && fresh(s)
    {
      s := new Source(data);
      first, ioff := true, 0;
      head := Head(0, 0, 0, 0, 0, false);
      idata := new byte[0];
    }

    /** `stbi__check_png_header`. */
    method CheckPngHeader() returns (ok: bool)
      requires s.img_buffer == 0
      modifies s
      ensures ok <==> SIGNATURE <= s.data
      ensures ok ==> s.img_buffer == 8
    {
      for i := 0 to 8
        invariant s.img_buffer == i <= |s.data| && s.data[..i] == SIGNATURE[..i]
      {
        var b := s.Get8();
        if b != SIGNATURE[i] { return false; }
        assert i < |s.data|;
        assert s.data[..i + 1] == s.data[..i] + [b];
        assert SIGNATURE[..i + 1] == SIGNATURE[..i] + [b];
      }
      ok := true;
      assert SIGNATURE == SIGNATURE[..8];
    }

    /** The fields of an image header, in file order. */
    method ReadFields() returns (r: HeadRead)
      modifies s
      ensures r == ReadHead(s.data, old(s.img_buffer))
      ensures s.img_buffer == Next(s.data, old(s.img_buffer), 13) || !r.Good?
    {
      hide Be32, Peek;
      var x := s.Get32be();
      var y := s.Get32be();
      if y > MAX_DIMENSIONS { return Wrong; }
      if x > MAX_DIMENSIONS { return Wrong; }
      var depth := s.Get8();
      if depth != 1 && depth != 2 && depth != 4 && depth != 8 && depth != 16 { return Wrong; }
      var color := s.Get8();
      if color > 6 { return Wrong; }
      if color == 3 && depth == 16 { return Wrong; }
      if color != 3 && color % 2 == 1 { return Wrong; }
      var comp := s.Get8();
      if comp != 0 { return Wrong; }
      var filter := s.Get8();
      if filter != 0 { return Wrong; }
      var interlace := s.Get8();
      if interlace > 1 { return Wrong; }
      if x == 0 || y == 0 { return Wrong; }
      if color == 3 {
        TwoDivisions(0x4000_0000, x, 4, y);
        if 0x4000_0000 / x / 4 < y { return Wrong; }
        return Palette;
      }
      var img_n := Channels(color);
      TwoDivisions(0x4000_0000, x, img_n, y);
      if 0x4000_0000 / x / img_n < y { return Wrong; }
      r := Good(Head(x, y, img_n, depth, color, interlace == 1));
    }

    /** Room for `len` more bytes, at least doubling; the limit stays below 2^32. */
    method Reserve(len: nat)
      requires Valid() && ioff + len <= INT_MAX
      modifies `idata
      ensures idata == old(idata) || fresh(idata)
      ensures ioff + len <= idata.Length <= UINT_MAX && idata[..ioff] == old(idata[..ioff])
      ensures idata.Length == 0 <==> ioff + len == 0
    {
      if ioff + len > idata.Length {
        var limit := idata.Length;
        if limit == 0 { limit := if len > 4096 then len else 4096; }
        while ioff + len > limit
          invariant 0 < limit <= UINT_MAX && idata.Length <= limit
        {
          limit := limit * 2;
        }
        idata := Decoder.Realloc(idata, limit);
      }
    }

    /** One data chunk. */
    method ReadIdat(len: nat) returns (ok: bool)
      requires Valid() && !first && len <= UINT_MAX
      modifies this, s, idata
      ensures first == old(first) && head == old(head) && (idata == old(idata) || fresh(idata))
      ensures ok <==> len <= MAX_PIXEL_BYTES && old(ioff) + len <= INT_MAX && old(s.img_buffer) + len <= |s.data|
      ensures ok ==> Valid() && s.img_buffer == old(s.img_buffer) + len && ioff == old(ioff) + len
                     && idata[..ioff] == old(idata[..ioff]) + s.data[old(s.img_buffer)..s.img_buffer]
    {
      hide HeadOk;
      if len > MAX_PIXEL_BYTES { return false; }
      if ToInt((ioff + len) % 0x1_0000_0000) < ToInt(ioff) { return false; }
      Reserve(len);
      ok := s.Getn(idata, ioff, len);
      if ok { ioff := ioff + len; }
    }

    /** One chunk. */
    method NextChunk() returns (r: ChunkOutcome)
      requires Valid()
      modifies this, s, idata
      ensures idata == old(idata) || fresh(idata)
      ensures match ChunkStep(s.data, old(s.img_buffer), old(St()))
              case Stop(end) => r == End(end)
              case Go(p, st) => r == Continue && Valid() && s.img_buffer == p && St() == st
    {
      hide HeadOk, ReadHead, Be32, LaterStep;
      var len := s.Get32be();
      var kind := s.Get32be();
      if kind == CGBI {
        r := End(Unmodelled);
      } else if kind == IHDR {
        r := HeaderChunk(len);
      } else if first {
        r := End(Bad);
      } else {
        r := LaterChunk(len, kind);
      }
    }

    /** A chunk after the header. */
    method LaterChunk(len: nat, kind: nat) returns (r: ChunkOutcome)
      requires Valid() && !first && len <= UINT_MAX
      modifies this, s, idata
      ensures idata == old(idata) || fresh(idata)
      ensures match LaterStep(s.data, old(s.img_buffer), len, kind, old(St()))
              case Stop(end) => r == End(end)
              case Go(p, st) => r == Continue && Valid() && s.img_buffer == p && St() == st
    {
      hide HeadOk, ReadHead, Be32, Ancillary;
      if kind == PLTE {
        r := PaletteChunk(len);
        if r == End(Bad) { return; }
      } else if kind == TRNS {
        return End(Unmodelled);
      } else if kind == IDAT {
        var ok := ReadIdat(len);
        if !ok { return End(Bad); }
      } else if kind == IEND {
        if idata.Length == 0 { return End(Bad); }
        return End(Whole(head, idata[..ioff]));
      } else {
        if !Ancillary(kind) { return End(Bad); }
        s.Skip(ToInt(len));
      }
      var crc := s.Get32be();
      r := Continue;
    }

    method HeaderChunk(len: nat) returns (r: ChunkOutcome)
      requires Valid()
      modifies this, s
      ensures idata == old(idata)
      ensures if !old(first) || len != 13 then r == End(Bad) else
              match ReadHead(s.data, old(s.img_buffer))
              case Wrong => r == End(Bad)
              case Palette => r == End(Unmodelled)
              case Good(h) => r == Continue && Valid() && s.img_buffer == Next(s.data, old(s.img_buffer), 17)
                              && St() == Body(h, [])
    {
      hide HeadOk, ReadHead, Be32;
      if !first { return End(Bad); }
      first := false;
      if len != 13 { return End(Bad); }
      var read := ReadFields();
      match read {
        case Wrong => return End(Bad);
        case Palette => return End(Unmodelled);
        case Good(h) => head := h;
      }
      var crc := s.Get32be();
      r := Continue;
    }

    /** A suggested palette is read over. */
    method PaletteChunk(len: nat) returns (r: ChunkOutcome)
      modifies s
      ensures r == if len > 768 || len % 3 != 0 then End(Bad) else Continue
      ensures r == Continue ==> s.img_buffer == Next(s.data, old(s.img_buffer), len)
    {
      if len > 768 { return End(Bad); }
      var pal_len := len / 3;
      if pal_len * 3 != len { return End(Bad); }
      for i := 0 to pal_len
        invariant s.img_buffer == Next(s.data, old(s.img_buffer), 3 * i)
      {
        var red := s.Get8();
        var green := s.Get8();
        var blue := s.Get8();
      }
      r := Continue;
    }

    /** The whole file up to the end chunk. */
    method ReadChunks() returns (r: Parsed)
      requires Valid()
      modifies this, s, idata
      ensures r == Scan(s.data, old(s.img_buffer), old(St()))
    {
      hide HeadOk, ChunkStep, Scan;
      ghost var start := Scan(s.data, s.img_buffer, St());
      while true
        invariant Valid() && (idata == old(idata) || fresh(idata))
        invariant Scan(s.data, s.img_buffer, St()) == start
        decreases if s.img_buffer < |s.data| then |s.data| - s.img_buffer else 0
      {
        ScanStep(s.data, s.img_buffer, St());
        var step := NextChunk();
        match step {
          case End(end) => return end;
          case Continue =>
        }
      }
    }
  }

  /** Decompress, unfilter, deinterlace. */
  method Finish(h: Head, idat: seq<byte>, req_comp: nat) returns (r: LoadResult)
    requires HeadOk(h) && req_comp <= 4
    ensures Finished(h, idat, req_comp, r)
  {
    hide ExactZlib, RefZlib, Readable, PassesOk, Mad3Valid, ImageOut, Placed, PassOut, MaxLimit;
    GuessFits(h);
    var bpl := (h.x * h.depth + 7) / 8;
    var raw_len := bpl * h.y * h.n + h.y;
    if ToInt(raw_len) < 0 { return Failed; }
    var expanded := DecodeMalloc(idat, raw_len, true);
    if expanded.None? { return Failed; }
    var out_n := if req_comp == h.n + 1 && req_comp != 3 then h.n + 1 else h.n;
    var image := new Image(h.x, h.y, h.n);
    var ok := image.CreateImage(expanded.value, out_n, h.depth, h.color, h.interlaced);
    if !ok { return Failed; }
    r := Loaded(h.x, h.y, h.n, out_n, h.depth, image.out[..]);
  }

  /** `stbi__parse_png_file` when the whole image is wanted. */
  method ParsePngFile(file: seq<byte>, req_comp: nat) returns (r: LoadResult)
    requires req_comp <= 4
    ensures LoadedFrom(file, req_comp, r)
  {
    hide Finished, HeadOk, Scan;
    var p := new Parser(file);
    var ok := p.CheckPngHeader();
    if !ok { return Failed; }
    var parsed := p.ReadChunks();
    match parsed {
      case Bad => r := Failed;
      case Unmodelled => r := NotModelled;
      case Whole(h, idat) => r := Finish(h, idat, req_comp);
    }
  }
}
