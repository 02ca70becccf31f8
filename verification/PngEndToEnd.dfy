/** Every grey or colour image, of any bit depth, written as a PNG file is loaded as it was. */
module PngEndToEnd {
  import opened Bits
  import opened BitStrings
  import opened Canonical
  import opened Arithmetic
  import opened Png
  import opened SizeChecks
  import opened PngPack
  import opened Adam7
  import opened PngPasses
  import opened PngRoundTrip
  import opened PngChunks
  import opened PngFile
  import opened Deflate
  import opened DeflateStream
  import opened ZBuf
  import opened ZWindow

  /** The first `y` rows, `w` bytes each, of an image. */
  function ImageRows(img: seq<byte>, w: nat, y: nat): (rows: seq<seq<byte>>)
    requires RowOffset(w, y) <= |img|
    ensures |rows| == y && forall r :: 0 <= r < y ==> |rows[r]| == w
  {
    if y == 0 then [] else ImageRows(img, w, y - 1) + [img[RowOffset(w, y - 1)..RowOffset(w, y)]]
  }

  lemma {:induction false} ConcatTake(rows: seq<seq<byte>>, more: seq<seq<byte>>, k: nat)
    requires k <= |rows|
    ensures Concat(rows + more, k) == Concat(rows, k)
  {
    if k > 0 { ConcatTake(rows, more, k - 1); }
  }

  lemma {:induction false} RowsJoin(img: seq<byte>, w: nat, y: nat)
    requires RowOffset(w, y) <= |img|
    ensures Concat(ImageRows(img, w, y), y) == img[..RowOffset(w, y)]
  {
    if y > 0 {
      RowsJoin(img, w, y - 1);
      ConcatTake(ImageRows(img, w, y - 1), [img[RowOffset(w, y - 1)..RowOffset(w, y)]], y - 1);
    }
  }

  /** The rows of the image, or of each of its passes, packed and filtered in any way. The image is
      given as the bytes that show it: below 8 bits grey levels spread over 0..255, 16-bit samples low
      byte first. */
  ghost predicate Filters(data: seq<byte>, img: seq<byte>, h: Head, filters: seq<seq<nat>>)
  {
    var b := OutBytes(h.n, h.depth);
    && |img| == b * (h.x * h.y) == h.x * h.y * b && |filters| == PASSES
    && if h.interlaced then EncodesPasses(data, img, h.x, h.y, h.n, h.depth, h.color, filters)
       else RowOffset(b * h.x, h.y) == |img|
            && Encodes(data, ImageRows(img, b * h.x, h.y), filters[0], h.x, h.n, h.depth, h.color)
  }

  /** `zlib` starts with a zlib stream whose blocks, encoded in any way the standard allows, stand for `data`. */
  ghost predicate Compresses(zlib: seq<byte>, blocks: seq<Block>, data: seq<byte>)
  {
    && HeaderOk(zlib) && StreamOk(blocks, 16) && At(zlib, 16, StreamBits(blocks, 16))
    && 16 + |StreamBits(blocks, 16)| <= 8 * |zlib|
    && StreamOutput(blocks, 16, []) == Some(data)
  }

  lemma {:induction false} MaxLimitLarge(limit: nat)
    requires 0 < limit <= UINT_MAX
    ensures MaxLimit(limit) > INT_MAX
    decreases UINT_MAX - limit
  {
    if limit <= UINT_MAX / 2 { MaxLimitLarge(2 * limit); }
  }

  lemma Decompresses(zlib: seq<byte>, blocks: seq<Block>, data: seq<byte>, limit: nat)
    requires Compresses(zlib, blocks, data) && 0 < limit <= UINT_MAX && |data| <= INT_MAX
    ensures var z := ExactZlib(zlib, true, MaxLimit(limit)); z.Got? && z.out == data
  {
    hide MaxLimit, RefZlib, ExactZlib, StreamOk, StreamBits, StreamOutput, At;
    MaxLimitLarge(limit);
    ZlibRoundTrip(zlib, true, MaxLimit(limit), blocks);
    ZlibAgrees(zlib, true, MaxLimit(limit));
  }

  /** The size checks behind the header, which depend on the header and the request alone. */
  predicate Loadable(h: Head, out_n: nat)
  {
    SizesOk(h.x, h.y, h.n, out_n, h.depth) && Guess(h) <= INT_MAX
  }

  /** Up to 8 bits per sample they pass as soon as the output itself fits an `int`. */
  lemma LoadableSmall(h: Head, out_n: nat)
    requires HeadOk(h) && h.depth <= 8 && Layout(h.n, out_n) && (out_n == h.n || h.x * h.y * out_n <= INT_MAX)
    ensures Loadable(h, out_n)
  {
    hide Mul2Valid, HeadOk, SizesOk, RowBytes, BytesPerLine;
    HeadPixels(h);
    HeadRange(h);
    PixelSizes(h.x, h.y, h.n);
    SizesAre(h.x, h.y, h.n, out_n, h.depth);
    Mul2Exact(h.x, h.y);
    Mul2Exact(h.n * h.x, 8);
    Product(h.depth, 8, h.n * h.x);
    assert h.n * h.x * h.depth == h.depth * (h.n * h.x);
    LineSmall(h.n, h.x, h.depth);
    LineSmall(1, h.x, h.depth);
    Shrinks(h.n * h.x, h.y, RowBytes(h.n, h.x, h.depth), h.y);
    GuessSmall(h);
  }

  lemma HeadRange(h: Head)
    requires HeadOk(h)
    ensures h.x <= MAX_DIMENSIONS && h.y <= MAX_DIMENSIONS && Depth(h.depth)
  {}

  lemma LineSmall(n: nat, x: nat, depth: nat)
    requires depth <= 8
    ensures RowBytes(n, x, depth) <= n * x
    ensures n == 1 ==> BytesPerLine(x, depth) <= x
  {
    Product(depth, 8, n * x);
    assert n * x * depth == depth * (n * x);
    Product(depth, 8, x);
    assert x * depth == depth * x;
  }

  lemma GuessSmall(h: Head)
    requires h.x * h.y * h.n <= MAX_PIXEL_BYTES && h.y <= MAX_DIMENSIONS && BytesPerLine(h.x, h.depth) <= h.x
    ensures Guess(h) <= INT_MAX
  {
    hide BytesPerLine;
    Shrinks(h.x, h.y, BytesPerLine(h.x, h.depth), h.y);
    Product(BytesPerLine(h.x, h.depth) * h.y, h.x * h.y, h.n);
  }

  /** The data can be decoded, and what `out` shows of them is `shown`. */
  ghost predicate Decodes(data: seq<byte>, h: Head, out_n: nat, out: seq<byte>, shown: seq<byte>)
    requires HeadOk(h) && Layout(h.n, out_n)
  {
    ImageOk(data, h, out_n) && (Shows(out, data, h, out_n) ==> out == shown)
  }

  /** The rows of an image that is not interlaced can be decoded, and come back. */
  ghost predicate PlainRead(data: seq<byte>, img: seq<byte>, h: Head, out_n: nat, b: nat, a: nat)
    requires OutPixels(h.n, out_n, h.depth, b, a)
  {
    && RowStart(RowBytes(h.n, h.x, h.depth), h.y) <= |data| && FiltersOk(data, RowBytes(h.n, h.x, h.depth), h.y)
    && RowOffset(b * h.x, h.y) == |img|
    && ComesBack(data, ImageRows(img, b * h.x, h.y), h.x, h.n, out_n, h.depth, h.color, b, a, h.y)
  }

  lemma PlainIsRead(data: seq<byte>, img: seq<byte>, h: Head, filters: seq<seq<nat>>, out_n: nat, b: nat, a: nat)
    requires OutPixels(h.n, out_n, h.depth, b, a) && !h.interlaced && Filters(data, img, h, filters)
    ensures PlainRead(data, img, h, out_n, b, a)
  {
    hide Encodes, FiltersOk, RowOffset, RowStart, RowBytes, ComesBack;
    var rows := ImageRows(img, b * h.x, h.y);
    EncodedFilters(data, rows, filters[0], h.x, h.n, h.depth, h.color);
    ImageRoundTrip(data, rows, filters[0], h.x, h.n, out_n, h.depth, h.color, b, a, h.y);
  }

  lemma PlainShown(data: seq<byte>, img: seq<byte>, h: Head, out_n: nat, b: nat, a: nat, out: seq<byte>,
        shown: seq<byte>)
    requires OutPixels(h.n, out_n, h.depth, b, a) && |img| == b * (h.x * h.y) && shown == Shown(img, h.x * h.y, b, a)
    requires HeadOk(h) && !h.interlaced && PlainRead(data, img, h, out_n, b, a)
    requires SizesOk(h.x, h.y, h.n, out_n, h.depth)
    ensures Decodes(data, h, out_n, out, shown)
  {
    hide ImageOut, SizesOk, FiltersOk, Shown, HeadOk, RowOffset, RowStart, ImageRows, Concat, RowBytes;
    RowsJoin(img, b * h.x, h.y);
    assert img[..|img|] == img;
  }

  lemma InterlacedShown(data: seq<byte>, img: seq<byte>, h: Head, filters: seq<seq<nat>>, out_n: nat, b: nat, a: nat,
        out: seq<byte>, shown: seq<byte>)
    requires HeadOk(h) && h.interlaced && Filters(data, img, h, filters) && OutPixels(h.n, out_n, h.depth, b, a)
    requires SizesOk(h.x, h.y, h.n, out_n, h.depth) && |img| == b * (h.x * h.y) && shown == Shown(img, h.x * h.y, b, a)
    ensures Decodes(data, h, out_n, out, shown)
  {
    hide EncodesPasses, Shown, PassesOk, Placed, PassOut, Mad3Valid, Mad2Valid, HeadOk, Zeros, OutBytes, RowBytes;
    var dummy := if |out| == h.x * h.y * (b + a) then out else Zeros(h.x * h.y * (b + a));
    InterlacedRoundTrip(data, img, h.x, h.y, h.n, out_n, h.depth, h.color, b, a, filters, dummy);
  }

  /** The choices a writer has: checksums, chunks, deflate blocks and filters. */
  datatype Writing = Writing(crc: seq<byte>, chunks: seq<Chunk>, end: seq<byte>, blocks: seq<Block>, data: seq<byte>,
      filters: seq<seq<nat>>)

  /** `file` holds the image `img`, written with those choices. */
  ghost predicate Writes(e: Writing, file: seq<byte>, h: Head, img: seq<byte>)
  {
    && FileOf(file, h, e.crc, e.chunks, e.end)
    && Compresses(Gathered(e.chunks), e.blocks, e.data) && |Gathered(e.chunks)| <= INT_MAX && |e.data| <= INT_MAX
    && Filters(e.data, img, h, e.filters)
  }

  /** What loading gives: the samples, with `a` bytes of opaque alpha added when the caller asked for it. */
  function Expected(h: Head, img: seq<byte>, out_n: nat, b: nat, a: nat): LoadResult
    requires Pixels(b, a) && |img| == b * (h.x * h.y)
  {
    Loaded(h.x, h.y, h.n, out_n, h.depth, Shown(img, h.x * h.y, b, a))
  }

  lemma WritesParts(e: Writing, file: seq<byte>, h: Head, img: seq<byte>, req_comp: nat)
    requires Writes(e, file, h, img) && req_comp <= 4
    ensures HeadOk(h) && Depth(h.depth) && Layout(h.n, OutChannels(h.n, req_comp))
    ensures |img| == OutBytes(h.n, h.depth) * (h.x * h.y) && ScanFile(file) == Whole(h, Gathered(e.chunks))
  {
    hide Shown, ScanFile, Chunk.Bytes, AllBetween, ChunksBytes, StreamOk, StreamBits, StreamOutput, EncodesPasses,
         Encodes;
    FileRoundTrip(file, h, e.crc, e.chunks, e.end);
  }

  /** Whatever the bit depth, whatever filter each row uses, interlaced or not, however the data are
      compressed and however the stream is cut into chunks among other chunks: the loader returns the
      original samples. */
  lemma EndToEnd(e: Writing, file: seq<byte>, h: Head, img: seq<byte>, req_comp: nat, b: nat, a: nat, r: LoadResult)
    requires Writes(e, file, h, img) && req_comp <= 4 && Loadable(h, OutChannels(h.n, req_comp))
    requires OutPixels(h.n, OutChannels(h.n, req_comp), h.depth, b, a) && LoadedFrom(file, req_comp, r)
    ensures |img| == b * (h.x * h.y) && r == Expected(h, img, OutChannels(h.n, req_comp), b, a)
  {
    hide FileOf, Compresses, Filters, Shown, HeadOk, ScanFile, ImageOk, Shows, SizesOk, ExactZlib, MaxLimit, Guess;
    var out_n := OutChannels(h.n, req_comp);
    WritesParts(e, file, h, img, req_comp);
    GuessFits(h);
    Decompresses(Gathered(e.chunks), e.blocks, e.data, Guess(h));
    var out, shown := if r.Loaded? then r.out else [], Shown(img, h.x * h.y, b, a);
    if h.interlaced {
      InterlacedShown(e.data, img, h, e.filters, out_n, b, a, out, shown);
    } else {
      PlainIsRead(e.data, img, h, e.filters, out_n, b, a);
      PlainShown(e.data, img, h, out_n, b, a, out, shown);
    }
  }
}
