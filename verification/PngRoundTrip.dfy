/** Encoding an image of any bit depth into filtered, possibly interlaced rows and getting it back. */
module PngRoundTrip {
  import opened Arithmetic
  import opened Bits
  import opened PixelGrid
  import opened Png
  import opened SizeChecks
  import opened Adam7
  import opened PngPack
  import opened PngPasses

  function Concat(rows: seq<seq<byte>>, n: nat): seq<byte>
    requires n <= |rows|
  {
    if n == 0 then [] else Concat(rows, n - 1) + rows[n - 1]
  }

  /** Pixels of `b` bytes, and opaque alpha of `a` bytes if any is added. */
  predicate Pixels(b: nat, a: nat)
  {
    b > 0 && (a == 0 || AlphaShape(b, a))
  }

  /** Pixels of `n` samples are `b` bytes in the output, and `a` bytes of alpha are added to each. */
  predicate OutPixels(n: nat, out_n: nat, depth: nat, b: nat, a: nat)
  {
    Layout(n, out_n) && Depth(depth) && b == OutBytes(n, depth) && b + a == OutBytes(out_n, depth) && Pixels(b, a)
  }

  lemma OutPixelsExist(n: nat, out_n: nat, depth: nat) returns (b: nat, a: nat)
    requires Layout(n, out_n) && Depth(depth)
    ensures OutPixels(n, out_n, depth, b, a)
  {
    b, a := OutBytes(n, depth), OutBytes(out_n, depth) - OutBytes(n, depth);
  }

  /** The samples a caller gets: the image's own, with opaque alpha after each pixel when asked for. */
  function Shown(s: seq<byte>, x: nat, b: nat, a: nat): (r: seq<byte>)
    requires Pixels(b, a) && |s| == b * x
    ensures |r| == (b + a) * x
  {
    if a == 0 then s else WithAlpha(s, x, b, a)
  }

  /** A row of `x` pixels that can be written. */
  predicate RowOk(row: seq<byte>, x: nat, n: nat, depth: nat, color: nat)
  {
    |row| == OutBytes(n, depth) * x && Packable(row, depth, color)
  }

  lemma RowSamples(row: seq<byte>, x: nat, n: nat, depth: nat, color: nat)
    requires Depth(depth) && RowOk(row, x, n, depth, color)
    ensures |PackedRow(row, depth, color)| == RowBytes(n, x, depth)
    ensures if depth == 16 then 2 * (n * x) <= RowBytes(n, x, depth)
            else n * x <= PerByte(depth) * RowBytes(n, x, depth)
    ensures SampleBytes(PackedRow(row, depth, color), depth, color, n * x) == row
  {
    hide PackedRow, SampleBytes, Packable, Scale, RowBytes, PerByte;
    PackedLength(row, depth, color, n, x);
    PackedBack(row, depth, color, n * x);
    RowHolds(RowBytes(n, x, depth), x, n, depth);
  }

  /** A packed row comes out as it went in, up to added alpha. */
  lemma WholeRow(row: seq<byte>, x: nat, n: nat, out_n: nat, depth: nat, color: nat, b: nat, a: nat)
    requires OutPixels(n, out_n, depth, b, a) && RowOk(row, x, n, depth, color) && |row| == b * x
    ensures |PackedRow(row, depth, color)| == RowBytes(n, x, depth)
    ensures RowOut(PackedRow(row, depth, color), x, n, out_n, depth, color) == Shown(row, x, b, a)
  {
    hide WithAlpha, PackedRow, SampleBytes, Packable, RowBytes, PerByte;
    RowSamples(row, x, n, depth, color);
  }

  lemma AlphaStep(s: seq<byte>, x: nat, b: nat, a: nat)
    requires AlphaShape(b, a) && x > 0 && b * x <= |s|
    ensures b * x == b * (x - 1) + b
    ensures WithAlpha(s, x, b, a) == WithAlpha(s, x - 1, b, a) + s[b * (x - 1)..b * x] + Opaque(a)
  {
    hide Opaque;
    assert b * x == b * (x - 1) + b;
  }

  lemma Spread(b: nat, x: nat, y: nat)
    ensures b * (x + y) == b * x + b * y
  {}

  lemma TailSlice(s: seq<byte>, t: seq<byte>, i: nat, j: nat)
    requires i <= j <= |t|
    ensures (s + t)[|s| + i..|s| + j] == t[i..j]
  {}

  lemma {:induction false} AlphaJoins(s: seq<byte>, x: nat, t: seq<byte>, y: nat, b: nat, a: nat)
    requires AlphaShape(b, a) && |s| == b * x && b * y <= |t| && b * (x + y) <= |s + t|
    ensures WithAlpha(s + t, x + y, b, a) == WithAlpha(s, x, b, a) + WithAlpha(t, y, b, a)
  {
    hide WithAlpha, Opaque, AlphaShape;
    if y == 0 {
      AlphaPrefix(s + t, s, x, b, a);
      NoAlpha(t, b, a);
    } else {
      var k := y - 1;
      Spread(b, x, k);
      Spread(b, x, y);
      AlphaStep(s + t, x + y, b, a);
      AlphaStep(t, y, b, a);
      AlphaJoins(s, x, t, k, b, a);
      TailSlice(s, t, b * k, b * y);
    }
  }

  lemma NoAlpha(s: seq<byte>, b: nat, a: nat)
    requires AlphaShape(b, a)
    ensures WithAlpha(s, 0, b, a) == []
  {}

  /** Adding alpha to two pieces adds it to the whole. */
  lemma ShownJoins(s: seq<byte>, x: nat, t: seq<byte>, y: nat, b: nat, a: nat)
    requires Pixels(b, a) && |s| == b * x && |t| == b * y
    ensures |s + t| == b * (x + y)
    ensures Shown(s + t, x + y, b, a) == Shown(s, x, b, a) + Shown(t, y, b, a)
  {
    hide WithAlpha;
    assert b * (x + y) == b * x + b * y;
    if a != 0 { AlphaJoins(s, x, t, y, b, a); }
  }

  /** Only the pixels themselves matter. */
  lemma {:induction false} AlphaPrefix(s: seq<byte>, t: seq<byte>, x: nat, b: nat, a: nat)
    requires AlphaShape(b, a) && b * x <= |t| <= |s| && t == s[..|t|]
    ensures WithAlpha(s, x, b, a) == WithAlpha(t, x, b, a)
  {
    hide WithAlpha, Opaque;
    if x == 0 {
      NoAlpha(s, b, a);
      NoAlpha(t, b, a);
    } else {
      AlphaStep(s, x, b, a);
      AlphaStep(t, x, b, a);
      AlphaPrefix(s, t, x - 1, b, a);
      PrefixSlice(s, t, b * (x - 1), b * x);
    }
  }

  lemma PrefixSlice(s: seq<byte>, t: seq<byte>, i: nat, j: nat)
    requires i <= j <= |t| <= |s| && t == s[..|t|]
    ensures s[i..j] == t[i..j]
  {}

  /** Pixel `k` of the shown image. */
  lemma ShownPixel(s: seq<byte>, x: nat, b: nat, a: nat, k: nat)
    requires Pixels(b, a) && |s| == b * x && k < x
    ensures b * k + b <= b * x && (b + a) * k + (b + a) <= (b + a) * x
    ensures PixelAt(Shown(s, x, b, a), b + a, k) == PixelAt(s, b, k) + Opaque(a)
  {
    ProductStep(b, k, x);
    ProductStep(b + a, k, x);
    if a != 0 { AlphaPixel(s, x, b, a, k); }
  }

  lemma {:induction false} AlphaPixel(s: seq<byte>, x: nat, b: nat, a: nat, k: nat)
    requires AlphaShape(b, a) && b * x <= |s| && k < x
    ensures b * k + b <= b * x && (b + a) * k + (b + a) <= (b + a) * x
    ensures WithAlpha(s, x, b, a)[(b + a) * k..(b + a) * k + (b + a)] == s[b * k..b * k + b] + Opaque(a)
  {
    hide WithAlpha, Opaque;
    ProductStep(b, k, x);
    ProductStep(b + a, k, x);
    AlphaStep(s, x, b, a);
    var r := WithAlpha(s, x - 1, b, a);
    var last := s[b * (x - 1)..b * x] + Opaque(a);
    assert WithAlpha(s, x, b, a) == r + last;
    if k < x - 1 {
      AlphaPixel(s, x - 1, b, a, k);
      SliceOfHead(r, last, (b + a) * k, b + a);
    } else {
      SliceOfTail(r, last, 0, b + a);
      assert last[0..b + a] == last;
    }
  }

  /** The rows of an image as the file holds them before filtering. */
  function PackedRows(rows: seq<seq<byte>>, x: nat, n: nat, depth: nat, color: nat): (r: seq<seq<byte>>)
    requires 1 <= n <= 4 && Depth(depth)
    requires forall i :: 0 <= i < |rows| ==> RowOk(rows[i], x, n, depth, color)
    ensures |r| == |rows| && forall i :: 0 <= i < |rows| ==> |r[i]| == RowBytes(n, x, depth)
  {
    hide PackedRow, RowBytes;
    if rows == [] then [] else
    var last := rows[|rows| - 1];
    RowSamples(last, x, n, depth, color);
    PackedRows(rows[..|rows| - 1], x, n, depth, color) + [PackedRow(last, depth, color)]
  }

  lemma {:induction false} PackedRowsAt(rows: seq<seq<byte>>, x: nat, n: nat, depth: nat, color: nat, i: nat)
    requires 1 <= n <= 4 && Depth(depth) && i < |rows|
    requires forall i :: 0 <= i < |rows| ==> RowOk(rows[i], x, n, depth, color)
    ensures Packable(rows[i], depth, color)
    ensures PackedRows(rows, x, n, depth, color)[i] == PackedRow(rows[i], depth, color)
  {
    hide PackedRow, RowBytes, Packable, OutBytes;
    assert RowOk(rows[i], x, n, depth, color);
    if i < |rows| - 1 { PackedRowsAt(rows[..|rows| - 1], x, n, depth, color, i); }
  }

  /** The distance of the filters: bytes of a complete pixel, and one if several share a byte. */
  function PixelStep(n: nat, depth: nat): (b: nat)
    requires n > 0
    ensures b > 0
  {
    if depth < 8 then 1 else n * depth / 8
  }

  /** That is the standard's rule, rounding up to one, in every colour type it allows for the depth. */
  lemma PixelStepRule(n: nat, depth: nat)
    requires 1 <= n <= 4 && Depth(depth) && (depth < 8 ==> n == 1)
    ensures PixelStep(n, depth) == (n * depth + 7) / 8
  {}

  /** ... and the program's. */
  lemma FilterBytesAre(n: nat, depth: nat)
    requires 1 <= n <= 4 && Depth(depth)
    ensures FilterBytes(n, depth) == PixelStep(n, depth)
  {}

  /** `data` starts with the rows, packed and each filtered in some way. */
  ghost predicate Encodes(data: seq<byte>, rows: seq<seq<byte>>, filters: seq<nat>, x: nat, n: nat, depth: nat,
        color: nat)
  {
    1 <= n <= 4 && Depth(depth) && |rows| == |filters|
    && (forall i :: 0 <= i < |rows| ==> RowOk(rows[i], x, n, depth, color) && filters[i] <= 4)
    && FilteredRows(PackedRows(rows, x, n, depth, color), filters, RowBytes(n, x, depth), PixelStep(n, depth),
         |rows|) <= data
  }

  /** The first `y` rows of the data decode to the first `y` of these rows. */
  ghost predicate ComesBack(data: seq<byte>, rows: seq<seq<byte>>, x: nat, n: nat, out_n: nat, depth: nat, color: nat,
        b: nat, a: nat, y: nat)
    requires OutPixels(n, out_n, depth, b, a) && y <= |rows|
  {
    RowStart(RowBytes(n, x, depth), y) <= |data| && |Concat(rows, y)| == b * (x * y)
    && ImageOut(data, x, n, out_n, depth, color, y) == Shown(Concat(rows, y), x * y, b, a)
  }

  /** The rows of an encoded image come back in order. */
  lemma {:induction false} ImageRoundTrip(data: seq<byte>, rows: seq<seq<byte>>, filters: seq<nat>, x: nat, n: nat,
        out_n: nat, depth: nat, color: nat, b: nat, a: nat, y: nat)
    requires OutPixels(n, out_n, depth, b, a) && Encodes(data, rows, filters, x, n, depth, color) && y <= |rows|
    ensures ComesBack(data, rows, x, n, out_n, depth, color, b, a, y)
  {
    hide RowOut, ReconRow, FilteredRows, RowBytes, Shown, PackedRow, OutBytes, PixelStep, FilterBytes, Packable;
    FilterBytesAre(n, depth);
    var w := RowBytes(n, x, depth);
    RowStartMono(w, y, |rows|);
    if y > 0 {
      ImageRoundTrip(data, rows, filters, x, n, out_n, depth, color, b, a, y - 1);
      RowsRoundTrip(PackedRows(rows, x, n, depth, color), filters, w, PixelStep(n, depth), data, y - 1);
      PackedRowsAt(rows, x, n, depth, color, y - 1);
      WholeRow(rows[y - 1], x, n, out_n, depth, color, b, a);
      assert x * y == x * (y - 1) + x;
      ShownJoins(Concat(rows, y - 1), x * (y - 1), rows[y - 1], x, b, a);
    } else {
      EmptyShown(b, a);
    }
  }

  lemma EmptyShown(b: nat, a: nat)
    requires Pixels(b, a)
    ensures Shown([], 0, b, a) == []
  {}

  /** An encoded image passes the filter checks. */
  lemma EncodedFilters(data: seq<byte>, rows: seq<seq<byte>>, filters: seq<nat>, x: nat, n: nat, depth: nat,
        color: nat)
    requires Encodes(data, rows, filters, x, n, depth, color)
    ensures RowStart(RowBytes(n, x, depth), |rows|) <= |data| && FiltersOk(data, RowBytes(n, x, depth), |rows|)
  {
    hide FilteredRows, RowBytes, PackedRow, RowOk, PixelStep;
    var w := RowBytes(n, x, depth);
    forall j | 0 <= j < |rows|
      ensures RowStart(w, j) < |data| && data[RowStart(w, j)] <= 4
    {
      FilteredRowAt(PackedRows(rows, x, n, depth, color), filters, w, PixelStep(n, depth), |rows|, j);
    }
  }

  // ----- sizes -----

  lemma SizesAre(x: nat, y: nat, n: nat, out_n: nat, depth: nat)
    ensures SizesOk(x, y, n, out_n, depth) <==>
            var w := RowBytes(n, x, depth);
            x * y <= INT_MAX && x * y * OutBytes(out_n, depth) <= INT_MAX && n * x <= INT_MAX
            && n * x * depth <= INT_MAX - 7 && w * y <= INT_MAX - w && 2 * w <= INT_MAX
  {
    hide Mul2Valid, RowBytes, OutBytes;
    var w := RowBytes(n, x, depth);
    Mul2Exact(x, y);
    Mul2Exact(x * y, OutBytes(out_n, depth));
    Mul2Exact(n, x);
    Mul2Exact(n * x, depth);
    Mul2Exact(w, y);
    Mul2Exact(w, 2);
  }

  lemma RowBytesMono(n: nat, x: nat, x': nat, depth: nat)
    requires x' <= x
    ensures n * x' <= n * x && n * x' * depth <= n * x * depth && RowBytes(n, x', depth) <= RowBytes(n, x, depth)
  {
    Product(x', x, n);
    assert n * x' == x' * n && n * x == x * n;
    Product(n * x', n * x, depth);
  }

  /** Smaller images pass the size checks too. */
  lemma SizesShrink(x: nat, y: nat, x': nat, y': nat, n: nat, out_n: nat, depth: nat)
    requires SizesOk(x, y, n, out_n, depth) && x' <= x && y' <= y
    ensures SizesOk(x', y', n, out_n, depth)
  {
    hide SizesOk, RowBytes, OutBytes;
    SizesAre(x, y, n, out_n, depth);
    SizesAre(x', y', n, out_n, depth);
    RowBytesMono(n, x, x', depth);
    Shrinks(x, y, x', y');
    Product(x' * y', x * y, OutBytes(out_n, depth));
    Shrinks(RowBytes(n, x, depth), y, RowBytes(n, x', depth), y');
  }

  lemma Shrinks(x: nat, y: nat, x': nat, y': nat)
    requires x' <= x && y' <= y
    ensures x' * y' <= x * y
  {
    Product(x', x, y');
    Product(y', y, x);
    assert y' * x == x * y' && y * x == x * y;
  }

  // ----- interlacing -----

  /** The first `i` pixels of row `j` of pass `p`. */
  function PassRow(img: seq<byte>, w: nat, n: nat, p: nat, j: nat, i: nat): seq<byte>
    requires p < PASSES
  {
    if i == 0 then []
    else PassRow(img, w, n, p, j, i - 1) + PixelAt(img, n, Index(w, PixelX(p, i - 1), PixelY(p, j)))
  }

  /** The first `k` rows of pass `p`. */
  function PassRows(img: seq<byte>, w: nat, n: nat, p: nat, k: nat): (rows: seq<seq<byte>>)
    requires p < PASSES
    ensures |rows| == k
    ensures forall j :: 0 <= j < k ==> rows[j] == PassRow(img, w, n, p, j, PassW(w, p))
  {
    if k == 0 then [] else PassRows(img, w, n, p, k - 1) + [PassRow(img, w, n, p, k - 1, PassW(w, p))]
  }

  lemma {:induction false} PassRowLength(img: seq<byte>, w: nat, h: nat, n: nat, p: nat, j: nat, i: nat)
    requires p < PASSES && |img| == w * h * n && i <= PassW(w, p) && j < PassH(h, p)
    ensures |PassRow(img, w, n, p, j, i)| == n * i
  {
    hide PixelX, PixelY, Index, PassW, PassH, PassOf, ColumnIn, RowIn;
    if i > 0 {
      PassRowLength(img, w, h, n, p, j, i - 1);
      PassPixel(w, h, p, i - 1, j);
      IndexInside(w, h, PixelX(p, i - 1), PixelY(p, j), n);
      assert n * i == n * (i - 1) + n;
    }
  }

  lemma {:induction false} PassRowIs(img: seq<byte>, w: nat, h: nat, n: nat, p: nat, j: nat, i: nat, k: nat)
    requires p < PASSES && |img| == w * h * n && k < i <= PassW(w, p) && j < PassH(h, p)
    ensures n * k + n <= n * i == |PassRow(img, w, n, p, j, i)|
    ensures PassRow(img, w, n, p, j, i)[n * k..n * k + n] == PixelAt(img, n, Index(w, PixelX(p, k), PixelY(p, j)))
  {
    hide PixelX, PixelY, Index, PassW, PassH, PixelAt;
    PassRowLength(img, w, h, n, p, j, i);
    PassRowLength(img, w, h, n, p, j, i - 1);
    ProductStep(n, k, i);
    var r := PassRow(img, w, n, p, j, i - 1);
    if k < i - 1 {
      PassRowIs(img, w, h, n, p, j, i - 1, k);
      assert PassRow(img, w, n, p, j, i)[n * k..n * k + n] == r[n * k..n * k + n];
    } else {
      assert PassRow(img, w, n, p, j, i)[n * k..n * i] == PassRow(img, w, n, p, j, i)[|r|..];
      assert n * k + n == n * i;
    }
  }

  /** Where row `j` starts when rows of `row` bytes follow each other. */
  function RowOffset(row: nat, j: nat): nat
  {
    if j == 0 then 0 else RowOffset(row, j - 1) + row
  }

  lemma {:induction false} RowOffsetMono(row: nat, i: nat, j: nat)
    requires i < j
    ensures RowOffset(row, i) + row <= RowOffset(row, j)
  {
    if i < j - 1 { RowOffsetMono(row, i, j - 1); }
  }

  lemma {:induction false} RowOffsetIs(row: nat, j: nat)
    ensures RowOffset(row, j) == row * j
  {
    if j > 0 {
      RowOffsetIs(row, j - 1);
      assert row * j == row * (j - 1) + row;
    }
  }

  /** Bytes `o..o + n` of row `j` of an image laid out row by row. */
  lemma {:induction false} ConcatSlice(rows: seq<seq<byte>>, k: nat, row: nat, j: nat, o: nat, n: nat)
    requires j < k <= |rows| && o + n <= row
    requires forall r :: 0 <= r < |rows| ==> |rows[r]| == row
    ensures RowOffset(row, j) + row <= RowOffset(row, k) == |Concat(rows, k)|
    ensures Concat(rows, k)[RowOffset(row, j) + o..RowOffset(row, j) + o + n] == rows[j][o..o + n]
  {
    ConcatLength(rows, k, row);
    ConcatLength(rows, k - 1, row);
    RowOffsetMono(row, j, k);
    if j < k - 1 {
      ConcatSlice(rows, k - 1, row, j, o, n);
      SliceOfHead(Concat(rows, k - 1), rows[k - 1], RowOffset(row, j) + o, n);
    } else {
      SliceOfTail(Concat(rows, k - 1), rows[j], o, n);
    }
  }

  /** Pixel (i, j) of an image laid out row by row. */
  lemma ConcatPixel(rows: seq<seq<byte>>, k: nat, x: nat, n: nat, i: nat, j: nat)
    requires j < k <= |rows| && i < x
    requires forall r :: 0 <= r < |rows| ==> |rows[r]| == n * x
    ensures n * i + n <= n * x && PixelAt(Concat(rows, k), n, Index(x, i, j)) == rows[j][n * i..n * i + n]
  {
    hide Index, Concat;
    ProductStep(n, i, x);
    PixelOffset(n, x, i, j);
    RowOffsetIs(n * x, j);
    ConcatSlice(rows, k, n * x, j, n * i, n);
  }

  lemma SliceOfHead(a: seq<byte>, b: seq<byte>, o: nat, n: nat)
    requires o + n <= |a|
    ensures (a + b)[o..o + n] == a[o..o + n]
  {}

  lemma SliceOfTail(a: seq<byte>, b: seq<byte>, o: nat, n: nat)
    requires o + n <= |b|
    ensures (a + b)[|a| + o..|a| + o + n] == b[o..o + n]
  {}

  lemma PixelOffset(n: nat, x: nat, i: nat, j: nat)
    ensures n * Index(x, i, j) == n * x * j + n * i
  {
    assert n * (j * x + i) == n * (j * x) + n * i;
    assert n * (j * x) == n * x * j;
  }

  lemma {:induction false} ConcatLength(rows: seq<seq<byte>>, k: nat, row: nat)
    requires k <= |rows|
    requires forall r :: 0 <= r < |rows| ==> |rows[r]| == row
    ensures |Concat(rows, k)| == RowOffset(row, k)
  {
    if k > 0 { ConcatLength(rows, k - 1, row); }
  }

  /** Every non-empty pass of the data starts with that pass's rows, packed and each filtered in some way. */
  ghost predicate EncodesPasses(data: seq<byte>, img: seq<byte>, w: nat, h: nat, n: nat, depth: nat, color: nat,
        filters: seq<seq<nat>>)
    requires |filters| == PASSES
  {
    forall p :: 0 <= p < PASSES && PassW(w, p) > 0 && PassH(h, p) > 0 ==>
      PassStart(n, depth, w, h, p) <= |data|
      && Encodes(data[PassStart(n, depth, w, h, p)..], PassRows(img, w, OutBytes(n, depth), p, PassH(h, p)),
           filters[p], PassW(w, p), n, depth, color)
  }

  /** Pass `p` is readable, and decodes to an image whose pixel (i, j) is the original pixel that the
      pass carries there. */
  ghost predicate PassShows(data: seq<byte>, img: seq<byte>, w: nat, h: nat, n: nat, out_n: nat, depth: nat,
        color: nat, b: nat, a: nat, p: nat)
    requires OutPixels(n, out_n, depth, b, a) && p < PASSES
  {
    && PassOk(data, n, out_n, depth, w, h, p)
    && forall i: nat, j: nat :: i < PassW(w, p) && j < PassH(h, p) ==>
         PixelAt(PassOut(data, n, out_n, depth, color, w, h, p), b + a, Index(PassW(w, p), i, j))
         == PixelAt(img, b, Index(w, PixelX(p, i), PixelY(p, j))) + Opaque(a)
  }

  /** An encoded pass shows its pixels. */
  lemma PassRoundTrip(data: seq<byte>, img: seq<byte>, w: nat, h: nat, n: nat, out_n: nat, depth: nat, color: nat,
        b: nat, a: nat, filters: seq<seq<nat>>, p: nat)
    requires OutPixels(n, out_n, depth, b, a) && |filters| == PASSES && p < PASSES && |img| == w * h * b
    requires SizesOk(w, h, n, out_n, depth) && EncodesPasses(data, img, w, h, n, depth, color, filters)
    ensures PassShows(data, img, w, h, n, out_n, depth, color, b, a, p)
  {
    hide Encodes, ImageOut, SizesOk, FiltersOk, PixelAt, Index, PixelX, PixelY, PassStart, PassRow, RowStart, RowBytes,
         Concat, Shown, Opaque;
    var x, y := PassW(w, p), PassH(h, p);
    if x > 0 && y > 0 {
      var d := data[PassStart(n, depth, w, h, p)..];
      var rows := PassRows(img, w, b, p, y);
      PassShrinks(w, h, p);
      SizesShrink(w, h, x, y, n, out_n, depth);
      EncodedFilters(d, rows, filters[p], x, n, depth, color);
      ImageRoundTrip(d, rows, filters[p], x, n, out_n, depth, color, b, a, y);
      forall i: nat, j: nat | i < x && j < y
        ensures PixelAt(Shown(Concat(rows, y), x * y, b, a), b + a, Index(x, i, j))
                == PixelAt(img, b, Index(w, PixelX(p, i), PixelY(p, j))) + Opaque(a)
      {
        ShownPassPixel(img, w, h, b, a, p, i, j);
      }
    }
  }

  /** Pixel (i, j) of the shown pass. */
  lemma ShownPassPixel(img: seq<byte>, w: nat, h: nat, b: nat, a: nat, p: nat, i: nat, j: nat)
    requires Pixels(b, a) && p < PASSES && |img| == w * h * b && i < PassW(w, p) && j < PassH(h, p)
    requires |Concat(PassRows(img, w, b, p, PassH(h, p)), PassH(h, p))| == b * (PassW(w, p) * PassH(h, p))
    ensures PixelAt(Shown(Concat(PassRows(img, w, b, p, PassH(h, p)), PassH(h, p)), PassW(w, p) * PassH(h, p), b, a),
                    b + a, Index(PassW(w, p), i, j))
            == PixelAt(img, b, Index(w, PixelX(p, i), PixelY(p, j))) + Opaque(a)
  {
    hide PixelAt, Index, PixelX, PixelY, PassRow, PassW, PassH, Concat, Shown, Opaque;
    var x, y := PassW(w, p), PassH(h, p);
    var rows := PassRows(img, w, b, p, y);
    forall r | 0 <= r < y ensures |rows[r]| == b * x {
      PassRowLength(img, w, h, b, p, r, x);
    }
    ConcatPixel(rows, y, x, b, i, j);
    PassRowIs(img, w, h, b, p, j, x, i);
    IndexBelow(x, y, i, j);
    ShownPixel(Concat(rows, y), x * y, b, a, Index(x, i, j));
  }

  lemma IndexBelow(w: nat, h: nat, x: nat, y: nat)
    requires x < w && y < h
    ensures Index(w, x, y) < w * h
  {
    ProductStep(w, y, h);
    assert w * y == y * w;
  }

  lemma PassShrinks(w: nat, h: nat, p: nat)
    requires p < PASSES
    ensures PassW(w, p) <= w && PassH(h, p) <= h
  {}

  /** The pixels of all seven passes are in their places. */
  ghost predicate AllPlaced(final: seq<byte>, data: seq<byte>, w: nat, h: nat, n: nat, out_n: nat, depth: nat,
        color: nat)
    requires Layout(n, out_n) && Depth(depth) && PassesOk(data, n, out_n, depth, w, h, PASSES)
  {
    forall p :: 0 <= p < PASSES ==>
      Placed(final, PassOut(data, n, out_n, depth, color, w, h, p), w, h, OutBytes(out_n, depth), p, PassH(h, p), 0)
  }

  /** What the deinterlacer leaves when all seven passes are placed is the original image. */
  lemma InterlacedRoundTrip(data: seq<byte>, img: seq<byte>, w: nat, h: nat, n: nat, out_n: nat, depth: nat,
        color: nat, b: nat, a: nat, filters: seq<seq<nat>>, final: seq<byte>)
    requires OutPixels(n, out_n, depth, b, a) && |filters| == PASSES && |img| == w * h * b == b * (w * h)
    requires SizesOk(w, h, n, out_n, depth) && EncodesPasses(data, img, w, h, n, depth, color, filters)
    requires |final| == w * h * (b + a)
    ensures PassesOk(data, n, out_n, depth, w, h, PASSES)
    ensures AllPlaced(final, data, w, h, n, out_n, depth, color) ==> final == Shown(img, w * h, b, a)
  {
    hide EncodesPasses, SizesOk, PassOk, Shown, OutBytes, PassShows, AllPlaced;
    forall p | 0 <= p < PASSES ensures PassShows(data, img, w, h, n, out_n, depth, color, b, a, p) {
      PassRoundTrip(data, img, w, h, n, out_n, depth, color, b, a, filters, p);
    }
    forall p | 0 <= p < PASSES ensures PassOk(data, n, out_n, depth, w, h, p) {
      ShowsOk(data, img, w, h, n, out_n, depth, color, b, a, p);
    }
    if AllPlaced(final, data, w, h, n, out_n, depth, color) {
      AllPixelsShown(data, img, w, h, n, out_n, depth, color, b, a, final, Shown(img, w * h, b, a));
      assert w * h * (b + a) == (b + a) * (w * h);
      SamePixels(final, Shown(img, w * h, b, a), w, h, b + a);
    }
  }

  lemma ShowsOk(data: seq<byte>, img: seq<byte>, w: nat, h: nat, n: nat, out_n: nat, depth: nat, color: nat, b: nat,
        a: nat, p: nat)
    requires OutPixels(n, out_n, depth, b, a) && p < PASSES
    requires PassShows(data, img, w, h, n, out_n, depth, color, b, a, p)
    ensures PassOk(data, n, out_n, depth, w, h, p)
  {}

  lemma AllPixelsShown(data: seq<byte>, img: seq<byte>, w: nat, h: nat, n: nat, out_n: nat, depth: nat, color: nat,
        b: nat, a: nat, final: seq<byte>, shown: seq<byte>)
    requires OutPixels(n, out_n, depth, b, a) && |img| == b * (w * h) && shown == Shown(img, w * h, b, a)
    requires forall p :: 0 <= p < PASSES ==> PassShows(data, img, w, h, n, out_n, depth, color, b, a, p)
    requires PassesOk(data, n, out_n, depth, w, h, PASSES) && AllPlaced(final, data, w, h, n, out_n, depth, color)
    ensures SamePixel(final, shown, w, h, b + a)
  {
    hide PassOut, PixelAt, PassOk, Index, Shown, Opaque, PassW, PassH, PassOf, ColumnIn, RowIn, PixelX, PixelY,
         OutBytes;
    forall x: nat, y: nat | x < w && y < h
      ensures PixelAt(final, b + a, Index(w, x, y)) == PixelAt(shown, b + a, Index(w, x, y))
    {
      PixelPass(w, h, x, y);
      var p := PassOf(x, y);
      assert PassShows(data, img, w, h, n, out_n, depth, color, b, a, p);
      IndexBelow(w, h, x, y);
      ShownPixel(img, w * h, b, a, Index(w, x, y));
    }
  }

  /** Two images agree in every pixel. */
  ghost predicate SamePixel(s: seq<byte>, t: seq<byte>, w: nat, h: nat, n: nat)
  {
    forall x: nat, y: nat :: x < w && y < h ==> PixelAt(s, n, Index(w, x, y)) == PixelAt(t, n, Index(w, x, y))
  }

  lemma Quotient(q: nat, n: nat, m: nat)
    requires n > 0 && q < m * n
    ensures q / n < m && q == n * (q / n) + q % n
  {
    if q / n >= m { Product(m, q / n, n); }
  }

  /** Every byte of an image belongs to one of its pixels. */
  lemma ByteOfPixel(w: nat, h: nat, n: nat, q: nat) returns (x: nat, y: nat, c: nat)
    requires n > 0 && q < w * h * n
    ensures x < w && y < h && c < n && q == n * Index(w, x, y) + c
  {
    Quotient(q, n, w * h);
    var k := q / n;
    assert w > 0;
    assert w * h == h * w;
    Quotient(k, w, h);
    x, y, c := k % w, k / w, q % n;
    assert w * y == y * w;
  }

  /** Images of the same size with the same pixels are the same. */
  lemma SamePixels(a: seq<byte>, b: seq<byte>, w: nat, h: nat, n: nat)
    requires n > 0 && |a| == |b| == w * h * n
    requires SamePixel(a, b, w, h, n)
    ensures a == b
  {
    hide Index;
    forall q | 0 <= q < |a| ensures a[q] == b[q] {
      var x, y, c := ByteOfPixel(w, h, n, q);
      IndexInside(w, h, x, y, n);
      assert PixelAt(a, n, Index(w, x, y))[c] == a[q];
      assert PixelAt(b, n, Index(w, x, y))[c] == b[q];
    }
  }
}
