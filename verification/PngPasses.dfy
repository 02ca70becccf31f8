/** How the seven passes lie in the decompressed data and where their pixels go. */
module PngPasses {
  import opened Bits
  import opened PixelGrid
  import opened Png
  import opened Adam7

  /** Bytes of a filtered (sub)image; an empty pass has none. */
  function PassLength(img_n: nat, depth: nat, w: nat, h: nat): nat
  {
    if w > 0 && h > 0 then RowStart(RowBytes(img_n, w, depth), h) else 0
  }

  /** Where pass `p` starts in the decompressed data. */
  function PassStart(img_n: nat, depth: nat, w: nat, h: nat, p: nat): nat
    requires p <= PASSES
  {
    if p == 0 then 0
    else PassStart(img_n, depth, w, h, p - 1) + PassLength(img_n, depth, PassW(w, p - 1), PassH(h, p - 1))
  }

  /** The data holds a filtered image that passes the size checks and uses only known filters. */
  ghost predicate Readable(data: seq<byte>, img_n: nat, out_n: nat, depth: nat, w: nat, h: nat)
  {
    SizesOk(w, h, img_n, out_n, depth) && RowStart(RowBytes(img_n, w, depth), h) <= |data|
    && FiltersOk(data, RowBytes(img_n, w, depth), h)
  }

  ghost predicate PassOk(data: seq<byte>, img_n: nat, out_n: nat, depth: nat, w: nat, h: nat, p: nat)
    requires p < PASSES
  {
    PassW(w, p) > 0 && PassH(h, p) > 0 ==>
      var start := PassStart(img_n, depth, w, h, p);
      start <= |data| && Readable(data[start..], img_n, out_n, depth, PassW(w, p), PassH(h, p))
  }

  ghost predicate PassesOk(data: seq<byte>, img_n: nat, out_n: nat, depth: nat, w: nat, h: nat, n: nat)
    requires n <= PASSES
  {
    forall p :: 0 <= p < n ==> PassOk(data, img_n, out_n, depth, w, h, p)
  }

  /** The output bytes of pass `p` as an image of its own. */
  ghost function PassOut(data: seq<byte>, img_n: nat, out_n: nat, depth: nat, color: nat, w: nat, h: nat,
        p: nat): seq<byte>
    requires Layout(img_n, out_n) && Depth(depth) && p < PASSES && PassOk(data, img_n, out_n, depth, w, h, p)
  {
    if PassW(w, p) > 0 && PassH(h, p) > 0 then
      ImageOut(data[PassStart(img_n, depth, w, h, p)..], PassW(w, p), img_n, out_n, depth, color, PassH(h, p))
    else []
  }

  /** The pixels of pass `p` above row `j`, and in row `j` left of column `i`, are in their places. */
  ghost predicate Placed(final: seq<byte>, src: seq<byte>, w: nat, h: nat, b: nat, p: nat, j: nat, i: nat)
    requires p < PASSES
  {
    forall x: nat, y: nat ::
      (x < w && y < h && PassOf(x, y) == p && (RowIn(p, y) < j || (RowIn(p, y) == j && ColumnIn(p, x) < i))) ==>
        PixelAt(final, b, Index(w, x, y)) == PixelAt(src, b, Index(PassW(w, p), ColumnIn(p, x), RowIn(p, y)))
  }

  /** The pixels of the other passes are as they were. */
  ghost predicate OthersKept(final: seq<byte>, before: seq<byte>, w: nat, h: nat, b: nat, p: nat)
  {
    forall x: nat, y: nat :: x < w && y < h && PassOf(x, y) != p ==>
      PixelAt(final, b, Index(w, x, y)) == PixelAt(before, b, Index(w, x, y))
  }

  /** Storing pixel (i, j) of pass `p` extends what is placed and touches no other pixel. */
  lemma PlaceStep(after: seq<byte>, before: seq<byte>, first: seq<byte>, src: seq<byte>, w: nat, h: nat, b: nat,
        p: nat, j: nat, i: nat)
    requires p < PASSES && i < PassW(w, p) && j < PassH(h, p)
    requires Placed(before, src, w, h, b, p, j, i) && OthersKept(before, first, w, h, b, p)
    requires var k := Index(w, PixelX(p, i), PixelY(p, j));
             PixelAt(after, b, k) == PixelAt(src, b, Index(PassW(w, p), i, j))
             && forall l: nat :: l != k ==> PixelAt(after, b, l) == PixelAt(before, b, l)
    ensures Placed(after, src, w, h, b, p, j, i + 1) && OthersKept(after, first, w, h, b, p)
  {
    hide PixelAt, Index, PassW, PassH, ColumnIn, RowIn, PassOf, PixelX, PixelY;
    PassPixel(w, h, p, i, j);
    var px, py := PixelX(p, i), PixelY(p, j);
    forall x: nat, y: nat | x < w && y < h && (x != px || y != py)
      ensures Index(w, x, y) != Index(w, px, py)
    {
      if Index(w, x, y) == Index(w, px, py) { IndexInjective(w, x, y, px, py); }
    }
    forall x: nat, y: nat | x < w && y < h && PassOf(x, y) == p && RowIn(p, y) == j && ColumnIn(p, x) == i
      ensures x == px && y == py
    {
      PixelPass(w, h, x, y);
    }
  }

  /** A finished row is the start of the next. */
  lemma PlaceRowEnd(final: seq<byte>, src: seq<byte>, w: nat, h: nat, b: nat, p: nat, j: nat)
    requires p < PASSES && Placed(final, src, w, h, b, p, j, PassW(w, p))
    ensures Placed(final, src, w, h, b, p, j + 1, 0)
  {
    hide PixelAt, Index, PassW, ColumnIn, RowIn, PassOf;
    forall x: nat, y: nat | x < w && y < h && PassOf(x, y) == p
      ensures ColumnIn(p, x) < PassW(w, p)
    {
      PixelPass(w, h, x, y);
    }
  }

  /** What one pass has placed, another pass does not disturb. */
  lemma PlacedKept(after: seq<byte>, before: seq<byte>, src: seq<byte>, w: nat, h: nat, b: nat, p: nat, q: nat, j: nat)
    requires p < PASSES && q < PASSES && p != q
    requires Placed(before, src, w, h, b, q, j, 0) && OthersKept(after, before, w, h, b, p)
    ensures Placed(after, src, w, h, b, q, j, 0)
  {}
}
