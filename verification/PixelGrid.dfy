/** Pixels of a fixed number of bytes in a buffer, row after row. */
module PixelGrid {
  import opened Arithmetic
  import opened Bits

  /** Pixel `k` of an image of `b` bytes per pixel. */
  function PixelAt(s: seq<byte>, b: nat, k: nat): seq<byte>
  {
    if b * k + b <= |s| then s[b * k..b * k + b] else []
  }

  /** Row-major index. */
  function Index(w: nat, x: nat, y: nat): nat
  {
    y * w + x
  }

  lemma IndexInjective(w: nat, x: nat, y: nat, x': nat, y': nat)
    requires x < w && x' < w && Index(w, x, y) == Index(w, x', y')
    ensures x == x' && y == y'
  {
    if y < y' {
      ProductStep(w, y, y');
    } else if y' < y {
      ProductStep(w, y', y);
    }
  }

  lemma IndexInside(w: nat, h: nat, x: nat, y: nat, b: nat)
    requires x < w && y < h
    ensures b * Index(w, x, y) + b <= w * h * b
  {
    ProductStep(w, y, h);
    assert w * y == y * w && w * h == h * w;
    ProductStep(b, Index(w, x, y), w * h);
    assert b * (w * h) == w * h * b;
  }

  /** Different pixels do not overlap. */
  lemma PixelsApart(b: nat, k: nat, l: nat)
    requires k != l
    ensures b * k + b <= b * l || b * l + b <= b * k
  {
    if k < l { ProductStep(b, k, l); } else { ProductStep(b, l, k); }
  }
}
