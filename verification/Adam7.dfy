/** The seven interlacing passes of section 2.6 of RFC 2083 and the pixels each one carries. */
module Adam7 {

  const PASSES := 7

  /** The pass, counted from 1, of each pixel of an 8 by 8 tile, as the standard prints it. */
  const PATTERN: seq<seq<nat>> := [
    [1, 6, 4, 6, 2, 6, 4, 6],
    [7, 7, 7, 7, 7, 7, 7, 7],
    [5, 6, 5, 6, 5, 6, 5, 6],
    [7, 7, 7, 7, 7, 7, 7, 7],
    [3, 6, 4, 6, 3, 6, 4, 6],
    [7, 7, 7, 7, 7, 7, 7, 7],
    [5, 6, 5, 6, 5, 6, 5, 6],
    [7, 7, 7, 7, 7, 7, 7, 7]]

  // ----- the program's tables -----

  function XOrig(p: nat): (v: nat)
    requires p < PASSES
  {
    if p == 1 then 4 else if p == 3 then 2 else if p == 5 then 1 else 0
  }

  function YOrig(p: nat): (v: nat)
    requires p < PASSES
  {
    if p == 2 then 4 else if p == 4 then 2 else if p == 6 then 1 else 0
  }

  function XSpc(p: nat): (v: nat)
    requires p < PASSES
  {
    if p <= 1 then 8 else if p <= 3 then 4 else if p <= 5 then 2 else 1
  }

  function YSpc(p: nat): (v: nat)
    requires p < PASSES
  {
    if p <= 2 then 8 else if p <= 4 then 4 else 2
  }

  /** The width of a pass; the unsigned subtraction never ends below zero. */
  function PassW(w: nat, p: nat): nat
    requires p < PASSES
  {
    if p == 0 then (w + 7) / 8 else if p == 1 then (w + 3) / 8 else if p == 2 then (w + 3) / 4
    else if p == 3 then (w + 1) / 4 else if p == 4 then (w + 1) / 2 else if p == 5 then w / 2 else w
  }

  function PassH(h: nat, p: nat): nat
    requires p < PASSES
  {
    if p <= 1 then (h + 7) / 8 else if p == 2 then (h + 3) / 8 else if p == 3 then (h + 3) / 4
    else if p == 4 then (h + 1) / 4 else if p == 5 then (h + 1) / 2 else h / 2
  }

  lemma PassSizes(w: nat, h: nat, p: nat)
    requires p < PASSES
    ensures w - XOrig(p) + XSpc(p) - 1 >= 0 && PassW(w, p) == (w - XOrig(p) + XSpc(p) - 1) / XSpc(p)
    ensures h - YOrig(p) + YSpc(p) - 1 >= 0 && PassH(h, p) == (h - YOrig(p) + YSpc(p) - 1) / YSpc(p)
  {}

  // ----- which pass a pixel belongs to -----

  function PassOf(x: nat, y: nat): (p: nat)
    ensures p < PASSES
  {
    if y % 2 == 1 then 6 else if x % 2 == 1 then 5 else if y % 4 == 2 then 4 else if x % 4 == 2 then 3
    else if y % 8 == 4 then 2 else if x % 8 == 4 then 1 else 0
  }

  lemma PassOfIsPattern(x: nat, y: nat)
    ensures PATTERN[y % 8][x % 8] == PassOf(x, y) + 1
  {
    PatternRow(x % 8, y % 8);
    Reduce(x);
    Reduce(y);
  }

  lemma Reduce(x: nat)
    ensures x % 8 % 2 == x % 2 && x % 8 % 4 == x % 4
  {
    OfEight(x / 8, x % 8, x);
  }

  lemma OfEight(q: nat, e: nat, x: nat)
    requires x == 8 * q + e
    ensures x % 2 == e % 2 && x % 4 == e % 4
  {
    ModTwo(x, 4 * q + e / 2, e % 2);
    ModFour(x, 2 * q + e / 4, e % 4);
  }

  lemma ModTwo(x: nat, a: nat, r: nat)
    requires x == 2 * a + r && r < 2
    ensures x % 2 == r
  {}

  lemma ModFour(x: nat, a: nat, r: nat)
    requires x == 4 * a + r && r < 4
    ensures x % 4 == r
  {}

  lemma PatternRow(b: nat, a: nat)
    requires a < 8 && b < 8
    ensures PATTERN[a][b] == PassOf(b, a) + 1
  {
    if a % 2 == 1 {
      assert a == 1 || a == 3 || a == 5 || a == 7;
    } else if a == 0 {
    } else if a == 2 {
    } else if a == 4 {
    } else {
    }
  }

  /** The column of a pixel within its pass, and the row. */
  function ColumnIn(p: nat, x: nat): nat
    requires p < PASSES
  {
    if p <= 1 then x / 8 else if p <= 3 then x / 4 else if p <= 5 then x / 2 else x
  }

  function RowIn(p: nat, y: nat): nat
    requires p < PASSES
  {
    if p <= 2 then y / 8 else if p <= 4 then y / 4 else y / 2
  }

  /** Where pass `p` puts its pixel (i, j). */
  function PixelX(p: nat, i: nat): nat
    requires p < PASSES
  {
    i * XSpc(p) + XOrig(p)
  }

  function PixelY(p: nat, j: nat): nat
    requires p < PASSES
  {
    j * YSpc(p) + YOrig(p)
  }

  /** Every pixel a pass carries lies inside the image, belongs to that pass and to that place in it. */
  lemma PassPixel(w: nat, h: nat, p: nat, i: nat, j: nat)
    requires p < PASSES && i < PassW(w, p) && j < PassH(h, p)
    ensures var x, y := PixelX(p, i), PixelY(p, j);
      x < w && y < h && PassOf(x, y) == p && ColumnIn(p, x) == i && RowIn(p, y) == j
  {
    PassColumn(w, p, i);
    PassRow(h, p, j);
  }

  lemma PassColumn(w: nat, p: nat, i: nat)
    requires p < PASSES && i < PassW(w, p)
    ensures PixelX(p, i) < w && ColumnIn(p, PixelX(p, i)) == i
    ensures PixelX(p, i) % XSpc(p) == XOrig(p)
  {
    if p <= 1 {
    } else if p <= 3 {
    } else if p <= 5 {
    } else {
    }
  }

  lemma PassRow(h: nat, p: nat, j: nat)
    requires p < PASSES && j < PassH(h, p)
    ensures PixelY(p, j) < h && RowIn(p, PixelY(p, j)) == j
    ensures PixelY(p, j) % YSpc(p) == YOrig(p)
  {
    if p <= 2 {
    } else if p <= 4 {
    } else {
    }
  }

  /** Every pixel of the image is carried by its pass, at exactly one place. */
  lemma PixelPass(w: nat, h: nat, x: nat, y: nat)
    requires x < w && y < h
    ensures var p := PassOf(x, y); var i, j := ColumnIn(p, x), RowIn(p, y);
      i < PassW(w, p) && j < PassH(h, p) && PixelX(p, i) == x && PixelY(p, j) == y
  {
    PixelColumn(w, x, y);
    PixelRow(h, x, y);
  }

  lemma PixelColumn(w: nat, x: nat, y: nat)
    requires x < w
    ensures var p := PassOf(x, y); ColumnIn(p, x) < PassW(w, p) && PixelX(p, ColumnIn(p, x)) == x
  {
    Residues(x);
    Eighths(w, x);
    Quarters(w, x);
    Halves(w, x);
  }

  lemma PixelRow(h: nat, x: nat, y: nat)
    requires y < h
    ensures var p := PassOf(x, y); RowIn(p, y) < PassH(h, p) && PixelY(p, RowIn(p, y)) == y
  {
    Residues(y);
    Eighths(h, y);
    Quarters(h, y);
    Halves(h, y);
  }

  lemma Residues(v: nat)
    ensures v % 2 == 0 ==> v % 4 == 0 || v % 4 == 2
    ensures v % 4 == 0 ==> v % 8 == 0 || v % 8 == 4
  {
    Reduce(v);
  }

  lemma Eighths(n: nat, v: nat)
    requires v < n
    ensures v % 8 == 0 ==> v / 8 * 8 == v && v / 8 < (n + 7) / 8
    ensures v % 8 == 4 ==> v / 8 * 8 + 4 == v && v / 8 < (n + 3) / 8
  {}

  lemma Quarters(n: nat, v: nat)
    requires v < n
    ensures v % 4 == 0 ==> v / 4 * 4 == v && v / 4 < (n + 3) / 4
    ensures v % 4 == 2 ==> v / 4 * 4 + 2 == v && v / 4 < (n + 1) / 4
  {}

  lemma Halves(n: nat, v: nat)
    requires v < n
    ensures v % 2 == 0 ==> v / 2 * 2 == v && v / 2 < (n + 1) / 2
    ensures v % 2 == 1 ==> v / 2 * 2 + 1 == v && v / 2 < n / 2
  {}

  /** The passes map one-to-one: two places that carry the same pixel are the same place. */
  lemma PassesInjective(w: nat, h: nat, p: nat, i: nat, j: nat, q: nat, k: nat, l: nat)
    requires p < PASSES && i < PassW(w, p) && j < PassH(h, p)
    requires q < PASSES && k < PassW(w, q) && l < PassH(h, q)
    requires PixelX(p, i) == PixelX(q, k) && PixelY(p, j) == PixelY(q, l)
    ensures p == q && i == k && j == l
  {
    PassPixel(w, h, p, i, j);
    PassPixel(w, h, q, k, l);
  }

  /** The seven passes together have as many pixels as the image. */
  lemma PassAreas(w: nat, h: nat)
    ensures PassW(w, 0) * PassH(h, 0) + PassW(w, 1) * PassH(h, 1) + PassW(w, 2) * PassH(h, 2)
            + PassW(w, 3) * PassH(h, 3) + PassW(w, 4) * PassH(h, 4) + PassW(w, 5) * PassH(h, 5)
            + PassW(w, 6) * PassH(h, 6) == w * h
  {
    var w4, h4, w2, h2 := (w + 3) / 4, (h + 3) / 4, (w + 1) / 2, (h + 1) / 2;
    Columns(w);
    Columns(h);
    // columns 0 and 4 of the tile, row 0; then row 4; and so on, doubling the covered grid each time
    Distribute(PassW(w, 0), PassW(w, 1), PassH(h, 0), w4);
    Distribute(PassH(h, 0), PassH(h, 2), w4, h4);
    Distribute(w4, PassW(w, 3), h4, w2);
    Distribute(h4, PassH(h, 4), w2, h2);
    Distribute(w2, PassW(w, 5), h2, w);
    Distribute(h2, PassH(h, 6), w, h);
  }

  lemma Columns(n: nat)
    ensures (n + 7) / 8 + (n + 3) / 8 == (n + 3) / 4
    ensures (n + 3) / 4 + (n + 1) / 4 == (n + 1) / 2
    ensures (n + 1) / 2 + n / 2 == n
  {
    var q, r := n / 8, n % 8;
    assert n == 8 * q + r;
  }

  lemma Distribute(a: nat, b: nat, c: nat, total: nat)
    requires a + b == total
    ensures a * c + b * c == total * c && c * a + c * b == c * total
    ensures total * c == c * total
  {
    assert (a + b) * c == a * c + b * c;
  }
}
