/** What a canvas and its history look like after some pixels of a frame have been drawn. */
module GifCanvas {
  import opened Bits
  import opened PixelGrid
  import opened GifPlacement

  const TABLE_BYTES := 1024

  /** A pixel drawn over `shown`: the table holds red, green, blue and alpha, the canvas blue, green,
      red and alpha; entries that are not opaque leave the canvas alone. */
  function Paint(table: seq<byte>, index: byte, shown: seq<byte>): seq<byte>
    requires |table| == TABLE_BYTES
  {
    var c := table[4 * index..4 * index + 4];
    if c[3] > 128 then [c[2], c[1], c[0], c[3]] else shown
  }

  /** The first `n` pixels of the frame include canvas pixel (x, y). */
  predicate Reached(f: Frame, n: nat, x: nat, y: nat)
  {
    Inside(f, x, y) && DrawnAs(f, x, y) < n
  }

  /** Every canvas pixel is as it was, except that those the frame has reached are painted. */
  ghost predicate Drawn(out: seq<byte>, before: seq<byte>, table: seq<byte>, f: Frame, em: seq<byte>)
    requires |table| == TABLE_BYTES
  {
    forall x: nat, y: nat :: x < f.canvasW && y < f.canvasH ==>
      var k := Index(f.canvasW, x, y);
      PixelAt(out, 4, k) == if Reached(f, |em|, x, y) then Paint(table, em[DrawnAs(f, x, y)], PixelAt(before, 4, k))
                            else PixelAt(before, 4, k)
  }

  /** The history marks exactly the pixels reached, besides those marked before. */
  ghost predicate Marked(history: seq<byte>, before: seq<byte>, f: Frame, n: nat)
  {
    forall x: nat, y: nat :: x < f.canvasW && y < f.canvasH ==>
      var k := Index(f.canvasW, x, y);
      PixelAt(history, 1, k) == if Reached(f, n, x, y) then [1] else PixelAt(before, 1, k)
  }

  /** The canvas pixel the `k`-th pixel of the frame goes to. */
  function Spot(f: Frame, k: nat): nat
  {
    Index(f.canvasW, f.x + CursorAt(f, k).col, f.y + CursorAt(f, k).row)
  }

  lemma SpotInside(f: Frame, k: nat)
    requires f.Ok() && CursorAt(f, k).row < f.h
    ensures CursorAt(f, k).col < f.w
    ensures 4 * Spot(f, k) + 4 <= 4 * (f.canvasW * f.canvasH) && Spot(f, k) < f.canvasW * f.canvasH
  {
    hide Index, DrawnAs, CursorAt;
    Visits(f, k);
    var x, y := f.x + CursorAt(f, k).col, f.y + CursorAt(f, k).row;
    IndexInside(f.canvasW, f.canvasH, x, y, 1);
    IndexInside(f.canvasW, f.canvasH, x, y, 4);
    assert f.canvasW * f.canvasH * 4 == 4 * (f.canvasW * f.canvasH);
  }

  /** Which pixels are reached with one more: the one the cursor is at. */
  lemma ReachedNext(f: Frame, n: nat, x: nat, y: nat)
    requires f.Ok() && CursorAt(f, n).row < f.h && x < f.canvasW && y < f.canvasH
    ensures Index(f.canvasW, x, y) == Spot(f, n) ==> Inside(f, x, y) && DrawnAs(f, x, y) == n
    ensures Index(f.canvasW, x, y) != Spot(f, n) ==> Reached(f, n + 1, x, y) == Reached(f, n, x, y)
  {
    hide DrawnAs, CursorAt, Index;
    Visits(f, n);
    SpotInside(f, n);
    if Index(f.canvasW, x, y) == Spot(f, n) {
      IndexInjective(f.canvasW, x, y, f.x + CursorAt(f, n).col, f.y + CursorAt(f, n).row);
    }
  }

  /** Painting the pixel at the cursor. */
  lemma DrawStep(after: seq<byte>, out: seq<byte>, before: seq<byte>, table: seq<byte>, f: Frame, em: seq<byte>,
        v: byte)
    requires f.Ok() && |table| == TABLE_BYTES && Drawn(out, before, table, f, em) && CursorAt(f, |em|).row < f.h
    requires PixelAt(after, 4, Spot(f, |em|)) == Paint(table, v, PixelAt(out, 4, Spot(f, |em|)))
    requires forall l: nat :: l != Spot(f, |em|) ==> PixelAt(after, 4, l) == PixelAt(out, 4, l)
    ensures Drawn(after, before, table, f, em + [v])
  {
    hide DrawnAs, CursorAt, Index, Spot, PixelAt, Paint;
    forall x: nat, y: nat | x < f.canvasW && y < f.canvasH
      ensures var k := Index(f.canvasW, x, y);
              PixelAt(after, 4, k) ==
              if Reached(f, |em| + 1, x, y) then Paint(table, (em + [v])[DrawnAs(f, x, y)], PixelAt(before, 4, k))
              else PixelAt(before, 4, k)
    {
      ReachedNext(f, |em|, x, y);
    }
  }

  lemma MarkStep(after: seq<byte>, history: seq<byte>, before: seq<byte>, f: Frame, n: nat)
    requires f.Ok() && Marked(history, before, f, n) && CursorAt(f, n).row < f.h
    requires PixelAt(after, 1, Spot(f, n)) == [1]
    requires forall l: nat :: l != Spot(f, n) ==> PixelAt(after, 1, l) == PixelAt(history, 1, l)
    ensures Marked(after, before, f, n + 1)
  {
    hide DrawnAs, CursorAt, Index, Spot, PixelAt;
    forall x: nat, y: nat | x < f.canvasW && y < f.canvasH
      ensures var k := Index(f.canvasW, x, y);
              PixelAt(after, 1, k) == if Reached(f, n + 1, x, y) then [1] else PixelAt(before, 1, k)
    {
      ReachedNext(f, n, x, y);
    }
  }

  /** Pixels past the end of the frame change nothing. */
  lemma DrawPast(out: seq<byte>, before: seq<byte>, history: seq<byte>, marks: seq<byte>, table: seq<byte>, f: Frame,
        em: seq<byte>, v: byte)
    requires f.Ok() && |table| == TABLE_BYTES && Drawn(out, before, table, f, em) && Marked(history, marks, f, |em|)
    requires CursorAt(f, |em|).row >= f.h
    ensures Drawn(out, before, table, f, em + [v]) && Marked(history, marks, f, |em + [v]|)
  {
    hide DrawnAs, CursorAt, Index, PixelAt, Paint;
    Visits(f, |em|);
    forall x: nat, y: nat | x < f.canvasW && y < f.canvasH && Inside(f, x, y)
      ensures DrawnAs(f, x, y) < |em|
    {
      EveryPixel(f, x, y);
    }
  }

  lemma NothingDrawn(out: seq<byte>, history: seq<byte>, table: seq<byte>, f: Frame)
    requires |table| == TABLE_BYTES
    ensures Drawn(out, out, table, f, []) && Marked(history, history, f, 0)
  {}

  /** With at least as many pixels as the frame has, each of them shows its own index's colour. */
  lemma WholeFrame(out: seq<byte>, before: seq<byte>, table: seq<byte>, f: Frame, em: seq<byte>, x: nat, y: nat)
    requires f.Ok() && |table| == TABLE_BYTES && Drawn(out, before, table, f, em) && |em| >= f.w * f.h && x < f.w
             && y < f.h
    ensures var k := Index(f.canvasW, f.x + x, f.y + y);
            Index(f.w, x, RowIndex(f.h, f.interlaced, y)) < |em|
            && PixelAt(out, 4, k) == Paint(table, em[Index(f.w, x, RowIndex(f.h, f.interlaced, y))],
               PixelAt(before, 4, k))
  {
    hide CursorAt, Index, PixelAt, Paint, RowIndex;
    EveryPixel(f, f.x + x, f.y + y);
  }
}
