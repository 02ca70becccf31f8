/** Where the pixels of a GIF frame go: the cursor the program moves, and the row order of
    Appendix E of the GIF89a specification. */
module GifPlacement {
  import opened PixelGrid

  /** A frame rectangle in its canvas. */
  datatype Frame = Frame(canvasW: nat, canvasH: nat, x: nat, y: nat, w: nat, h: nat, interlaced: bool)
  {
    predicate Ok()
    {
      x + w <= canvasW && y + h <= canvasH
    }
  }

  // ----- row order -----

  /** Rows in each interlace group: every 8th from 0, every 8th from 4, every 4th from 2, every 2nd from 1. */
  function Group1(h: nat): nat { (h + 7) / 8 }

  function Group2(h: nat): nat { (h + 3) / 8 }

  function Group3(h: nat): nat { (h + 1) / 4 }

  /** The row that is drawn `i`-th. */
  function RowOrder(h: nat, interlaced: bool, i: nat): nat
  {
    var a, b, c := Group1(h), Group1(h) + Group2(h), Group1(h) + Group2(h) + Group3(h);
    if !interlaced then i
    else if i < a then 8 * i
    else if i < b then 8 * (i - a) + 4
    else if i < c then 4 * (i - b) + 2
    else 2 * (i - c) + 1
  }

  /** When row `r` is drawn. */
  function RowIndex(h: nat, interlaced: bool, r: nat): nat
  {
    if !interlaced then r
    else if r % 8 == 0 then r / 8
    else if r % 8 == 4 then Group1(h) + r / 8
    else if r % 4 == 2 then Group1(h) + Group2(h) + r / 4
    else Group1(h) + Group2(h) + Group3(h) + r / 2
  }

  /** The groups are just large enough for their rows, and together they hold all of them. */
  lemma Groups(h: nat)
    ensures h <= 8 * Group1(h) < h + 8
    ensures h <= 8 * Group2(h) + 4 && (Group2(h) > 0 ==> 8 * Group2(h) < h + 4)
    ensures h <= 4 * Group3(h) + 2 && (Group3(h) > 0 ==> 4 * Group3(h) < h + 2)
    ensures Group1(h) + Group2(h) + Group3(h) + h / 2 == h
  {
    var q, r := h / 8, h % 8;
    assert h == 8 * q + r;
    assert Group1(h) == q + (if r > 0 then 1 else 0);
    assert Group2(h) == q + (if r > 4 then 1 else 0);
    assert Group3(h) == 2 * q + (r + 1) / 4;
    assert h / 2 == 4 * q + r / 2;
  }

  lemma Eights(q: nat, e: nat)
    requires e < 8
    ensures (8 * q + e) / 8 == q && (8 * q + e) % 8 == e
    ensures (8 * q + e) / 4 == 2 * q + e / 4 && (8 * q + e) % 4 == e % 4
    ensures (8 * q + e) / 2 == 4 * q + e / 2
  {}

  /** When the rows of the four forms are drawn. */
  lemma FormIndex(h: nat, q: nat, e: nat)
    requires e < 8
    ensures RowIndex(h, true, 8 * q + e) ==
            if e == 0 then q else if e == 4 then Group1(h) + q
            else if e == 2 then Group1(h) + Group2(h) + 2 * q else if e == 6 then Group1(h) + Group2(h) + 2 * q + 1
            else Group1(h) + Group2(h) + Group3(h) + 4 * q + e / 2
  {
    hide Group1, Group2, Group3;
    Eights(q, e);
  }

  lemma ThirdGroup(h: nat, j: nat)
    requires j < Group3(h)
    ensures 4 * j + 2 < h && RowIndex(h, true, 4 * j + 2) == Group1(h) + Group2(h) + j
  {
    hide Group1, Group2, Group3, RowIndex;
    Groups(h);
    var q, e := j / 2, j % 2;
    assert j == 2 * q + e;
    FormIndex(h, q, if e == 0 then 2 else 6);
  }

  lemma FourthGroup(h: nat, j: nat)
    requires j < h / 2
    ensures 2 * j + 1 < h && RowIndex(h, true, 2 * j + 1) == Group1(h) + Group2(h) + Group3(h) + j
  {
    hide Group1, Group2, Group3, RowIndex;
    var q, e := j / 4, j % 4;
    assert j == 4 * q + e;
    FormIndex(h, q, if e == 0 then 1 else if e == 1 then 3 else if e == 2 then 5 else 7);
  }

  /** The order is a permutation of the rows. */
  lemma RowOrderInverse(h: nat, interlaced: bool, i: nat)
    requires i < h
    ensures RowOrder(h, interlaced, i) < h && RowIndex(h, interlaced, RowOrder(h, interlaced, i)) == i
  {
    hide Group1, Group2, Group3;
    Groups(h);
    var a, b, c := Group1(h), Group1(h) + Group2(h), Group1(h) + Group2(h) + Group3(h);
    if interlaced {
      hide RowIndex;
      if i < a {
        FormIndex(h, i, 0);
      } else if i < b {
        FormIndex(h, i - a, 4);
      } else if i < c {
        ThirdGroup(h, i - b);
      } else {
        FourthGroup(h, i - c);
      }
    }
  }

  lemma RowIndexInverse(h: nat, interlaced: bool, r: nat)
    requires r < h
    ensures RowIndex(h, interlaced, r) < h && RowOrder(h, interlaced, RowIndex(h, interlaced, r)) == r
  {
    hide Group1, Group2, Group3;
    Groups(h);
    if interlaced {
      hide RowIndex;
      var q, e := r / 8, r % 8;
      assert r == 8 * q + e;
      FormIndex(h, q, e);
      if e == 1 || e == 3 || e == 5 || e == 7 { OddRows(h, q, e); }
    }
  }

  /** The four passes of Appendix E: every eighth row from 0, every eighth from 4, every fourth from 2 and
      every second from 1. */
  predicate InPass(r: nat, pass: nat)
  {
    match pass
    case 0 => r % 8 == 0
    case 1 => r % 8 == 4
    case 2 => r % 4 == 2
    case 3 => r % 2 == 1
    case _ => false
  }

  /** An interlaced frame is drawn pass by pass, and from top to bottom in a pass. */
  lemma PassOrder(h: nat, r: nat, r': nat, pass: nat, pass': nat)
    requires r < h && r' < h && InPass(r, pass) && InPass(r', pass')
    ensures RowIndex(h, true, r) < RowIndex(h, true, r') <==> pass < pass' || (pass == pass' && r < r')
  {
    hide Group1, Group2, Group3, RowIndex;
    PassIndex(h, r, pass);
    PassIndex(h, r', pass');
  }

  /** Where a row of a pass stands. */
  lemma PassIndex(h: nat, r: nat, pass: nat)
    requires r < h && InPass(r, pass)
    ensures var a, b, c := Group1(h), Group1(h) + Group2(h), Group1(h) + Group2(h) + Group3(h);
            match pass
            case 0 => RowIndex(h, true, r) < a && r == 8 * RowIndex(h, true, r)
            case 1 => a <= RowIndex(h, true, r) < b && r == 8 * (RowIndex(h, true, r) - a) + 4
            case 2 => b <= RowIndex(h, true, r) < c && r == 4 * (RowIndex(h, true, r) - b) + 2
            case _ => c <= RowIndex(h, true, r) && r == 2 * (RowIndex(h, true, r) - c) + 1
  {
    hide Group1, Group2, Group3, RowIndex;
    var q, e := r / 8, r % 8;
    assert r == 8 * q + e;
    Eights(q, e);
    Groups(h);
    FormIndex(h, q, e);
  }

  lemma OddRows(h: nat, q: nat, e: nat)
    requires 8 * q + e < h && (e == 1 || e == 3 || e == 5 || e == 7)
    ensures 4 * q + e / 2 < h / 2 && 2 * (4 * q + e / 2) + 1 == 8 * q + e
  {}

  // ----- the cursor -----

  /** Column and row inside the frame, rows to the next one, and interlace groups still to come. */
  datatype Cursor = Cursor(col: nat, row: nat, step: nat, parse: nat)

  /** The first row of the next interlace group. */
  function NextGroup(c: Cursor): (r: Cursor)
    requires 1 <= c.parse <= 3
    ensures r.parse == c.parse - 1
  {
    if c.parse == 3 then Cursor(c.col, 4, 8, 2)
    else if c.parse == 2 then Cursor(c.col, 2, 4, 1)
    else Cursor(c.col, 1, 2, 0)
  }

  /** Skip to the next interlace group, and the one after, until a row lies in the frame. */
  function Settle(h: nat, c: Cursor): (r: Cursor)
    requires c.parse <= 3
    ensures r.parse <= 3
    decreases c.parse
  {
    if c.row >= h && c.parse > 0 then Settle(h, NextGroup(c)) else c
  }

  /** One pixel on. Below the last row the cursor no longer moves. */
  function Advance(f: Frame, c: Cursor): (r: Cursor)
    requires c.parse <= 3
    ensures r.parse <= 3
  {
    if c.row >= f.h then c
    else if c.col + 1 < f.w then c.(col := c.col + 1)
    else Settle(f.h, Cursor(0, c.row + c.step, c.step, c.parse))
  }

  /** Before any pixel; a frame without columns starts below its last row. */
  function First(f: Frame): (c: Cursor)
    ensures c.parse <= 3
  {
    Cursor(0, if f.w == 0 then f.h else 0, if f.interlaced then 8 else 1, if f.interlaced then 3 else 0)
  }

  /** After `k` pixels. */
  function CursorAt(f: Frame, k: nat): (c: Cursor)
    ensures c.parse <= 3
  {
    if k == 0 then First(f) else Advance(f, CursorAt(f, k - 1))
  }

  /** The cursor at the start of the `i`-th drawn row. */
  function RowCursor(h: nat, interlaced: bool, i: nat): Cursor
  {
    var a, b, c := Group1(h), Group1(h) + Group2(h), Group1(h) + Group2(h) + Group3(h);
    var r := RowOrder(h, interlaced, i);
    if !interlaced then Cursor(0, r, 1, 0)
    else if i < a then Cursor(0, r, 8, 3)
    else if i < b then Cursor(0, r, 8, 2)
    else if i < c then Cursor(0, r, 4, 1)
    else Cursor(0, r, 2, 0)
  }

  lemma NextRow(h: nat, interlaced: bool, i: nat)
    requires i < h
    ensures var c := RowCursor(h, interlaced, i);
            var n := Settle(h, Cursor(0, c.row + c.step, c.step, c.parse));
            c.row < h && if i + 1 < h then n == RowCursor(h, interlaced, i + 1) else n.row >= h
  {
    hide Group1, Group2, Group3;
    Groups(h);
  }

  lemma FirstRow(h: nat, interlaced: bool)
    requires h > 0
    ensures RowCursor(h, interlaced, 0) == Cursor(0, 0, if interlaced then 8 else 1, if interlaced then 3 else 0)
  {}

  /** Pixels go left to right, row after row in the order of Appendix E. */
  lemma {:induction false} CursorIs(f: Frame, col: nat, i: nat)
    requires col < f.w && i < f.h
    ensures CursorAt(f, Index(f.w, col, i)) == RowCursor(f.h, f.interlaced, i).(col := col)
    decreases i, col
  {
    hide RowCursor, Settle, RowOrder;
    RowCursorInside(f.h, f.interlaced, i);
    if col > 0 {
      CursorIs(f, col - 1, i);
      assert Index(f.w, col, i) == Index(f.w, col - 1, i) + 1;
    } else if i > 0 {
      CursorIs(f, f.w - 1, i - 1);
      NextRow(f.h, f.interlaced, i - 1);
      assert Index(f.w, 0, i) == Index(f.w, f.w - 1, i - 1) + 1 by { assert i * f.w == (i - 1) * f.w + f.w; }
    } else {
      FirstRow(f.h, f.interlaced);
      assert Index(f.w, 0, 0) == 0;
    }
  }

  lemma RowCursorInside(h: nat, interlaced: bool, i: nat)
    requires i < h
    ensures var c := RowCursor(h, interlaced, i); c.col == 0 && c.row == RowOrder(h, interlaced, i) < h
  {
    RowOrderInverse(h, interlaced, i);
  }

  lemma LastIndex(w: nat, h: nat)
    requires w > 0 && h > 0
    ensures Index(w, w - 1, h - 1) + 1 == w * h
  {
    assert w * h == (h - 1) * w + w;
  }

  lemma FrameEnd(f: Frame)
    requires f.w > 0 && f.h > 0
    ensures CursorAt(f, Index(f.w, f.w - 1, f.h - 1) + 1).row >= f.h
  {
    hide RowCursor, Settle, RowOrder, Index;
    CursorIs(f, f.w - 1, f.h - 1);
    NextRow(f.h, f.interlaced, f.h - 1);
    RowCursorInside(f.h, f.interlaced, f.h - 1);
  }

  /** When every pixel has been drawn the cursor is below the frame, and stays there. */
  lemma {:induction false} CursorPast(f: Frame, k: nat)
    requires k >= f.w * f.h
    ensures CursorAt(f, k).row >= f.h
    decreases k
  {
    hide Settle, Index;
    if f.w == 0 || f.h == 0 {
      EmptyFrame(f, k);
    } else if k > f.w * f.h {
      CursorPast(f, k - 1);
    } else {
      LastIndex(f.w, f.h);
      FrameEnd(f);
    }
  }

  lemma {:induction false} EmptyFrame(f: Frame, k: nat)
    requires f.w == 0 || f.h == 0
    ensures CursorAt(f, k).row >= f.h
  {
    hide Settle;
    if k > 0 { EmptyFrame(f, k - 1); }
  }

  // ----- pixels -----

  predicate Inside(f: Frame, x: nat, y: nat)
  {
    f.x <= x < f.x + f.w && f.y <= y < f.y + f.h
  }

  /** Which of the frame's pixels, in drawing order, is at canvas position (x, y). */
  function DrawnAs(f: Frame, x: nat, y: nat): (k: nat)
    requires Inside(f, x, y)
  {
    Index(f.w, x - f.x, RowIndex(f.h, f.interlaced, y - f.y))
  }

  /** Drawing visits the frame's pixels exactly once: while the cursor is in the frame, the `k`-th
      pixel is inside the frame and is the only one drawn `k`-th, and each pixel is drawn in its turn. */
  lemma Visits(f: Frame, k: nat)
    ensures k < f.w * f.h <==> CursorAt(f, k).row < f.h
    ensures CursorAt(f, k).row < f.h ==>
              var x, y := f.x + CursorAt(f, k).col, f.y + CursorAt(f, k).row;
              Inside(f, x, y) && DrawnAs(f, x, y) == k
              && forall x': nat, y': nat :: Inside(f, x', y') && DrawnAs(f, x', y') == k ==> x' == x && y' == y
  {
    hide RowCursor, RowOrder, RowIndex, Index;
    if k >= f.w * f.h {
      CursorPast(f, k);
    } else {
      var i, col := Quotients(f.w, f.h, k);
      CursorIs(f, col, i);
      RowCursorInside(f.h, f.interlaced, i);
      RowOrderInverse(f.h, f.interlaced, i);
      forall x': nat, y': nat | Inside(f, x', y') && DrawnAs(f, x', y') == k
        ensures x' == f.x + col && y' == f.y + RowOrder(f.h, f.interlaced, i)
      {
        IndexInjective(f.w, x' - f.x, RowIndex(f.h, f.interlaced, y' - f.y), col, i);
        RowIndexInverse(f.h, f.interlaced, y' - f.y);
      }
    }
  }

  /** Every pixel of the frame has its turn. */
  lemma EveryPixel(f: Frame, x: nat, y: nat)
    requires Inside(f, x, y)
    ensures DrawnAs(f, x, y) < f.w * f.h
    ensures var c := CursorAt(f, DrawnAs(f, x, y)); f.x + c.col == x && f.y + c.row == y
  {
    hide RowCursor, RowOrder, RowIndex;
    var i := RowIndex(f.h, f.interlaced, y - f.y);
    RowIndexInverse(f.h, f.interlaced, y - f.y);
    CursorIs(f, x - f.x, i);
    RowCursorInside(f.h, f.interlaced, i);
    IndexInside(f.w, f.h, x - f.x, i, 1);
  }

  lemma Quotients(w: nat, h: nat, k: nat) returns (i: nat, col: nat)
    requires k < w * h
    ensures i < h && col < w && Index(w, col, i) == k
  {
    assert w > 0;
    i, col := 0, k;
    while col >= w
      invariant k == i * w + col
      decreases col
    {
      assert (i + 1) * w == i * w + w;
      i, col := i + 1, col - w;
    }
    if i >= h {
      TooFar(w, h, i);
    }
  }

  lemma TooFar(w: nat, h: nat, i: nat)
    requires i >= h
    ensures i * w >= w * h
  {
    assert i * w == h * w + (i - h) * w;
  }
}
