/** The byte offsets the GIF cursor is kept in, and exactly which frames keep them in the range of an
    `int`: an interlaced frame steps up to seven lines past its last row before the next group starts. */
module GifOffsets {
  import opened Arithmetic
  import opened Bits
  import opened PixelGrid
  import opened GifPlacement

  /** Bytes in `n` lines. */
  function Times(line: nat, n: nat): nat
  {
    line * n
  }

  lemma LineCompare(line: nat, a: nat, b: nat)
    requires line > 0
    ensures Times(line, a) >= Times(line, b) <==> a >= b
  {
    if a < b { ProductStep(line, a, b); } else if a > b { ProductStep(line, b, a); }
  }

  lemma Distribute(line: nat, a: nat, b: nat)
    ensures Times(line, a + b) == Times(line, a) + Times(line, b)
  {}

  /** The offset of a line of the frame, inside it or past its end, is an `int`. */
  predicate RowFits(f: Frame, row: nat)
  {
    Times(4 * f.canvasW, f.y) + Times(4 * f.canvasW, row) <= INT_MAX
  }

  /** All offsets the cursor takes on while it looks for a row of the frame fit. */
  predicate SettleFits(f: Frame, c: Cursor)
    requires c.parse <= 3
    decreases c.parse
  {
    RowFits(f, c.row) && (c.row >= f.h && c.parse > 0 ==> SettleFits(f, NextGroup(c)))
  }

  /** All offsets computed after a pixel has been drawn at the cursor fit. */
  predicate MoveFits(f: Frame, c: Cursor)
    requires c.parse <= 3
  {
    c.row < f.h && c.col + 1 >= f.w ==> SettleFits(f, Cursor(0, c.row + c.step, c.step, c.parse))
  }

  /** All offsets computed for the first `n` pixels fit. */
  ghost predicate MovesFit(f: Frame, n: nat)
  {
    n == 0 || (MovesFit(f, n - 1) && MoveFits(f, CursorAt(f, n - 1)))
  }

  /** The lowest row the cursor computes: one past the end, or for interlaced frames the larger of the
      rows behind the end of the first two groups. */
  function Past(h: nat, interlaced: bool): (p: nat)
    ensures h <= p <= h + 7
  {
    if !interlaced || h == 0 then h
    else
      Groups(h);
      if 8 * Group1(h) >= 8 * Group2(h) + 4 then 8 * Group1(h) else 8 * Group2(h) + 4
  }

  /** What a caller can check from the canvas and the descriptor. */
  predicate FitsInt(f: Frame)
  {
    f.w == 0 || f.h == 0 || Times(4 * f.canvasW, f.y + Past(f.h, f.interlaced)) <= INT_MAX
  }

  // ----- the lowest row -----

  lemma RowFitsMono(f: Frame, a: nat, b: nat)
    requires a <= b && RowFits(f, b)
    ensures RowFits(f, a)
  {
    if a < b { ProductStep(4 * f.canvasW, a, b); }
  }

  /** The lowest row on the way to the next row of the frame. */
  function Lowest(h: nat, c: Cursor): nat
    requires c.parse <= 3
    decreases c.parse
  {
    if c.row >= h && c.parse > 0 then
      var r := Lowest(h, NextGroup(c));
      if r > c.row then r else c.row
    else c.row
  }

  lemma {:induction false} SettleFitsLowest(f: Frame, c: Cursor)
    requires c.parse <= 3
    ensures SettleFits(f, c) <==> RowFits(f, Lowest(f.h, c))
    decreases c.parse
  {
    hide RowFits;
    if c.row >= f.h && c.parse > 0 {
      SettleFitsLowest(f, NextGroup(c));
      var r := Lowest(f.h, NextGroup(c));
      if RowFits(f, Lowest(f.h, c)) {
        RowFitsMono(f, r, Lowest(f.h, c));
        RowFitsMono(f, c.row, Lowest(f.h, c));
      }
    }
  }

  /** Behind the `i`-th drawn row. */
  function Behind(h: nat, interlaced: bool, i: nat): Cursor
  {
    var c := RowCursor(h, interlaced, i);
    Cursor(0, c.row + c.step, c.step, c.parse)
  }

  /** Only the first group behind a row matters: the starts of the later ones are smaller. */
  lemma LowestIs(h: nat, c: Cursor)
    requires c.parse <= 3
    ensures var start := if c.parse == 3 then 4 else if c.parse == 2 then 2 else 1;
            Lowest(h, c) == if c.row < h || c.parse == 0 || c.row >= start then c.row else start
    decreases c.parse
  {
    if c.row >= h && c.parse > 0 { LowestIs(h, NextGroup(c)); }
  }

  lemma BehindIs(h: nat, i: nat)
    ensures var a, b, c := Group1(h), Group1(h) + Group2(h), Group1(h) + Group2(h) + Group3(h);
            Behind(h, true, i) ==
            if i < a then Cursor(0, 8 * i + 8, 8, 3)
            else if i < b then Cursor(0, 8 * (i - a) + 12, 8, 2)
            else if i < c then Cursor(0, 4 * (i - b) + 6, 4, 1)
            else Cursor(0, 2 * (i - c) + 3, 2, 0)
  {
    hide Group1, Group2, Group3;
  }

  lemma PastIs(h: nat)
    requires h > 0
    ensures Past(h, true) >= 8 * Group1(h) && Past(h, true) >= 8 * Group2(h) + 4 && Past(h, true) >= h + 4
    ensures Past(h, true) == 8 * Group1(h) || Past(h, true) == 8 * Group2(h) + 4 > 8 * Group1(h)
  {
    Groups(h);
  }

  lemma BehindBelow(h: nat, interlaced: bool, i: nat)
    requires i < h
    ensures Behind(h, interlaced, i).parse <= 3
    ensures Lowest(h, Behind(h, interlaced, i)) <= Past(h, interlaced)
  {
    if interlaced {
      hide Group1, Group2, Group3, Lowest, Past, Behind;
      Groups(h);
      BehindIs(h, i);
      PastIs(h);
      LowestIs(h, Behind(h, true, i));
    }
  }

  /** The drawn row behind which the lowest row is computed. */
  lemma BehindPast(h: nat, interlaced: bool) returns (i: nat)
    requires h > 0
    ensures i < h && Behind(h, interlaced, i).parse <= 3
    ensures Lowest(h, Behind(h, interlaced, i)) == Past(h, interlaced)
  {
    i := h - 1;
    if interlaced {
      hide Group1, Group2, Group3, Lowest, Past, Behind;
      Groups(h);
      PastIs(h);
      i := if Past(h, true) == 8 * Group1(h) then Group1(h) - 1 else Group1(h) + Group2(h) - 1;
      BehindIs(h, i);
      LowestIs(h, Behind(h, true, i));
    }
  }

  // ----- all pixels -----

  /** After a pixel in the frame: nothing is computed inside a row, and behind a row what its place asks for. */
  lemma MoveFitsIs(f: Frame, col: nat, i: nat)
    requires col < f.w && i < f.h
    ensures Behind(f.h, f.interlaced, i).parse <= 3
    ensures MoveFits(f, CursorAt(f, Index(f.w, col, i))) <==>
            col + 1 < f.w || RowFits(f, Lowest(f.h, Behind(f.h, f.interlaced, i)))
  {
    hide RowCursor, RowFits, SettleFits, Lowest, Past, CursorAt, Index;
    BehindBelow(f.h, f.interlaced, i);
    CursorIs(f, col, i);
    RowCursorInside(f.h, f.interlaced, i);
    SettleFitsLowest(f, Behind(f.h, f.interlaced, i));
  }

  lemma {:induction false} MovesFitAt(f: Frame, n: nat, k: nat)
    requires MovesFit(f, n) && k < n
    ensures MoveFits(f, CursorAt(f, k))
  {
    hide MoveFits, CursorAt;
    if k < n - 1 { MovesFitAt(f, n - 1, k); }
  }

  lemma {:induction false} AllMovesFit(f: Frame, n: nat)
    requires FitsInt(f)
    ensures MovesFit(f, n)
  {
    hide MoveFits, CursorAt, FitsInt;
    if n > 0 {
      AllMovesFit(f, n - 1);
      MoveAlwaysFits(f, n - 1);
    }
  }

  lemma FitsIntRow(f: Frame)
    requires f.w > 0 && f.h > 0
    ensures FitsInt(f) <==> RowFits(f, Past(f.h, f.interlaced))
  {
    Distribute(4 * f.canvasW, f.y, Past(f.h, f.interlaced));
  }

  /** Exactly: for a frame that passes the condition no offset ever leaves the range of an `int`, and
      for any other frame one does before its last pixel is done. */
  lemma FitsIntIff(f: Frame)
    ensures FitsInt(f) ==> forall n: nat :: MovesFit(f, n)
    ensures MovesFit(f, f.w * f.h) ==> FitsInt(f)
  {
    hide MoveFits, RowFits, Past, Lowest, Behind, CursorAt, Index, FitsInt;
    if FitsInt(f) {
      forall n: nat ensures MovesFit(f, n) { AllMovesFit(f, n); }
    } else if MovesFit(f, f.w * f.h) {
      OneMoveMisses(f);
    }
  }

  lemma MoveAlwaysFits(f: Frame, k: nat)
    requires FitsInt(f)
    ensures MoveFits(f, CursorAt(f, k))
  {
    hide RowFits, Past, Lowest, Behind, CursorAt, Index, FitsInt, SettleFits;
    Visits(f, k);
    if CursorAt(f, k).row < f.h {
      var i, col := Quotients(f.w, f.h, k);
      MoveFitsIs(f, col, i);
      BehindBelow(f.h, f.interlaced, i);
      FitsIntRow(f);
      RowFitsMono(f, Lowest(f.h, Behind(f.h, f.interlaced, i)), Past(f.h, f.interlaced));
    }
  }

  lemma OneMoveMisses(f: Frame)
    requires !FitsInt(f)
    ensures !MovesFit(f, f.w * f.h)
  {
    hide RowFits, Past, Lowest, Behind, CursorAt, Index, MoveFits;
    var i := BehindPast(f.h, f.interlaced);
    FitsIntRow(f);
    MoveFitsIs(f, f.w - 1, i);
    IndexInside(f.w, f.h, f.w - 1, i, 1);
    if MovesFit(f, f.w * f.h) { MovesFitAt(f, f.w * f.h, Index(f.w, f.w - 1, i)); }
  }

  // ----- frames -----

  /** The canvas sizes the program goes on with. */
  predicate CanvasOk(w: nat, h: nat)
  {
    w <= 0xffff && h <= 0xffff && Times(4 * w, h) <= INT_MAX
  }

  /** Frames that are not interlaced always fit, and so does every frame of a canvas that has room
      for seven more lines. */
  lemma MostFramesFit(f: Frame)
    requires f.Ok() && CanvasOk(f.canvasW, f.canvasH)
    requires !f.interlaced || Times(4 * f.canvasW, f.canvasH + 7) <= INT_MAX
    ensures FitsInt(f)
  {
    hide Past;
    var p := f.y + Past(f.h, f.interlaced);
    var top := if f.interlaced then f.canvasH + 7 else f.canvasH;
    assert p <= top by { if !f.interlaced { PastPlain(f.h); } }
    if p < top { ProductStep(4 * f.canvasW, p, top); }
  }

  lemma PastPlain(h: nat)
    ensures Past(h, false) == h
  {}

  /** One interlaced pixel on the second line from the bottom of a canvas of 65535 by 8191 pixels,
      which passes every check of the program: the first move leaves the range of an `int`. */
  lemma OverflowHappens()
    ensures var f := Frame(65535, 8191, 0, 8190, 1, 1, true);
            f.Ok() && CanvasOk(f.canvasW, f.canvasH) && CursorAt(f, 0).row < f.h && !MoveFits(f, CursorAt(f, 0))
  {
    var f := Frame(65535, 8191, 0, 8190, 1, 1, true);
    assert CursorAt(f, 0) == Cursor(0, 0, 8, 3);
    assert !RowFits(f, 8);
  }
}
