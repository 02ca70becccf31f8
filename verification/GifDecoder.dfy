/** The GIF raster decoder as the program runs it: a table of backward links, a recursive emitter
    and a cursor that places each pixel as soon as it is known. */
module GifDecoder {
  import opened Arithmetic
  import opened Bits
  import opened PixelGrid
  import opened Canonical
  import opened Context
  import opened GifPlacement
  import opened GifOffsets
  import opened GifCanvas
  import opened GifLzw

  /** `stbi__gif_lzw`. */
  datatype Lzw = Lzw(prefix: int, first: byte, suffix: byte)

  // ----- the table of links -----

  /** Following prefixes always leads to smaller entries, never to the two control codes, and ends. */
  ghost predicate Linked(codes: seq<Lzw>, clear: nat, avail: nat)
  {
    avail <= |codes|
    && forall i {:trigger codes[i]} :: 0 <= i < avail && i != clear && i != clear + 1 ==> LinkOk(codes[i], clear, i)
  }

  predicate LinkOk(e: Lzw, clear: nat, i: int)
  {
    -1 <= e.prefix < i && e.prefix != clear && e.prefix != clear + 1
  }

  predicate Entry(clear: nat, avail: nat, code: int)
  {
    0 <= code < avail && code != clear && code != clear + 1
  }

  /** The pixels an entry's links spell, last one last. */
  ghost function Spelled(codes: seq<Lzw>, clear: nat, avail: nat, code: nat): (r: Run)
    requires Linked(codes, clear, avail) && Entry(clear, avail, code)
  {
    if codes[code].prefix < 0 then [codes[code].suffix]
    else Spelled(codes, clear, avail, codes[code].prefix) + [codes[code].suffix]
  }

  /** A new entry does not change what older ones spell. */
  lemma {:induction false} SpelledKept(codes: seq<Lzw>, e: Lzw, clear: nat, avail: nat, code: nat)
    requires Linked(codes, clear, avail) && Entry(clear, avail, code) && avail < |codes| && LinkOk(e, clear, avail)
    ensures Linked(codes[avail := e], clear, avail + 1)
    ensures Spelled(codes[avail := e], clear, avail + 1, code) == Spelled(codes, clear, avail, code)
    decreases code
  {
    if codes[code].prefix >= 0 { SpelledKept(codes, e, clear, avail, codes[code].prefix); }
  }

  /** The table holds exactly the dictionary of the runs read so far. */
  ghost predicate Holds(codes: seq<Lzw>, clear: nat, ws: seq<Run>)
  {
    var avail := Avail(clear, |ws|);
    && Linked(codes, clear, avail)
    && forall c: nat {:trigger Entry(clear, avail, c)} :: Entry(clear, avail, c) ==>
         RunOf(clear, ws, c) == Some(Spelled(codes, clear, avail, c))
           && codes[c].first == Spelled(codes, clear, avail, c)[0]
  }

  /** `oldcode` names the last run, or is -1 before the first. */
  ghost predicate Last(codes: seq<Lzw>, clear: nat, ws: seq<Run>, oldcode: int)
    requires Holds(codes, clear, ws)
  {
    if ws == [] then oldcode == -1
    else Entry(clear, Avail(clear, |ws|), oldcode)
         && Spelled(codes, clear, Avail(clear, |ws|), oldcode) == ws[|ws| - 1]
  }

  /** The roots alone. */
  ghost predicate Roots(codes: seq<Lzw>, clear: nat, n: nat)
  {
    n <= |codes| && forall i {:trigger codes[i]} :: 0 <= i < n ==> codes[i] == Lzw(-1, i % 256, i % 256)
  }

  lemma RootsHold(codes: seq<Lzw>, clear: nat)
    requires Roots(codes, clear, clear) && clear + 2 <= |codes|
    ensures Holds(codes, clear, [])
  {
    forall c: nat | Entry(clear, clear + 2, c)
      ensures RunOf(clear, [], c) == Some(Spelled(codes, clear, clear + 2, c))
              && codes[c].first == Spelled(codes, clear, clear + 2, c)[0]
    {
      assert codes[c] == Lzw(-1, c % 256, c % 256);
    }
  }

  /** The first code after a clear code must be a root and adds no entry. */
  lemma FirstRun(codes: seq<Lzw>, clear: nat, code: nat)
    requires Holds(codes, clear, []) && RunOf(clear, [], code).Some?
    ensures Entry(clear, clear + 2, code)
    ensures var w := RunOf(clear, [], code).value;
            Holds(codes, clear, [w]) && Last(codes, clear, [w], code) && Spelled(codes, clear, clear + 2, code) == w
  {
    var w := RunOf(clear, [], code).value;
    assert Avail(clear, 1) == clear + 2;
    forall c: nat | Entry(clear, clear + 2, c)
      ensures RunOf(clear, [w], c) == Some(Spelled(codes, clear, clear + 2, c))
              && codes[c].first == Spelled(codes, clear, clear + 2, c)[0]
    {
      assert RunOf(clear, [], c) == RunOf(clear, [w], c);
    }
  }

  /** The entry added for `code` after `oldcode`. Its first pixel is set before its last is looked
      up, so it may be the entry that `code` names. */
  function NewEntry(codes: seq<Lzw>, avail: nat, oldcode: nat, code: nat): Lzw
    requires oldcode < |codes| && code < |codes|
  {
    Lzw(oldcode, codes[oldcode].first, if code == avail then codes[oldcode].first else codes[code].first)
  }

  lemma FoundBelow(codes: seq<Lzw>, clear: nat, ws: seq<Run>, code: nat)
    requires |ws| > 0 && Holds(codes, clear, ws) && RunOf(clear, ws, code).Some?
    ensures code <= Avail(clear, |ws|) && code != clear && code != clear + 1
    ensures code < Avail(clear, |ws|) ==>
              Entry(clear, Avail(clear, |ws|), code)
              && RunOf(clear, ws, code) == Some(Spelled(codes, clear, Avail(clear, |ws|), code))
                                          && codes[code].first == RunOf(clear, ws, code).value[0]
    ensures code == Avail(clear, |ws|) ==> RunOf(clear, ws, code) == Some(ws[|ws| - 1] + [ws[|ws| - 1][0]])
  {
    hide Linked;
    if code < Avail(clear, |ws|) {
      assert Entry(clear, Avail(clear, |ws|), code);
    }
  }

  /** Every later code adds one entry, and the table stays the dictionary. */
  lemma NextRun(codes: seq<Lzw>, clear: nat, ws: seq<Run>, oldcode: int, code: nat)
    requires |ws| > 0 && Holds(codes, clear, ws) && Last(codes, clear, ws, oldcode) && RunOf(clear, ws, code).Some?
    requires Avail(clear, |ws|) < |codes|
    ensures var avail, w := Avail(clear, |ws|), RunOf(clear, ws, code).value;
            code <= avail && 0 <= oldcode < avail &&
            var next := codes[avail := NewEntry(codes, avail, oldcode, code)];
            Holds(next, clear, ws + [w]) && Last(next, clear, ws + [w], code)
  {
    hide Linked, Spelled, RunOf;
    var avail, w := Avail(clear, |ws|), RunOf(clear, ws, code).value;
    FoundBelow(codes, clear, ws, code);
    assert Entry(clear, avail, oldcode);
    var e := NewEntry(codes, avail, oldcode, code);
    var next := codes[avail := e];
    assert LinkOk(e, clear, avail);
    SpelledKept(codes, e, clear, avail, oldcode);
    assert Avail(clear, |ws + [w]|) == avail + 1;
    NewSpelled(codes, e, clear, avail, oldcode);
    assert w[0] == e.suffix;
    forall c: nat | Entry(clear, avail + 1, c)
      ensures RunOf(clear, ws + [w], c) == Some(Spelled(next, clear, avail + 1, c))
              && next[c].first == Spelled(next, clear, avail + 1, c)[0]
    {
      RunKept(clear, ws, w, c);
      if c < avail {
        assert Entry(clear, avail, c);
        SpelledKept(codes, e, clear, avail, c);
      }
    }
    assert Entry(clear, avail + 1, code);
    if code < avail { SpelledKept(codes, e, clear, avail, code); }
  }

  lemma NewSpelled(codes: seq<Lzw>, e: Lzw, clear: nat, avail: nat, oldcode: nat)
    requires Linked(codes, clear, avail) && Entry(clear, avail, oldcode) && avail < |codes| && e.prefix == oldcode
    requires avail >= clear + 2 && Linked(codes[avail := e], clear, avail + 1)
    ensures Entry(clear, avail + 1, oldcode)
    ensures Spelled(codes[avail := e], clear, avail + 1, avail)
            == Spelled(codes[avail := e], clear, avail + 1, oldcode) + [e.suffix]
  {}

  lemma RunKept(clear: nat, ws: seq<Run>, w: Run, c: nat)
    requires |ws| > 0 && Entry(clear, Avail(clear, |ws|) + 1, c)
    ensures if c == Avail(clear, |ws|) then RunOf(clear, ws + [w], c) == Some(ws[|ws| - 1] + [w[0]])
            else RunOf(clear, ws + [w], c) == RunOf(clear, ws, c)
  {}

  // ----- the decoder -----

  /** `stbi__gif`: the part the raster decoder uses. Offsets are `int`s in C, where leaving their range
      has no defined result. `overflow` records that it happened; from then on nothing more is drawn. */
  class Gif {
    const w: nat
    const h: nat
    var out: array<byte>
    var history: array<byte>
    var codes: array<Lzw>
    var color_table: seq<byte>
    var parse: nat
    var step: nat
    var start_x: nat
    var start_y: nat
    var max_x: nat
    var max_y: nat
    var cur_x: nat
    var cur_y: nat
    var line_size: nat
    var overflow: bool
    ghost var frame: Frame
    ghost var emitted: seq<byte>
    ghost var before: seq<byte>
    ghost var marks: seq<byte>

    ghost predicate Shape()
      reads this
    {
      && Buffers() && frame.Ok() && frame.canvasW == w && frame.canvasH == h
      && line_size == 4 * w && start_x == 4 * frame.x && start_y == Times(line_size, frame.y)
      && max_x == start_x + 4 * frame.w && max_y == start_y + Times(line_size, frame.h)
    }

    /** The offsets are those of a cursor in the frame. */
    ghost predicate AtCursor(c: Cursor)
      reads this
    {
      c.parse <= 3 && parse == c.parse && step == Times(line_size, c.step)
      && cur_x == start_x + 4 * c.col && cur_y == start_y + Times(line_size, c.row)
    }

    /** As long as every offset has been an `int`, the canvas shows what was emitted. */
    ghost predicate Valid()
      reads this, out, history
    {
      && Shape() && overflow == !MovesFit(frame, |emitted|) && (!overflow ==> Showing())
    }

    ghost predicate Showing()
      requires |color_table| == TABLE_BYTES
      reads this, out, history
    {
      && AtCursor(CursorAt(frame, |emitted|))
      && Drawn(out[..], before, color_table, frame, emitted) && Marked(history[..], marks, frame, |emitted|)
    }

    /** A blank canvas. */
    constructor (width: nat, height: nat, table: seq<byte>)
      requires |table| == TABLE_BYTES && CanvasOk(width, height)
      ensures Buffers() && w == width && h == height && color_table == table && !overflow
      ensures fresh(out) && fresh(history) && fresh(codes)
    {
      w, h, color_table, overflow := width, height, table, false;
      out := new byte[4 * Times(width, height)](_ => 0);
      history := new byte[Times(width, height)](_ => 0);
      codes := new Lzw[TABLE_SIZE](_ => Lzw(0, 0, 0));
    }

    ghost predicate Buffers()
      reads `out, `history, `codes, `color_table
    {
      && out.Length == 4 * Times(w, h) && history.Length == Times(w, h) && codes.Length == TABLE_SIZE
      && out != history && |color_table| == TABLE_BYTES && CanvasOk(w, h)
    }

    /** The image descriptor: the rectangle, if it lies in the canvas, and the interlacing. */
    method Descriptor(x: nat, y: nat, fw: nat, fh: nat, interlaced: bool) returns (ok: bool)
      requires Buffers() && !overflow
      modifies `step, `parse, `start_x, `start_y, `max_x, `max_y, `cur_x, `cur_y, `line_size
      modifies `frame, `emitted, `before, `marks
      ensures ok <==> x + fw <= w && y + fh <= h
      ensures ok ==> Valid() && frame == Frame(w, h, x, y, fw, fh, interlaced)
                     && emitted == [] && before == out[..] && marks == history[..]
    {
      hide Drawn, Marked, Times;
      if x + fw > w || y + fh > h { return false; }
      SetFrame(x, y, fw, fh, interlaced);
      emitted, before, marks := [], out[..], history[..];
      NothingDrawn(out[..], history[..], color_table, frame);
      ok := true;
    }

    method SetFrame(x: nat, y: nat, fw: nat, fh: nat, interlaced: bool)
      requires Buffers() && x + fw <= w && y + fh <= h
      modifies `step, `parse, `start_x, `start_y, `max_x, `max_y, `cur_x, `cur_y, `line_size, `frame
      ensures Shape() && AtCursor(CursorAt(frame, 0)) && frame == Frame(w, h, x, y, fw, fh, interlaced)
    {
      hide Times, CursorAt, Gif.AtCursor, Gif.Buffers;
      frame := Frame(w, h, x, y, fw, fh, interlaced);
      line_size := w * 4;
      start_x := x * 4;
      start_y := Times(line_size, y);
      max_x := start_x + fw * 4;
      max_y := start_y + Times(line_size, fh);
      ResetCursor(fw, interlaced);
    }

    method ResetCursor(fw: nat, interlaced: bool)
      requires Shape() && fw == frame.w && interlaced == frame.interlaced
      modifies `step, `parse, `cur_x, `cur_y
      ensures AtCursor(CursorAt(frame, 0))
    {
      hide Times, CursorAt;
      FirstLines(line_size);
      FirstCursor(frame);
      cur_x := start_x;
      cur_y := start_y;
      if fw == 0 { cur_y := max_y; }
      if interlaced {
        step, parse := 8 * line_size, 3;
      } else {
        step, parse := line_size, 0;
      }
    }

    /** One pixel to the right, or on to the next row of the interlacing order. */
    method MoveOn(ghost c: Cursor)
      requires Shape() && AtCursor(c) && c.row < frame.h && c.col < frame.w && !overflow
      modifies `cur_x, `cur_y, `step, `parse, `overflow
      ensures overflow == !MoveFits(frame, c)
      ensures !overflow ==> AtCursor(Advance(frame, c))
    {
      hide Times, Shl, Settle, SettleFits, RowFits, CanvasOk;
      cur_x := cur_x + 4;
      if cur_x >= max_x {
        cur_x := start_x;
        Distribute(line_size, c.row, c.step);
        ghost var next := Cursor(0, c.row + c.step, c.step, c.parse);
        SettleFitsStep(frame, next);
        SetY(cur_y + step, next.row);
        while !overflow && cur_y >= max_y && parse > 0
          invariant next.parse <= 3 && next.col == 0 && cur_x == start_x
          invariant overflow == !RowFits(frame, next.row) && (!overflow ==> AtCursor(next))
          invariant SettleFits(frame, next) == MoveFits(frame, c) && Settle(frame.h, next) == Advance(frame, c)
          decreases if overflow then 0 else parse
        {
          LineCompare(line_size, next.row, frame.h);
          SettleStep(frame.h, next);
          SettleFitsStep(frame, next);
          StartGroup(next);
          next := NextGroup(next);
        }
        if !overflow { LineCompare(line_size, next.row, frame.h); }
        SettleStep(frame.h, next);
        SettleFitsStep(frame, next);
      }
    }

    /** The assignment to `cur_y`, unless the sum is no `int`. */
    method SetY(y: nat, ghost row: nat)
      requires Shape() && y == start_y + Times(line_size, row) && !overflow
      modifies `cur_y, `overflow
      ensures overflow == !RowFits(frame, row) && (!overflow ==> cur_y == y)
    {
      hide Times;
      if y > INT_MAX {
        overflow := true;
      } else {
        cur_y := y;
      }
    }

    method StartGroup(ghost c: Cursor)
      requires Shape() && AtCursor(c) && parse > 0 && c.col == 0 && cur_x == start_x && !overflow
      modifies `cur_y, `step, `parse, `overflow
      ensures overflow == !RowFits(frame, NextGroup(c).row)
      ensures !overflow ==> AtCursor(NextGroup(c))
    {
      hide Times, Shl, RowFits, CanvasOk;
      Shifted(line_size, parse);
      step := Shl(line_size, parse);
      SetY(start_y + step / 2, NextGroup(c).row);
      parse := parse - 1;
    }

    /** The other quantities kept in `int`s never leave their range. */
    lemma OtherOffsetsFit()
      requires Shape()
      ensures start_y <= max_y <= INT_MAX && start_x <= max_x <= line_size && Times(line_size, 8) <= INT_MAX
    {
      Distribute(line_size, frame.y, frame.h);
      if line_size > 0 { LineCompare(line_size, frame.canvasH, frame.y + frame.h); }
    }

    /** Draw one index at the cursor, unless the frame is full. */
    method OutPixel(suffix: byte)
      requires Valid()
      modifies `cur_x, `cur_y, `step, `parse, `overflow, `emitted, out, history
      ensures Valid() && emitted == old(emitted) + [suffix]
    {
      hide Drawn, Marked, Spot, Index, CursorAt, Times, PixelAt, Paint, Advance, Settle, MoveFits, MovesFit, CanvasOk,
           Gif.AtCursor, Gif.Showing;
      MovesStep(frame, |emitted|);
      if overflow {
        emitted := emitted + [suffix];
      } else {
        DrawPixel(suffix);
      }
    }

    method DrawPixel(suffix: byte)
      requires Shape() && !overflow && Showing()
      modifies `cur_x, `cur_y, `step, `parse, `overflow, `emitted, out, history
      ensures Shape() && emitted == old(emitted) + [suffix]
      ensures overflow == !MoveFits(frame, CursorAt(frame, old(|emitted|)))
      ensures !overflow ==> Showing()
    {
      hide Drawn, Marked, Spot, Index, CursorAt, Times, PixelAt, Paint, Advance, Settle, MoveFits, MovesFit, RowFits,
           CanvasOk, FitsInt;
      ghost var c := CursorAt(frame, |emitted|);
      CursorInside(frame, |emitted|);
      if cur_y >= max_y {
        DrawPast(out[..], before, history[..], marks, color_table, frame, emitted, suffix);
        CursorStays(frame, |emitted|);
        emitted := emitted + [suffix];
        return;
      }
      SpotInside(frame, |emitted|);
      SpotOffset(frame, |emitted|, line_size);
      ghost var outWas, historyWas := out[..], history[..];
      var idx := cur_x + cur_y;
      SetPixel(out, idx / 4, suffix);
      SetMark(history, idx / 4);
      DrawStep(out[..], outWas, before, color_table, frame, emitted, suffix);
      MarkStep(history[..], historyWas, marks, frame, |emitted|);
      MoveOn(c);
      CursorNext(frame, |emitted|);
      emitted := emitted + [suffix];
    }

    /** Colour lookup and the four stores. */
    method SetPixel(p: array<byte>, k: nat, suffix: byte)
      requires |color_table| == TABLE_BYTES && 4 * k + 4 <= p.Length
      modifies p
      ensures PixelAt(p[..], 4, k) == Paint(color_table, suffix, old(PixelAt(p[..], 4, k)))
      ensures forall l: nat :: l != k ==> PixelAt(p[..], 4, l) == old(PixelAt(p[..], 4, l))
    {
      ghost var was := p[..];
      var c := color_table[4 * suffix..4 * suffix + 4];
      if c[3] > 128 {
        p[4 * k] := c[2];
        p[4 * k + 1] := c[1];
        p[4 * k + 2] := c[0];
        p[4 * k + 3] := c[3];
      }
      forall l: nat | l != k ensures PixelAt(p[..], 4, l) == PixelAt(was, 4, l) {
        PixelsApart(4, l, k);
      }
    }

    method SetMark(p: array<byte>, k: nat)
      requires k < p.Length
      modifies p
      ensures PixelAt(p[..], 1, k) == [1]
      ensures forall l: nat :: l != k ==> PixelAt(p[..], 1, l) == old(PixelAt(p[..], 1, l))
    {
      p[k] := 1;
    }

    /** `stbi__out_gif_code`: the prefix first, then the entry's own pixel. */
    method OutGifCode(code: nat, ghost clear: nat, ghost avail: nat)
      requires Valid() && Linked(codes[..], clear, avail) && Entry(clear, avail, code)
      modifies `cur_x, `cur_y, `step, `parse, `overflow, `emitted, out, history
      ensures Valid() && emitted == old(emitted) + Spelled(codes[..], clear, avail, code)
      decreases code
    {
      hide Valid;
      assert LinkOk(codes[..][code], clear, code);
      if codes[code].prefix >= 0 {
        OutGifCode(codes[code].prefix, clear, avail);
      }
      OutPixel(codes[code].suffix);
    }

    // ----- the raster -----

    /** The single-pixel entries. */
    method InitRoots(clear: nat)
      requires clear + 2 <= codes.Length
      modifies codes
      ensures Roots(codes[..], clear, clear)
    {
      for init_code := 0 to clear
        invariant Roots(codes[..], clear, init_code)
      {
        codes[init_code] := Lzw(-1, init_code % 256, init_code % 256);
      }
    }

    /** The next byte of the sub-blocks, if there is one. */
    method NextByte(s: Source, len: nat) returns (more: bool, len': nat, b: byte)
      modifies s
      ensures !more ==> Rest(s.data, old(s.img_buffer), len) == []
      ensures more ==> Rest(s.data, old(s.img_buffer), len) == [b] + Rest(s.data, s.img_buffer, len')
    {
      hide Taken;
      len', b := len, 0;
      RestIs(s.data, s.img_buffer);
      if len' == 0 {
        len' := s.Get8();
        if len' == 0 { return false, 0, 0; }
      }
      RestHead(s.data, s.img_buffer, len');
      len' := len' - 1;
      b := s.Get8();
      more := true;
    }

    /** Skip what is left of the data after the end code. */
    method SkipRest(s: Source, len: nat)
      modifies s
    {
      s.Skip(len);
      var n := s.Get8();
      while n > 0
        invariant n > 0 ==> s.img_buffer <= |s.data|
        decreases if n > 0 then |s.data| - s.img_buffer else -1
      {
        s.Skip(n);
        n := s.Get8();
      }
    }

    /** A code that is not a control code: the new entry, then the pixels. */
    method AddCode(code: nat, clear: nat, avail: nat, oldcode: int, ghost runs: seq<Run>) returns (ok: bool,
          avail': nat)
      requires Valid() && codes.Length == TABLE_SIZE && clear + 2 <= TABLE_SIZE && Roots(codes[..], clear, clear)
      requires Holds(codes[..], clear, runs) && Last(codes[..], clear, runs, oldcode) && avail == Avail(clear, |runs|)
      requires code <= avail && code != clear && code != clear + 1
      modifies `cur_x, `cur_y, `step, `parse, `overflow, `emitted, out, history, codes
      ensures Valid()
      ensures ok <==> (|runs| > 0 ==> avail + 1 <= TABLE_SIZE) && RunOf(clear, runs, code).Some?
      ensures ok ==>
                var w := RunOf(clear, runs, code).value;
                emitted == old(emitted) + w && avail' == Avail(clear, |runs| + 1) && Roots(codes[..], clear, clear)
                && Holds(codes[..], clear, runs + [w]) && Last(codes[..], clear, runs + [w], code)
    {
      hide Gif.Valid, Holds, Last, RunOf, Roots;
      avail' := avail;
      Defined(clear, runs, code);
      LastSign(codes[..], clear, runs, oldcode);
      ghost var was := codes[..];
      if oldcode >= 0 {
        avail' := avail + 1;
        if avail' > TABLE_SIZE { return false, avail'; }
        StoreEntry(avail, oldcode, code);
        NextRun(was, clear, runs, oldcode, code);
        RootsKept(was, clear, avail, NewEntry(was, avail, oldcode, code));
        assert codes[..] == was[avail := NewEntry(was, avail, oldcode, code)];
      } else if code == avail {
        return false, avail;
      } else {
        FirstRun(was, clear, code);
        assert [] + [RunOf(clear, runs, code).value] == [RunOf(clear, runs, code).value];
      }
      ghost var ws := runs + [RunOf(clear, runs, code).value];
      LastEntry(codes[..], clear, ws, code);
      OutGifCode(code, clear, Avail(clear, |ws|));
      ok := true;
    }

    /** The three stores into the new entry, in order. The test of `code` against the already
        increased `avail` never holds. */
    method StoreEntry(avail: nat, oldcode: nat, code: nat)
      requires Valid() && oldcode < avail < TABLE_SIZE && code <= avail
      modifies codes
      ensures Valid() && codes[..] == old(codes[..])[avail := NewEntry(old(codes[..]), avail, oldcode, code)]
    {
      codes[avail] := codes[avail].(prefix := oldcode);
      codes[avail] := codes[avail].(first := codes[oldcode].first);
      if code == avail + 1 { assert false; }
      codes[avail] := codes[avail].(suffix := codes[code].first);
    }

    /** The table, `oldcode` and `avail` after the codes of `runs`. */
    ghost predicate Table(clear: nat, runs: seq<Run>, oldcode: int, avail: nat)
      reads this, codes
    {
      && codes.Length == TABLE_SIZE && Roots(codes[..], clear, clear) && avail == Avail(clear, |runs|)
      && Holds(codes[..], clear, runs) && Last(codes[..], clear, runs, oldcode)
    }

    /** A clear code: only the roots count again. */
    lemma Cleared(clear: nat, runs: seq<Run>, oldcode: int, avail: nat)
      requires Table(clear, runs, oldcode, avail) && clear + 2 <= TABLE_SIZE
      ensures Table(clear, [], -1, clear + 2)
    {
      RootsHold(codes[..], clear);
    }

    /** `stbi__process_gif_raster`: a code size and sub-blocks of codes. */
    method ProcessGifRaster(s: Source) returns (ok: bool)
      requires Valid() && emitted == []
      modifies `cur_x, `cur_y, `step, `parse, `overflow, `emitted, out, history, codes, s
      ensures Valid()
      ensures RefRasterData(s.data, old(s.img_buffer)) == if ok then Finished(emitted) else Corrupt
      ensures FitsInt(frame) ==> !overflow && Showing()
    {
      hide Gif.Valid, RefRaster, Roots, Holds, Payload, Linked;
      var lzw_cs := s.Get8();
      NeverOverflows();
      if lzw_cs > 12 { return false; }
      var clear := Shl(1, lzw_cs);
      ClearBound(lzw_cs);
      CodesLength();
      InitRoots(clear);
      RootsHold(codes[..], clear);
      ghost var payload := Payload(s.data, s.img_buffer);
      ok := ReadCodes(s, lzw_cs, clear, payload);
      NeverOverflows();
    }

    /** On a frame whose offsets fit, the canvas is always right. */
    lemma NeverOverflows()
      requires Valid()
      ensures |color_table| == TABLE_BYTES && (FitsInt(frame) ==> !overflow && Showing())
    {
      FitsIntIff(frame);
    }

    /** The loop over codes. */
    method ReadCodes(s: Source, lzw_cs: nat, clear: nat, ghost payload: seq<byte>) returns (ok: bool)
      requires Valid() && emitted == [] && lzw_cs <= 12 && clear == Pow2(lzw_cs) && clear + 2 <= TABLE_SIZE
      requires Table(clear, [], -1, clear + 2) && payload == Rest(s.data, s.img_buffer, 0)
      modifies `cur_x, `cur_y, `step, `parse, `overflow, `emitted, out, history, codes, s
      ensures Valid()
      ensures RefRaster(payload, lzw_cs, 0, None, []) == if ok then Finished(emitted) else Corrupt
    {
      hide Gif.Valid, Gif.Table, RefRaster, Rest, Val, Shl, Shr, Low, Or, Size, RunOf, Pow2;
      var first, oldcode := true, -1;
      var codesize: nat, bits: nat, valid_bits: nat, avail: nat, len: nat := lzw_cs + 1, 0, 0, clear + 2, 0;
      ghost var fed: nat, runs: seq<Run> := 0, [];
      EmptyVal(payload, 0);
      NoCodesYet(lzw_cs);
      while true
        invariant Valid() && Table(clear, runs, oldcode, avail) && (first ==> runs == [])
        invariant codesize == Size(lzw_cs, |runs|)
        invariant valid_bits <= 8 * fed && fed <= |payload| && payload[fed..] == Rest(s.data, s.img_buffer, len)
        invariant bits == Val(payload, 8 * fed - valid_bits, valid_bits)
        invariant RefRaster(payload, lzw_cs, 0, None, [])
                  == RefRaster(payload, lzw_cs, 8 * fed - valid_bits, if first then None else Some(runs), emitted)
        decreases |payload| - fed, valid_bits
      {
        RasterStep(payload, lzw_cs, 8 * fed - valid_bits, if first then None else Some(runs), emitted);
        if valid_bits < codesize {
          var more, b;
          more, len, b := NextByte(s, len);
          if !more { return true; }
          TakeByte(payload, fed, valid_bits, b, Rest(s.data, s.img_buffer, len));
          bits := Or(bits, Shl(b, valid_bits));
          valid_bits := valid_bits + 8;
          fed := fed + 1;
        } else {
          ValLowShr(payload, 8 * fed - valid_bits, valid_bits, codesize);
          var code := Low(bits, codesize);
          bits := Shr(bits, codesize);
          valid_bits := valid_bits - codesize;
          if code == clear {
            Cleared(clear, runs, oldcode, avail);
            codesize, avail, oldcode, first, runs := lzw_cs + 1, clear + 2, -1, false, [];
          } else if code == clear + 1 {
            SkipRest(s, len);
            return true;
          } else if code <= avail {
            if first { return false; }
            ok, avail := AddCodeTo(code, clear, avail, oldcode, runs);
            if !ok { return; }
            runs := runs + [RunOf(clear, runs, code).value];
            SizeStep(lzw_cs, |runs|);
            if Low(avail, codesize) == 0 && avail <= 0x0fff { codesize := codesize + 1; }
            oldcode := code;
          } else {
            TableAvail(clear, runs, oldcode, avail);
            Defined(clear, runs, code);
            return false;
          }
        }
      }
    }

    /** `AddCode` in terms of the table as a whole. */
    method AddCodeTo(code: nat, clear: nat, avail: nat, oldcode: int, ghost runs: seq<Run>) returns (ok: bool,
          avail': nat)
      requires Valid() && clear + 2 <= TABLE_SIZE && Table(clear, runs, oldcode, avail)
      requires code <= avail && code != clear && code != clear + 1
      modifies `cur_x, `cur_y, `step, `parse, `overflow, `emitted, out, history, codes
      ensures Valid()
      ensures ok <==> (|runs| > 0 ==> Avail(clear, |runs|) + 1 <= TABLE_SIZE) && RunOf(clear, runs, code).Some?
      ensures ok ==>
                var w := RunOf(clear, runs, code).value;
                emitted == old(emitted) + w && avail' == clear + 1 + (|runs| + 1)
                  && Table(clear, runs + [w], code, avail')
    {
      hide Gif.Valid, Holds, Last, RunOf, Roots;
      ok, avail' := AddCode(code, clear, avail, oldcode, runs);
      CodesLength();
    }

    lemma TableAvail(clear: nat, runs: seq<Run>, oldcode: int, avail: nat)
      requires Table(clear, runs, oldcode, avail)
      ensures avail == Avail(clear, |runs|)
    {}

    lemma CodesLength()
      requires Valid()
      ensures codes.Length == TABLE_SIZE
    {}
  }

  lemma ClearBound(cs: nat)
    requires cs <= 12
    ensures Shl(1, cs) == Pow2(cs) <= 0x1000
  {
    Pow2Mono(cs, 12);
    Twelve();
  }

  /** One more byte in the bit buffer. */
  lemma TakeByte(payload: seq<byte>, fed: nat, n: nat, b: byte, rest: seq<byte>)
    requires n <= 8 * fed && fed <= |payload| && payload[fed..] == [b] + rest
    ensures fed < |payload| && payload[fed + 1..] == rest
    ensures Or(Val(payload, 8 * fed - n, n), Shl(b, n)) == Val(payload, 8 * (fed + 1) - (n + 8), n + 8)
  {
    hide Or, Shl, Val;
    assert payload[fed..][0] == b;
    assert payload[fed..][1..] == rest;
    ShiftIn(payload, 8 * fed - n, n, 8);
    ValByte(payload, fed);
  }

  lemma RestIs(file: seq<byte>, pos: nat)
    ensures Rest(file, pos, 0) == if Peek(file, pos) == 0 then [] else Rest(file, pos + 1, Peek(file, pos))
  {}

  lemma RestHead(file: seq<byte>, pos: nat, len: nat)
    requires len > 0
    ensures Rest(file, pos, len) == [Peek(file, pos)] + Rest(file, Next(file, pos, 1), len - 1)
  {
    TakenHead(file, pos, len);
    assert Next(file, Next(file, pos, 1), len - 1) == Next(file, pos, len);
  }

  /** Which codes the dictionary defines, given that control codes are taken out. */
  lemma Defined(clear: nat, ws: seq<Run>, code: nat)
    requires code != clear && code != clear + 1
    ensures RunOf(clear, ws, code).Some? <==> code <= Avail(clear, |ws|) && (|ws| > 0 || code < Avail(clear, |ws|))
  {}

  lemma LastSign(codes: seq<Lzw>, clear: nat, ws: seq<Run>, oldcode: int)
    requires Holds(codes, clear, ws) && Last(codes, clear, ws, oldcode)
    ensures oldcode >= 0 <==> |ws| > 0
    ensures |ws| > 0 ==> oldcode < Avail(clear, |ws|)
    ensures Avail(clear, |ws|) <= |codes|
    ensures ws == [] ==> oldcode == -1
  {}

  lemma LastEntry(codes: seq<Lzw>, clear: nat, ws: seq<Run>, code: nat)
    requires |ws| > 0 && Holds(codes, clear, ws) && Last(codes, clear, ws, code)
    ensures Linked(codes, clear, Avail(clear, |ws|)) && Entry(clear, Avail(clear, |ws|), code)
    ensures Spelled(codes, clear, Avail(clear, |ws|), code) == ws[|ws| - 1]
  {}

  lemma RootsKept(codes: seq<Lzw>, clear: nat, avail: nat, e: Lzw)
    requires Roots(codes, clear, clear) && clear <= avail < |codes|
    ensures Roots(codes[avail := e], clear, clear)
  {}

  lemma FirstLines(line: nat)
    ensures Times(line, 0) == 0 && Times(line, 1) == line && Times(line, 8) == 8 * line
  {}

  lemma Shifted(line: nat, parse: nat)
    requires 1 <= parse <= 3
    ensures Shl(line, parse) == Times(line, if parse == 3 then 8 else if parse == 2 then 4 else 2)
    ensures Shl(line, parse) / 2 == Times(line, if parse == 3 then 4 else if parse == 2 then 2 else 1)
  {
    assert Shl(line, 1) == 2 * line;
    assert Shl(line, 2) == 4 * line;
    assert Shl(line, 3) == 8 * line;
  }

  lemma SettleStep(h: nat, c: Cursor)
    requires c.parse <= 3
    ensures Settle(h, c) == if c.row >= h && c.parse > 0 then Settle(h, NextGroup(c)) else c
  {}

  lemma CursorInside(f: Frame, k: nat)
    requires f.Ok()
    ensures var c := CursorAt(f, k);
            (Times(4 * f.canvasW, c.row) >= Times(4 * f.canvasW, f.h) <==> c.row >= f.h)
            && (c.row < f.h ==> c.col < f.w && Spot(f, k) < Times(f.canvasW, f.canvasH))
  {
    if CursorAt(f, k).row < f.h { SpotInside(f, k); }
    if f.canvasW > 0 { LineCompare(4 * f.canvasW, CursorAt(f, k).row, f.h); }
  }

  lemma FirstCursor(f: Frame)
    ensures CursorAt(f, 0) ==
            Cursor(0, if f.w == 0 then f.h else 0, if f.interlaced then 8 else 1, if f.interlaced then 3 else 0)
  {}

  lemma SettleFitsStep(f: Frame, c: Cursor)
    requires c.parse <= 3
    ensures SettleFits(f, c) <==> RowFits(f, c.row) && (c.row >= f.h && c.parse > 0 ==> SettleFits(f, NextGroup(c)))
  {}

  lemma MovesStep(f: Frame, n: nat)
    ensures MovesFit(f, n + 1) <==> MovesFit(f, n) && MoveFits(f, CursorAt(f, n))
    ensures MovesFit(f, 0)
  {}

  lemma CursorStays(f: Frame, k: nat)
    requires CursorAt(f, k).row >= f.h
    ensures CursorAt(f, k + 1) == CursorAt(f, k) && MoveFits(f, CursorAt(f, k))
  {}

  lemma CursorNext(f: Frame, k: nat)
    ensures CursorAt(f, k + 1) == Advance(f, CursorAt(f, k))
  {}

  /** The byte offset of the cursor is four times its pixel number. */
  lemma SpotOffset(f: Frame, k: nat, line: nat)
    requires line == 4 * f.canvasW
    ensures 4 * f.x + 4 * CursorAt(f, k).col + (Times(line, f.y) + Times(line, CursorAt(f, k).row)) == 4 * Spot(f, k)
  {
    hide CursorAt;
    var c := CursorAt(f, k);
    Distribute(line, f.y, c.row);
    assert line * (f.y + c.row) == 4 * ((f.y + c.row) * f.canvasW);
  }
}
