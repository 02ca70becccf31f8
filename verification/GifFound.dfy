/** The other direction of reading a GIF raster: whatever is accepted is an encoding of the pixels it gives. */
module GifFound {
  import opened Bits
  import opened BitStrings
  import opened Canonical
  import opened GifLzw
  import opened GifEncoder

  /** A code the decoder finds a run for is one an encoder may have sent for it. */
  lemma FoundIsSent(clear: nat, ws: seq<Run>, w: Run, code: nat)
    requires RunOf(clear, ws, code) == Some(w)
    ensures Sends(clear, ws + [w], |ws|, code)
  {
    if code >= clear {
      var i := code - clear - 2;
      if i + 1 == |ws| { assert w[0] == ws[i][0]; }
    }
  }

  /** Segments without an end code behind them. */
  function OpenBits(cs: nat, segs: seq<Segment>, prev: nat): seq<nat>
  {
    if segs == [] then []
    else Lsb(Pow2(cs), Width(cs, prev)) + (CodeBits(cs, segs[0].codes, 0) + OpenBits(cs, segs[1..], |segs[0].codes|))
  }

  /** Codes sent since the last clear code when all segments have been sent. */
  function Since(segs: seq<Segment>, prev: nat): nat
  {
    if segs == [] then prev else |segs[|segs| - 1].codes|
  }

  lemma {:induction false} OpenIsRaster(cs: nat, segs: seq<Segment>, prev: nat)
    ensures RasterBits(cs, segs, prev) == OpenBits(cs, segs, prev) + Lsb(Pow2(cs) + 1, Width(cs, Since(segs, prev)))
    decreases |segs|
  {
    hide Lsb, Width, CodeBits;
    if segs != [] { OpenIsRaster(cs, segs[1..], |segs[0].codes|); }
  }

  /** At `pos` the next code is the end code, or the data do not hold another one. */
  ghost predicate Ends(payload: seq<byte>, cs: nat, pos: nat, m: nat)
  {
    pos <= 8 * |payload| && (pos + Width(cs, m) > 8 * |payload| || Val(payload, pos, Width(cs, m)) == Pow2(cs) + 1)
  }

  /** From `pos` on, `seg` being read already up to its `m`-th code, the data hold the rest of it and `segs`. */
  ghost predicate HoldRest(payload: seq<byte>, cs: nat, pos: nat, seg: Segment, m: nat, segs: seq<Segment>)
    requires m <= |seg.codes|
  {
    var bits := CodeBits(cs, seg.codes, m) + OpenBits(cs, segs, |seg.codes|);
    At(payload, pos, bits) && Ends(payload, cs, pos + |bits|, Since(segs, |seg.codes|))
  }

  ghost predicate Grown(seg: Segment, more: Segment)
  {
    seg.codes <= more.codes && seg.runs <= more.runs
  }

  /** What is left to read from `pos` on, in the middle of segment `seg`. */
  ghost predicate RestFound(payload: seq<byte>, cs: nat, pos: nat, seg: Segment, pixels: seq<byte>, all: seq<byte>,
        more: Segment, segs: seq<Segment>)
  {
    && Grown(seg, more) && Spells(Pow2(cs), more.codes, more.runs) && AllSpell(Pow2(cs), segs)
    && HoldRest(payload, cs, pos, more, |seg.codes|, segs) && |seg.runs| <= |more.runs|
    && all == pixels + (Flat(more.runs[|seg.runs|..]) + Pixels(segs))
  }

  lemma SpellsRoom(clear: nat, seg: Segment, code: nat, w: Run)
    requires Spells(clear, seg.codes, seg.runs) && RunOf(clear, seg.runs, code) == Some(w) && code < 0x1000
    requires clear + 1 < TABLE_SIZE - 1 && (|seg.runs| > 0 ==> Avail(clear, |seg.runs|) + 1 <= TABLE_SIZE)
    ensures Spells(clear, seg.codes + [code], seg.runs + [w])
  {
    hide Spells, Sends, RunOf;
    SpelledLength(clear, seg);
    FoundIsSent(clear, seg.runs, w, code);
    SpellsMore(clear, seg, code, w);
  }

  /** Codes fit in twelve bits. */
  lemma CodeSmall(payload: seq<byte>, cs: nat, pos: nat, m: nat)
    requires 1 <= cs <= 11
    ensures Size(cs, m) == Width(cs, m) > 0
    ensures Val(payload, pos, Width(cs, m)) < Pow2(Width(cs, m)) && Val(payload, pos, Width(cs, m)) < 0x1000
    ensures At(payload, pos, Lsb(Val(payload, pos, Width(cs, m)), Width(cs, m)))
  {
    hide Val, Size, Width, Lsb, At, Pow2;
    SizeIsWidth(cs, m);
    var s := Width(cs, m);
    ValBound(payload, pos, s);
    Pow2Mono(s, 12);
    Twelve();
    LsbAt(payload, pos, Val(payload, pos, s), s);
  }

  /** Nothing more: the end code or the end of the data. */
  lemma EndFound(payload: seq<byte>, cs: nat, pos: nat, seg: Segment, pixels: seq<byte>)
    requires Spells(Pow2(cs), seg.codes, seg.runs) && Ends(payload, cs, pos, |seg.codes|)
    ensures RestFound(payload, cs, pos, seg, pixels, pixels, seg, [])
  {
    hide Spells, Lsb, Width, Val, Flat;
    NoPixels(seg.runs[|seg.runs|..]);
    assert pixels + ([] + []) == pixels;
  }

  /** A clear code, and another segment. */
  lemma ClearFound(payload: seq<byte>, cs: nat, pos: nat, seg: Segment, pixels: seq<byte>, all: seq<byte>,
        first: Segment, segs: seq<Segment>)
    requires 1 <= cs <= 11 && Spells(Pow2(cs), seg.codes, seg.runs)
    requires Val(payload, pos, Width(cs, |seg.codes|)) == Pow2(cs)
    requires RestFound(payload, cs, pos + Width(cs, |seg.codes|), Segment([], []), pixels, all, first, segs)
    ensures RestFound(payload, cs, pos, seg, pixels, all, seg, [first] + segs)
  {
    hide Spells, Lsb, Width, Val, Flat, CodeBits, At, Size, Pow2;
    var m := |seg.codes|;
    CodeSmall(payload, cs, pos, m);
    var rest := CodeBits(cs, first.codes, 0) + OpenBits(cs, segs, |first.codes|);
    AtConcat(payload, pos, Lsb(Pow2(cs), Width(cs, m)), rest);
    OpenMore(cs, first, segs, m);
    NoCodesLeft(cs, seg.codes);
    assert [] + OpenBits(cs, [first] + segs, m) == OpenBits(cs, [first] + segs, m);
    NoPixels(seg.runs[|seg.runs|..]);
    assert first.runs[0..] == first.runs;
    assert [] + Pixels([first] + segs) == Flat(first.runs) + Pixels(segs) by { assert ([first] + segs)[1..] == segs; }
    assert AllSpell(Pow2(cs), [first] + segs);
  }

  lemma OpenMore(cs: nat, first: Segment, segs: seq<Segment>, prev: nat)
    ensures OpenBits(cs, [first] + segs, prev) ==
            Lsb(Pow2(cs), Width(cs, prev)) + (CodeBits(cs, first.codes, 0) + OpenBits(cs, segs, |first.codes|))
    ensures Since([first] + segs, prev) == Since(segs, |first.codes|)
  {
    hide Lsb, Width, CodeBits;
    assert ([first] + segs)[1..] == segs;
  }

  lemma NoCodesLeft(cs: nat, codes: seq<nat>)
    ensures CodeBits(cs, codes, |codes|) == []
  {}

  /** One more code of the segment. */
  lemma CodeFound(payload: seq<byte>, cs: nat, pos: nat, seg: Segment, code: nat, w: Run, pixels: seq<byte>,
        all: seq<byte>, more: Segment, segs: seq<Segment>)
    requires 1 <= cs <= 11 && |seg.codes| == |seg.runs|
    requires Val(payload, pos, Width(cs, |seg.codes|)) == code
    requires RestFound(payload, cs, pos + Width(cs, |seg.codes|), Segment(seg.codes + [code], seg.runs + [w]),
               pixels + w, all, more, segs)
    ensures RestFound(payload, cs, pos, seg, pixels, all, more, segs)
  {
    hide Spells, AllSpell, Lsb, Width, Val, Flat, At, Size, Pow2, OpenBits, Pixels;
    var m := |seg.codes|;
    CodeSmall(payload, cs, pos, m);
    assert seg.codes + [code] <= more.codes && seg.runs + [w] <= more.runs;
    assert more.codes[m] == code && more.runs[m] == w;
    var tail := CodeBits(cs, more.codes, m + 1) + OpenBits(cs, segs, |more.codes|);
    AtConcat(payload, pos, Lsb(code, Width(cs, m)), tail);
    assert CodeBits(cs, more.codes, m) + OpenBits(cs, segs, |more.codes|) == Lsb(code, Width(cs, m)) + tail;
    FlatHead(more.runs, m);
    assert pixels + w + (Flat(more.runs[m + 1..]) + Pixels(segs))
           == pixels + (Flat(more.runs[m..]) + Pixels(segs));
  }

  lemma {:induction false} OpenFound(payload: seq<byte>, cs: nat, pos: nat, seg: Segment, pixels: seq<byte>)
      returns (more: Segment, segs: seq<Segment>)
    requires 1 <= cs <= 11 && Spells(Pow2(cs), seg.codes, seg.runs) && pos <= 8 * |payload|
    requires RefRaster(payload, cs, pos, Some(seg.runs), pixels).Finished?
    ensures RestFound(payload, cs, pos, seg, pixels, RefRaster(payload, cs, pos, Some(seg.runs), pixels).pixels, more,
              segs)
    decreases 8 * |payload| - pos
  {
    hide Spells, RestFound, RefRaster, Size, Width, Val, Pow2, RunOf, Avail;
    SpelledLength(Pow2(cs), seg);
    RasterStep(payload, cs, pos, Some(seg.runs), pixels);
    var m := |seg.codes|;
    CodeSmall(payload, cs, pos, m);
    var s, code := Width(cs, m), Val(payload, pos, Width(cs, m));
    if pos + s > 8 * |payload| || code == Pow2(cs) + 1 {
      more, segs := seg, [];
      if pos + s <= 8 * |payload| { ClearIsNotEnd(cs); }
      EndFound(payload, cs, pos, seg, pixels);
    } else if code == Pow2(cs) {
      Empty(cs);
      var first, rest := OpenFound(payload, cs, pos + s, Segment([], []), pixels);
      ClearFound(payload, cs, pos, seg, pixels, RefRaster(payload, cs, pos, Some(seg.runs), pixels).pixels, first,
        rest);
      more, segs := seg, [first] + rest;
    } else {
      var w := RunOf(Pow2(cs), seg.runs, code).value;
      ClearSmall(cs);
      SpellsRoom(Pow2(cs), seg, code, w);
      more, segs := OpenFound(payload, cs, pos + s, Segment(seg.codes + [code], seg.runs + [w]), pixels + w);
      CodeFound(payload, cs, pos, seg, code, w, pixels, RefRaster(payload, cs, pos, Some(seg.runs), pixels).pixels,
        more,
        segs);
    }
  }

  lemma ClearIsNotEnd(cs: nat)
    ensures Pow2(cs) != Pow2(cs) + 1
  {}

  lemma ClearSmall(cs: nat)
    requires cs <= 11
    ensures Pow2(cs) <= 2048
  {
    Twelve();
    Pow2Mono(cs, 11);
  }

  lemma Empty(cs: nat)
    requires cs <= 11
    ensures Spells(Pow2(cs), [], [])
  {
    ClearSmall(cs);
  }

  /** The data hold an encoding of these segments, closed by the end code or cut off before the next code. */
  ghost predicate Holds(payload: seq<byte>, cs: nat, segs: seq<Segment>)
  {
    var bits := OpenBits(cs, segs, 0);
    AllSpell(Pow2(cs), segs) && At(payload, 0, bits) && Ends(payload, cs, |bits|, Since(segs, 0))
  }

  /** Whatever the decoder accepts is some choice of codes and clear codes for exactly the pixels it gives. */
  lemma RasterFound(payload: seq<byte>, cs: nat) returns (segs: seq<Segment>)
    requires 1 <= cs <= 11 && RefRaster(payload, cs, 0, None, []).Finished?
    ensures Holds(payload, cs, segs) && RefRaster(payload, cs, 0, None, []) == Finished(Pixels(segs))
  {
    hide Spells, RefRaster, Size, Width, Val, Pow2, CodeBits, Flat, At, Lsb;
    RasterStep(payload, cs, 0, None, []);
    CodeSmall(payload, cs, 0, 0);
    var s, code := Width(cs, 0), Val(payload, 0, Width(cs, 0));
    if s > 8 * |payload| || code != Pow2(cs) {
      segs := [];
      NothingAt(payload);
    } else {
      Empty(cs);
      var first, rest := OpenFound(payload, cs, s, Segment([], []), []);
      segs := [first] + rest;
      NoPixels([]);
      assert 0 + s == s;
      ClearFound(payload, cs, 0, Segment([], []), [], RefRaster(payload, cs, s, Some([]), []).pixels, first, rest);
      StartsThere(payload, cs, RefRaster(payload, cs, s, Some([]), []).pixels, segs);
    }
  }

  lemma NothingAt(payload: seq<byte>)
    ensures At(payload, 0, [])
  {}

  lemma StartsThere(payload: seq<byte>, cs: nat, all: seq<byte>, segs: seq<Segment>)
    requires RestFound(payload, cs, 0, Segment([], []), [], all, Segment([], []), segs)
    ensures Holds(payload, cs, segs) && all == Pixels(segs)
  {
    hide Spells, AllSpell, Width, Val, Flat, At, Lsb, OpenBits, Pixels;
    NoCodesLeft(cs, []);
    assert [] + OpenBits(cs, segs, 0) == OpenBits(cs, segs, 0);
    var none: seq<Run> := [];
    NoPixels(none[0..]);
    assert [] + ([] + Pixels(segs)) == Pixels(segs);
  }
}
