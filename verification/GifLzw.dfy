/** GIF raster data as Appendix F of the GIF89a specification describes it: codes for runs of
    pixels, a dictionary that grows with every code, and widths that grow with the dictionary. */
module GifLzw {
  import opened Bits
  import opened BitStrings
  import opened Canonical
  import opened Context

  const TABLE_SIZE := 8192

  /** The pixels a code stands for. */
  type Run = s: seq<byte> | |s| > 0 witness [0]

  // ----- sub-blocks -----

  /** The data of the sub-blocks from `pos` on; an empty sub-block or the end of the file ends them. */
  function Payload(file: seq<byte>, pos: nat): seq<byte>
    decreases if pos < |file| then |file| - pos else 0
  {
    var len := Peek(file, pos);
    if len == 0 then [] else Taken(file, pos + 1, len) + Payload(file, Next(file, pos + 1, len))
  }

  /** What is still to be read with `len` bytes of the current sub-block left. */
  function Rest(file: seq<byte>, pos: nat, len: nat): seq<byte>
  {
    Taken(file, pos, len) + Payload(file, Next(file, pos, len))
  }

  // ----- the dictionary -----

  /** The run a code stands for after the runs `ws` were read since the last clear code. Entry `i`
      is run `i` with the first pixel of the run after it; the newest entry may be used while the
      run that completes it is being read. */
  function RunOf(clear: nat, ws: seq<Run>, code: nat): Option<Run>
  {
    if code < clear then Some([code % 256])
    else if code < clear + 2 then None
    else
      var i := code - clear - 2;
      if i + 1 < |ws| then Some(ws[i] + [ws[i + 1][0]])
      else if i + 1 == |ws| then Some(ws[i] + [ws[i][0]])
      else None
  }

  /** The next free entry after `m` codes since the last clear code. */
  function Avail(clear: nat, m: nat): nat
  {
    if m == 0 then clear + 2 else clear + 1 + m
  }

  /** The width of the code read after `m` codes since the last clear code, as the program grows it. */
  function Size(cs: nat, m: nat): (s: nat)
    ensures s > 0
  {
    if m == 0 then cs + 1 else
    var s := Size(cs, m - 1);
    if Low(Avail(Pow2(cs), m), s) == 0 && Avail(Pow2(cs), m) <= 0xfff then s + 1 else s
  }

  datatype Raster = Finished(pixels: seq<byte>) | Corrupt

  /** Decode from bit `pos`. `ws` holds the runs since the last clear code, if there was one. Running
      out of data ends the raster. */
  function RefRaster(payload: seq<byte>, cs: nat, pos: nat, ws: Option<seq<Run>>, pixels: seq<byte>): Raster
    decreases 8 * |payload| - pos
  {
    var s := Size(cs, if ws.Some? then |ws.value| else 0);
    if pos + s > 8 * |payload| then Finished(pixels) else
    var clear, code := Pow2(cs), Val(payload, pos, s);
    if code == clear then RefRaster(payload, cs, pos + s, Some([]), pixels)
    else if code == clear + 1 then Finished(pixels)
    else if ws.None? then Corrupt
    else if |ws.value| > 0 && Avail(clear, |ws.value|) + 1 > TABLE_SIZE then Corrupt
    else
      match RunOf(clear, ws.value, code)
      case None => Corrupt
      case Some(w) => RefRaster(payload, cs, pos + s, Some(ws.value + [w]), pixels + w)
  }

  lemma RasterStep(payload: seq<byte>, cs: nat, pos: nat, ws: Option<seq<Run>>, pixels: seq<byte>)
    ensures RefRaster(payload, cs, pos, ws, pixels) ==
            var s := Size(cs, if ws.Some? then |ws.value| else 0);
            if pos + s > 8 * |payload| then Finished(pixels) else
            var clear, code := Pow2(cs), Val(payload, pos, s);
            if code == clear then RefRaster(payload, cs, pos + s, Some([]), pixels)
            else if code == clear + 1 then Finished(pixels)
            else if ws.None? then Corrupt
            else if |ws.value| > 0 && Avail(clear, |ws.value|) + 1 > TABLE_SIZE then Corrupt
            else
              match RunOf(clear, ws.value, code)
              case None => Corrupt
              case Some(w) => RefRaster(payload, cs, pos + s, Some(ws.value + [w]), pixels + w)
  {}

  /** The raster data of a file: a code size byte and sub-blocks. */
  function RefRasterData(file: seq<byte>, pos: nat): Raster
  {
    var cs := Peek(file, pos);
    if cs > 12 then Corrupt else RefRaster(Payload(file, Next(file, pos, 1)), cs, 0, None, [])
  }

  // ----- code widths -----

  /** The least width from `s` up in which `v` can be written, at most 12. */
  function Fit(s: nat, v: nat): nat
    decreases 12 - s
  {
    if s >= 12 || v < Pow2(s) then s else Fit(s + 1, v)
  }

  /** The width Appendix F gives the code sent after `m` codes: enough for the newest entry. */
  function Width(cs: nat, m: nat): nat
  {
    Fit(cs + 1, Pow2(cs) + 1 + m)
  }

  lemma SizeStep(cs: nat, m: nat)
    requires m > 0
    ensures var s, v := Size(cs, m - 1), Pow2(cs) + 1 + m;
            Size(cs, m) == if Low(v, s) == 0 && v <= 0xfff then s + 1 else s
  {}

  /** The program's test for growing: the newest entry is the first that does not fit. */
  lemma Grows(s: nat, v: nat)
    requires 0 < v && s <= 12 && (s == 12 || v <= Pow2(s))
    ensures Low(v, s) == 0 && v <= 0xfff <==> s < 12 && v == Pow2(s)
  {
    hide Low, Pow2;
    Twelve();
    if v < Pow2(s) {
      SmallLow(v, s);
    } else if s < 12 {
      Pow2Mono(s, 11);
      LowOfPow2(s);
    }
  }

  /** The program's widths are those of the specification. */
  lemma {:induction false} SizeIsWidth(cs: nat, m: nat)
    requires 1 <= cs <= 11
    ensures Size(cs, m) == Width(cs, m) && cs < Size(cs, m) <= 12
    ensures Size(cs, m) == 12 || Pow2(cs) + 1 + m < Pow2(Size(cs, m))
    ensures Size(cs, m) == cs + 1 || Pow2(Size(cs, m) - 1) <= Pow2(cs) + 1 + m
  {
    hide Low, Size, Fit, Pow2;
    Doubles(cs);
    if m == 0 {
      NoCodesYet(cs);
      FitIs(cs + 1, Pow2(cs) + 1, cs + 1);
    } else {
      SizeIsWidth(cs, m - 1);
      var s, v := Size(cs, m - 1), Pow2(cs) + 1 + m;
      SizeStep(cs, m);
      Grows(s, v);
      Doubles(s);
      FitIs(cs + 1, v, Size(cs, m));
    }
  }

  lemma NoCodesYet(cs: nat)
    ensures Size(cs, 0) == cs + 1
  {}

  lemma Doubles(s: nat)
    requires s > 0
    ensures Pow2(s + 1) == 2 * Pow2(s) && Pow2(s) > 1
  {
    assert Pow2(1) == 2;
    Pow2Mono(1, s);
  }

  lemma Twelve()
    ensures Pow2(12) == 4096 && Pow2(11) == 2048
  {
    SmallPowers();
    ShlShl(1, 8, 4);
    ShlShl(1, 8, 3);
  }

  lemma {:induction false} LowOfPow2(n: nat)
    ensures Low(Pow2(n), n) == 0
  {
    if n > 0 { LowOfPow2(n - 1); }
  }

  lemma {:induction false} FitIs(s: nat, v: nat, t: nat)
    requires s <= t <= 12 && (t == 12 || v < Pow2(t)) && (t == s || Pow2(t - 1) <= v)
    ensures Fit(s, v) == t
    decreases t - s
  {
    hide Pow2;
    if s < t {
      Pow2Mono(s, t - 1);
      FitIs(s + 1, v, t);
    }
  }

  /** Between two powers of two only the upper one leaves no low bits. */
  lemma GrowsLate(s: nat, v: nat)
    requires Pow2(s) < v <= Pow2(s + 1)
    ensures Low(v, s) == 0 <==> v == Pow2(s + 1)
  {
    hide Low, Pow2;
    PowerDoubles(s);
    var w := v - Pow2(s);
    LowAddPow2(w, s, s);
    if w < Pow2(s) { SmallLow(w, s); } else { LowOfPow2(s); }
  }

  lemma PowerDoubles(s: nat)
    ensures Pow2(s + 1) == 2 * Pow2(s)
  {}

  /** With minimum code size 0 the program is one bit behind. */
  lemma {:induction false} SizeZero(m: nat)
    ensures var s := Size(0, m);
            1 <= s <= 11 && Pow2(s) <= m + 2 && (s == 11 || m + 2 < Pow2(s + 1)) && Width(0, m) == s + 1
  {
    hide Low, Size, Fit;
    SmallPowers();
    Twelve();
    NoCodesYet(0);
    if m > 0 {
      SizeZero(m - 1);
      var s := Size(0, m - 1);
      SizeStep(0, m);
      PowerDoubles(s);
      PowerDoubles(s + 1);
      hide Pow2;
      if s < 11 { Pow2Mono(s + 1, 11); }
      if m + 2 <= Pow2(s + 1) { GrowsLate(s, m + 2); }
    }
    FitIs(1, m + 2, Size(0, m) + 1);
  }

  /** Of the code sizes the program accepts only 0 is read with other widths than Appendix F gives. */
  lemma SizeIsWidthIff(cs: nat, m: nat)
    requires cs <= 12
    ensures Size(cs, m) == Width(cs, m) <==> cs > 0
  {
    hide Size, Fit, Pow2;
    if cs == 0 {
      SizeZero(m);
    } else if cs == 12 {
      SizeTwelve(m);
    } else {
      SizeIsWidth(cs, m);
    }
  }

  lemma {:induction false} SizeTwelve(m: nat)
    ensures Size(12, m) == 13 == Width(12, m)
  {
    hide Low, Pow2;
    Twelve();
    if m > 0 { SizeTwelve(m - 1); }
  }

  // ----- encoding -----

  /** A code an encoder may send for run `m`: a root, or an entry it made from two earlier runs,
      the second of which may be this run itself. */
  predicate Sends(clear: nat, ws: seq<Run>, m: nat, code: nat)
    requires m < |ws|
  {
    if code < clear then ws[m] == [code % 256]
    else clear + 2 <= code < clear + 2 + m
         && ws[m] == ws[code - clear - 2] + [ws[code - clear - 1][0]]
  }

  /** Between two clear codes: these codes spell these runs, before the table overfills. */
  predicate Spells(clear: nat, codes: seq<nat>, ws: seq<Run>)
  {
    |codes| == |ws| && clear + |ws| <= TABLE_SIZE - 1
    && forall m {:trigger codes[m]} :: 0 <= m < |ws| ==> codes[m] < 0x1000 && Sends(clear, ws, m, codes[m])
  }

  /** The decoder, one entry behind, still finds the run, even when the code names the entry being made. */
  lemma SentIsFound(clear: nat, ws: seq<Run>, m: nat, code: nat)
    requires m < |ws| && Sends(clear, ws, m, code)
    ensures RunOf(clear, ws[..m], code) == Some(ws[m])
  {
    if code >= clear {
      var i := code - clear - 2;
      if i + 1 == m {
        assert ws[m][0] == (ws[i] + [ws[m][0]])[0] == ws[i][0];
      }
    }
  }

  function Flat(ws: seq<Run>): seq<byte>
  {
    if ws == [] then [] else Flat(ws[..|ws| - 1]) + ws[|ws| - 1]
  }

  /** The codes from the `m`-th on. */
  function CodeBits(cs: nat, codes: seq<nat>, m: nat): seq<nat>
    requires m <= |codes|
    decreases |codes| - m
  {
    if m == |codes| then [] else Lsb(codes[m], Width(cs, m)) + CodeBits(cs, codes, m + 1)
  }

  datatype Segment = Segment(codes: seq<nat>, runs: seq<Run>)

  /** Every segment starts with a clear code; the end code comes last. `prev` codes were sent since
      the previous clear code. */
  function RasterBits(cs: nat, segs: seq<Segment>, prev: nat): seq<nat>
  {
    if segs == [] then Lsb(Pow2(cs) + 1, Width(cs, prev))
    else Lsb(Pow2(cs), Width(cs, prev)) + (CodeBits(cs, segs[0].codes, 0) + RasterBits(cs, segs[1..], |segs[0].codes|))
  }

  function Pixels(segs: seq<Segment>): seq<byte>
  {
    if segs == [] then [] else Flat(segs[0].runs) + Pixels(segs[1..])
  }

  predicate AllSpell(clear: nat, segs: seq<Segment>)
  {
    forall i {:trigger segs[i]} :: 0 <= i < |segs| ==> Spells(clear, segs[i].codes, segs[i].runs)
  }

  /** Reading one code of a known width. */
  lemma ReadCode(payload: seq<byte>, cs: nat, pos: nat, m: nat, code: nat, more: seq<nat>)
    requires 1 <= cs <= 8 && code <= Pow2(cs) + 1 + m && code < 0x1000
    requires At(payload, pos, Lsb(code, Width(cs, m)) + more)
    ensures Size(cs, m) == Width(cs, m) && Val(payload, pos, Width(cs, m)) == code
    ensures At(payload, pos + Width(cs, m), more)
  {
    hide At, Lsb, Val, Size, Width;
    SizeIsWidth(cs, m);
    Twelve();
    var s := Width(cs, m);
    AtConcat(payload, pos, Lsb(code, s), more);
    LsbAt(payload, pos, code, s);
  }

  /** The codes of one segment are decoded to its runs. */
  lemma {:induction false} CodesRoundTrip(payload: seq<byte>, cs: nat, pos: nat, seg: Segment, m: nat,
        pixels: seq<byte>, more: seq<nat>)
    requires 1 <= cs <= 8 && Spells(Pow2(cs), seg.codes, seg.runs) && m <= |seg.runs|
    requires At(payload, pos, CodeBits(cs, seg.codes, m) + more)
    requires pos + |CodeBits(cs, seg.codes, m)| <= 8 * |payload|
    ensures var p := pos + |CodeBits(cs, seg.codes, m)|;
            At(payload, p, more)
            && RefRaster(payload, cs, pos, Some(seg.runs[..m]), pixels)
               == RefRaster(payload, cs, p, Some(seg.runs), pixels + Flat(seg.runs[m..]))
    decreases |seg.runs| - m
  {
    hide RefRaster, At, Lsb, Width, Size, RunOf, Flat, Sends, Pow2;
    var ws, codes := seg.runs, seg.codes;
    if m == |ws| {
      assert CodeBits(cs, codes, m) + more == more;
      assert ws[..m] == ws;
      NoPixels(ws[m..]);
      assert pixels + Flat(ws[m..]) == pixels;
    } else {
      var code, s := codes[m], Width(cs, m);
      assert Sends(Pow2(cs), ws, m, code);
      SentBound(Pow2(cs), ws, m, code);
      var tail := CodeBits(cs, codes, m + 1) + more;
      assert CodeBits(cs, codes, m) + more == Lsb(code, s) + tail;
      ReadCode(payload, cs, pos, m, code, tail);
      RasterStep(payload, cs, pos, Some(ws[..m]), pixels);
      SentIsFound(Pow2(cs), ws, m, code);
      assert ws[..m] + [ws[m]] == ws[..m + 1];
      CodesRoundTrip(payload, cs, pos + s, seg, m + 1, pixels + ws[m], more);
      FlatHead(ws, m);
      assert pixels + ws[m] + Flat(ws[m + 1..]) == pixels + Flat(ws[m..]);
    }
  }

  lemma SentBound(clear: nat, ws: seq<Run>, m: nat, code: nat)
    requires m < |ws| && Sends(clear, ws, m, code)
    ensures code <= clear + 1 + m && code != clear && code != clear + 1
  {}

  lemma NoPixels(ws: seq<Run>)
    requires ws == []
    ensures Flat(ws) == []
  {}

  lemma {:induction false} FlatJoin(a: seq<Run>, b: seq<Run>)
    ensures Flat(a + b) == Flat(a) + Flat(b)
    decreases |b|
  {
    if b == [] {
      assert a + b == a;
    } else {
      var c := b[..|b| - 1];
      assert (a + b)[..|a + b| - 1] == a + c;
      FlatJoin(a, c);
    }
  }

  lemma FlatHead(ws: seq<Run>, m: nat)
    requires m < |ws|
    ensures Flat(ws[m..]) == ws[m] + Flat(ws[m + 1..])
  {
    var one: seq<Run> := [ws[m]];
    assert ws[m..] == one + ws[m + 1..];
    FlatJoin(one, ws[m + 1..]);
    assert one[..0] == [];
    assert Flat(one) == Flat(one[..0]) + ws[m];
  }

  /** Pixels encoded with any choice of codes and any clear codes come back unchanged, whatever
      follows the end code. */
  lemma {:induction false} RasterRoundTrip(payload: seq<byte>, cs: nat, pos: nat, ws: Option<seq<Run>>,
        pixels: seq<byte>, segs: seq<Segment>)
    requires 1 <= cs <= 8 && AllSpell(Pow2(cs), segs)
    requires var prev := if ws.Some? then |ws.value| else 0;
             At(payload, pos, RasterBits(cs, segs, prev)) && pos + |RasterBits(cs, segs, prev)| <= 8 * |payload|
    ensures RefRaster(payload, cs, pos, ws, pixels) == Finished(pixels + Pixels(segs))
    decreases |segs|
  {
    hide RefRaster, At, Lsb, Width, Size, CodeBits, Pow2, Spells, Flat;
    var prev := if ws.Some? then |ws.value| else 0;
    RootsFit(cs);
    RasterStep(payload, cs, pos, ws, pixels);
    var s := Width(cs, prev);
    if segs == [] {
      assert RasterBits(cs, segs, prev) == Lsb(Pow2(cs) + 1, s) + [];
      ReadCode(payload, cs, pos, prev, Pow2(cs) + 1, []);
    } else {
      var seg, rest := segs[0], RasterBits(cs, segs[1..], |segs[0].codes|);
      var tail := CodeBits(cs, seg.codes, 0) + rest;
      assert RasterBits(cs, segs, prev) == Lsb(Pow2(cs), s) + tail;
      ReadCode(payload, cs, pos, prev, Pow2(cs), tail);
      assert seg.runs[..0] == [] && seg.runs[0..] == seg.runs;
      SpelledLength(Pow2(cs), seg);
      CodesRoundTrip(payload, cs, pos + s, seg, 0, pixels, rest);
      RasterRoundTrip(payload, cs, pos + s + |CodeBits(cs, seg.codes, 0)|, Some(seg.runs), pixels + Flat(seg.runs),
        segs[1..]);
      assert pixels + Flat(seg.runs) + Pixels(segs[1..]) == pixels + Pixels(segs);
    }
  }

  lemma SpelledLength(clear: nat, seg: Segment)
    requires Spells(clear, seg.codes, seg.runs)
    ensures |seg.codes| == |seg.runs|
  {}

  lemma RootsFit(cs: nat)
    requires cs <= 8
    ensures Pow2(cs) <= 256
  {
    SmallPowers();
    Pow2Mono(cs, 8);
  }
}
