/** GIF raster data from the encoder's side: the greedy compressor of Appendix F of the GIF89a
    specification, sub-blocks, and the way from indices to a file and back. */
module GifEncoder {
  import opened Bits
  import opened PixelGrid
  import opened BitStrings
  import opened Canonical
  import opened Context
  import opened GifPlacement
  import opened GifCanvas
  import opened GifColors
  import opened GifLzw

  // ----- greedy compression -----

  datatype Choice = Choice(code: nat, run: Run)

  /** What entry `i` stands for when the pixels still to be sent start with `next`. */
  function EntryRun(ws: seq<Run>, i: nat, next: byte): Run
    requires i < |ws|
  {
    ws[i] + [if i + 1 < |ws| then ws[i + 1][0] else next]
  }

  /** The longest of the roots and the first `n` entries that the pixels start with. */
  function Longest(clear: nat, ws: seq<Run>, rest: seq<byte>, n: nat): (c: Choice)
    requires |rest| > 0 && n <= |ws|
    ensures c.run <= rest
  {
    if n == 0 then Choice(rest[0], rest[..1]) else
    var best := Longest(clear, ws, rest, n - 1);
    var run := EntryRun(ws, n - 1, rest[0]);
    if clear + 2 + (n - 1) < 0x1000 && run <= rest && |run| > |best.run| then Choice(clear + 2 + (n - 1), run)
    else best
  }

  /** Send the longest known run, over and over; start afresh when the table has 4096 entries. */
  function Greedy(clear: nat, rest: seq<byte>, seg: Segment): seq<Segment>
    requires clear <= 256
    decreases |rest|, |seg.runs|
  {
    if rest == [] then [seg]
    else if clear + 2 + |seg.runs| >= 0x1000 then [seg] + Greedy(clear, rest, Segment([], []))
    else
      var c := Longest(clear, seg.runs, rest, |seg.runs|);
      Greedy(clear, rest[|c.run|..], Segment(seg.codes + [c.code], seg.runs + [c.run]))
  }

  lemma {:induction false} LongestSends(clear: nat, ws: seq<Run>, rest: seq<byte>, n: nat)
    requires |rest| > 0 && n <= |ws| && rest[0] < clear <= 256
    ensures var c := Longest(clear, ws, rest, n);
            c.code < 0x1000 && Sends(clear, ws + [c.run], |ws|, c.code)
  {
    if n > 0 { LongestSends(clear, ws, rest, n - 1); }
  }

  /** No known run that fits is longer than the one sent. */
  lemma {:induction false} LongestIsLongest(clear: nat, ws: seq<Run>, rest: seq<byte>, n: nat, i: nat)
    requires |rest| > 0 && i < n <= |ws| && clear + 2 + i < 0x1000 && EntryRun(ws, i, rest[0]) <= rest
    ensures |EntryRun(ws, i, rest[0])| <= |Longest(clear, ws, rest, n).run|
  {
    if i < n - 1 { LongestIsLongest(clear, ws, rest, n - 1, i); }
  }

  lemma SpellsMore(clear: nat, seg: Segment, code: nat, run: Run)
    requires Spells(clear, seg.codes, seg.runs) && clear + |seg.runs| + 1 <= TABLE_SIZE - 1
    requires code < 0x1000 && Sends(clear, seg.runs + [run], |seg.runs|, code)
    ensures Spells(clear, seg.codes + [code], seg.runs + [run])
  {
    var codes, ws := seg.codes + [code], seg.runs + [run];
    forall m {:trigger codes[m]} | 0 <= m < |ws| ensures codes[m] < 0x1000 && Sends(clear, ws, m, codes[m]) {
      if m < |seg.runs| { assert Sends(clear, seg.runs, m, seg.codes[m]); }
    }
  }

  lemma FlatLast(ws: seq<Run>, run: Run)
    ensures Flat(ws + [run]) == Flat(ws) + run
  {
    assert (ws + [run])[..|ws + [run]| - 1] == ws;
  }

  /** Greedy compression is a legal encoding of exactly the pixels it is given. */
  lemma {:induction false} GreedySpells(clear: nat, rest: seq<byte>, seg: Segment)
    requires clear <= 256 && Spells(clear, seg.codes, seg.runs) && clear + 2 + |seg.runs| <= 0x1000
    requires forall i :: 0 <= i < |rest| ==> rest[i] < clear
    ensures AllSpell(clear, Greedy(clear, rest, seg))
    ensures Pixels(Greedy(clear, rest, seg)) == Flat(seg.runs) + rest
    decreases |rest|, |seg.runs|
  {
    hide Flat, Spells, Longest, Sends;
    if rest == [] {
      assert [seg][1..] == [];
    } else if clear + 2 + |seg.runs| >= 0x1000 {
      NothingSpelled(clear);
      GreedySpells(clear, rest, Segment([], []));
      assert ([seg] + Greedy(clear, rest, Segment([], [])))[1..] == Greedy(clear, rest, Segment([], []));
    } else {
      var c := Longest(clear, seg.runs, rest, |seg.runs|);
      LongestSends(clear, seg.runs, rest, |seg.runs|);
      SpellsMore(clear, seg, c.code, c.run);
      FlatLast(seg.runs, c.run);
      GreedySpells(clear, rest[|c.run|..], Segment(seg.codes + [c.code], seg.runs + [c.run]));
      assert Flat(seg.runs) + c.run + rest[|c.run|..] == Flat(seg.runs) + rest;
    }
  }

  lemma NothingSpelled(clear: nat)
    requires clear <= 256
    ensures Spells(clear, [], []) && Flat([]) == []
  {}

  // ----- sub-blocks -----

  /** The file has these sub-blocks at `pos`, and then an empty one. */
  ghost predicate SubBlocks(file: seq<byte>, pos: nat, blocks: seq<seq<byte>>)
    decreases |blocks|
  {
    if blocks == [] then pos < |file| && file[pos] == 0
    else
      var b := blocks[0];
      0 < |b| <= 255 && pos + 1 + |b| < |file| && file[pos] == |b| && file[pos + 1..pos + 1 + |b|] == b
      && SubBlocks(file, pos + 1 + |b|, blocks[1..])
  }

  function Joined(blocks: seq<seq<byte>>): seq<byte>
  {
    if blocks == [] then [] else blocks[0] + Joined(blocks[1..])
  }

  lemma {:induction false} BlockIs(file: seq<byte>, pos: nat, n: nat)
    requires pos + n <= |file|
    ensures Taken(file, pos, n) == file[pos..pos + n]
  {
    if n > 0 { BlockIs(file, pos, n - 1); }
  }

  lemma PayloadStep(file: seq<byte>, pos: nat)
    ensures Payload(file, pos) == if Peek(file, pos) == 0 then [] else
            Taken(file, pos + 1, Peek(file, pos)) + Payload(file, Next(file, pos + 1, Peek(file, pos)))
  {}

  /** The cut into sub-blocks does not matter. */
  lemma {:induction false} BlocksRoundTrip(file: seq<byte>, pos: nat, blocks: seq<seq<byte>>)
    requires SubBlocks(file, pos, blocks)
    ensures Payload(file, pos) == Joined(blocks)
    decreases |blocks|
  {
    hide Taken, Payload;
    PayloadStep(file, pos);
    if blocks != [] {
      var b := blocks[0];
      BlockIs(file, pos + 1, |b|);
      BlocksRoundTrip(file, pos + 1 + |b|, blocks[1..]);
    }
  }

  // ----- whole rasters -----

  /** The file has, at `pos`, a code size and sub-blocks that start with an encoding of the segments. */
  ghost predicate Encoded(file: seq<byte>, pos: nat, cs: nat, blocks: seq<seq<byte>>, segs: seq<Segment>)
  {
    && pos < |file| && file[pos] == cs && 1 <= cs <= 8 && AllSpell(Pow2(cs), segs)
    && SubBlocks(file, pos + 1, blocks)
    && At(Joined(blocks), 0, RasterBits(cs, segs, 0)) && |RasterBits(cs, segs, 0)| <= 8 * |Joined(blocks)|
  }

  /** Whatever codes the encoder chose, wherever it cleared the table and however it cut the data:
      the decoder emits the original indices. */
  lemma EncodedRoundTrip(file: seq<byte>, pos: nat, cs: nat, blocks: seq<seq<byte>>, segs: seq<Segment>)
    requires Encoded(file, pos, cs, blocks, segs)
    ensures RefRasterData(file, pos) == Finished(Pixels(segs))
  {
    hide AllSpell, At, RasterBits, RefRaster, Payload;
    BlocksRoundTrip(file, pos + 1, blocks);
    RasterRoundTrip(Joined(blocks), cs, 0, None, [], segs);
    assert [] + Pixels(segs) == Pixels(segs);
  }

  /** Every index sequence has such an encoding, the greedy one. */
  lemma GreedyRoundTrip(file: seq<byte>, pos: nat, cs: nat, blocks: seq<seq<byte>>, indices: seq<byte>)
    requires pos < |file| && file[pos] == cs && 1 <= cs <= 8 && Pow2(cs) <= 256
    requires forall i :: 0 <= i < |indices| ==> indices[i] < Pow2(cs)
    requires SubBlocks(file, pos + 1, blocks)
    requires var bits := RasterBits(cs, Greedy(Pow2(cs), indices, Segment([], [])), 0);
             At(Joined(blocks), 0, bits) && |bits| <= 8 * |Joined(blocks)|
    ensures RefRasterData(file, pos) == Finished(indices)
  {
    hide AllSpell, At, RasterBits, Greedy, SubBlocks, RefRasterData, Pow2;
    NothingSpelled(Pow2(cs));
    GreedySpells(Pow2(cs), indices, Segment([], []));
    EncodedRoundTrip(file, pos, cs, blocks, Greedy(Pow2(cs), indices, Segment([], [])));
    assert [] + indices == indices;
  }

  /** A frame whose pixels were all sent, with the colours of the table at `at` in the file: the pixel at
      column `x` and row `y` has the red, green and blue of the index that the row order of Appendix E puts
      there and is opaque, or is as it was before if that index is the transparent one. */
  lemma FrameShown(file: seq<byte>, pos: nat, cs: nat, blocks: seq<seq<byte>>, segs: seq<Segment>,
                   out: seq<byte>, before: seq<byte>, table: seq<byte>, at: nat, entries: nat, transp: int,
                   f: Frame, emitted: seq<byte>, x: nat, y: nat)
    requires Encoded(file, pos, cs, blocks, segs) && |Pixels(segs)| >= f.w * f.h
    requires RefRasterData(file, pos) == Finished(emitted)
    requires FromFile(table, file, at, entries, transp) && |table| == TABLE_BYTES
    requires f.Ok() && x < f.w && y < f.h && |out| == |before| == f.canvasW * f.canvasH * 4
    requires Drawn(out, before, table, f, emitted)
    requires forall i :: 0 <= i < |Pixels(segs)| ==> Pixels(segs)[i] < entries
    ensures var n := Index(f.w, x, RowIndex(f.h, f.interlaced, y));
            && n < |Pixels(segs)|
            && Shows(out, before, Index(f.canvasW, f.x + x, f.y + y), file, at, transp, Pixels(segs)[n])
  {
    hide Encoded, RefRasterData, Drawn, Pixels, Paint, PixelAt, RowIndex, Index, FromFile, Shows;
    var n, k := Index(f.w, x, RowIndex(f.h, f.interlaced, y)), Index(f.canvasW, f.x + x, f.y + y);
    EncodedRoundTrip(file, pos, cs, blocks, segs);
    WholeFrame(out, before, table, f, emitted, x, y);
    IndexInside(f.canvasW, f.canvasH, f.x + x, f.y + y, 4);
    PaintShows(out, before, k, table, file, at, entries, transp, Pixels(segs)[n]);
  }

  // ----- a writer -----

  /** Sub-blocks as long as they can be, and the empty one that ends them. */
  function SubBlockBytes(z: seq<byte>): seq<byte>
    decreases |z|
  {
    if z == [] then [0] else
    var k := if |z| < 255 then |z| else 255;
    [k] + z[..k] + SubBlockBytes(z[k..])
  }

  function BlocksOf(z: seq<byte>): seq<seq<byte>>
    decreases |z|
  {
    if z == [] then [] else
    var k := if |z| < 255 then |z| else 255;
    [z[..k]] + BlocksOf(z[k..])
  }

  lemma {:induction false} EndsWithin(z: seq<byte>)
    ensures |SubBlockBytes(z)| > 0
    decreases |z|
  {}

  lemma {:induction false} BlocksJoin(z: seq<byte>)
    ensures Joined(BlocksOf(z)) == z
    decreases |z|
  {
    if z != [] {
      var k := if |z| < 255 then |z| else 255;
      assert BlocksOf(z)[1..] == BlocksOf(z[k..]);
      BlocksJoin(z[k..]);
    }
  }

  lemma SubSlice(file: seq<byte>, pos: nat, n: nat, i: nat, j: nat)
    requires pos + n <= |file| && i <= j <= n
    ensures file[pos..pos + n][i..j] == file[pos + i..pos + j]
  {
    var a, b := file[pos..pos + n][i..j], file[pos + i..pos + j];
    assert |a| == |b|;
    forall k | 0 <= k < |a| ensures a[k] == b[k] { assert a[k] == file[pos + (i + k)] && b[k] == file[pos + i + k]; }
  }

  lemma {:induction false} SubBlocksWritten(file: seq<byte>, pos: nat, z: seq<byte>)
    requires pos + |SubBlockBytes(z)| <= |file| && file[pos..pos + |SubBlockBytes(z)|] == SubBlockBytes(z)
    ensures SubBlocks(file, pos, BlocksOf(z))
    decreases |z|
  {
    var all, s := file[pos..pos + |SubBlockBytes(z)|], SubBlockBytes(z);
    assert all[0] == s[0] == file[pos];
    if z != [] {
      var k := if |z| < 255 then |z| else 255;
      var tail := SubBlockBytes(z[k..]);
      EndsWithin(z[k..]);
      assert s == [k] + z[..k] + tail;
      SubSlice(file, pos, |s|, 1, 1 + k);
      SubSlice(file, pos, |s|, 1 + k, |s|);
      assert s[1..1 + k] == z[..k] && s[1 + k..] == tail;
      SubBlocksWritten(file, pos + 1 + k, z[k..]);
      assert BlocksOf(z)[1..] == BlocksOf(z[k..]);
    }
  }

  lemma {:induction false} CodesBinary(cs: nat, codes: seq<nat>, m: nat)
    requires m <= |codes|
    ensures Binary(CodeBits(cs, codes, m))
    decreases |codes| - m
  {
    hide Lsb, Width;
    if m < |codes| {
      LsbBinary(codes[m], Width(cs, m));
      CodesBinary(cs, codes, m + 1);
    }
  }

  lemma {:induction false} RasterBinary(cs: nat, segs: seq<Segment>, prev: nat)
    ensures Binary(RasterBits(cs, segs, prev))
    decreases |segs|
  {
    hide Lsb, Width, CodeBits;
    if segs == [] {
      LsbBinary(Pow2(cs) + 1, Width(cs, prev));
    } else {
      LsbBinary(Pow2(cs), Width(cs, prev));
      CodesBinary(cs, segs[0].codes, 0);
      RasterBinary(cs, segs[1..], |segs[0].codes|);
    }
  }

  /** A code size and the greedily compressed indices in sub-blocks. */
  function RasterBytes(cs: byte, indices: seq<byte>): seq<byte>
    requires Pow2(cs) <= 256
  {
    [cs] + SubBlockBytes(Packed(RasterBits(cs, Greedy(Pow2(cs), indices, Segment([], [])), 0)))
  }

  /** Writing any indices and reading them back. */
  lemma WriterRoundTrip(cs: byte, indices: seq<byte>)
    requires 1 <= cs <= 8 && Pow2(cs) <= 256 && forall i :: 0 <= i < |indices| ==> indices[i] < Pow2(cs)
    ensures RefRasterData(RasterBytes(cs, indices), 0) == Finished(indices)
  {
    hide At, RasterBits, Greedy, SubBlocks, RefRasterData, Pow2, Packed, SubBlockBytes, BlocksOf, Joined, Binary;
    var bits := RasterBits(cs, Greedy(Pow2(cs), indices, Segment([], [])), 0);
    var z, file := Packed(bits), RasterBytes(cs, indices);
    RasterBinary(cs, Greedy(Pow2(cs), indices, Segment([], [])), 0);
    PackedAt(bits);
    assert file[1..1 + |SubBlockBytes(z)|] == SubBlockBytes(z);
    SubBlocksWritten(file, 1, z);
    BlocksJoin(z);
    GreedyRoundTrip(file, 0, cs, BlocksOf(z), indices);
  }
}
