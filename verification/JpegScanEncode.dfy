/** Whole baseline scans from the encoder's side: coefficients become blocks, intervals, stuffed bytes
    and restart markers, and come back. */
module JpegScanEncode {
  import opened Arithmetic
  import opened Bits
  import opened BitStrings
  import opened Canonical
  import opened Context
  import opened JpegHuffman
  import opened JpegBits
  import opened JpegBlock
  import opened JpegEncode
  import opened JpegScan
  import opened JpegOrder

  // ----- bits as bytes -----

  function Ones(n: nat): (bits: seq<nat>)
    ensures |bits| == n && Binary(bits)
  {
    if n == 0 then [] else Ones(n - 1) + [1]
  }

  /** A number from its bits, most significant first. */
  function FromMsb(bits: seq<nat>): (v: nat)
    requires Binary(bits)
    ensures v < Pow2(|bits|)
  {
    if bits == [] then 0 else 2 * FromMsb(bits[..|bits| - 1]) + bits[|bits| - 1]
  }

  lemma {:induction false} FromMsbBit(bits: seq<nat>, i: nat)
    requires Binary(bits) && i < |bits|
    ensures BitOf(FromMsb(bits), |bits| - 1 - i) == bits[i]
  {
    var head := bits[..|bits| - 1];
    if i < |bits| - 1 { FromMsbBit(head, i); }
  }

  /** Bits packed from the most significant bit down, the last byte filled up with ones. */
  function MsbBytes(bits: seq<nat>): (s: seq<byte>)
    requires Binary(bits)
    ensures |bits| <= 8 * |s| < |bits| + 8
    decreases |bits|
  {
    if bits == [] then [] else
    var k := if |bits| < 8 then |bits| else 8;
    [FirstByte(bits)] + MsbBytes(bits[k..])
  }

  function FirstByte(bits: seq<nat>): (b: byte)
    requires Binary(bits)
  {
    var k := if |bits| < 8 then |bits| else 8;
    SmallPowers();
    FromMsb(bits[..k] + Ones(8 - k))
  }

  lemma FirstByteBit(bits: seq<nat>, i: nat)
    requires Binary(bits) && i < |bits| && i < 8
    ensures BitOf(FirstByte(bits), 7 - i) == bits[i]
  {
    var k := if |bits| < 8 then |bits| else 8;
    FromMsbBit(bits[..k] + Ones(8 - k), i);
  }

  lemma {:induction false} BytesWritten(bits: seq<nat>)
    requires Binary(bits)
    ensures Written(MsbBytes(bits), 0, bits)
    decreases |bits|
  {
    hide FirstByte, BitOf;
    if bits != [] {
      var k := if |bits| < 8 then |bits| else 8;
      var rest, z := bits[k..], MsbBytes(bits);
      BytesWritten(rest);
      forall i | 0 <= i < |bits| ensures MsbBit(z, 0 + i) == bits[i] {
        if i < 8 {
          FirstByteBit(bits, i);
        } else {
          LaterBits(FirstByte(bits), MsbBytes(rest), i);
          assert MsbBit(MsbBytes(rest), 0 + (i - 8)) == rest[i - 8];
        }
      }
    }
  }

  lemma LaterBits(b: byte, rest: seq<byte>, i: nat)
    requires i >= 8
    ensures MsbBit([b] + rest, i) == MsbBit(rest, i - 8)
  {
    assert i / 8 == (i - 8) / 8 + 1 && i % 8 == (i - 8) % 8;
  }

  lemma WrittenPrefix(ent: seq<byte>, bits: seq<nat>, all: seq<nat>)
    requires bits <= all && Written(ent, 0, all)
    ensures Written(ent, 0, bits)
  {
    assert all == bits + all[|bits|..];
    WrittenParts(ent, 0, bits, all[|bits|..]);
  }

  lemma {:induction false} MsbBinary(v: nat, n: nat)
    ensures Binary(Msb(v, n))
  {
    if n > 0 { MsbBinary(v / 2, n - 1); }
  }

  lemma {:induction false} AcBinary(lens: seq<nat>, values: seq<byte>, zz: seq<int>, k: nat)
    requires Encodable(lens, values, zz) && 0 < k
    ensures Binary(AcBits(lens, values, zz, k))
    decreases BLOCK - k
  {
    hide Msb, NextRs, CodeOf, Extra, Size;
    if k < BLOCK {
      var j, rs := NextNonZero(zz, k), NextRs(zz, k);
      assert Has(lens, values, rs);
      MsbBinary(CodeOf(lens, IdOf(lens, values, rs)), lens[IdOf(lens, values, rs)]);
      if j == BLOCK {
      } else if j - k >= 16 {
        AcBinary(lens, values, zz, k + 16);
      } else {
        MsbBinary(Extra(zz[j]), Size(zz[j]));
        AcBinary(lens, values, zz, j + 1);
      }
    }
  }

  // ----- scans -----

  /** Quantized coefficients in zigzag order, for every block. */
  type Image = map<Place, seq<int>>

  /** The tables have codes for the block after this prediction, and its DC value fits. */
  ghost predicate BlockOk(t: Tables, pred: int, zz: seq<int>)
  {
    && t.Ok() && Fits(t.dcLens) && Fits(t.acLens) && !Collides(t.dcLens) && !Collides(t.acLens)
    && Encodable(t.acLens, t.acValues, zz) && -SHRT_MAX <= zz[0] - pred <= SHRT_MAX
    && Has(t.dcLens, t.dcValues, Size(zz[0] - pred)) && SHRT_MIN <= zz[0] * t.deq[0] <= SHRT_MAX
  }

  ghost function BitsOf(t: Tables, pred: int, zz: seq<int>): (bits: seq<nat>)
    requires BlockOk(t, pred, zz)
  {
    BlockBits(t.dcLens, t.dcValues, t.acLens, t.acValues, zz[0] - pred, zz)
  }

  lemma BlockBinary(t: Tables, pred: int, zz: seq<int>)
    requires BlockOk(t, pred, zz)
    ensures Binary(BitsOf(t, pred, zz)) && |zz| == BLOCK
  {
    hide Msb, AcBits, Size, Extra, CodeOf;
    var rs := Size(zz[0] - pred);
    MsbBinary(CodeOf(t.dcLens, IdOf(t.dcLens, t.dcValues, rs)), t.dcLens[IdOf(t.dcLens, t.dcValues, rs)]);
    MsbBinary(Extra(zz[0] - pred), Size(zz[0] - pred));
    AcBinary(t.acLens, t.acValues, zz, 1);
  }

  /** The dequantized block, every coefficient at its place. */
  function Expected(t: Tables, zz: seq<int>): seq<int>
    requires |zz| == |t.deq| == BLOCK
  {
    Placed(zz, t.deq, 1, Zeros(BLOCK)[0 := zz[0] * t.deq[0]])
  }

  const NO_PREDS: seq<int> := [0, 0, 0, 0]

  /** A restart marker follows every `restart_interval` units, and none if that is zero (sections B.2.4.4
      and E.1.3 of ITU-T T.81). */
  predicate MarkerDue(restart_interval: nat, done: nat)
  {
    restart_interval > 0 && done % restart_interval == 0
  }

  /** The image has every block of the scan, and each can be coded after its prediction; `done` units are
      complete. The program counts units without restart markers in an `int`. */
  ghost predicate CanWrite(tabs: seq<Tables>, img: Image, restart_interval: nat, preds: seq<int>, done: nat,
        es: seq<Event>)
    decreases |es|
  {
    es == [] ||
    match es[0]
    case Read(u) =>
      && u.n < |tabs| && u.n < |preds| && u in img && BlockOk(tabs[u.n], preds[u.n], img[u])
      && CanWrite(tabs, img, restart_interval, preds[u.n := img[u][0]], done, es[1..])
    case UnitEnd =>
      && (restart_interval == 0 ==> done + 1 < INT_MAX)
      && CanWrite(tabs, img, restart_interval, if MarkerDue(restart_interval, done + 1) then NO_PREDS else preds,
                  done + 1, es[1..])
  }

  /** The bytes of the rest of a scan, `bits` being written already in the current interval and `m`
      the number of the next restart marker. */
  ghost function ScanBytes(tabs: seq<Tables>, img: Image, restart_interval: nat, preds: seq<int>, done: nat,
        bits: seq<nat>, es: seq<Event>, m: nat): seq<byte>
    requires CanWrite(tabs, img, restart_interval, preds, done, es) && Binary(bits) && m < 8
    decreases |es|
  {
    if es == [] then Stuffed(MsbBytes(bits)) else
    match es[0]
    case Read(u) =>
      BlockBinary(tabs[u.n], preds[u.n], img[u]);
      ScanBytes(tabs, img, restart_interval, preds[u.n := img[u][0]], done,
        bits + BitsOf(tabs[u.n], preds[u.n], img[u]), es[1..], m)
    case UnitEnd =>
      if es[1..] == [] then Stuffed(MsbBytes(bits))
      else if MarkerDue(restart_interval, done + 1) then
        Stuffed(MsbBytes(bits)) + [255, 0xd0 + m]
        + ScanBytes(tabs, img, restart_interval, NO_PREDS, done + 1, [], es[1..], (m + 1) % 8)
      else ScanBytes(tabs, img, restart_interval, preds, done + 1, bits, es[1..], m)
  }

  /** `bytes` are in the file at `pos`. */
  ghost predicate In(file: seq<byte>, pos: nat, bytes: seq<byte>)
  {
    pos + |bytes| <= |file| && file[pos..pos + |bytes|] == bytes
  }

  /** The file ends at `end`, or a marker follows. */
  predicate Stops(file: seq<byte>, end: nat)
  {
    end == |file| || (end + 1 < |file| && file[end] == 255 && file[end + 1] != 0 && file[end + 1] != 255)
  }

  // ----- coming back -----

  /** The planes once the blocks of the scan have been read. */
  ghost function Shown(tabs: seq<Tables>, img: Image, planes: Planes, es: seq<Event>): Planes
    decreases |es|
  {
    if es == [] then planes else
    match es[0]
    case UnitEnd => Shown(tabs, img, planes, es[1..])
    case Read(u) =>
      if u.n < |tabs| && u in img && |img[u]| == |tabs[u.n].deq| == BLOCK then
        Shown(tabs, img, planes[u := Expected(tabs[u.n], img[u])], es[1..])
      else Shown(tabs, img, planes, es[1..])
  }

  lemma BlockRead(file: seq<byte>, tabs: seq<Tables>, st: State, u: Place, img: Image)
    requires AllOk(tabs) && u.n < |tabs| && u.n < |st.preds| && u in img && BlockOk(tabs[u.n], st.preds[u.n], img[u])
    requires var bits := BitsOf(tabs[u.n], st.preds[u.n], img[u]);
             Written(Entropy(file, st.start), st.pos, bits) && st.pos + |bits| <= 8 * |Entropy(file, st.start)|
    ensures |img[u]| == |tabs[u.n].deq| == BLOCK
    ensures ReadBlock(file, tabs, st, u)
            == Going(State(st.start, st.pos + |BitsOf(tabs[u.n], st.preds[u.n], img[u])|,
                           st.preds[u.n := img[u][0]], st.todo, st.planes[u := Expected(tabs[u.n], img[u])]))
  {
    hide Written, Entropy, Encodable, Has, Fits, Collides, BlockBits, RefBlock, Placed, Zeros, Size;
    var t, pred, zz := tabs[u.n], st.preds[u.n], img[u];
    FirstSmall(t, zz);
    BlockRoundTrip(Entropy(file, st.start), st.pos, t.dcLens, t.dcValues, t.acLens, t.acValues, t.deq, pred,
      zz[0] - pred, zz);
  }

  lemma FirstSmall(t: Tables, zz: seq<int>)
    requires Encodable(t.acLens, t.acValues, zz)
    ensures |zz| == BLOCK && -SHRT_MAX <= zz[0] <= SHRT_MAX
  {}

  /** The interval that is being read: its bytes, and what stops it. */
  lemma {:induction false} CurrentInterval(file: seq<byte>, pos: nat, tabs: seq<Tables>, img: Image,
        restart_interval: nat, preds: seq<int>, done: nat, bits: seq<nat>, es: seq<Event>, m: nat)
      returns (all: seq<nat>)
    requires CanWrite(tabs, img, restart_interval, preds, done, es) && Binary(bits) && m < 8
    requires var z := ScanBytes(tabs, img, restart_interval, preds, done, bits, es, m);
             In(file, pos, z) && Stops(file, pos + |z|)
    ensures bits <= all && Binary(all) && Entropy(file, pos) == MsbBytes(all)
    decreases |es|
  {
    hide BitsOf, BlockOk, MsbBytes, Stuffed, Entropy, StopAt;
    if es == [] {
      all := bits;
      IntervalRead(file, pos, bits);
    } else {
      match es[0]
      case Read(u) =>
        BlockBinary(tabs[u.n], preds[u.n], img[u]);
        var more := bits + BitsOf(tabs[u.n], preds[u.n], img[u]);
        all := CurrentInterval(file, pos, tabs, img, restart_interval, preds[u.n := img[u][0]], done, more, es[1..], m);
        assert bits <= more;
      case UnitEnd =>
        all := bits;
        if es[1..] == [] {
          IntervalRead(file, pos, bits);
        } else if MarkerDue(restart_interval, done + 1) {
          IntervalBefore(file, pos, bits, m,
            ScanBytes(tabs, img, restart_interval, NO_PREDS, done + 1, [], es[1..], (m + 1) % 8));
        } else {
          all := CurrentInterval(file, pos, tabs, img, restart_interval, preds, done + 1, bits, es[1..], m);
        }
    }
  }

  /** An interval at the end of the scan. */
  lemma IntervalRead(file: seq<byte>, pos: nat, bits: seq<nat>)
    requires Binary(bits) && In(file, pos, Stuffed(MsbBytes(bits))) && Stops(file, pos + |Stuffed(MsbBytes(bits))|)
    ensures Entropy(file, pos) == MsbBytes(bits)
    ensures var end := pos + |Stuffed(MsbBytes(bits))|;
            StopAt(file, pos) == if end == |file| then EndOfFile else Marker(file[end + 1], end + 2)
  {
    hide MsbBytes, Stuffed, Entropy, StopAt;
    StuffingRoundTrip(file, pos, MsbBytes(bits));
  }

  /** An interval before a restart marker. */
  lemma IntervalBefore(file: seq<byte>, pos: nat, bits: seq<nat>, m: nat, rest: seq<byte>)
    requires Binary(bits) && m < 8 && In(file, pos, Stuffed(MsbBytes(bits)) + [255, 0xd0 + m] + rest)
    ensures var next := pos + |Stuffed(MsbBytes(bits))| + 2;
            Entropy(file, pos) == MsbBytes(bits) && StopAt(file, pos) == Marker(0xd0 + m, next)
            && In(file, next, rest)
  {
    hide MsbBytes, Stuffed, Entropy, StopAt;
    var z := Stuffed(MsbBytes(bits));
    var end := pos + |z|;
    var whole := z + [255, 0xd0 + m] + rest;
    assert file[pos..pos + |whole|] == whole;
    assert whole[..|z|] == z && whole[|z|] == 255 && whole[|z| + 1] == 0xd0 + m && whole[|z| + 2..] == rest;
    StuffingRoundTrip(file, pos, MsbBytes(bits));
  }

  /** The scan gave these planes. */
  ghost predicate Came(c: Course, planes: Planes)
  {
    match c
    case Going(st) => st.planes == planes
    case Finished(pl) => pl == planes
    case _ => false
  }

  lemma RunFirst(file: seq<byte>, tabs: seq<Tables>, restart_interval: nat, c: Course, es: seq<Event>)
    requires AllOk(tabs) && es != []
    ensures Run(file, tabs, restart_interval, c, es)
            == Run(file, tabs, restart_interval, One(file, tabs, restart_interval, c, es[0]), es[1..])
  {
    hide One;
    assert es == [es[0]] + es[1..];
    RunConcat(file, tabs, restart_interval, c, [es[0]], es[1..]);
    RunOne(file, tabs, restart_interval, c, es[0]);
  }

  /** The countdown after `done` units. */
  predicate Counts(restart_interval: nat, done: nat, todo: int)
  {
    todo == if restart_interval > 0 then restart_interval - done % restart_interval else INT_MAX - done
  }

  /** The countdown runs out just when a marker is due. */
  lemma CountStep(restart_interval: nat, done: nat, todo: int)
    requires Counts(restart_interval, done, todo) && (restart_interval == 0 ==> done + 1 < INT_MAX)
    ensures todo <= 1 <==> MarkerDue(restart_interval, done + 1)
    ensures if todo > 1 then Counts(restart_interval, done + 1, todo - 1)
            else Counts(restart_interval, done + 1, restart_interval)
  {
    if restart_interval > 0 { ModStep(done, restart_interval); }
  }

  lemma ModStep(a: nat, n: nat)
    requires n > 0
    ensures (a + 1) % n == if a % n == n - 1 then 0 else a % n + 1
  {
    var q, r := a / n, a % n;
    assert a == q * n + r;
    if r == n - 1 {
      assert a + 1 == (q + 1) * n;
      DivModIs(a + 1, n, q + 1, 0);
    } else {
      DivModIs(a + 1, n, q, r + 1);
    }
  }

  function Units(es: seq<Event>): nat
  {
    if es == [] then 0 else (if es[0] == UnitEnd then 1 else 0) + Units(es[1..])
  }

  /** The events end with a unit behind which a restart marker is due. */
  predicate Due(restart_interval: nat, done: nat, es: seq<Event>)
  {
    es != [] && es[|es| - 1] == UnitEnd && MarkerDue(restart_interval, done + Units(es))
  }

  lemma DueStep(restart_interval: nat, done: nat, es: seq<Event>)
    requires es != []
    ensures Due(restart_interval, done, es) ==
            if es[1..] == [] then es[0] == UnitEnd && MarkerDue(restart_interval, done + 1)
            else Due(restart_interval, done + (if es[0] == UnitEnd then 1 else 0), es[1..])
  {
    hide MarkerDue;
    if es[1..] == [] { assert Units(es[1..]) == 0; }
  }

  lemma NothingDue(restart_interval: nat, done: nat)
    ensures !Due(restart_interval, done, [])
  {}

  predicate RestartAt(file: seq<byte>, end: nat)
  {
    end + 1 < |file| && file[end] == 255 && 0xd0 <= file[end + 1] <= 0xd7
  }

  /** The planes came; where a restart marker was due and there is none, the scan has ended. */
  ghost predicate CameTo(file: seq<byte>, end: nat, due: bool, c: Course, planes: Planes)
  {
    Came(c, planes) && (due && !RestartAt(file, end) ==> c.Finished?)
  }

  /** The rest of a written scan is read back, from anywhere between two events. */
  lemma {:induction false} RestRoundTrip(file: seq<byte>, tabs: seq<Tables>, img: Image, restart_interval: nat,
        st: State, done: nat, bits: seq<nat>, es: seq<Event>, m: nat)
    requires AllOk(tabs) && CanWrite(tabs, img, restart_interval, st.preds, done, es) && Binary(bits) && m < 8
    requires var z := ScanBytes(tabs, img, restart_interval, st.preds, done, bits, es, m);
             In(file, st.start, z) && Stops(file, st.start + |z|)
    requires st.pos == |bits| && Counts(restart_interval, done, st.todo)
    ensures CameTo(file, st.start + |ScanBytes(tabs, img, restart_interval, st.preds, done, bits, es, m)|,
              Due(restart_interval, done, es), Run(file, tabs, restart_interval, Going(st), es),
              Shown(tabs, img, st.planes, es))
    decreases |es|
  {
    hide AllOk, BitsOf, BlockOk, MsbBytes, Stuffed, Entropy, StopAt, Run, ReadBlock, Expected, Written, Binary, Due,
         MarkerDue;
    if es == [] {
      NothingDue(restart_interval, done);
      RunNone(file, tabs, restart_interval, Going(st));
    } else {
      RunFirst(file, tabs, restart_interval, Going(st), es);
      DueStep(restart_interval, done, es);
      match es[0]
      case Read(u) =>
        ReadRoundTrip(file, tabs, img, restart_interval, st, done, u, bits, es, m);
      case UnitEnd =>
        CountStep(restart_interval, done, st.todo);
        if es[1..] == [] {
          LastRoundTrip(file, tabs, img, restart_interval, st, done, bits, es, m);
        } else if st.todo > 1 {
          RestRoundTrip(file, tabs, img, restart_interval, st.(todo := st.todo - 1), done + 1, bits, es[1..], m);
        } else {
          EndRoundTrip(file, tabs, img, restart_interval, st, done, bits, es, m);
        }
    }
  }

  lemma RunNone(file: seq<byte>, tabs: seq<Tables>, restart_interval: nat, c: Course)
    requires AllOk(tabs)
    ensures Run(file, tabs, restart_interval, c, []) == c
  {}

  lemma ReadRoundTrip(file: seq<byte>, tabs: seq<Tables>, img: Image, restart_interval: nat, st: State, done: nat,
        u: Place, bits: seq<nat>, es: seq<Event>, m: nat)
    requires AllOk(tabs) && CanWrite(tabs, img, restart_interval, st.preds, done, es) && Binary(bits) && m < 8
    requires var z := ScanBytes(tabs, img, restart_interval, st.preds, done, bits, es, m);
             In(file, st.start, z) && Stops(file, st.start + |z|)
    requires st.pos == |bits| && Counts(restart_interval, done, st.todo) && es != [] && es[0] == Read(u)
    ensures CameTo(file, st.start + |ScanBytes(tabs, img, restart_interval, st.preds, done, bits, es, m)|,
              Due(restart_interval, done, es),
              Run(file, tabs, restart_interval, One(file, tabs, restart_interval, Going(st), es[0]), es[1..]),
              Shown(tabs, img, st.planes, es))
    decreases |es|, 0
  {
    hide AllOk, BitsOf, BlockOk, MsbBytes, Stuffed, Entropy, StopAt, Run, ReadBlock, Expected, Written, Binary, Due,
         MarkerDue;
    DueStep(restart_interval, done, es);
    var more := bits + BitsOf(tabs[u.n], st.preds[u.n], img[u]);
    BlockBinary(tabs[u.n], st.preds[u.n], img[u]);
    BinaryJoins(bits, BitsOf(tabs[u.n], st.preds[u.n], img[u]));
    var all := CurrentInterval(file, st.start, tabs, img, restart_interval, st.preds[u.n := img[u][0]], done, more,
      es[1..], m);
    BytesWritten(all);
    WrittenPrefix(MsbBytes(all), more, all);
    WrittenParts(MsbBytes(all), 0, bits, BitsOf(tabs[u.n], st.preds[u.n], img[u]));
    BlockRead(file, tabs, st, u, img);
    RestRoundTrip(file, tabs, img, restart_interval, ReadBlock(file, tabs, st, u).st, done, more, es[1..], m);
  }

  lemma BinaryJoins(a: seq<nat>, b: seq<nat>)
    requires Binary(a) && Binary(b)
    ensures Binary(a + b)
  {}

  /** After the last unit. */
  lemma LastRoundTrip(file: seq<byte>, tabs: seq<Tables>, img: Image, restart_interval: nat, st: State, done: nat,
        bits: seq<nat>, es: seq<Event>, m: nat)
    requires AllOk(tabs) && CanWrite(tabs, img, restart_interval, st.preds, done, es) && Binary(bits) && m < 8
    requires var z := ScanBytes(tabs, img, restart_interval, st.preds, done, bits, es, m);
             In(file, st.start, z) && Stops(file, st.start + |z|)
    requires st.pos == |bits| && es != [] && es[0] == UnitEnd && es[1..] == []
    requires MarkerDue(restart_interval, done + 1) ==> st.todo <= 1
    ensures CameTo(file, st.start + |ScanBytes(tabs, img, restart_interval, st.preds, done, bits, es, m)|,
              Due(restart_interval, done, es),
              Run(file, tabs, restart_interval, One(file, tabs, restart_interval, Going(st), es[0]), es[1..]),
              Shown(tabs, img, st.planes, es))
  {
    hide AllOk, BitsOf, BlockOk, MsbBytes, Stuffed, Entropy, StopAt, Run, ReadBlock, Expected, Written, Binary, Due,
         MarkerDue;
    DueStep(restart_interval, done, es);
    IntervalRead(file, st.start, bits);
    RunNone(file, tabs, restart_interval, One(file, tabs, restart_interval, Going(st), es[0]));
  }

  /** After a unit that a restart marker follows. */
  lemma EndRoundTrip(file: seq<byte>, tabs: seq<Tables>, img: Image, restart_interval: nat, st: State, done: nat,
        bits: seq<nat>, es: seq<Event>, m: nat)
    requires AllOk(tabs) && CanWrite(tabs, img, restart_interval, st.preds, done, es) && Binary(bits) && m < 8
    requires var z := ScanBytes(tabs, img, restart_interval, st.preds, done, bits, es, m);
             In(file, st.start, z) && Stops(file, st.start + |z|)
    requires st.pos == |bits| && es != [] && es[0] == UnitEnd && es[1..] != [] && st.todo <= 1
    requires MarkerDue(restart_interval, done + 1) && Counts(restart_interval, done + 1, restart_interval)
    ensures CameTo(file, st.start + |ScanBytes(tabs, img, restart_interval, st.preds, done, bits, es, m)|,
              Due(restart_interval, done, es),
              Run(file, tabs, restart_interval, One(file, tabs, restart_interval, Going(st), es[0]), es[1..]),
              Shown(tabs, img, st.planes, es))
    decreases |es|, 0
  {
    hide AllOk, BitsOf, BlockOk, MsbBytes, Stuffed, Entropy, StopAt, Run, ReadBlock, Expected, Written, Binary, Due,
         MarkerDue;
    DueStep(restart_interval, done, es);
    NoBits();
    var rest := ScanBytes(tabs, img, restart_interval, NO_PREDS, done + 1, [], es[1..], (m + 1) % 8);
    IntervalBefore(file, st.start, bits, m, rest);
    var next := st.start + |Stuffed(MsbBytes(bits))| + 2;
    RestRoundTrip(file, tabs, img, restart_interval, State(next, 0, NO_PREDS, restart_interval, st.planes), done + 1,
      [], es[1..], (m + 1) % 8);
  }

  lemma NoBits()
    ensures Binary([])
  {}

  /** `file` holds the scan from `start` on. */
  ghost predicate HoldsScan(file: seq<byte>, start: nat, tabs: seq<Tables>, img: Image, restart_interval: nat,
        es: seq<Event>)
  {
    && AllOk(tabs) && CanWrite(tabs, img, restart_interval, NO_PREDS, 0, es)
    && var z := ScanBytes(tabs, img, restart_interval, NO_PREDS, 0, [], es, 0);
       In(file, start, z) && Stops(file, start + |z|)
  }

  /** Every scan an encoder can write, whatever its restart interval and whatever code words its tables
      have, is accepted and leaves exactly its blocks, dequantized. */
  lemma ScanRoundTrip(file: seq<byte>, start: nat, tabs: seq<Tables>, img: Image, restart_interval: nat,
        planes: Planes, es: seq<Event>, ok: bool, out: Planes)
    requires HoldsScan(file, start, tabs, img, restart_interval, es)
    requires Gives(Run(file, tabs, restart_interval, Going(FirstState(start, restart_interval, planes)), es), ok, out)
    ensures ok && out == Shown(tabs, img, planes, es)
  {
    hide Run, CanWrite, ScanBytes, Shown, AllOk;
    RestRoundTrip(file, tabs, img, restart_interval, FirstState(start, restart_interval, planes), 0, [], es, 0);
  }

  /** Where a restart marker is due and another marker or the end of the file comes instead, the scan is over: it
      is accepted with the blocks so far, and the others are not touched. */
  lemma EarlyEnd(file: seq<byte>, start: nat, tabs: seq<Tables>, img: Image, restart_interval: nat, planes: Planes,
        es: seq<Event>, more: seq<Event>, ok: bool, out: Planes)
    requires HoldsScan(file, start, tabs, img, restart_interval, es) && Due(restart_interval, 0, es)
    requires !RestartAt(file, start + |ScanBytes(tabs, img, restart_interval, NO_PREDS, 0, [], es, 0)|)
    requires Gives(Run(file, tabs, restart_interval, Going(FirstState(start, restart_interval, planes)), es + more),
                   ok, out)
    ensures ok && out == Shown(tabs, img, planes, es)
  {
    hide Run, CanWrite, ScanBytes, Shown, AllOk, Due, RestartAt;
    var first := FirstState(start, restart_interval, planes);
    RestRoundTrip(file, tabs, img, restart_interval, first, 0, [], es, 0);
    RunPrefix(file, tabs, restart_interval, Going(first), es, es + more);
  }

  // ----- all blocks of the planes -----

  /** A block that was read shows its coefficients; the others are as they were. */
  lemma {:induction false} ShownAt(tabs: seq<Tables>, img: Image, restart_interval: nat, preds: seq<int>, done: nat,
        planes: Planes, es: seq<Event>, u: Place)
    requires CanWrite(tabs, img, restart_interval, preds, done, es)
    ensures Read(u) in es ==> u.n < |tabs| && u in img && |img[u]| == |tabs[u.n].deq| == BLOCK
    ensures var r := Shown(tabs, img, planes, es);
            if Read(u) in es then u in r && r[u] == Expected(tabs[u.n], img[u])
            else (u in r <==> u in planes) && (u in r ==> r[u] == planes[u])
    decreases |es|
  {
    hide Expected, Encodable, Has, Fits, Collides;
    if es != [] {
      match es[0]
      case UnitEnd =>
        ShownAt(tabs, img, restart_interval, if MarkerDue(restart_interval, done + 1) then NO_PREDS
          else preds, done + 1,
          planes, es[1..], u);
      case Read(v) =>
        FirstSmall(tabs[v.n], img[v]);
        ShownAt(tabs, img, restart_interval, preds[v.n := img[v][0]], done,
          planes[v := Expected(tabs[v.n], img[v])], es[1..], u);
    }
  }

  /** Every block the scan covers comes back at its own place, and no other place of the planes changes. */
  lemma ImageRoundTrip(file: seq<byte>, start: nat, tabs: seq<Tables>, img: Image, restart_interval: nat,
        parts: seq<Part>, mcu_x: nat, mcu_y: nat, x: nat, y: nat, planes: Planes, ok: bool, out: Planes, u: Place)
    requires |parts| > 0
    requires HoldsScan(file, start, tabs, img, restart_interval, ScanEvents(parts, mcu_x, mcu_y, x, y))
    requires Gives(Run(file, tabs, restart_interval, Going(FirstState(start, restart_interval, planes)),
                       ScanEvents(parts, mcu_x, mcu_y, x, y)), ok, out)
    ensures ok
    ensures if Covered(parts, mcu_x, mcu_y, x, y, u) then
              && u.n < |tabs| && u in img && |img[u]| == |tabs[u.n].deq| == BLOCK
              && u in out && out[u] == Expected(tabs[u.n], img[u])
            else (u in out <==> u in planes) && (u in out ==> out[u] == planes[u])
  {
    hide Run, ScanBytes, Shown, AllOk, ScanEvents, Covered, Expected, CanWrite;
    var es := ScanEvents(parts, mcu_x, mcu_y, x, y);
    ScanRoundTrip(file, start, tabs, img, restart_interval, planes, es, ok, out);
    ShownAt(tabs, img, restart_interval, NO_PREDS, 0, planes, es, u);
    ScanHas(parts, mcu_x, mcu_y, x, y, u);
  }
}
