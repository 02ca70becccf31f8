/** A baseline scan: blocks in the order of its coding units, with DC predictions that start anew after
    every restart marker. The inverse DCT is left to the caller: a plane holds dequantized blocks. */
module JpegScan {
  import opened Bits
  import opened Canonical
  import opened Context
  import opened JpegHuffman
  import opened JpegTable
  import opened JpegBits
  import opened JpegBlock
  import opened JpegReader

  // ----- what a scan means -----

  /** The code tables and quantization factors of one component. */
  datatype Tables = Tables(dcLens: seq<nat>, dcValues: seq<byte>, acLens: seq<nat>, acValues: seq<byte>, deq: seq<nat>)
  {
    predicate Ok()
    {
      |dcLens| <= |dcValues| && |acLens| <= |acValues| && |deq| == BLOCK
    }
  }

  ghost predicate AllOk(tabs: seq<Tables>)
  {
    forall n {:trigger tabs[n]} :: 0 <= n < |tabs| ==> tabs[n].Ok()
  }

  /** A block of component `n`, by its place among the blocks of its plane. */
  datatype Place = Place(n: nat, col: nat, row: nat)

  /** A scan is a sequence of blocks, with a mark at the end of every coding unit. */
  datatype Event = Read(place: Place) | UnitEnd

  type Planes = map<Place, seq<int>>

  /** Between two events: where the interval starts in the file, the bits of it that were read, the
      predictions, the units that are left in the interval, and the blocks so far. */
  datatype State = State(start: nat, pos: nat, preds: seq<int>, todo: int, planes: Planes)

  /** Where a scan has got to. Nothing is said of scans whose data are cut short, that have whole bytes
      left over at the end of an interval, or that use a table which the program cannot search. */
  datatype Course = Going(st: State) | Finished(planes: Planes) | Rejected | Unsaid

  /** One block. */
  ghost function ReadBlock(file: seq<byte>, tabs: seq<Tables>, st: State, u: Place): Course
    requires AllOk(tabs)
  {
    if u.n >= |tabs| || u.n >= |st.preds| then Unsaid else
    var t, ent := tabs[u.n], Entropy(file, st.start);
    if Collides(t.dcLens) || Collides(t.acLens) then Unsaid else
    var b := RefBlock(ent, st.pos, t.dcLens, t.dcValues, t.acLens, t.acValues, t.deq, st.preds[u.n]);
    if b.pos > 8 * |ent| then Unsaid else
    match b
    case BadBlock(_) => Rejected
    case Block(p, dc, data) =>
      Going(st.(pos := p, preds := st.preds[u.n := dc], planes := st.planes[u := data]))
  }

  predicate IsRestart(code: nat)
  {
    0xd0 <= code <= 0xd7
  }

  /** Units in an interval; without restart markers, more than a scan can have. */
  function Interval(restart_interval: nat): (n: nat)
    ensures n > 0
  {
    if restart_interval > 0 then restart_interval else INT_MAX
  }

  /** The end of a unit: on to the next interval behind a restart marker, or done at any other marker. */
  ghost function EndUnit(file: seq<byte>, restart_interval: nat, st: State): Course
  {
    if st.todo > 1 then Going(st.(todo := st.todo - 1))
    else if st.pos + 8 <= 8 * |Entropy(file, st.start)| then Unsaid
    else
      match StopAt(file, st.start)
      case EndOfFile => Finished(st.planes)
      case Marker(code, next) =>
        if IsRestart(code) then Going(State(next, 0, [0, 0, 0, 0], Interval(restart_interval), st.planes))
        else Finished(st.planes)
  }

  ghost function One(file: seq<byte>, tabs: seq<Tables>, restart_interval: nat, c: Course, e: Event): Course
    requires AllOk(tabs)
  {
    if !c.Going? then c else
    match e
    case Read(u) => ReadBlock(file, tabs, c.st, u)
    case UnitEnd => EndUnit(file, restart_interval, c.st)
  }

  ghost function Run(file: seq<byte>, tabs: seq<Tables>, restart_interval: nat, c: Course, es: seq<Event>): Course
    requires AllOk(tabs)
  {
    if es == [] then c
    else One(file, tabs, restart_interval, Run(file, tabs, restart_interval, c, es[..|es| - 1]), es[|es| - 1])
  }

  lemma {:induction false} RunConcat(file: seq<byte>, tabs: seq<Tables>, restart_interval: nat, c: Course,
        a: seq<Event>, b: seq<Event>)
    requires AllOk(tabs)
    ensures Run(file, tabs, restart_interval, c, a + b)
            == Run(file, tabs, restart_interval, Run(file, tabs, restart_interval, c, a), b)
    decreases |b|
  {
    hide One;
    if b == [] {
      assert a + b == a;
    } else {
      assert (a + b)[..|a + b| - 1] == a + b[..|b| - 1];
      RunConcat(file, tabs, restart_interval, c, a, b[..|b| - 1]);
    }
  }

  lemma RunOne(file: seq<byte>, tabs: seq<Tables>, restart_interval: nat, c: Course, e: Event)
    requires AllOk(tabs)
    ensures Run(file, tabs, restart_interval, c, [e]) == One(file, tabs, restart_interval, c, e)
  {
    hide One;
    assert [e][..0] == [];
  }

  /** Once a scan has ended, nothing that is left of it matters. */
  lemma {:induction false} RunEnded(file: seq<byte>, tabs: seq<Tables>, restart_interval: nat, c: Course,
        es: seq<Event>)
    requires AllOk(tabs) && !c.Going?
    ensures Run(file, tabs, restart_interval, c, es) == c
  {
    if es != [] { RunEnded(file, tabs, restart_interval, c, es[..|es| - 1]); }
  }

  /** A prefix on which a scan ends decides it. */
  lemma RunPrefix(file: seq<byte>, tabs: seq<Tables>, restart_interval: nat, c: Course, a: seq<Event>, es: seq<Event>)
    requires AllOk(tabs) && a <= es && !Run(file, tabs, restart_interval, c, a).Going?
    ensures Run(file, tabs, restart_interval, c, es) == Run(file, tabs, restart_interval, c, a)
  {
    var b := es[|a|..];
    assert es == a + b;
    RunConcat(file, tabs, restart_interval, c, a, b);
    RunEnded(file, tabs, restart_interval, Run(file, tabs, restart_interval, c, a), b);
  }

  lemma RunMore(file: seq<byte>, tabs: seq<Tables>, restart_interval: nat, c: Course, a: seq<Event>, e: Event)
    requires AllOk(tabs)
    ensures Run(file, tabs, restart_interval, c, a + [e])
            == One(file, tabs, restart_interval, Run(file, tabs, restart_interval, c, a), e)
  {
    hide One;
    assert (a + [e])[..|a|] == a;
  }

  // ----- the order of the blocks -----

  /** What the frame says of a component of the scan. */
  datatype Part = Part(n: nat, h: nat, v: nat)

  /** The first `x` blocks of row `y` of a component's share of unit (i, j). */
  function RowEvents(p: Part, i: nat, j: nat, y: nat, x: nat): seq<Event>
  {
    if x == 0 then [] else RowEvents(p, i, j, y, x - 1) + [Read(Place(p.n, i * p.h + (x - 1), j * p.v + y))]
  }

  /** The first `y` rows of it. */
  function PartEvents(p: Part, i: nat, j: nat, y: nat): seq<Event>
  {
    if y == 0 then [] else PartEvents(p, i, j, y - 1) + RowEvents(p, i, j, y - 1, p.h)
  }

  /** The shares of the first `k` components. */
  function UnitEvents(parts: seq<Part>, i: nat, j: nat, k: nat): seq<Event>
    requires k <= |parts|
  {
    if k == 0 then [] else UnitEvents(parts, i, j, k - 1) + PartEvents(parts[k - 1], i, j, parts[k - 1].v)
  }

  /** The first `i` units of row `j`. */
  function UnitRow(parts: seq<Part>, j: nat, i: nat): seq<Event>
  {
    if i == 0 then [] else UnitRow(parts, j, i - 1) + (UnitEvents(parts, i - 1, j, |parts|) + [UnitEnd])
  }

  /** The first `j` rows of `w` units. */
  function UnitRows(parts: seq<Part>, w: nat, j: nat): seq<Event>
  {
    if j == 0 then [] else UnitRows(parts, w, j - 1) + UnitRow(parts, j - 1, w)
  }

  lemma {:induction false} RowPrefix(p: Part, i: nat, j: nat, y: nat, x: nat, n: nat)
    requires x <= n
    ensures RowEvents(p, i, j, y, x) <= RowEvents(p, i, j, y, n)
  {
    if x < n { RowPrefix(p, i, j, y, x, n - 1); }
  }

  lemma {:induction false} PartPrefix(p: Part, i: nat, j: nat, y: nat, n: nat)
    requires y <= n
    ensures PartEvents(p, i, j, y) <= PartEvents(p, i, j, n)
  {
    if y < n { PartPrefix(p, i, j, y, n - 1); }
  }

  lemma {:induction false} UnitPrefix(parts: seq<Part>, i: nat, j: nat, k: nat, n: nat)
    requires k <= n <= |parts|
    ensures UnitEvents(parts, i, j, k) <= UnitEvents(parts, i, j, n)
  {
    if k < n { UnitPrefix(parts, i, j, k, n - 1); }
  }

  lemma {:induction false} UnitRowPrefix(parts: seq<Part>, j: nat, i: nat, n: nat)
    requires i <= n
    ensures UnitRow(parts, j, i) <= UnitRow(parts, j, n)
  {
    if i < n { UnitRowPrefix(parts, j, i, n - 1); }
  }

  lemma {:induction false} UnitRowsPrefix(parts: seq<Part>, w: nat, j: nat, n: nat)
    requires j <= n
    ensures UnitRows(parts, w, j) <= UnitRows(parts, w, n)
  {
    if j < n { UnitRowsPrefix(parts, w, j, n - 1); }
  }

  // ----- the program -----

  /** The tables of one component as the program holds them. */
  datatype Coder = Coder(hdc: Huffman, hac: Huffman, fac: array<int>, dequant: seq<nat>)

  datatype Progress = Continue | Return(ok: bool)

  /** `stbi__jpeg` while it reads a scan. */
  class Scanner {
    const r: Reader
    const data: array<int>
    const coders: seq<Coder>
    const restart_interval: nat
    var todo: int
    var planes: Planes
    /** The tables of the components, which a scan does not change. */
    ghost const owned: set<object>

    constructor (reader: Reader, c: seq<Coder>, interval: nat, ghost tables: set<object>)
      requires |c| <= 4
      ensures r == reader && coders == c && restart_interval == interval && owned == tables
      ensures fresh(data) && data.Length == BLOCK
    {
      r, coders, restart_interval, owned := reader, c, interval, tables;
      data := new int[BLOCK](_ => 0);
      todo, planes := 0, map[];
    }

    ghost predicate CoderOk(c: Coder)
      reads owned
    {
      && c.hdc.Repr() + c.hac.Repr() + {c.fac} <= owned
      && c.hdc.Valid() && r.Ready(data, c.hac, c.fac, c.dequant)
    }

    ghost function TablesOf(c: Coder): (t: Tables)
      requires CoderOk(c)
      reads owned
      ensures t.Ok()
    {
      TableShape(c.hdc);
      TableShape(c.hac);
      Tables(c.hdc.lens, c.hdc.values[..], c.hac.lens, c.hac.values[..], c.dequant)
    }

    /** What the program changes is not among the tables. */
    ghost predicate Apart()
    {
      && (this as object) !in owned && (r as object) !in owned && (r.s as object) !in owned
      && (data as object) !in owned && (r.dc_pred as object) !in owned && data != r.dc_pred
      && data.Length == BLOCK && r.dc_pred.Length == 4 && |coders| <= 4
    }

    /** The coders hold these tables. */
    ghost predicate Holds(tabs: seq<Tables>)
      reads owned
    {
      && |coders| == |tabs|
      && forall n :: 0 <= n < |tabs| ==> CoderOk(coders[n]) && tabs[n] == TablesOf(coders[n])
    }

    /** The program is where the scan is. */
    ghost predicate At(st: State)
      reads this, r, r.s, r.dc_pred
    {
      && r.ent == Entropy(r.s.data, st.start) && r.stop == StopAt(r.s.data, st.start)
      && r.Pos() == st.pos && r.dc_pred[..] == st.preds && todo == st.todo && planes == st.planes
    }

    ghost predicate Tracks(c: Course)
      reads this, r, r.s, r.dc_pred
    {
      match c
      case Going(st) => At(st)
      case Unsaid => true
      case _ => false
    }

    /** What a part of the program has to report of the course of the scan. */
    ghost predicate Reports(c: Course, p: Progress)
      reads this, r, r.s, r.dc_pred
    {
      match p
      case Continue => r.Valid() && Tracks(c)
      case Return(ok) =>
        match c
        case Going(_) => false
        case Finished(pl) => ok && planes == pl
        case Rejected => !ok
        case Unsaid => true
    }

    /** A block is decoded and handed on. */
    method ParseBlock(n: nat, col: nat, row: nat, ghost tabs: seq<Tables>, ghost c: Course) returns (p: Progress)
      requires Apart() && Holds(tabs) && AllOk(tabs) && n < |coders| && r.Valid() && Tracks(c)
      modifies this`planes, r`code_buffer, r`code_bits, r`marker, r`nomore, r`fed, r.s, r.dc_pred, data
      ensures Holds(tabs)
      ensures Reports(One(r.s.data, tabs, restart_interval, c, Read(Place(n, col, row))), p)
    {
      hide RefBlock, Huffman.Valid, Reader.Valid, Entropy, StopAt, Reader.Ready, Scanner.Holds;
      var coder := coders[n];
      HoldsAt(tabs, n);
      ghost var was := r.dc_pred[..];
      var ok := r.DecodeBlock(data, coder.hdc, coder.hac, coder.fac, n, coder.dequant);
      if !ok { return Return(false); }
      assert r.dc_pred[..] == was[n := r.dc_pred[n]];
      planes := planes[Place(n, col, row) := data[..]];
      p := Continue;
    }

    lemma HoldsAt(tabs: seq<Tables>, n: nat)
      requires Holds(tabs) && n < |coders|
      ensures |coders| == |tabs| && CoderOk(coders[n]) && tabs[n] == TablesOf(coders[n])
    {}

    /** The course after some more events. */
    ghost function After(tabs: seq<Tables>, c: Course, es: seq<Event>): Course
      requires AllOk(tabs)
    {
      Run(r.s.data, tabs, restart_interval, c, es)
    }

    /** What a method that works through `es` leaves behind. */
    ghost predicate Did(tabs: seq<Tables>, c: Course, es: seq<Event>, p: Progress)
      reads owned, this, r, r.s, r.dc_pred
    {
      Apart() && Holds(tabs) && AllOk(tabs) && Reports(After(tabs, c, es), p)
    }

    /** `stbi__jpeg_reset`. */
    method Reset()
      requires Apart()
      modifies this`todo, r, r.dc_pred
      ensures r.Valid() && At(State(r.s.img_buffer, 0, [0, 0, 0, 0], Interval(restart_interval), planes))
    {
      hide Entropy, StopAt;
      r.Reset();
      todo := if restart_interval > 0 then restart_interval else INT_MAX;
    }

    /** The countdown at the end of a unit. */
    method CountDown(ghost tabs: seq<Tables>, ghost c: Course) returns (p: Progress)
      requires Did(tabs, c, [], Continue)
      modifies this, r, r.s, r.dc_pred, data
      ensures Did(tabs, c, [UnitEnd], p)
    {
      hide Entropy, StopAt, Reader.Valid, Scanner.Holds, ReadBlock;
      RunOne(r.s.data, tabs, restart_interval, c, UnitEnd);
      todo := todo - 1;
      if todo <= 0 {
        r.SeeMarker();
        if !(0xd0 <= r.marker <= 0xd7) { return Return(true); }
        Reset();
      }
      p := Continue;
    }

    /** One row of blocks of a component's share of a unit. */
    method ParseRow(part: Part, i: nat, j: nat, y: nat, ghost tabs: seq<Tables>, ghost c: Course) returns (p: Progress)
      requires Did(tabs, c, [], Continue) && part.n < |coders|
      modifies this, r, r.s, r.dc_pred, data
      ensures Did(tabs, c, RowEvents(part, i, j, y, part.h), p)
    {
      hide Entropy, StopAt, Reader.Valid, Scanner.Holds, One, Scanner.Tracks;
      var x := 0;
      while x < part.h
        invariant x <= part.h && Did(tabs, c, RowEvents(part, i, j, y, x), Continue)
      {
        ghost var es := RowEvents(part, i, j, y, x);
        RunMore(r.s.data, tabs, restart_interval, c, es, Read(Place(part.n, i * part.h + x, j * part.v + y)));
        p := ParseBlock(part.n, i * part.h + x, j * part.v + y, tabs, After(tabs, c, es));
        x := x + 1;
        if p.Return? {
          RowPrefix(part, i, j, y, x, part.h);
          Ended(tabs, c, RowEvents(part, i, j, y, x), RowEvents(part, i, j, y, part.h), p);
          return;
        }
      }
      p := Continue;
    }

    /** A part of the program that returned early has done the rest too. */
    lemma Ended(tabs: seq<Tables>, c: Course, a: seq<Event>, es: seq<Event>, p: Progress)
      requires Did(tabs, c, a, p) && p.Return? && a <= es
      ensures Did(tabs, c, es, p)
    {
      RunPrefix(r.s.data, tabs, restart_interval, c, a, es);
    }

    /** Parts of a scan one after the other. */
    lemma Onward(tabs: seq<Tables>, c: Course, a: seq<Event>, b: seq<Event>, p: Progress)
      requires AllOk(tabs) && Did(tabs, After(tabs, c, a), b, p)
      ensures Did(tabs, c, a + b, p)
    {
      RunConcat(r.s.data, tabs, restart_interval, c, a, b);
    }

    lemma Begin(tabs: seq<Tables>, c: Course, a: seq<Event>)
      requires AllOk(tabs) && Did(tabs, c, a, Continue)
      ensures Did(tabs, After(tabs, c, a), [], Continue)
    {}

    /** A component's share of a unit. */
    method ParsePart(part: Part, i: nat, j: nat, ghost tabs: seq<Tables>, ghost c: Course) returns (p: Progress)
      requires Did(tabs, c, [], Continue) && part.n < |coders|
      modifies this, r, r.s, r.dc_pred, data
      ensures Did(tabs, c, PartEvents(part, i, j, part.v), p)
    {
      hide Scanner.Did, AllOk, RowEvents;
      DidOk(tabs, c, [], Continue);
      var y := 0;
      while y < part.v
        invariant y <= part.v && Did(tabs, c, PartEvents(part, i, j, y), Continue)
      {
        ghost var es := PartEvents(part, i, j, y);
        Begin(tabs, c, es);
        p := ParseRow(part, i, j, y, tabs, After(tabs, c, es));
        Onward(tabs, c, es, RowEvents(part, i, j, y, part.h), p);
        y := y + 1;
        if p.Return? {
          PartPrefix(part, i, j, y, part.v);
          Ended(tabs, c, PartEvents(part, i, j, y), PartEvents(part, i, j, part.v), p);
          return;
        }
      }
      p := Continue;
    }

    lemma DidOk(tabs: seq<Tables>, c: Course, es: seq<Event>, p: Progress)
      requires Did(tabs, c, es, p)
      ensures AllOk(tabs)
    {}

    /** The components of a unit in their order, then its end. */
    method ParseUnit(parts: seq<Part>, i: nat, j: nat, ghost tabs: seq<Tables>, ghost c: Course) returns (p: Progress)
      requires Did(tabs, c, [], Continue) && forall k :: 0 <= k < |parts| ==> parts[k].n < |coders|
      modifies this, r, r.s, r.dc_pred, data
      ensures Did(tabs, c, UnitEvents(parts, i, j, |parts|) + [UnitEnd], p)
    {
      hide Scanner.Did, AllOk, PartEvents;
      DidOk(tabs, c, [], Continue);
      ghost var all := UnitEvents(parts, i, j, |parts|);
      var k := 0;
      while k < |parts|
        invariant k <= |parts| && Did(tabs, c, UnitEvents(parts, i, j, k), Continue)
      {
        ghost var es := UnitEvents(parts, i, j, k);
        Begin(tabs, c, es);
        p := ParsePart(parts[k], i, j, tabs, After(tabs, c, es));
        Onward(tabs, c, es, PartEvents(parts[k], i, j, parts[k].v), p);
        k := k + 1;
        if p.Return? {
          UnitPrefix(parts, i, j, k, |parts|);
          Ended(tabs, c, UnitEvents(parts, i, j, k), all + [UnitEnd], p);
          return;
        }
      }
      Begin(tabs, c, all);
      p := CountDown(tabs, After(tabs, c, all));
      Onward(tabs, c, all, [UnitEnd], p);
    }

    /** The two loops over the units of a scan. */
    method ParseUnits(parts: seq<Part>, w: nat, h: nat, ghost tabs: seq<Tables>, ghost c: Course)
          returns (p: Progress)
      requires Did(tabs, c, [], Continue) && forall k :: 0 <= k < |parts| ==> parts[k].n < |coders|
      modifies this, r, r.s, r.dc_pred, data
      ensures Did(tabs, c, UnitRows(parts, w, h), p)
    {
      hide Scanner.Did, AllOk, UnitRow;
      DidOk(tabs, c, [], Continue);
      var j := 0;
      while j < h
        invariant j <= h && Did(tabs, c, UnitRows(parts, w, j), Continue)
      {
        ghost var es := UnitRows(parts, w, j);
        Begin(tabs, c, es);
        p := ParseUnitRow(parts, w, j, tabs, After(tabs, c, es));
        Onward(tabs, c, es, UnitRow(parts, j, w), p);
        j := j + 1;
        if p.Return? {
          UnitRowsPrefix(parts, w, j, h);
          Ended(tabs, c, UnitRows(parts, w, j), UnitRows(parts, w, h), p);
          return;
        }
      }
      p := Continue;
    }

    method ParseUnitRow(parts: seq<Part>, w: nat, j: nat, ghost tabs: seq<Tables>, ghost c: Course)
          returns (p: Progress)
      requires Did(tabs, c, [], Continue) && forall k :: 0 <= k < |parts| ==> parts[k].n < |coders|
      modifies this, r, r.s, r.dc_pred, data
      ensures Did(tabs, c, UnitRow(parts, j, w), p)
    {
      hide Scanner.Did, AllOk, UnitEvents;
      DidOk(tabs, c, [], Continue);
      var i := 0;
      while i < w
        invariant i <= w && Did(tabs, c, UnitRow(parts, j, i), Continue)
      {
        ghost var es := UnitRow(parts, j, i);
        Begin(tabs, c, es);
        p := ParseUnit(parts, i, j, tabs, After(tabs, c, es));
        Onward(tabs, c, es, UnitEvents(parts, i, j, |parts|) + [UnitEnd], p);
        i := i + 1;
        if p.Return? {
          UnitRowPrefix(parts, j, i, w);
          Ended(tabs, c, UnitRow(parts, j, i), UnitRow(parts, j, w), p);
          return;
        }
      }
      p := Continue;
    }

    /** `stbi__parse_entropy_coded_data` for a baseline scan of the components `parts`, the image being
        `mcu_x` by `mcu_y` units and the plane of the first component `x` by `y` samples. */
    method ParseEntropyCodedData(parts: seq<Part>, mcu_x: nat, mcu_y: nat, x: nat, y: nat, ghost tabs: seq<Tables>)
          returns (ok: bool)
      requires Apart() && Holds(tabs) && AllOk(tabs) && |parts| > 0
      requires forall k :: 0 <= k < |parts| ==> parts[k].n < |coders|
      modifies this, r, r.s, r.dc_pred, data
      ensures var first := FirstState(old(r.s.img_buffer), restart_interval, old(planes));
              Gives(Run(r.s.data, tabs, restart_interval, Going(first), ScanEvents(parts, mcu_x, mcu_y, x, y)),
                    ok, planes)
    {
      hide Scanner.Holds, AllOk, Reader.Valid, UnitRows, Entropy, StopAt, One;
      Reset();
      ghost var c := Going(FirstState(r.s.img_buffer, restart_interval, planes));
      var p;
      if |parts| == 1 {
        p := ParseUnits([Part(parts[0].n, 1, 1)], (x + 7) / 8, (y + 7) / 8, tabs, c);
      } else {
        p := ParseUnits(parts, mcu_x, mcu_y, tabs, c);
      }
      ok := if p.Return? then p.ok else true;
    }
  }

  /** The result a course calls for. */
  ghost predicate Gives(c: Course, ok: bool, planes: Planes)
  {
    match c
    case Going(st) => ok && planes == st.planes
    case Finished(pl) => ok && planes == pl
    case Rejected => !ok
    case Unsaid => true
  }

  /** A scan starts like an interval. */
  function FirstState(start: nat, restart_interval: nat, planes: Planes): State
  {
    State(start, 0, [0, 0, 0, 0], Interval(restart_interval), planes)
  }

  /** The events of a scan: one component is scanned block by block over its own samples, several
      unit by unit over the image. */
  function ScanEvents(parts: seq<Part>, mcu_x: nat, mcu_y: nat, x: nat, y: nat): seq<Event>
    requires |parts| > 0
  {
    if |parts| == 1 then UnitRows([Part(parts[0].n, 1, 1)], (x + 7) / 8, (y + 7) / 8)
    else UnitRows(parts, mcu_x, mcu_y)
  }
}
