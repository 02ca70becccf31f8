/** Which blocks a scan reads, and in which order (sections A.2.2 and A.2.3 of ITU-T T.81). */
module JpegOrder {
  import opened Arithmetic
  import opened JpegScan

  // ----- which blocks -----

  lemma {:induction false} RowHas(p: Part, i: nat, j: nat, y: nat, x: nat, u: Place)
    ensures Read(u) in RowEvents(p, i, j, y, x) <==>
            u.n == p.n && u.row == j * p.v + y && i * p.h <= u.col < i * p.h + x
  {
    if x > 0 { RowHas(p, i, j, y, x - 1, u); }
  }

  lemma {:induction false} PartHas(p: Part, i: nat, j: nat, y: nat, u: Place)
    ensures Read(u) in PartEvents(p, i, j, y) <==>
            u.n == p.n && j * p.v <= u.row < j * p.v + y && i * p.h <= u.col < i * p.h + p.h
  {
    hide RowEvents;
    if y > 0 {
      PartHas(p, i, j, y - 1, u);
      RowHas(p, i, j, y - 1, p.h, u);
    }
  }

  /** The share of component `q` in unit (i, j), and what row `j` of units covers of its plane. */
  predicate InShare(p: Part, i: nat, j: nat, u: Place)
  {
    u.n == p.n && j * p.v <= u.row < j * p.v + p.v && i * p.h <= u.col < i * p.h + p.h
  }

  predicate InUnitRow(p: Part, j: nat, i: nat, u: Place)
  {
    u.n == p.n && j * p.v <= u.row < j * p.v + p.v && u.col < i * p.h
  }

  predicate InPlane(p: Part, w: nat, j: nat, u: Place)
  {
    u.n == p.n && u.row < j * p.v && u.col < w * p.h
  }

  lemma {:induction false} UnitHas(parts: seq<Part>, i: nat, j: nat, k: nat, u: Place)
    requires k <= |parts|
    ensures Read(u) in UnitEvents(parts, i, j, k) <==> exists q :: 0 <= q < k && InShare(parts[q], i, j, u)
  {
    hide PartEvents, InShare;
    if k > 0 {
      UnitHas(parts, i, j, k - 1, u);
      ShareHas(parts[k - 1], i, j, u);
    }
  }

  lemma ShareHas(p: Part, i: nat, j: nat, u: Place)
    ensures Read(u) in PartEvents(p, i, j, p.v) <==> InShare(p, i, j, u)
  {
    PartHas(p, i, j, p.v, u);
  }

  lemma UnitRowSplit(parts: seq<Part>, j: nat, i: nat, u: Place)
    ensures Read(u) in UnitRow(parts, j, i) <==>
            i > 0 && (Read(u) in UnitRow(parts, j, i - 1) || Read(u) in UnitEvents(parts, i - 1, j, |parts|))
  {}

  lemma {:induction false} UnitRowHas(parts: seq<Part>, j: nat, i: nat, u: Place)
    ensures Read(u) in UnitRow(parts, j, i) <==> exists q :: 0 <= q < |parts| && InUnitRow(parts[q], j, i, u)
  {
    hide UnitEvents, InShare, InUnitRow, UnitRow;
    UnitRowSplit(parts, j, i, u);
    if i == 0 {
      forall q | 0 <= q < |parts| ensures !InUnitRow(parts[q], j, 0, u) { NoColumns(parts[q], j, u); }
    } else {
      UnitRowHas(parts, j, i - 1, u);
      UnitHas(parts, i - 1, j, |parts|, u);
      forall q | 0 <= q < |parts|
        ensures InUnitRow(parts[q], j, i, u) <==> InUnitRow(parts[q], j, i - 1, u) || InShare(parts[q], i - 1, j, u)
      {
        ColumnsStep(parts[q], j, i, u);
      }
    }
  }

  lemma NoColumns(p: Part, j: nat, u: Place)
    ensures !InUnitRow(p, j, 0, u)
  {}

  lemma ColumnsStep(p: Part, j: nat, i: nat, u: Place)
    requires i > 0
    ensures InUnitRow(p, j, i, u) <==> InUnitRow(p, j, i - 1, u) || InShare(p, i - 1, j, u)
  {
    assert i * p.h == (i - 1) * p.h + p.h;
  }

  lemma RowsStep(p: Part, w: nat, j: nat, u: Place)
    requires j > 0
    ensures InPlane(p, w, j, u) <==> InPlane(p, w, j - 1, u) || InUnitRow(p, j - 1, w, u)
    ensures !InPlane(p, w, 0, u)
  {
    assert j * p.v == (j - 1) * p.v + p.v;
  }

  /** A scan of `w` by `h` units reads exactly the blocks of the planes of its components. */
  lemma {:induction false} UnitRowsHas(parts: seq<Part>, w: nat, h: nat, u: Place)
    ensures Read(u) in UnitRows(parts, w, h) <==> exists q :: 0 <= q < |parts| && InPlane(parts[q], w, h, u)
  {
    hide UnitRow, InUnitRow;
    if h > 0 {
      hide InPlane;
      UnitRowsHas(parts, w, h - 1, u);
      UnitRowHas(parts, h - 1, w, u);
      forall q | 0 <= q < |parts|
        ensures InPlane(parts[q], w, h, u) <==> InPlane(parts[q], w, h - 1, u) || InUnitRow(parts[q], h - 1, w, u)
      {
        RowsStep(parts[q], w, h, u);
      }
    }
  }

  /** The blocks of a scan: with one component those that hold a sample of its plane of `x` by `y`, with
      several all blocks of all units. */
  predicate Covered(parts: seq<Part>, mcu_x: nat, mcu_y: nat, x: nat, y: nat, u: Place)
    requires |parts| > 0
  {
    if |parts| == 1 then u.n == parts[0].n && 8 * u.col < x && 8 * u.row < y
    else exists q :: 0 <= q < |parts| && InPlane(parts[q], mcu_x, mcu_y, u)
  }

  /** A scan reads exactly these blocks. */
  lemma {:induction false} ScanHas(parts: seq<Part>, mcu_x: nat, mcu_y: nat, x: nat, y: nat, u: Place)
    requires |parts| > 0
    ensures Read(u) in ScanEvents(parts, mcu_x, mcu_y, x, y) <==> Covered(parts, mcu_x, mcu_y, x, y, u)
  {
    hide UnitRows, InPlane;
    if |parts| == 1 {
      var one := [Part(parts[0].n, 1, 1)];
      UnitRowsHas(one, (x + 7) / 8, (y + 7) / 8, u);
      OneByOne(parts[0].n, (x + 7) / 8, (y + 7) / 8, u);
      assert one[0] == Part(parts[0].n, 1, 1);
    } else {
      UnitRowsHas(parts, mcu_x, mcu_y, u);
    }
  }

  lemma OneByOne(n: nat, w: nat, h: nat, u: Place)
    ensures InPlane(Part(n, 1, 1), w, h, u) <==> u.n == n && u.col < w && u.row < h
  {}

  // ----- in which order -----

  /** Number `k` of group `g`, the groups having `size` members each. */
  function Nth(size: nat, g: nat, k: nat): nat
  {
    g * size + k
  }

  /** Blocks of the first `k` components in one unit. */
  function Blocks(parts: seq<Part>, k: nat): (b: nat)
    requires k <= |parts|
  {
    if k == 0 then 0 else Blocks(parts, k - 1) + parts[k - 1].v * parts[k - 1].h
  }

  /** Events of a unit and of a row of `w` units. */
  function UnitSize(parts: seq<Part>): nat
  {
    Blocks(parts, |parts|) + 1
  }

  function RowSize(parts: seq<Part>, w: nat): nat
  {
    w * UnitSize(parts)
  }

  lemma {:induction false} RowAt(p: Part, i: nat, j: nat, y: nat, x: nat, n: nat)
    ensures |RowEvents(p, i, j, y, n)| == n
    ensures x < n ==> RowEvents(p, i, j, y, n)[x] == Read(Place(p.n, i * p.h + x, j * p.v + y))
  {
    if n > 0 { RowAt(p, i, j, y, x, n - 1); }
  }

  lemma {:induction false} PartAt(p: Part, i: nat, j: nat, y: nat, x: nat, n: nat)
    ensures |PartEvents(p, i, j, n)| == n * p.h
    ensures y < n && x < p.h ==>
              && y * p.h + x < n * p.h
              && PartEvents(p, i, j, n)[y * p.h + x] == Read(Place(p.n, i * p.h + x, j * p.v + y))
  {
    hide RowEvents;
    if n > 0 {
      PartAt(p, i, j, y, x, n - 1);
      RowAt(p, i, j, n - 1, x, p.h);
      assert n * p.h == (n - 1) * p.h + p.h;
    }
  }

  lemma {:induction false} UnitAt(parts: seq<Part>, i: nat, j: nat, k: nat, y: nat, x: nat, n: nat)
    requires n <= |parts|
    ensures |UnitEvents(parts, i, j, n)| == Blocks(parts, n)
    ensures k < n && y < parts[k].v && x < parts[k].h ==>
              var p := parts[k];
              && Blocks(parts, k) + (y * p.h + x) < Blocks(parts, n)
              && UnitEvents(parts, i, j, n)[Blocks(parts, k) + (y * p.h + x)]
                 == Read(Place(p.n, i * p.h + x, j * p.v + y))
  {
    hide PartEvents;
    if n > 0 {
      UnitAt(parts, i, j, k, y, x, n - 1);
      PartAt(parts[n - 1], i, j, y, x, parts[n - 1].v);
    }
  }

  ghost predicate EventAt(es: seq<Event>, k: nat, e: Event)
  {
    k < |es| && es[k] == e
  }

  /** Event `e` of unit (i, j). */
  ghost predicate UnitEventAt(parts: seq<Part>, i: nat, j: nat, e: nat, ev: Event)
  {
    EventAt(UnitEvents(parts, i, j, |parts|) + [UnitEnd], e, ev)
  }

  lemma {:induction false} UnitLength(parts: seq<Part>, i: nat, j: nat)
    ensures |UnitEvents(parts, i, j, |parts|)| + 1 == UnitSize(parts)
  {
    UnitAt(parts, i, j, 0, 0, 0, |parts|);
  }

  lemma {:induction false} UnitRowAt(parts: seq<Part>, j: nat, i: nat, e: nat, ev: Event, n: nat)
    requires UnitEventAt(parts, i, j, e, ev)
    ensures |UnitRow(parts, j, n)| == n * UnitSize(parts)
    ensures i < n ==> EventAt(UnitRow(parts, j, n), Nth(UnitSize(parts), i, e), ev)
  {
    hide UnitEvents, UnitSize;
    if n > 0 {
      UnitLength(parts, n - 1, j);
      UnitRowAt(parts, j, i, e, ev, n - 1);
      assert n * UnitSize(parts) == (n - 1) * UnitSize(parts) + UnitSize(parts);
    }
  }

  lemma {:induction false} UnitRowLength(parts: seq<Part>, j: nat, n: nat)
    ensures |UnitRow(parts, j, n)| == n * UnitSize(parts)
  {
    hide UnitEvents, UnitSize;
    if n > 0 {
      UnitLength(parts, n - 1, j);
      UnitRowLength(parts, j, n - 1);
      assert n * UnitSize(parts) == (n - 1) * UnitSize(parts) + UnitSize(parts);
    }
  }

  lemma {:induction false} UnitRowsAt(parts: seq<Part>, w: nat, j: nat, k: nat, ev: Event, n: nat)
    requires EventAt(UnitRow(parts, j, w), k, ev)
    ensures |UnitRows(parts, w, n)| == n * RowSize(parts, w)
    ensures j < n ==> EventAt(UnitRows(parts, w, n), Nth(RowSize(parts, w), j, k), ev)
  {
    hide UnitRow, UnitSize;
    if n > 0 {
      UnitRowLength(parts, n - 1, w);
      UnitRowsAt(parts, w, j, k, ev, n - 1);
      var row := RowSize(parts, w);
      hide RowSize;
      assert n * row == (n - 1) * row + row;
    }
  }

  /** Event `e` of unit (i, j) in the whole scan. */
  ghost predicate ScanEventAt(parts: seq<Part>, w: nat, h: nat, j: nat, i: nat, e: nat, ev: Event)
  {
    EventAt(UnitRows(parts, w, h), Nth(RowSize(parts, w), j, Nth(UnitSize(parts), i, e)), ev)
  }

  lemma {:induction false} ScanAt(parts: seq<Part>, w: nat, h: nat, j: nat, i: nat, e: nat, ev: Event)
    requires j < h && i < w && UnitEventAt(parts, i, j, e, ev)
    ensures ScanEventAt(parts, w, h, j, i, e, ev)
  {
    hide UnitRow, UnitRows, EventAt, UnitEventAt, Nth, RowSize, UnitSize;
    UnitRowAt(parts, j, i, e, ev, w);
    UnitRowsAt(parts, w, j, Nth(UnitSize(parts), i, e), ev, h);
  }

  /** Units follow each other row by row and from left to right; in a unit the components follow each other
      in their order, each with its blocks row by row and from left to right, and then the unit ends. */
  lemma {:induction false} ScanOrder(parts: seq<Part>, w: nat, h: nat, j: nat, i: nat, k: nat, y: nat, x: nat)
    requires j < h && i < w && k < |parts| && y < parts[k].v && x < parts[k].h
    ensures var p := parts[k];
            ScanEventAt(parts, w, h, j, i, Blocks(parts, k) + Nth(p.h, y, x),
                        Read(Place(p.n, Nth(p.h, i, x), Nth(p.v, j, y))))
    ensures ScanEventAt(parts, w, h, j, i, Blocks(parts, |parts|), UnitEnd)
  {
    hide UnitEvents, Blocks, ScanEventAt;
    var p := parts[k];
    UnitAt(parts, i, j, k, y, x, |parts|);
    ScanAt(parts, w, h, j, i, Blocks(parts, k) + Nth(p.h, y, x), Read(Place(p.n, Nth(p.h, i, x), Nth(p.v, j, y))));
    ScanAt(parts, w, h, j, i, Blocks(parts, |parts|), UnitEnd);
  }
}
