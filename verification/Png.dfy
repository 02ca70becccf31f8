/** PNG scanlines: the filters of section 6 of RFC 2083 and their inverses, and how a reconstructed
    row becomes output samples. */
module Png {
  import opened Arithmetic
  import opened Bits
  import opened SizeChecks

  // ----- prediction -----

  function Abs(a: int): int
  {
    if a < 0 then -a else a
  }

  /** The Paeth predictor as section 6.6 of RFC 2083 writes it. */
  function StandardPaeth(a: int, b: int, c: int): int
  {
    var p := a + b - c;
    var pa, pb, pc := Abs(p - a), Abs(p - b), Abs(p - c);
    if pa <= pb && pa <= pc then a else if pb <= pc then b else c
  }

  /** `stbi__paeth`: the program's rewritten form. */
  function Paeth(a: int, b: int, c: int): int
  {
    var thresh := c * 3 - (a + b);
    var lo := if a < b then a else b;
    var hi := if a < b then b else a;
    var t0 := if hi <= thresh then lo else c;
    if thresh <= lo then hi else t0
  }

  /** The two predictors agree on all integers, ties included. */
  lemma PaethIsStandard(a: int, b: int, c: int)
    ensures Paeth(a, b, c) == StandardPaeth(a, b, c)
  {
    var p := a + b - c;
    assert p - a == b - c && p - b == a - c && p - c == a + b - 2 * c;
  }

  /** The standard's choice: the neighbour nearest to left + up - upper left, and of equally near ones
      the first in that order. */
  lemma PaethNearest(left: int, up: int, upLeft: int)
    ensures var p, r := left + up - upLeft, StandardPaeth(left, up, upLeft);
            && (r == left || r == up || r == upLeft)
            && Abs(p - r) <= Abs(p - left) && Abs(p - r) <= Abs(p - up) && Abs(p - r) <= Abs(p - upLeft)
            && (r == left || Abs(p - r) < Abs(p - left)) && (r == left || r == up || Abs(p - r) < Abs(p - up))
  {}

  /** What each filter type predicts from the left, upper and upper-left bytes. */
  function Predict(filter: nat, a: int, b: int, c: int): int
  {
    if filter == 1 then a
    else if filter == 2 then b
    else if filter == 3 then (a + b) / 2
    else if filter == 4 then StandardPaeth(a, b, c)
    else 0
  }

  /** Byte `k` of a row, zero to the left of it. */
  function ByteAt(row: seq<byte>, k: int): (b: byte)
    requires k < |row|
  {
    if k < 0 then 0 else row[k]
  }

  /** The filtered form of a row, as an encoder writes it. */
  function Filtered(filter: nat, bpp: nat, prior: seq<byte>, row: seq<byte>): (r: seq<byte>)
    requires bpp > 0 && |prior| == |row|
    ensures |r| == |row|
  {
    seq(|row|, k requires 0 <= k < |row| =>
      FilterByte(filter, row[k], ByteAt(row, k - bpp), prior[k], ByteAt(prior, k - bpp)))
  }

  /** Sub, Up, Average and Paeth of section 6 of RFC 2083, modulo 256. */
  function FilterByte(filter: nat, x: byte, left: byte, up: byte, upLeft: byte): (r: byte)
  {
    if filter == 1 then (x - left as int) % 256
    else if filter == 2 then (x - up as int) % 256
    else if filter == 3 then (x - (left + up as int) / 2) % 256
    else if filter == 4 then (x - StandardPaeth(left, up, upLeft)) % 256
    else x
  }

  function UnfilterByte(filter: nat, x: int, a: int, b: int, c: int): (r: byte)
  {
    (x + Predict(filter, a, b, c)) % 256
  }

  /** The first `n` bytes of the row a filtered row stands for. */
  function Recon(filter: nat, bpp: nat, prior: seq<byte>, raw: seq<byte>, n: nat): (r: seq<byte>)
    requires bpp > 0 && n <= |raw| <= |prior|
    ensures |r| == n
  {
    if n == 0 then [] else
    var r := Recon(filter, bpp, prior, raw, n - 1);
    r + [UnfilterByte(filter, raw[n - 1], ByteAt(r, n - 1 - bpp), prior[n - 1], ByteAt(prior, n - 1 - bpp))]
  }

  lemma FilterSubtracts(filter: nat, x: byte, a: byte, b: byte, c: byte)
    ensures FilterByte(filter, x, a, b, c) == (x - Predict(filter, a, b, c)) % 256
  {}

  lemma ByteRoundTrip(filter: nat, x: byte, a: byte, b: byte, c: byte)
    ensures UnfilterByte(filter, FilterByte(filter, x, a, b, c), a, b, c) == x
  {
    hide Predict, FilterByte;
    FilterSubtracts(filter, x, a, b, c);
    var p := Predict(filter, a, b, c);
    var q := (x - p) / 256;
    assert x - p == 256 * q + FilterByte(filter, x, a, b, c);
    assert FilterByte(filter, x, a, b, c) + p == x - 256 * q;
  }

  /** Reconstruction inverts every filter type, for any row, previous row and pixel size. */
  lemma {:induction false} ReconInverts(filter: nat, bpp: nat, prior: seq<byte>, row: seq<byte>, n: nat)
    requires bpp > 0 && |prior| == |row| && n <= |row|
    ensures Recon(filter, bpp, prior, Filtered(filter, bpp, prior, row), n) == row[..n]
  {
    hide Predict, FilterByte, UnfilterByte;
    if n > 0 {
      ReconInverts(filter, bpp, prior, row, n - 1);
      var k := n - 1;
      assert ByteAt(row[..k], k - bpp) == ByteAt(row, k - bpp);
      ByteRoundTrip(filter, row[k], ByteAt(row, k - bpp), prior[k], ByteAt(prior, k - bpp));
      assert row[..n] == row[..k] + [row[k]];
    }
  }

  lemma LeftBytes(row: seq<byte>, prior: seq<byte>, k: nat, bpp: nat)
    requires k < |row| == |prior|
    ensures ByteAt(row, k - bpp) == (if k < bpp then 0 else row[k - bpp])
    ensures ByteAt(prior, k - bpp) == (if k < bpp then 0 else prior[k - bpp])
  {}

  lemma FilteredAt(filter: nat, bpp: nat, prior: seq<byte>, row: seq<byte>, k: nat)
    requires bpp > 0 && k < |row| == |prior|
    ensures Filtered(filter, bpp, prior, row)[k] ==
            FilterByte(filter, row[k], ByteAt(row, k - bpp), prior[k], ByteAt(prior, k - bpp))
  {}

  /** Each filter type undone byte by byte, in the standard's own words. */
  lemma NoneUndone(bpp: nat, prior: seq<byte>, row: seq<byte>, raw: seq<byte>, n: nat)
    requires bpp > 0 && |prior| == |row| == |raw| && n <= |row|
    requires forall k {:trigger raw[k]} :: 0 <= k < |row| ==> raw[k] == row[k]
    ensures Recon(0, bpp, prior, raw, n) == row[..n]
  {
    assert raw == Filtered(0, bpp, prior, row);
    ReconInverts(0, bpp, prior, row, n);
  }

  lemma SubUndone(bpp: nat, prior: seq<byte>, row: seq<byte>, raw: seq<byte>, n: nat)
    requires bpp > 0 && |prior| == |row| == |raw| && n <= |row|
    requires forall k {:trigger raw[k]} :: 0 <= k < |row| ==>
             raw[k] == (row[k] - (if k < bpp then 0 else row[k - bpp] as int)) % 256
    ensures Recon(1, bpp, prior, raw, n) == row[..n]
  {
    forall k | 0 <= k < |row| ensures raw[k] == Filtered(1, bpp, prior, row)[k] {
      LeftBytes(row, prior, k, bpp);
      FilteredAt(1, bpp, prior, row, k);
    }
    assert raw == Filtered(1, bpp, prior, row);
    ReconInverts(1, bpp, prior, row, n);
  }

  lemma UpUndone(bpp: nat, prior: seq<byte>, row: seq<byte>, raw: seq<byte>, n: nat)
    requires bpp > 0 && |prior| == |row| == |raw| && n <= |row|
    requires forall k {:trigger raw[k]} :: 0 <= k < |row| ==> raw[k] == (row[k] - prior[k] as int) % 256
    ensures Recon(2, bpp, prior, raw, n) == row[..n]
  {
    assert raw == Filtered(2, bpp, prior, row);
    ReconInverts(2, bpp, prior, row, n);
  }

  lemma AverageUndone(bpp: nat, prior: seq<byte>, row: seq<byte>, raw: seq<byte>, n: nat)
    requires bpp > 0 && |prior| == |row| == |raw| && n <= |row|
    requires forall k {:trigger raw[k]} :: 0 <= k < |row| ==>
               raw[k] == (row[k] - ((if k < bpp then 0 else row[k - bpp] as int) + prior[k]) / 2) % 256
    ensures Recon(3, bpp, prior, raw, n) == row[..n]
  {
    forall k | 0 <= k < |row| ensures raw[k] == Filtered(3, bpp, prior, row)[k] {
      LeftBytes(row, prior, k, bpp);
      FilteredAt(3, bpp, prior, row, k);
    }
    assert raw == Filtered(3, bpp, prior, row);
    ReconInverts(3, bpp, prior, row, n);
  }

  lemma PaethUndone(bpp: nat, prior: seq<byte>, row: seq<byte>, raw: seq<byte>, n: nat)
    requires bpp > 0 && |prior| == |row| == |raw| && n <= |row|
    requires forall k {:trigger raw[k]} :: 0 <= k < |row| ==>
               raw[k] == (row[k] - if k < bpp then StandardPaeth(0, prior[k], 0)
                                   else StandardPaeth(row[k - bpp], prior[k], prior[k - bpp])) % 256
    ensures Recon(4, bpp, prior, raw, n) == row[..n]
  {
    hide StandardPaeth;
    forall k | 0 <= k < |row| ensures raw[k] == Filtered(4, bpp, prior, row)[k] {
      LeftBytes(row, prior, k, bpp);
      FilteredAt(4, bpp, prior, row, k);
    }
    assert raw == Filtered(4, bpp, prior, row);
    ReconInverts(4, bpp, prior, row, n);
  }

  function Zeros(n: nat): (r: seq<byte>)
    ensures |r| == n && forall i :: 0 <= i < n ==> r[i] == 0
  {
    if n == 0 then [] else Zeros(n - 1) + [0]
  }

  // ----- whole images -----

  /** Filtered row `j` starts here: each earlier row has a filter byte and `w` bytes. */
  function RowStart(w: nat, j: nat): nat
  {
    if j == 0 then 0 else RowStart(w, j - 1) + 1 + w
  }

  lemma {:induction false} RowStartMono(w: nat, i: nat, j: nat)
    requires i <= j
    ensures RowStart(w, i) + (j - i) <= RowStart(w, j)
  {
    if i < j { RowStartMono(w, i, j - 1); }
  }

  /** Row `j` of the filtered image `raw`, reconstructed; the row above the first is zero. */
  function ReconRow(raw: seq<byte>, w: nat, bpp: nat, j: nat): (r: seq<byte>)
    requires bpp > 0 && RowStart(w, j + 1) <= |raw|
    ensures |r| == w
  {
    var prior := if j == 0 then Zeros(w) else ReconRow(raw, w, bpp, j - 1);
    var s := RowStart(w, j);
    Recon(raw[s], bpp, prior, raw[s + 1..s + 1 + w], w)
  }

  /** An encoder's filtered form of `rows`, with a filter chosen for every row. */
  function FilteredRows(rows: seq<seq<byte>>, filters: seq<nat>, w: nat, bpp: nat, n: nat): (r: seq<byte>)
    requires bpp > 0 && n <= |rows| == |filters|
    requires forall i :: 0 <= i < |rows| ==> |rows[i]| == w && filters[i] <= 4
    ensures |r| == RowStart(w, n)
  {
    if n == 0 then [] else
    FilteredRows(rows, filters, w, bpp, n - 1) + [filters[n - 1]]
    + Filtered(filters[n - 1], bpp, if n == 1 then Zeros(w) else rows[n - 2], rows[n - 1])
  }

  /** Row `j`'s filter byte and filtered bytes sit at its start, whatever follows. */
  lemma {:induction false} FilteredRowAt(rows: seq<seq<byte>>, filters: seq<nat>, w: nat, bpp: nat, n: nat, j: nat)
    requires bpp > 0 && n <= |rows| == |filters| && j < n
    requires forall i :: 0 <= i < |rows| ==> |rows[i]| == w && filters[i] <= 4
    ensures var f, s := FilteredRows(rows, filters, w, bpp, n), RowStart(w, j);
      s + 1 + w <= |f| && f[s] == filters[j]
      && f[s + 1..s + 1 + w] == Filtered(filters[j], bpp, if j == 0 then Zeros(w) else rows[j - 1], rows[j])
  {
    hide Filtered;
    var f := FilteredRows(rows, filters, w, bpp, n);
    if j < n - 1 {
      FilteredRowAt(rows, filters, w, bpp, n - 1, j);
      var g := FilteredRows(rows, filters, w, bpp, n - 1);
      assert f[..|g|] == g;
      var s := RowStart(w, j);
      assert f[s + 1..s + 1 + w] == g[s + 1..s + 1 + w];
    }
  }

  /** Unfiltering inverts filtering: every row comes back, for any filter choice per row. */
  lemma {:induction false} RowsRoundTrip(rows: seq<seq<byte>>, filters: seq<nat>, w: nat, bpp: nat, raw: seq<byte>,
        j: nat)
    requires bpp > 0 && j < |rows| == |filters|
    requires forall i :: 0 <= i < |rows| ==> |rows[i]| == w && filters[i] <= 4
    requires FilteredRows(rows, filters, w, bpp, |rows|) <= raw
    ensures RowStart(w, j + 1) <= |raw|
    ensures ReconRow(raw, w, bpp, j) == rows[j]
  {
    hide Filtered, Recon, FilteredRows;
    var f := FilteredRows(rows, filters, w, bpp, |rows|);
    FilteredRowAt(rows, filters, w, bpp, |rows|, j);
    var s := RowStart(w, j);
    assert RowStart(w, j + 1) == s + 1 + w;
    assert raw[s] == f[s];
    assert raw[s + 1..s + 1 + w] == f[s + 1..s + 1 + w];
    if j > 0 { RowsRoundTrip(rows, filters, w, bpp, raw, j - 1); }
    var prior := if j == 0 then Zeros(w) else rows[j - 1];
    ReconInverts(filters[j], bpp, prior, rows[j], w);
    assert rows[j][..w] == rows[j];
  }

  lemma ByteFound(filter: nat, x: byte, a: byte, b: byte, c: byte)
    ensures FilterByte(filter, UnfilterByte(filter, x, a, b, c), a, b, c) == x
  {
    hide Predict, FilterByte;
    FilterSubtracts(filter, UnfilterByte(filter, x, a, b, c), a, b, c);
    var p := Predict(filter, a, b, c);
    var q := (x + p) / 256;
    assert x + p == 256 * q + UnfilterByte(filter, x, a, b, c);
    assert UnfilterByte(filter, x, a, b, c) - p == x - 256 * q;
  }

  lemma {:induction false} ReconPrefix(filter: nat, bpp: nat, prior: seq<byte>, raw: seq<byte>, m: nat, n: nat)
    requires bpp > 0 && m <= n <= |raw| <= |prior|
    ensures Recon(filter, bpp, prior, raw, m) == Recon(filter, bpp, prior, raw, n)[..m]
  {
    hide UnfilterByte;
    if m < n { ReconPrefix(filter, bpp, prior, raw, m, n - 1); }
  }

  /** Whatever a filtered row holds, it is the filtered form of the row it stands for. */
  lemma ReconFound(filter: nat, bpp: nat, prior: seq<byte>, raw: seq<byte>)
    requires bpp > 0 && |prior| == |raw|
    ensures Filtered(filter, bpp, prior, Recon(filter, bpp, prior, raw, |raw|)) == raw
  {
    hide Predict, FilterByte, UnfilterByte, Recon;
    var r := Recon(filter, bpp, prior, raw, |raw|);
    forall k: nat | k < |raw| ensures Filtered(filter, bpp, prior, r)[k] == raw[k] {
      FilteredAt(filter, bpp, prior, r, k);
      ReconAt(filter, bpp, prior, raw, k);
      ByteFound(filter, raw[k], ByteAt(r, k - bpp), prior[k], ByteAt(prior, k - bpp));
    }
  }

  lemma ReconAt(filter: nat, bpp: nat, prior: seq<byte>, raw: seq<byte>, k: nat)
    requires bpp > 0 && k < |raw| == |prior|
    ensures var r := Recon(filter, bpp, prior, raw, |raw|);
            r[k] == UnfilterByte(filter, raw[k], ByteAt(r, k - bpp), prior[k], ByteAt(prior, k - bpp))
  {
    hide UnfilterByte;
    ReconPrefix(filter, bpp, prior, raw, k, |raw|);
    ReconPrefix(filter, bpp, prior, raw, k + 1, |raw|);
    var r := Recon(filter, bpp, prior, raw, |raw|);
    assert r[k] == r[..k + 1][k];
  }

  ghost predicate RowsFit(rows: seq<seq<byte>>, filters: seq<nat>, w: nat)
  {
    |rows| == |filters| && forall i {:trigger rows[i]} :: 0 <= i < |rows| ==> |rows[i]| == w && filters[i] <= 4
  }

  lemma RowsFitAt(rows: seq<seq<byte>>, filters: seq<nat>, w: nat)
    requires RowsFit(rows, filters, w)
    ensures |rows| == |filters| && forall i :: 0 <= i < |rows| ==> |rows[i]| == w && filters[i] <= 4
  {
    assert forall i :: 0 <= i < |rows| ==> |rows[i]| == w && filters[i] <= 4;
  }

  ghost function AllFiltered(rows: seq<seq<byte>>, filters: seq<nat>, w: nat, bpp: nat): seq<byte>
    requires bpp > 0 && RowsFit(rows, filters, w)
  {
    RowsFitAt(rows, filters, w);
    FilteredRows(rows, filters, w, bpp, |rows|)
  }

  lemma {:induction false} FilteredRowsMore(rows: seq<seq<byte>>, filters: seq<nat>, row: seq<byte>, filter: nat,
        w: nat, bpp: nat, n: nat)
    requires bpp > 0 && n <= |rows| == |filters| && |row| == w && filter <= 4
    requires forall i :: 0 <= i < |rows| ==> |rows[i]| == w && filters[i] <= 4
    ensures FilteredRows(rows + [row], filters + [filter], w, bpp, n) == FilteredRows(rows, filters, w, bpp, n)
  {
    hide Filtered;
    if n > 0 { FilteredRowsMore(rows, filters, row, filter, w, bpp, n - 1); }
  }

  lemma AllFilteredMore(rows: seq<seq<byte>>, filters: seq<nat>, row: seq<byte>, filter: nat, w: nat, bpp: nat)
    requires bpp > 0 && RowsFit(rows, filters, w) && |row| == w && filter <= 4
    ensures RowsFit(rows + [row], filters + [filter], w)
    ensures AllFiltered(rows + [row], filters + [filter], w, bpp) == AllFiltered(rows, filters, w, bpp) + [filter]
            + Filtered(filter, bpp, if rows == [] then Zeros(w) else rows[|rows| - 1], row)
  {
    hide Filtered;
    RowsFitAt(rows, filters, w);
    FilteredRowsMore(rows, filters, row, filter, w, bpp, |rows|);
  }

  /** The rows are those the first `n` filtered rows stand for, and these are their filtered form. */
  ghost predicate Found(raw: seq<byte>, w: nat, bpp: nat, n: nat, rows: seq<seq<byte>>, filters: seq<nat>)
    requires bpp > 0
  {
    && |rows| == n && RowsFit(rows, filters, w) && RowStart(w, n) <= |raw|
    && AllFiltered(rows, filters, w, bpp) == raw[..RowStart(w, n)]
    && forall i: nat :: i < n ==> StandsFor(raw, w, bpp, i, rows[i])
  }

  ghost predicate StandsFor(raw: seq<byte>, w: nat, bpp: nat, i: nat, row: seq<byte>)
    requires bpp > 0
  {
    RowStart(w, i + 1) <= |raw| && row == ReconRow(raw, w, bpp, i)
  }

  /** Data with known filter types are always the filtered form of the rows they stand for. */
  lemma {:induction false} RowsFound(raw: seq<byte>, w: nat, bpp: nat, n: nat)
      returns (rows: seq<seq<byte>>, filters: seq<nat>)
    requires bpp > 0 && RowStart(w, n) <= |raw| && FiltersOk(raw, w, n)
    ensures Found(raw, w, bpp, n, rows, filters)
  {
    hide AllFiltered, ReconRow;
    if n == 0 {
      rows, filters := [], [];
      NoneFiltered(w, bpp);
    } else {
      RowStartMono(w, n - 1, n);
      var rs, fs := RowsFound(raw, w, bpp, n - 1);
      rows, filters := rs + [ReconRow(raw, w, bpp, n - 1)], fs + [raw[RowStart(w, n - 1)]];
      FoundMore(raw, w, bpp, n, rs, fs);
    }
  }

  lemma NoneFiltered(w: nat, bpp: nat)
    requires bpp > 0
    ensures AllFiltered([], [], w, bpp) == []
  {}

  lemma RowIs(raw: seq<byte>, w: nat, bpp: nat, j: nat)
    requires bpp > 0 && RowStart(w, j + 1) <= |raw|
    ensures RowStart(w, j + 1) == RowStart(w, j) + 1 + w
    ensures ReconRow(raw, w, bpp, j) ==
            var s := RowStart(w, j);
            Recon(raw[s], bpp, if j == 0 then Zeros(w) else ReconRow(raw, w, bpp, j - 1), raw[s + 1..s + 1 + w], w)
  {
    hide Recon;
  }

  lemma FoundMore(raw: seq<byte>, w: nat, bpp: nat, n: nat, rows: seq<seq<byte>>, filters: seq<nat>)
    requires bpp > 0 && n > 0 && RowStart(w, n) <= |raw| && raw[RowStart(w, n - 1)] <= 4
    requires Found(raw, w, bpp, n - 1, rows, filters)
    ensures Found(raw, w, bpp, n, rows + [ReconRow(raw, w, bpp, n - 1)], filters + [raw[RowStart(w, n - 1)]])
  {
    hide AllFiltered, Filtered, Recon, RowsFit, ReconRow, RowStart;
    RowIs(raw, w, bpp, n - 1);
    var at := RowStart(w, n - 1);
    var prior := if n == 1 then Zeros(w) else rows[n - 2];
    var row, filter := ReconRow(raw, w, bpp, n - 1), raw[at];
    if n > 1 { assert StandsFor(raw, w, bpp, n - 2, rows[n - 2]); }
    AllFilteredMore(rows, filters, row, filter, w, bpp);
    ReconFound(filter, bpp, prior, raw[at + 1..at + 1 + w]);
    assert raw[..RowStart(w, n)] == raw[..at] + [filter] + raw[at + 1..at + 1 + w];
    var more := rows + [row];
    assert AllFiltered(more, filters + [filter], w, bpp) == raw[..RowStart(w, n)];
    forall i: nat | i < n ensures StandsFor(raw, w, bpp, i, more[i]) {
      if i < n - 1 { assert StandsFor(raw, w, bpp, i, rows[i]); }
    }
  }

  // ----- samples -----

  /** The factor that spreads grey samples of a low bit depth over 0..255; 1 for other colour types. */
  function Scale(depth: nat, color: nat): nat
  {
    if color != 0 then 1 else if depth == 1 then 0xff else if depth == 2 then 0x55 else 0x11
  }

  predicate Depth(d: nat) {
    d == 1 || d == 2 || d == 4 || d == 8 || d == 16
  }

  /** Bytes in a row of `x` pixels of `n` samples. */
  function RowBytes(n: nat, x: nat, depth: nat): nat
  {
    (n * x * depth + 7) / 8
  }

  /** Sample `t` of a byte that packs samples of `depth` bits, leftmost in the high bits. */
  function PackedSample(b: byte, depth: nat, t: nat): nat
    requires depth * (t + 1) <= 8
  {
    Low(Shr(b, 8 - depth * (t + 1)), depth)
  }

  /** How many samples a byte packs. */
  function PerByte(depth: nat): nat
  {
    if depth == 1 then 8 else if depth == 2 then 4 else if depth == 4 then 2 else 1
  }

  /** Sample `s` of a row of at most 8-bit samples, as the output holds it. */
  function Sample(row: seq<byte>, depth: nat, color: nat, s: nat): (v: byte)
    requires Depth(depth) && depth <= 8 && s / PerByte(depth) < |row|
  {
    if depth == 8 then row[s]
    else (Scale(depth, color) * PackedSample(row[s / PerByte(depth)], depth, s % PerByte(depth))) % 256
  }

  /** The first `n` samples of a row of at most 8-bit samples. */
  function Samples(row: seq<byte>, depth: nat, color: nat, n: nat): (r: seq<byte>)
    requires Depth(depth) && depth <= 8 && n <= PerByte(depth) * |row|
    ensures |r| == n
  {
    seq(n, s requires 0 <= s < n => Sample(row, depth, color, s))
  }

  /** 16-bit samples: the high byte comes first in the file and is stored second. */
  function Swapped(row: seq<byte>, n: nat): (r: seq<byte>)
    requires 2 * n <= |row|
    ensures |r| == 2 * n
  {
    if n == 0 then [] else Swapped(row, n - 1) + [row[2 * n - 1], row[2 * n - 2]]
  }

  /** The bytes of the first `n` samples of a row. */
  function SampleBytes(row: seq<byte>, depth: nat, color: nat, n: nat): (r: seq<byte>)
    requires Depth(depth)
    requires if depth == 16 then 2 * n <= |row| else n <= PerByte(depth) * |row|
    ensures |r| == if depth == 16 then 2 * n else n
  {
    if depth == 16 then Swapped(row, n) else Samples(row, depth, color, n)
  }

  /** Scaling never leaves the byte range, so the full grey range maps onto 0..255. */
  lemma ScaleFits(row: seq<byte>, depth: nat, color: nat, s: nat)
    requires depth == 1 || depth == 2 || depth == 4
    requires s / PerByte(depth) < |row|
    ensures Sample(row, depth, color, s)
            == Scale(depth, color) * PackedSample(row[s / PerByte(depth)], depth, s % PerByte(depth))
  {
    hide PackedSample;
    PackedBound(row[s / PerByte(depth)], depth, s % PerByte(depth));
  }

  lemma PackedBound(b: byte, depth: nat, t: nat)
    requires depth * (t + 1) <= 8
    ensures depth == 1 ==> PackedSample(b, depth, t) <= 1
    ensures depth == 2 ==> PackedSample(b, depth, t) <= 3
    ensures depth == 4 ==> PackedSample(b, depth, t) <= 15
  {
    hide Low, Shr;
    LowBound(Shr(b, 8 - depth * (t + 1)), depth);
    SmallPowers();
  }

  function Opaque(n: nat): (r: seq<byte>)
    ensures |r| == n && forall i :: 0 <= i < n ==> r[i] == 255
  {
    if n == 0 then [] else Opaque(n - 1) + [255]
  }

  /** Pixel sizes in bytes, without and with alpha: grey or colour, 8 or 16 bits. */
  predicate AlphaShape(n: nat, a: nat)
  {
    (n == 1 && a == 1) || (n == 3 && a == 1) || (n == 2 && a == 2) || (n == 6 && a == 2)
  }

  /** `x` pixels of `n` bytes each, every one followed by `a` opaque alpha bytes. */
  function WithAlpha(s: seq<byte>, x: nat, n: nat, a: nat): (r: seq<byte>)
    requires AlphaShape(n, a) && |s| >= n * x
    ensures |r| == (n + a) * x
  {
    if x == 0 then []
    else WithAlpha(s, x - 1, n, a) + s[n * (x - 1)..n * x] + Opaque(a)
  }

  /** Pixels `i..x` of `WithAlpha`, which the program writes from the back. */
  function AlphaTail(s: seq<byte>, x: nat, n: nat, a: nat, i: nat): (r: seq<byte>)
    requires AlphaShape(n, a) && |s| >= n * x && i <= x
    ensures |r| == (n + a) * (x - i)
    decreases x - i
  {
    if i == x then [] else s[n * i..n * i + n] + Opaque(a) + AlphaTail(s, x, n, a, i + 1)
  }

  lemma {:induction false} AlphaTailJoins(s: seq<byte>, x: nat, n: nat, a: nat, i: nat)
    requires AlphaShape(n, a) && |s| >= n * x && i <= x
    ensures WithAlpha(s, i, n, a) + AlphaTail(s, x, n, a, i) == WithAlpha(s, x, n, a)
    decreases x - i
  {
    hide Opaque;
    if i < x {
      AlphaTailJoins(s, x, n, a, i + 1);
      assert WithAlpha(s, i + 1, n, a) == WithAlpha(s, i, n, a) + s[n * i..n * (i + 1)] + Opaque(a);
      assert n * (i + 1) == n * i + n;
    }
  }

  lemma AlphaTailWhole(s: seq<byte>, x: nat, n: nat, a: nat)
    requires AlphaShape(n, a) && |s| >= n * x
    ensures AlphaTail(s, x, n, a, 0) == WithAlpha(s, x, n, a)
  {
    AlphaTailJoins(s, x, n, a, 0);
    assert WithAlpha(s, 0, n, a) == [];
  }

  /** The output bytes of one row. */
  function RowOut(row: seq<byte>, x: nat, img_n: nat, out_n: nat, depth: nat, color: nat): (r: seq<byte>)
    requires Depth(depth) && (out_n == img_n || (out_n == img_n + 1 && (img_n == 1 || img_n == 3)))
    requires |row| == RowBytes(img_n, x, depth)
  {
    RowHolds(|row|, x, img_n, depth);
    var s := SampleBytes(row, depth, color, img_n * x);
    var k := if depth == 16 then 2 else 1;
    if out_n == img_n then s
    else
      assert |s| == img_n * k * x;
      WithAlpha(s, x, img_n * k, k)
  }

  lemma RowHolds(w: nat, x: nat, n: nat, depth: nat)
    requires Depth(depth) && w == RowBytes(n, x, depth)
    ensures if depth == 16 then w == 2 * (n * x) else n * x <= PerByte(depth) * w
    ensures depth == 8 ==> w == n * x
  {
    var m := n * x;
    if depth == 16 {
      assert m * 16 == n * x * 16;
    }
  }

  lemma {:induction false} SwappedAt(row: seq<byte>, n: nat, i: nat)
    requires 2 * n <= |row| && i < n
    ensures Swapped(row, n)[2 * i] == row[2 * i + 1] && Swapped(row, n)[2 * i + 1] == row[2 * i]
  {
    if i < n - 1 { SwappedAt(row, n - 1, i); }
  }

  // ----- one (sub)image -----

  /** Bytes per complete pixel for the filters, rounded up to one. */
  function FilterBytes(img_n: nat, depth: nat): (b: nat)
    requires img_n > 0
    ensures b > 0
  {
    if depth < 8 then 1 else if depth == 16 then img_n * 2 else img_n
  }

  /** The colour layouts the decoder is asked for. */
  predicate Layout(img_n: nat, out_n: nat)
  {
    1 <= img_n <= 4 && (out_n == img_n || (out_n == img_n + 1 && (img_n == 1 || img_n == 3)))
  }

  /** Output bytes of the first `y` rows of a filtered image. */
  function ImageOut(raw: seq<byte>, x: nat, img_n: nat, out_n: nat, depth: nat, color: nat, y: nat): seq<byte>
    requires Layout(img_n, out_n) && Depth(depth) && RowStart(RowBytes(img_n, x, depth), y) <= |raw|
  {
    if y == 0 then [] else
    var w := RowBytes(img_n, x, depth);
    ImageOut(raw, x, img_n, out_n, depth, color, y - 1)
    + RowOut(ReconRow(raw, w, FilterBytes(img_n, depth), y - 1), x, img_n, out_n, depth, color)
  }

  function OutBytes(out_n: nat, depth: nat): nat
  {
    if depth == 16 then out_n * 2 else out_n
  }

  lemma RowOutLength(row: seq<byte>, x: nat, img_n: nat, out_n: nat, depth: nat, color: nat)
    requires Layout(img_n, out_n) && Depth(depth) && |row| == RowBytes(img_n, x, depth)
    ensures |RowOut(row, x, img_n, out_n, depth, color)| == OutBytes(out_n, depth) * x
  {
    hide SampleBytes, WithAlpha;
    RowHolds(|row|, x, img_n, depth);
    var k := if depth == 16 then 2 else 1;
    assert k * (img_n * x) == img_n * k * x;
  }

  ghost predicate FiltersOk(raw: seq<byte>, w: nat, y: nat)
    requires RowStart(w, y) <= |raw|
  {
    forall j :: 0 <= j < y ==> RowStart(w, j) < |raw| && raw[RowStart(w, j)] <= 4
  }

  lemma {:induction false} RowStartIsProduct(w: nat, j: nat)
    ensures RowStart(w, j) == (w + 1) * j
  {
    if j > 0 {
      RowStartIsProduct(w, j - 1);
      assert (w + 1) * j == (w + 1) * (j - 1) + (w + 1);
    }
  }

  // ----- size checks -----

  const MAX_DIMENSIONS := 0x100_0000

  predicate SizesOk(x: nat, y: nat, img_n: nat, out_n: nat, depth: nat)
  {
    var w := RowBytes(img_n, x, depth);
    Mad3Valid(x, y, OutBytes(out_n, depth), 0) && Mad3Valid(img_n, x, depth, 7)
    && Mad2Valid(w, y, w) && Mad2Valid(w, 2, 0)
  }

  /** The total length of the filtered rows does not wrap an unsigned int. */
  lemma ImageLengthFits(x: nat, y: nat, img_n: nat, out_n: nat, depth: nat)
    requires SizesOk(x, y, img_n, out_n, depth) && y <= MAX_DIMENSIONS
    ensures RowStart(RowBytes(img_n, x, depth), y) <= UINT_MAX
  {
    hide RowBytes, Mad3Valid;
    var w := RowBytes(img_n, x, depth);
    Mul2Exact(w, y);
    RowStartIsProduct(w, y);
    assert (w + 1) * y == w * y + y;
  }
}
