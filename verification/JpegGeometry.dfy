/** JPEG block geometry: how large the planes are, where scans put their 8 by 8 blocks, and which
    samples upsampling reads and writes. */
module JpegGeometry {
  import opened Arithmetic
  import opened Bits
  import opened SizeChecks

  /** Sampling factors of a component, as the frame header admits them. */
  datatype Sampling = Sampling(h: nat, v: nat)
  {
    predicate Ok()
    {
      1 <= h <= 4 && 1 <= v <= 4
    }
  }

  /** What the frame header computes for one component. */
  datatype Plane = Plane(x: nat, y: nat, w2: nat, h2: nat)

  datatype Geometry = Geometry(hMax: nat, vMax: nat, mcuX: nat, mcuY: nat, planes: seq<Plane>)

  function CeilDiv(a: nat, b: nat): nat
    requires b > 0
  {
    (a + b - 1) / b
  }

  /** Rounding up covers, and not by a whole unit more. */
  lemma CeilCovers(a: nat, b: nat)
    requires b > 0
    ensures a <= b * CeilDiv(a, b) < a + b
  {
    var q, r := (a + b - 1) / b, (a + b - 1) % b;
    assert a + b - 1 == q * b + r;
  }

  /** ... and is the least number that covers. */
  lemma CeilLeast(a: nat, b: nat, c: nat)
    requires b > 0 && a <= b * c
    ensures CeilDiv(a, b) <= c
  {
    CeilCovers(a, b);
    if c < CeilDiv(a, b) { ProductStep(b, c, CeilDiv(a, b)); }
  }

  lemma CeilIs(a: nat, b: nat, c: nat)
    requires b > 0 && a <= b * c < a + b
    ensures CeilDiv(a, b) == c
  {
    CeilLeast(a, b, c);
    CeilCovers(a, b);
    if CeilDiv(a, b) < c { ProductStep(b, CeilDiv(a, b), c); }
  }

  // ----- the frame -----

  ghost predicate Largest(m: nat, values: seq<nat>)
  {
    (forall i :: 0 <= i < |values| ==> values[i] <= m) && (m in values || m == 1)
  }

  function Hs(comps: seq<Sampling>): (s: seq<nat>)
    ensures |s| == |comps|
    ensures forall i :: 0 <= i < |comps| ==> s[i] == comps[i].h
  {
    seq(|comps|, i requires 0 <= i < |comps| => comps[i].h)
  }

  function Vs(comps: seq<Sampling>): (s: seq<nat>)
    ensures |s| == |comps|
    ensures forall i :: 0 <= i < |comps| ==> s[i] == comps[i].v
  {
    seq(|comps|, i requires 0 <= i < |comps| => comps[i].v)
  }

  /** The plane of one component. */
  function PlaneOf(imgX: nat, imgY: nat, c: Sampling, hMax: nat, vMax: nat): Plane
    requires hMax > 0 && vMax > 0
  {
    Plane(CeilDiv(imgX * c.h, hMax), CeilDiv(imgY * c.v, vMax),
          CeilDiv(imgX, hMax * 8) * c.h * 8, CeilDiv(imgY, vMax * 8) * c.v * 8)
  }

  ghost predicate AllOk(comps: seq<Sampling>)
  {
    forall i {:trigger comps[i]} :: 0 <= i < |comps| ==> comps[i].Ok()
  }

  /** The ratios of the largest factors to this component's are whole numbers. */
  predicate WholeRatio(c: Sampling, hMax: nat, vMax: nat)
    requires c.Ok()
  {
    hMax % c.h == 0 && vMax % c.v == 0
  }

  ghost predicate WholeRatios(comps: seq<Sampling>, hMax: nat, vMax: nat)
    requires AllOk(comps)
  {
    forall i {:trigger comps[i]} :: 0 <= i < |comps| ==> WholeRatio(comps[i], hMax, vMax)
  }

  method LargestFactors(comps: seq<Sampling>) returns (hMax: nat, vMax: nat)
    requires AllOk(comps)
    ensures 1 <= hMax <= 4 && 1 <= vMax <= 4
    ensures Largest(hMax, Hs(comps)) && Largest(vMax, Vs(comps))
  {
    hMax, vMax := 1, 1;
    for i := 0 to |comps|
      invariant 1 <= hMax <= 4 && 1 <= vMax <= 4
      invariant Largest(hMax, Hs(comps)[..i]) && Largest(vMax, Vs(comps)[..i])
    {
      if comps[i].h > hMax { hMax := comps[i].h; }
      if comps[i].v > vMax { vMax := comps[i].v; }
      assert Hs(comps)[..i + 1] == Hs(comps)[..i] + [comps[i].h];
      assert Vs(comps)[..i + 1] == Vs(comps)[..i] + [comps[i].v];
    }
    assert Hs(comps)[..|comps|] == Hs(comps) && Vs(comps)[..|comps|] == Vs(comps);
  }

  /** The arithmetic of one plane. */
  method MakePlane(imgX: nat, imgY: nat, c: Sampling, hMax: nat, vMax: nat, mcuX: nat, mcuY: nat) returns (p: Plane)
    requires hMax > 0 && vMax > 0 && mcuX == CeilDiv(imgX, hMax * 8) && mcuY == CeilDiv(imgY, vMax * 8)
    ensures p == PlaneOf(imgX, imgY, c, hMax, vMax)
  {
    p := Plane((imgX * c.h + hMax - 1) / hMax, (imgY * c.v + vMax - 1) / vMax, mcuX * c.h * 8, mcuY * c.v * 8);
  }

  /** The buffers of a plane are within the size checks of their allocations; progressive images
      keep coefficients too. */
  predicate PlaneFits(p: Plane, progressive: bool)
  {
    Mad2Valid(p.w2, p.h2, 15) && (progressive ==> Mad3Valid(p.w2, p.h2, 2, 15))
  }

  lemma PlaneFitsExact(p: Plane, progressive: bool)
    ensures PlaneFits(p, progressive) <==> (if progressive then 2 else 1) * (p.w2 * p.h2) + 15 <= INT_MAX
  {
    hide Mad2Valid, Mad3Valid;
    Mad2Exact(p.w2, p.h2, 15);
    Mad3Exact(p.w2, p.h2, 2, 15);
  }

  ghost predicate PlanesFit(imgX: nat, imgY: nat, comps: seq<Sampling>, hMax: nat, vMax: nat, progressive: bool)
    requires hMax > 0 && vMax > 0
  {
    forall i {:trigger comps[i]} :: 0 <= i < |comps| ==>
      PlaneFits(PlaneOf(imgX, imgY, comps[i], hMax, vMax), progressive)
  }

  /** `stbi__process_frame_header` once the header has been read. */
  method FrameGeometry(imgX: nat, imgY: nat, comps: seq<Sampling>, progressive: bool) returns (ok: bool, g: Geometry)
    requires AllOk(comps)
    ensures 1 <= g.hMax <= 4 && 1 <= g.vMax <= 4
    ensures Largest(g.hMax, Hs(comps)) && Largest(g.vMax, Vs(comps))
    ensures ok <==> Mad3Valid(imgX, imgY, |comps|, 0) && WholeRatios(comps, g.hMax, g.vMax)
                    && PlanesFit(imgX, imgY, comps, g.hMax, g.vMax, progressive)
    ensures ok ==> g.mcuX == CeilDiv(imgX, g.hMax * 8) && g.mcuY == CeilDiv(imgY, g.vMax * 8) && |g.planes| == |comps|
    ensures ok ==> forall i :: 0 <= i < |comps| ==> g.planes[i] == PlaneOf(imgX, imgY, comps[i], g.hMax, g.vMax)
  {
    hide CeilDiv, Largest, PlaneOf, WholeRatio, PlaneFits, Mad3Valid;
    var hMax, vMax := LargestFactors(comps);
    g := Geometry(hMax, vMax, 0, 0, []);
    if !Mad3Valid(imgX, imgY, |comps|, 0) { return false, g; }
    for i := 0 to |comps|
      invariant WholeRatios(comps[..i], hMax, vMax)
    {
      if !WholeRatio(comps[i], hMax, vMax) { return false, g; }
      assert comps[..i + 1] == comps[..i] + [comps[i]];
    }
    assert comps[..|comps|] == comps;
    var mcuX, mcuY := CeilDiv(imgX, hMax * 8), CeilDiv(imgY, vMax * 8);
    var planes: seq<Plane> := [];
    for i := 0 to |comps|
      invariant |planes| == i
      invariant forall j :: 0 <= j < i ==> planes[j] == PlaneOf(imgX, imgY, comps[j], hMax, vMax)
      invariant forall j :: 0 <= j < i ==> PlaneFits(planes[j], progressive)
    {
      var p := MakePlane(imgX, imgY, comps[i], hMax, vMax, mcuX, mcuY);
      if !PlaneFits(p, progressive) { return false, g; }
      planes := planes + [p];
    }
    return true, Geometry(hMax, vMax, mcuX, mcuY, planes);
  }

  // ----- blocks -----

  /** A component's own samples lie inside its plane, with the last block completed. */
  lemma PlaneHoldsBlocks(img: nat, f: nat, fMax: nat)
    requires 1 <= f && fMax > 0
    ensures var x, w2 := CeilDiv(img * f, fMax), CeilDiv(img, fMax * 8) * f * 8;
            x <= w2 && 8 * ((x + 7) / 8) <= w2
  {
    hide CeilDiv;
    var m := CeilDiv(img, fMax * 8);
    CeilCovers(img, fMax * 8);
    Product(img, fMax * 8 * m, f);
    assert fMax * 8 * m * f == fMax * (m * f * 8);
    CeilLeast(img * f, fMax, m * f * 8);
  }

  /** Blocks of a scan of one component, in scanline order, are inside its plane. */
  lemma SingleScanInside(imgX: nat, imgY: nat, c: Sampling, hMax: nat, vMax: nat, i: nat, j: nat)
    requires c.Ok() && hMax > 0 && vMax > 0
    requires var p := PlaneOf(imgX, imgY, c, hMax, vMax); i < (p.x + 7) / 8 && j < (p.y + 7) / 8
    ensures var p := PlaneOf(imgX, imgY, c, hMax, vMax); i * 8 + 8 <= p.w2 && j * 8 + 8 <= p.h2
  {
    hide CeilDiv;
    PlaneHoldsBlocks(imgX, c.h, hMax);
    PlaneHoldsBlocks(imgY, c.v, vMax);
  }

  /** Block `b` of unit `i` in an interleaved scan: `i * f + b`, inside the plane, and no other unit's. */
  lemma InterleavedInside(units: nat, f: nat, i: nat, b: nat)
    requires i < units && b < f
    ensures (i * f + b) * 8 + 8 <= units * f * 8
  {
    ProductStep(f, i, units);
    assert f * i == i * f && f * units == units * f;
  }

  lemma InterleavedApart(f: nat, i: nat, b: nat, i': nat, b': nat)
    requires b < f && b' < f && i * f + b == i' * f + b'
    ensures i == i' && b == b'
  {
    assert i * f == f * i && i' * f == f * i';
    if i < i' { ProductStep(f, i, i'); } else if i' < i { ProductStep(f, i', i); }
  }

  /** Every block column of a plane belongs to a unit. */
  lemma InterleavedOnto(units: nat, f: nat, k: nat) returns (i: nat, b: nat)
    requires f > 0 && k < units * f
    ensures i < units && b < f && k == i * f + b
  {
    i, b := k / f, k % f;
    assert k == i * f + b;
    if i >= units { Product(units, i, f); }
  }

  // ----- upsampling -----

  /** Samples in a row before upsampling are exactly the component's own. */
  lemma LowResIsPlane(img: nat, f: nat, s: nat)
    requires f > 0 && s > 0
    ensures CeilDiv(img, s) == CeilDiv(img * f, s * f)
  {
    hide CeilDiv;
    var c := CeilDiv(img, s);
    CeilCovers(img, s);
    Product(img, s * c, f);
    assert s * c * f == s * f * c;
    Product(s * c + 1, img + s, f);
    assert (s * c + 1) * f == s * c * f + f && (img + s) * f == img * f + s * f;
    CeilIs(img * f, s * f, c);
  }

  /** Upsampling reads exactly the samples of a row of the plane, and what it makes of them fits the line buffer
      of `imgX + 3` bytes. */
  lemma LineFits(imgX: nat, imgY: nat, c: Sampling, hMax: nat, vMax: nat)
    requires c.Ok() && 1 <= hMax <= 4 && hMax % c.h == 0 && vMax > 0
    ensures var hs, p := hMax / c.h, PlaneOf(imgX, imgY, c, hMax, vMax);
            && 1 <= hs <= 4 && CeilDiv(imgX, hs) == p.x <= p.w2
            && imgX <= hs * p.x <= imgX + 3
  {
    hide CeilDiv;
    var hs := hMax / c.h;
    Ratio(hMax, c.h);
    CeilCovers(imgX, hs);
    LowResIsPlane(imgX, c.h, hs);
    PlaneHoldsBlocks(imgX, c.h, hMax);
  }

  lemma Ratio(m: nat, f: nat)
    requires 1 <= m <= 4 && 1 <= f <= 4 && m % f == 0
    ensures 1 <= m / f <= 4 && m / f * f == m
  {}

  /** The row next to the upper half of an output group is the one above, next to the lower half the one below;
      the first and the last row are their own neighbours. */
  function Neighbour(vs: nat, rows: nat, group: nat, rest: nat): nat
  {
    if rest < (vs + 1) / 2 then (if group == 0 then 0 else group - 1)
    else if group + 1 < rows then group + 1 else group
  }

  /** The rows of a plane as upsampling walks down them. */
  class Resample {
    const vs: nat
    const rows: nat
    var ystep: nat
    var ypos: nat
    var line0: nat
    var line1: nat
    /** The output row, as a number of whole groups of `vs` rows and a rest. */
    ghost var group: nat
    ghost var rest: nat

    ghost predicate Valid()
      reads this
    {
      var half := vs / 2;
      && vs > 0 && rows > 0 && rest < vs && ystep < vs
      && line1 == (if ypos < rows then ypos else rows - 1)
      && if rest + half < vs then
           ystep == rest + half && ypos == group
           && line0 == (if group == 0 then 0 else if group - 1 < rows then group - 1 else rows - 1)
         else
           ystep == rest + half - vs && ypos == group + 1 && line0 == (if group < rows then group else rows - 1)
    }

    constructor (factor: nat, height: nat)
      requires factor > 0 && height > 0
      ensures Valid() && group == 0 && rest == 0 && vs == factor && rows == height
    {
      vs, rows := factor, height;
      ystep, ypos, line0, line1 := factor / 2, 0, 0, 0;
      group, rest := 0, 0;
    }

    /** One output row: it is made from the row it lies over, mostly, and a neighbour of it. Both are
        rows of the plane. */
    method NextRow() returns (near: nat, far: nat)
      requires Valid() && group < rows
      modifies `ystep, `ypos, `line0, `line1, `group, `rest
      ensures Valid()
      ensures near == old(group) && far == Neighbour(vs, rows, near, old(rest))
      ensures if old(rest) + 1 < vs then group == old(group) && rest == old(rest) + 1
              else group == old(group) + 1 && rest == 0
    {
      var y_bot := ystep >= vs / 2;
      near := if y_bot then line1 else line0;
      far := if y_bot then line0 else line1;
      if rest + 1 < vs { rest := rest + 1; } else { group, rest := group + 1, 0; }
      ystep := ystep + 1;
      if ystep >= vs {
        ystep := 0;
        line0 := line1;
        ypos := ypos + 1;
        if ypos < rows { line1 := line1 + 1; }
      }
    }
  }

  /** Upsampling all `imgY` rows of a component with plane `p`, top to bottom. */
  method AllRows(imgX: nat, imgY: nat, c: Sampling, hMax: nat, vMax: nat, p: Plane)
      returns (near: seq<nat>, far: seq<nat>)
    requires c.Ok() && 1 <= vMax <= 4 && vMax % c.v == 0 && imgY > 0 && hMax > 0
    requires p == PlaneOf(imgX, imgY, c, hMax, vMax)
    ensures |near| == |far| == imgY
    ensures forall j :: 0 <= j < imgY ==> near[j] == j / (vMax / c.v) < p.y
    ensures forall j :: 0 <= j < imgY ==> far[j] == Neighbour(vMax / c.v, p.y, near[j], j % (vMax / c.v)) < p.y
  {
    hide CeilDiv;
    var vs := vMax / c.v;
    Ratio(vMax, c.v);
    LowResIsPlane(imgY, c.v, vs);
    CeilCovers(imgY, vs);
    var r := new Resample(vs, p.y);
    near, far := [], [];
    for j := 0 to imgY
      invariant fresh(r) && r.Valid() && r.vs == vs && r.rows == p.y
      invariant j == vs * r.group + r.rest
      invariant |near| == j && forall i :: 0 <= i < j ==> near[i] == i / vs < p.y
      invariant |far| == j && forall i :: 0 <= i < j ==> far[i] == Neighbour(vs, p.y, near[i], i % vs) < p.y
    {
      GroupInside(vs, r.group, r.rest, imgY, p.y);
      DivModIs(j, vs, r.group, r.rest);
      assert vs * (r.group + 1) == vs * r.group + vs;
      var n, f := r.NextRow();
      near, far := near + [n], far + [f];
    }
  }

  lemma GroupInside(vs: nat, group: nat, rest: nat, imgY: nat, rows: nat)
    requires vs > 0 && vs * group + rest < imgY <= vs * rows
    ensures group < rows
  {
    assert rows * vs == vs * rows && group * vs == vs * group;
    if rows <= group { Product(rows, group, vs); }
  }
}
