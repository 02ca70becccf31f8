/** Canonical prefix codes as the standards define them (section 3.2.2 of RFC 1951, Annex C of
    ITU-T T.81): shorter codes first, equal lengths in symbol order. */
module Canonical {
  import opened Bits

  datatype Option<+T> = None | Some(value: T)

  const MAX_LEN := 16

  /** How many of the first `n` symbols have code length `s`. */
  function Count(lens: seq<nat>, n: nat, s: nat): (c: nat)
    requires n <= |lens|
    ensures c <= n
  {
    if n == 0 then 0 else Count(lens, n - 1, s) + (if lens[n - 1] == s then 1 else 0)
  }

  /** The number of codes of length `s`; length 0 marks an unused symbol. */
  function BlCount(lens: seq<nat>, s: nat): (c: nat)
    ensures c <= |lens|
  {
    if s == 0 then 0 else Count(lens, |lens|, s)
  }

  /** The numerically first code of length `s`. */
  function FirstCode(lens: seq<nat>, s: nat): nat
  {
    if s == 0 then 0 else 2 * (FirstCode(lens, s - 1) + BlCount(lens, s - 1))
  }

  /** One past the last code of length `s`. */
  function EndCode(lens: seq<nat>, s: nat): nat
  {
    FirstCode(lens, s) + BlCount(lens, s)
  }

  ghost predicate Lengths(lens: seq<nat>, max: nat)
  {
    forall i :: 0 <= i < |lens| ==> lens[i] <= max
  }

  predicate Used(lens: seq<nat>, sym: nat)
  {
    sym < |lens| && 0 < lens[sym] <= MAX_LEN
  }

  /** The code of a used symbol. */
  function CodeOf(lens: seq<nat>, sym: nat): nat
    requires Used(lens, sym)
  {
    FirstCode(lens, lens[sym]) + Count(lens, sym, lens[sym])
  }

  /** No length has more codes than fit beside the shorter ones. */
  ghost predicate Fits(lens: seq<nat>)
  {
    forall s :: 1 <= s <= MAX_LEN ==> EndCode(lens, s) <= Pow2(s)
  }

  /** One past the last code of length at most `s`, as a 16-bit left-aligned number. */
  function Bound(lens: seq<nat>, s: nat): nat
    requires s <= MAX_LEN
  {
    Shl(EndCode(lens, s), MAX_LEN - s)
  }

  /** The code of `sym` is a prefix of the 16-bit lookahead `w`. */
  ghost predicate Hit(lens: seq<nat>, w: nat, sym: nat)
  {
    Used(lens, sym) && Shr(w, MAX_LEN - lens[sym]) == CodeOf(lens, sym)
  }

  /** The symbol whose code starts the lookahead, if there is one. */
  ghost function Lookup(lens: seq<nat>, w: nat): (r: Option<nat>)
    ensures r.Some? ==> Hit(lens, w, r.value)
    ensures r.None? ==> forall sym :: !Hit(lens, w, sym)
  {
    if exists sym :: Hit(lens, w, sym) then
      var sym :| Hit(lens, w, sym);
      Some(sym)
    else
      None
  }

  // ----- counting -----

  function Repeat(v: nat, n: nat): (s: seq<nat>)
    ensures |s| == n && forall i :: 0 <= i < n ==> s[i] == v
  {
    if n == 0 then [] else Repeat(v, n - 1) + [v]
  }

  lemma {:induction false} CountMono(lens: seq<nat>, m: nat, n: nat, s: nat)
    requires m <= n <= |lens|
    ensures Count(lens, m, s) <= Count(lens, n, s)
  {
    if m < n { CountMono(lens, m, n - 1, s); }
  }

  lemma CountStrict(lens: seq<nat>, a: nat, b: nat)
    requires a < b <= |lens|
    ensures Count(lens, a, lens[a]) < Count(lens, b, lens[a])
  {
    CountMono(lens, a + 1, b, lens[a]);
  }

  /** The symbol of rank `r` among those of length `s`. */
  lemma {:induction false} SymbolOfRank(lens: seq<nat>, n: nat, s: nat, r: nat) returns (sym: nat)
    requires n <= |lens| && r < Count(lens, n, s)
    ensures sym < n && lens[sym] == s && Count(lens, sym, s) == r
  {
    if lens[n - 1] == s && Count(lens, n - 1, s) == r {
      sym := n - 1;
    } else {
      sym := SymbolOfRank(lens, n - 1, s, r);
    }
  }

  lemma {:induction false} NoLonger(lens: seq<nat>, n: nat, s: nat, max: nat)
    requires n <= |lens| && Lengths(lens, max) && s > max
    ensures Count(lens, n, s) == 0
  {
    if n > 0 { NoLonger(lens, n - 1, s, max); }
  }

  // ----- code intervals -----

  lemma CodeInInterval(lens: seq<nat>, sym: nat)
    requires Used(lens, sym)
    ensures FirstCode(lens, lens[sym]) <= CodeOf(lens, sym) < EndCode(lens, lens[sym])
  {
    CountStrict(lens, sym, |lens|);
  }

  /** The codes of length `s`, left-aligned, start where the shorter ones end. */
  lemma FirstBound(lens: seq<nat>, s: nat)
    requires 1 <= s <= MAX_LEN
    ensures Shl(FirstCode(lens, s), MAX_LEN - s) == Bound(lens, s - 1)
  {
    ShlHalf(EndCode(lens, s - 1), MAX_LEN - (s - 1));
  }

  lemma {:induction false} BoundMono(lens: seq<nat>, s: nat, t: nat)
    requires s <= t <= MAX_LEN
    ensures Bound(lens, s) <= Bound(lens, t)
    decreases t
  {
    if s < t {
      BoundMono(lens, s, t - 1);
      FirstBound(lens, t);
      ShlMono(FirstCode(lens, t), EndCode(lens, t), MAX_LEN - t);
    }
  }

  /** A code of length `s` covers lookaheads between two consecutive bounds only. */
  lemma HitInterval(lens: seq<nat>, w: nat, sym: nat)
    requires Hit(lens, w, sym)
    ensures Bound(lens, lens[sym] - 1) <= w < Bound(lens, lens[sym])
  {
    var s := lens[sym];
    CodeInInterval(lens, sym);
    ShrLess(w, EndCode(lens, s), MAX_LEN - s);
    ShrLess(w, FirstCode(lens, s), MAX_LEN - s);
    FirstBound(lens, s);
  }

  /** ... and every lookahead between two consecutive bounds is covered. */
  lemma IntervalHit(lens: seq<nat>, w: nat, s: nat) returns (sym: nat)
    requires 1 <= s <= MAX_LEN
    requires Bound(lens, s - 1) <= w < Bound(lens, s)
    ensures Hit(lens, w, sym) && lens[sym] == s
  {
    var c := Shr(w, MAX_LEN - s);
    ShrLess(w, EndCode(lens, s), MAX_LEN - s);
    ShrLess(w, FirstCode(lens, s), MAX_LEN - s);
    FirstBound(lens, s);
    sym := SymbolOfRank(lens, |lens|, s, c - FirstCode(lens, s));
  }

  /** No code is a prefix of another, so a lookahead has at most one symbol. */
  lemma PrefixFree(lens: seq<nat>, w: nat, a: nat, b: nat)
    requires Hit(lens, w, a) && Hit(lens, w, b)
    ensures a == b
  {
    HitInterval(lens, w, a);
    HitInterval(lens, w, b);
    if lens[a] < lens[b] {
      BoundMono(lens, lens[a], lens[b] - 1);
    } else if lens[b] < lens[a] {
      BoundMono(lens, lens[b], lens[a] - 1);
    } else if a < b {
      CountStrict(lens, a, b);
    } else if b < a {
      CountStrict(lens, b, a);
    }
  }

  lemma LookupIs(lens: seq<nat>, w: nat, sym: nat)
    requires Hit(lens, w, sym)
    ensures Lookup(lens, w) == Some(sym)
  {
    PrefixFree(lens, w, sym, Lookup(lens, w).value);
  }

  /** Exactly the lookaheads below the last bound have a symbol. */
  lemma LookupDefined(lens: seq<nat>, w: nat)
    ensures Lookup(lens, w).Some? <==> w < Bound(lens, MAX_LEN)
  {
    if Lookup(lens, w).Some? {
      var sym := Lookup(lens, w).value;
      HitInterval(lens, w, sym);
      BoundMono(lens, lens[sym], MAX_LEN);
    } else if w < Bound(lens, MAX_LEN) {
      var s := FirstAbove(lens, w, MAX_LEN);
      var sym := IntervalHit(lens, w, s);
    }
  }

  lemma {:induction false} FirstAbove(lens: seq<nat>, w: nat, t: nat) returns (s: nat)
    requires t <= MAX_LEN && w < Bound(lens, t)
    ensures 1 <= s <= t && Bound(lens, s - 1) <= w < Bound(lens, s)
  {
    if t == 0 {
      ShlZero(MAX_LEN);
    } else if Bound(lens, t - 1) <= w {
      s := t;
    } else {
      s := FirstAbove(lens, w, t - 1);
    }
  }

  // ----- the Kraft sum -----

  /** The Kraft sum of the first `n` symbols, in units of 2^-16. */
  function KraftSum(lens: seq<nat>, n: nat): nat
    requires n <= |lens|
  {
    if n == 0 then 0
    else KraftSum(lens, n - 1) + (if 0 < lens[n - 1] <= MAX_LEN then Pow2(MAX_LEN - lens[n - 1]) else 0)
  }

  /** The Kraft sum grouped by length, over the lengths 1..s. */
  function KraftByLength(lens: seq<nat>, n: nat, s: nat): nat
    requires n <= |lens| && s <= MAX_LEN
  {
    if s == 0 then 0 else KraftByLength(lens, n, s - 1) + Shl(Count(lens, n, s), MAX_LEN - s)
  }

  lemma {:induction false} KraftStep(lens: seq<nat>, n: nat, s: nat)
    requires 0 < n <= |lens| && s <= MAX_LEN
    ensures KraftByLength(lens, n, s) ==
            KraftByLength(lens, n - 1, s) + (if 0 < lens[n - 1] <= s then Pow2(MAX_LEN - lens[n - 1]) else 0)
  {
    if s > 0 {
      KraftStep(lens, n, s - 1);
      ShlAdd(Count(lens, n - 1, s), 1, MAX_LEN - s);
    }
  }

  lemma {:induction false} KraftEmpty(lens: seq<nat>, s: nat)
    requires s <= MAX_LEN
    ensures KraftByLength(lens, 0, s) == 0
  {
    if s > 0 {
      KraftEmpty(lens, s - 1);
      ShlZero(MAX_LEN - s);
    }
  }

  lemma {:induction false} KraftGrouped(lens: seq<nat>, n: nat)
    requires n <= |lens|
    ensures KraftSum(lens, n) == KraftByLength(lens, n, MAX_LEN)
  {
    if n == 0 {
      KraftEmpty(lens, MAX_LEN);
    } else {
      KraftGrouped(lens, n - 1);
      KraftStep(lens, n, MAX_LEN);
    }
  }

  lemma {:induction false} BoundIsKraft(lens: seq<nat>, s: nat)
    requires s <= MAX_LEN
    ensures Bound(lens, s) == KraftByLength(lens, |lens|, s)
  {
    if s == 0 {
      ShlZero(MAX_LEN);
    } else {
      BoundIsKraft(lens, s - 1);
      FirstBound(lens, s);
      ShlAdd(FirstCode(lens, s), BlCount(lens, s), MAX_LEN - s);
    }
  }

  /** A length list has room for its codes exactly when its Kraft sum is at most one. */
  lemma FitsIsKraft(lens: seq<nat>)
    ensures Fits(lens) <==> KraftSum(lens, |lens|) <= Pow2(MAX_LEN)
  {
    KraftGrouped(lens, |lens|);
    BoundIsKraft(lens, MAX_LEN);
    if KraftSum(lens, |lens|) <= Pow2(MAX_LEN) {
      forall s | 1 <= s <= MAX_LEN ensures EndCode(lens, s) <= Pow2(s) {
        BoundMono(lens, s, MAX_LEN);
        BoundFits(lens, s);
      }
    }
  }

  lemma BoundFits(lens: seq<nat>, s: nat)
    requires s <= MAX_LEN && Bound(lens, s) <= Pow2(MAX_LEN)
    ensures EndCode(lens, s) <= Pow2(s)
  {
    var e, p, n := EndCode(lens, s), Pow2(s), MAX_LEN - s;
    ShlShl(1, s, n);
    if e > p {
      ShlMono(p + 1, e, n);
      ShlAdd(p, 1, n);
    }
  }

  /** Lengths that never exceed 15 need checking only up to 15. */
  lemma FitsUpTo15(lens: seq<nat>)
    requires Lengths(lens, 15)
    requires forall s :: 1 <= s <= 15 ==> EndCode(lens, s) <= Pow2(s)
    ensures Fits(lens)
  {
    NoLonger(lens, |lens|, 16, 15);
    assert EndCode(lens, 16) == 2 * EndCode(lens, 15);
    assert EndCode(lens, 15) <= Pow2(15);
  }
}
