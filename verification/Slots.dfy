/** Where the used symbols of a canonical code stand when they are listed by length, then by symbol. */
module Slots {
  import opened Bits
  import opened Canonical

  /** The number of used symbols with a code shorter than `s`: where length `s` starts in symbol order. */
  function FirstSlot(lens: seq<nat>, s: nat): nat
  {
    if s <= 1 then 0 else FirstSlot(lens, s - 1) + BlCount(lens, s - 1)
  }

  /** The position of a used symbol in (length, symbol) order. */
  function Slot(lens: seq<nat>, sym: nat): nat
    requires Used(lens, sym)
  {
    FirstSlot(lens, lens[sym]) + Count(lens, sym, lens[sym])
  }

  function SumCounts(lens: seq<nat>, n: nat, s: nat): nat
    requires n <= |lens|
  {
    if s == 0 then 0 else SumCounts(lens, n, s - 1) + Count(lens, n, s)
  }

  lemma {:induction false} SumCountsStep(lens: seq<nat>, n: nat, s: nat)
    requires 0 < n <= |lens|
    ensures SumCounts(lens, n, s) == SumCounts(lens, n - 1, s) + (if 0 < lens[n - 1] <= s then 1 else 0)
  {
    if s > 0 { SumCountsStep(lens, n, s - 1); }
  }

  lemma {:induction false} SumCountsZero(lens: seq<nat>, s: nat)
    ensures SumCounts(lens, 0, s) == 0
  {
    if s > 0 { SumCountsZero(lens, s - 1); }
  }

  lemma {:induction false} SumCountsBound(lens: seq<nat>, n: nat, s: nat)
    requires n <= |lens|
    ensures SumCounts(lens, n, s) <= n
  {
    if n == 0 {
      SumCountsZero(lens, s);
    } else {
      SumCountsBound(lens, n - 1, s);
      SumCountsStep(lens, n, s);
    }
  }

  lemma {:induction false} SumCountsIsSlot(lens: seq<nat>, s: nat)
    ensures SumCounts(lens, |lens|, s) == FirstSlot(lens, s + 1)
  {
    if s > 0 { SumCountsIsSlot(lens, s - 1); }
  }

  lemma FirstSlotBound(lens: seq<nat>, s: nat)
    ensures FirstSlot(lens, s) <= |lens|
  {
    if s > 1 {
      SumCountsIsSlot(lens, s - 1);
      SumCountsBound(lens, |lens|, s - 1);
    }
  }

  lemma {:induction false} FirstSlotMono(lens: seq<nat>, s: nat, t: nat)
    requires s <= t
    ensures FirstSlot(lens, s) <= FirstSlot(lens, t)
  {
    if s < t { FirstSlotMono(lens, s, t - 1); }
  }

  lemma SlotInside(lens: seq<nat>, sym: nat)
    requires Used(lens, sym)
    ensures FirstSlot(lens, lens[sym]) <= Slot(lens, sym) < FirstSlot(lens, lens[sym] + 1) <= |lens|
  {
    CountStrict(lens, sym, |lens|);
    FirstSlotBound(lens, lens[sym] + 1);
  }

  /** Slots order the used symbols by length, then by symbol. */
  lemma SlotOrder(lens: seq<nat>, a: nat, b: nat)
    requires Used(lens, a) && Used(lens, b)
    requires lens[a] < lens[b] || (lens[a] == lens[b] && a < b)
    ensures Slot(lens, a) < Slot(lens, b)
  {
    SlotInside(lens, a);
    SlotInside(lens, b);
    if lens[a] < lens[b] {
      FirstSlotMono(lens, lens[a] + 1, lens[b]);
    } else {
      CountStrict(lens, a, b);
    }
  }

  lemma SlotInjective(lens: seq<nat>, a: nat, b: nat)
    requires Used(lens, a) && Used(lens, b) && a != b
    ensures Slot(lens, a) != Slot(lens, b)
  {
    if lens[a] < lens[b] || (lens[a] == lens[b] && a < b) {
      SlotOrder(lens, a, b);
    } else {
      SlotOrder(lens, b, a);
    }
  }

  /** Every slot below the number of used symbols holds exactly one of them. */
  lemma {:induction false} SlotOnto(lens: seq<nat>, s: nat, slot: nat) returns (sym: nat)
    requires s <= MAX_LEN && slot < FirstSlot(lens, s + 1)
    ensures Used(lens, sym) && lens[sym] <= s && Slot(lens, sym) == slot
  {
    if slot >= FirstSlot(lens, s) {
      sym := SymbolOfRank(lens, |lens|, s, slot - FirstSlot(lens, s));
    } else {
      sym := SlotOnto(lens, s - 1, slot);
    }
  }

  lemma LengthOne(lens: seq<nat>)
    ensures FirstCode(lens, 1) == 0 && FirstSlot(lens, 1) == 0
  {
    assert FirstCode(lens, 0) == 0;
  }

  /** What one step of the code assignment advances. */
  lemma NextLength(lens: seq<nat>, i: nat)
    requires 1 <= i
    ensures FirstCode(lens, i + 1) == 2 * (FirstCode(lens, i) + BlCount(lens, i))
    ensures FirstSlot(lens, i + 1) == FirstSlot(lens, i) + BlCount(lens, i)
    ensures i <= MAX_LEN ==> Bound(lens, i) == Shl(FirstCode(lens, i) + BlCount(lens, i), MAX_LEN - i)
    ensures Shl(FirstCode(lens, i), 1) == 2 * FirstCode(lens, i)
  {
    assert Shl(FirstCode(lens, i), 0) == FirstCode(lens, i);
  }

  /** The length found by comparing with the bounds, and the slot it leads to, name exactly the symbol looked up. */
  lemma SlowLookup(lens: seq<nat>, w: nat, s: nat) returns (sym: nat)
    requires 1 <= s <= MAX_LEN && Bound(lens, s - 1) <= w < Bound(lens, s)
    ensures Lookup(lens, w) == Some(sym) && lens[sym] == s
    ensures FirstCode(lens, s) <= Shr(w, 16 - s)
    ensures Slot(lens, sym) == Shr(w, 16 - s) - FirstCode(lens, s) + FirstSlot(lens, s)
    ensures Slot(lens, sym) < |lens|
  {
    sym := IntervalHit(lens, w, s);
    LookupIs(lens, w, sym);
    CodeInInterval(lens, sym);
    SlotInside(lens, sym);
  }
}
