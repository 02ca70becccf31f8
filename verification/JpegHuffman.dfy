/** The JPEG Huffman table: built from the number of codes of each length (Annex C of ITU-T T.81),
    searched through a 9-bit table and then by length. */
module JpegHuffman {
  import opened Bits
  import opened Canonical
  import opened Slots

  const FAST_BITS := 9
  const FAST_SIZE := 512
  const NOT_ACCELERATED := 255

  // ----- code lengths -----

  /** The code lengths a table segment gives its symbols: `count[i]` symbols of length `i + 1`. */
  function SizesUpTo(count: seq<nat>, i: nat): (s: seq<nat>)
    requires i <= |count| == 16
    ensures Lengths(s, i)
  {
    if i == 0 then [] else SizesUpTo(count, i - 1) + Repeat(i, count[i - 1])
  }

  ghost predicate Sorted(lens: seq<nat>)
  {
    (forall i :: 0 <= i < |lens| ==> Used(lens, i))
    && forall i, j :: 0 <= i < j < |lens| ==> lens[i] <= lens[j]
  }

  lemma {:induction false} SizesSorted(count: seq<nat>, i: nat)
    requires i <= |count| == 16
    ensures Sorted(SizesUpTo(count, i)) && Lengths(SizesUpTo(count, i), i)
  {
    if i > 0 {
      SizesSorted(count, i - 1);
      var before, lens := SizesUpTo(count, i - 1), SizesUpTo(count, i);
      forall k | 0 <= k < |lens| ensures Used(lens, k) {
        if k < |before| { assert Used(before, k); }
      }
    }
  }

  /** The list has exactly the counted symbols of each length. */
  lemma {:induction false} SizesCount(count: seq<nat>, i: nat, s: nat)
    requires i <= |count| == 16 && 1 <= s <= 16
    ensures BlCount(SizesUpTo(count, i), s) == if s <= i then count[s - 1] else 0
  {
    if i > 0 {
      SizesCount(count, i - 1, s);
      CountRepeat(SizesUpTo(count, i - 1), i, count[i - 1], s);
    }
  }

  lemma {:induction false} CountRepeat(a: seq<nat>, v: nat, n: nat, s: nat)
    ensures Count(a + Repeat(v, n), |a| + n, s) == Count(a, |a|, s) + (if v == s then n else 0)
  {
    if n == 0 {
      assert a + Repeat(v, 0) == a;
    } else {
      CountRepeat(a, v, n - 1, s);
      CountTake(a + Repeat(v, n - 1), a + Repeat(v, n), |a| + n - 1, s);
    }
  }

  lemma {:induction false} CountTake(a: seq<nat>, b: seq<nat>, n: nat, s: nat)
    requires n <= |a| <= |b| && a == b[..|a|]
    ensures Count(a, n, s) == Count(b, n, s)
  {
    if n > 0 { CountTake(a, b, n - 1, s); }
  }

  // ----- symbols in code order -----

  /** In a sorted list every symbol is its own slot. */
  lemma SortedSlot(lens: seq<nat>, i: nat)
    requires Sorted(lens) && i < |lens|
    ensures Slot(lens, i) == i
  {
    SlotLow(lens, i);
    SlotHigh(lens, i);
  }

  lemma {:induction false} SlotLow(lens: seq<nat>, i: nat)
    requires Sorted(lens) && i < |lens|
    ensures i <= Slot(lens, i)
  {
    hide Slot, Used;
    if i > 0 {
      SlotLow(lens, i - 1);
      SlotOrder(lens, i - 1, i);
    }
  }

  lemma {:induction false} SlotHigh(lens: seq<nat>, i: nat)
    requires Sorted(lens) && i < |lens|
    ensures Slot(lens, i) <= i
    decreases |lens| - i
  {
    hide Slot;
    SlotInside(lens, i);
    if i + 1 < |lens| {
      SlotHigh(lens, i + 1);
      SlotOrder(lens, i, i + 1);
    }
  }

  /** While codes of length `j` are handed out, the next code is the canonical one. */
  lemma CodeInOrder(lens: seq<nat>, j: nat, k: nat)
    requires Sorted(lens) && k < |lens| && lens[k] == j
    ensures FirstSlot(lens, j) <= k < FirstSlot(lens, j + 1)
    ensures CodeOf(lens, k) == FirstCode(lens, j) + (k - FirstSlot(lens, j))
  {
    SortedSlot(lens, k);
    SlotInside(lens, k);
  }

  /** They are all handed out when a longer one comes. */
  lemma LengthDone(lens: seq<nat>, j: nat, k: nat)
    requires Sorted(lens) && 1 <= j <= 16 && FirstSlot(lens, j) <= k <= FirstSlot(lens, j + 1)
    requires k == |lens| || (k < |lens| && lens[k] != j)
    ensures k == FirstSlot(lens, j + 1)
  {
    FirstSlotBound(lens, j + 1);
    if k < FirstSlot(lens, j + 1) {
      var sym := SlotOnto(lens, j, k);
      SortedSlot(lens, sym);
      SlotInside(lens, k);
      FirstSlotMono(lens, lens[k] + 1, j);
    }
  }

  lemma AllListed(lens: seq<nat>)
    requires Sorted(lens)
    ensures FirstSlot(lens, 17) == |lens|
  {
    FirstSlotBound(lens, 17);
    if |lens| > 0 {
      var last := |lens| - 1;
      SortedSlot(lens, last);
      SlotInside(lens, last);
      FirstSlotMono(lens, lens[last] + 1, 17);
    }
  }

  // ----- searching -----

  /** The 9 bits `c` start with the code of `sym`, which is short. */
  predicate FastMatch(lens: seq<nat>, sym: nat, c: nat)
  {
    Used(lens, sym) && lens[sym] <= FAST_BITS && Shr(c, FAST_BITS - lens[sym]) == CodeOf(lens, sym)
  }

  /** Entry `c` of the fast table after the first `n` symbols. */
  function FastEntry(lens: seq<nat>, n: nat, c: nat): nat
    requires n <= |lens|
  {
    if n == 0 then NOT_ACCELERATED else if FastMatch(lens, n - 1, c) then n - 1 else FastEntry(lens, n - 1, c)
  }

  lemma {:induction false} FastEntryIs(lens: seq<nat>, n: nat, c: nat)
    requires n <= |lens|
    ensures var e := FastEntry(lens, n, c);
            (e < n && FastMatch(lens, e, c))
              || (e == NOT_ACCELERATED && forall sym :: 0 <= sym < n ==> !FastMatch(lens, sym, c))
  {
    if n > 0 { FastEntryIs(lens, n - 1, c); }
  }

  lemma FastMatchIsHit(lens: seq<nat>, sym: nat, w: nat)
    requires Used(lens, sym) && lens[sym] <= FAST_BITS
    ensures FastMatch(lens, sym, Shr(w, 7)) <==> Hit(lens, w, sym)
  {
    ShrShr(w, 7, FAST_BITS - lens[sym]);
  }

  /** The fast table names the symbol of a short code, or says that there is none. */
  lemma FastIsLookup(lens: seq<nat>, w: nat)
    ensures var l := Lookup(lens, w);
            FastEntry(lens, |lens|, Shr(w, 7)) == if l.Some? && lens[l.value] <= FAST_BITS then l.value
              else NOT_ACCELERATED
  {
    hide FastMatch, Shr;
    var c, l := Shr(w, 7), Lookup(lens, w);
    FastEntryIs(lens, |lens|, c);
    var e := FastEntry(lens, |lens|, c);
    if l.Some? { UsedInside(lens, l.value); }
    if l.Some? && lens[l.value] <= FAST_BITS {
      HitUsed(lens, w, l.value);
      FastMatchIsHit(lens, l.value, w);
      MatchUsed(lens, e, c);
      FastMatchIsHit(lens, e, w);
      PrefixFree(lens, w, e, l.value);
    } else if e < |lens| && FastMatch(lens, e, c) {
      MatchUsed(lens, e, c);
      FastMatchIsHit(lens, e, w);
      LookupIs(lens, w, e);
    }
  }

  lemma HitUsed(lens: seq<nat>, w: nat, sym: nat)
    requires Hit(lens, w, sym)
    ensures Used(lens, sym)
  {}

  lemma MatchUsed(lens: seq<nat>, sym: nat, c: nat)
    requires FastMatch(lens, sym, c)
    ensures Used(lens, sym) && lens[sym] <= FAST_BITS
  {}

  /** The first length from `k` up whose bound is above the lookahead, or 17. */
  function SlowSize(lens: seq<nat>, w: nat, k: nat): (s: nat)
    requires k <= 17
    ensures k <= s <= 17 && (s < 17 ==> w < Bound(lens, s))
    decreases 17 - k
  {
    if k == 17 || w < Bound(lens, k) then k else SlowSize(lens, w, k + 1)
  }

  datatype Symbol = Symbol(id: nat, size: nat)

  /** What the program finds for a lookahead of 16 bits: a symbol and how many bits it takes. */
  ghost function Found(lens: seq<nat>, w: nat): (r: Option<Symbol>)
    ensures r.Some? ==> r.value.id < 256
  {
    var e := FastEntry(lens, |lens|, Shr(w, 7));
    if e < NOT_ACCELERATED && e < |lens| then Some(Symbol(e, lens[e]))
    else
      var k := SlowSize(lens, w, FAST_BITS + 1);
      if k == 17 then None else
      var c := Shr(w, 16 - k) + FirstSlot(lens, k) - FirstCode(lens, k);
      if 0 <= c < 256 then Some(Symbol(c, k)) else None
  }

  /** What the code says: the symbol whose code starts the lookahead. */
  ghost function Wanted(lens: seq<nat>, w: nat): (r: Option<Symbol>)
    ensures r.Some? ==> r.value.id < |lens|
  {
    match Lookup(lens, w)
    case None => None
    case Some(sym) => Some(Symbol(sym, lens[sym]))
  }

  /** Symbol 255 has a code short enough for the fast table, where its number means something else. */
  predicate Collides(lens: seq<nat>)
  {
    |lens| > NOT_ACCELERATED && lens[NOT_ACCELERATED] <= FAST_BITS
  }

  lemma {:induction false} SlowSizeIs(lens: seq<nat>, w: nat, k: nat, s: nat)
    requires k <= s <= 17 && (s < 17 ==> w < Bound(lens, s)) && (k < s ==> s > 0 && Bound(lens, s - 1) <= w)
    ensures SlowSize(lens, w, k) == s
    decreases s - k
  {
    hide Bound;
    if k < s {
      BoundMono(lens, k, s - 1);
      SlowSizeIs(lens, w, k + 1, s);
    }
  }

  /** Away from the collision the accelerated search finds what the code says. */
  lemma FoundIsWanted(lens: seq<nat>, w: nat)
    requires Sorted(lens) && |lens| <= 256 && !Collides(lens)
    ensures Found(lens, w) == Wanted(lens, w)
  {
    hide Bound, FastEntry, Hit, Used, Slot, FirstSlot, FirstCode, SlowSize;
    FastIsLookup(lens, w);
    LookupDefined(lens, w);
    match Lookup(lens, w) {
      case None =>
        SlowSizeIs(lens, w, FAST_BITS + 1, 17);
      case Some(sym) =>
        HitUsed(lens, w, sym);
        UsedInside(lens, sym);
        if lens[sym] > FAST_BITS { SlowFinds(lens, w, sym); }
    }
  }

  lemma UsedInside(lens: seq<nat>, sym: nat)
    requires Used(lens, sym)
    ensures sym < |lens| && 1 <= lens[sym] <= 16
  {}

  /** The comparison with the bounds finds every long code. */
  lemma SlowFinds(lens: seq<nat>, w: nat, sym: nat)
    requires Sorted(lens) && |lens| <= 256 && Hit(lens, w, sym) && lens[sym] > FAST_BITS
    ensures var k := SlowSize(lens, w, FAST_BITS + 1);
            k == lens[sym] <= 16 && Shr(w, 16 - k) + FirstSlot(lens, k) - FirstCode(lens, k) == sym
  {
    hide Bound, FastEntry, FirstSlot, FirstCode;
    HitInterval(lens, w, sym);
    SlowSizeIs(lens, w, FAST_BITS + 1, lens[sym]);
    SortedSlot(lens, sym);
  }

  /** The check behind the program's own assertion: the code found is the code of the symbol. */
  lemma AssertionHolds(lens: seq<nat>, w: nat)
    requires Sorted(lens) && |lens| <= 256 && !Collides(lens) && Found(lens, w).Some?
    ensures var f := Found(lens, w).value;
            Used(lens, f.id) && lens[f.id] == f.size && Shr(w, 16 - f.size) == CodeOf(lens, f.id)
  {
    FoundIsWanted(lens, w);
  }

  /** With a collision, a lookahead that starts with the code of symbol 255 is read wrongly: either
      no symbol is found or too many bits are taken. */
  lemma CollisionMisread(lens: seq<nat>, w: nat)
    requires Sorted(lens) && |lens| == 256 && Collides(lens) && Hit(lens, w, 255)
    ensures Wanted(lens, w) == Some(Symbol(255, lens[255]))
    ensures Found(lens, w) != Wanted(lens, w)
    ensures Found(lens, w).None? || Found(lens, w).value.size > FAST_BITS
  {
    hide Bound, FirstSlot, FirstCode, FastEntry;
    LookupIs(lens, w, 255);
    FastIsLookup(lens, w);
  }

  /** Every symbol has a lookahead. */
  lemma HasLookahead(lens: seq<nat>, sym: nat) returns (w: nat)
    requires Used(lens, sym) && Fits(lens)
    ensures w < Pow2(16) && Hit(lens, w, sym)
  {
    hide FirstCode, Count, Shl, Shr;
    var s := lens[sym];
    CodeInInterval(lens, sym);
    assert EndCode(lens, s) <= Pow2(s);
    w := Shl(CodeOf(lens, sym), 16 - s);
    ShrExact(CodeOf(lens, sym), 16 - s);
    ShlMono(CodeOf(lens, sym) + 1, Pow2(s), 16 - s);
    ShlAdd(CodeOf(lens, sym), 1, 16 - s);
    ShlShl(1, s, 16 - s);
  }

  lemma ShrExact(v: nat, n: nat)
    ensures Shr(Shl(v, n), n) == v
  {
    Join(0, v, n);
  }

  /** The accelerated search agrees with the code on every lookahead exactly when symbol 255 does not
      have one of the short codes. */
  lemma AgreesUnlessCollides(lens: seq<nat>)
    requires Sorted(lens) && |lens| <= 256 && Fits(lens)
    ensures (forall w: nat :: w < Pow2(16) ==> Found(lens, w) == Wanted(lens, w)) <==> !Collides(lens)
  {
    hide Found, Wanted, Fits, Pow2, Used, Hit;
    if Collides(lens) {
      ListedUsed(lens, 255);
      var w := HasLookahead(lens, 255);
      CollisionMisread(lens, w);
    } else {
      forall w: nat | w < Pow2(16) ensures Found(lens, w) == Wanted(lens, w) {
        FoundIsWanted(lens, w);
      }
    }
  }

  lemma ListedUsed(lens: seq<nat>, sym: nat)
    requires Sorted(lens) && sym < |lens|
    ensures Used(lens, sym)
  {}

  /** The codes of up to `n` bits come first, and the others are longer. */
  lemma {:induction false} ShortFirst(count: seq<nat>, n: nat, i: nat)
    requires n <= i <= |count| == 16
    ensures |SizesUpTo(count, n)| <= |SizesUpTo(count, i)|
    ensures forall k :: 0 <= k < |SizesUpTo(count, n)| ==> SizesUpTo(count, i)[k] <= n
    ensures forall k :: |SizesUpTo(count, n)| <= k < |SizesUpTo(count, i)| ==> SizesUpTo(count, i)[k] > n
  {
    if i > n { ShortFirst(count, n, i - 1); }
  }

  /** What a caller can tell from the sixteen counts: the tables that are accepted are searched
      correctly exactly when the codes of up to nine bits do not number 256. */
  lemma AgreesByCounts(count: seq<nat>)
    requires |count| == 16 && |SizesUpTo(count, 16)| <= 256 && Fits(SizesUpTo(count, 16))
    ensures var lens := SizesUpTo(count, 16);
            (forall w: nat :: w < Pow2(16) ==> Found(lens, w) == Wanted(lens, w))
              <==> |SizesUpTo(count, FAST_BITS)| != 256
  {
    hide Found, Wanted, Fits, Pow2, SizesUpTo, Sorted;
    SizesSorted(count, 16);
    ShortFirst(count, FAST_BITS, 16);
    AgreesUnlessCollides(SizesUpTo(count, 16));
  }

  /** 255 codes of eight bits and one of nine. */
  function CollidingCounts(): (count: seq<nat>)
    ensures |count| == 16 && forall i :: 0 <= i < 16 ==> count[i] == if i == 7 then 255 else if i == 8 then 1 else 0
  {
    [0, 0, 0, 0, 0, 0, 0, 255, 1, 0, 0, 0, 0, 0, 0, 0]
  }

  /** They are counts that single bytes can hold, the table they describe is accepted, and it collides. */
  lemma CollisionHappens()
    ensures forall i :: 0 <= i < 16 ==> CollidingCounts()[i] <= 255
    ensures var lens := SizesUpTo(CollidingCounts(), 16); |lens| == 256 && Sorted(lens) && Fits(lens) && Collides(lens)
  {
    hide SizesUpTo, CollidingCounts;
    var count := CollidingCounts();
    var lens := SizesUpTo(count, 16);
    SizesSorted(count, 16);
    CollidingTotal(16);
    CollidingTotal(9);
    ShortFirst(count, 9, 16);
    forall s | 1 <= s <= MAX_LEN ensures EndCode(lens, s) <= Pow2(s) {
      CollidingEnds(s);
    }
  }

  lemma SizesStep(count: seq<nat>, i: nat)
    requires i <= |count| == 16
    ensures |SizesUpTo(count, i)| == if i == 0 then 0 else |SizesUpTo(count, i - 1)| + count[i - 1]
  {
    hide Repeat;
  }

  lemma {:induction false} CollidingTotal(i: nat)
    requires i <= 16
    ensures |SizesUpTo(CollidingCounts(), i)| == if i < 8 then 0 else if i == 8 then 255 else 256
  {
    hide CollidingCounts, SizesUpTo, Repeat;
    SizesStep(CollidingCounts(), i);
    if i > 0 { CollidingTotal(i - 1); }
  }

  lemma {:induction false} CollidingEnds(s: nat)
    requires s <= MAX_LEN
    ensures var lens := SizesUpTo(CollidingCounts(), 16);
            EndCode(lens, s) <= Pow2(s) && (s < 8 ==> EndCode(lens, s) == 0)
            && (s == 8 ==> EndCode(lens, s) == 255) && (s == 9 ==> EndCode(lens, s) == 511)
  {
    hide SizesUpTo, Count;
    SmallPowers();
    if s > 0 {
      CollidingEnds(s - 1);
      SizesCount(CollidingCounts(), 16, s);
      assert EndCode(SizesUpTo(CollidingCounts(), 16), s) ==
             2 * EndCode(SizesUpTo(CollidingCounts(), 16), s - 1) + CollidingCounts()[s - 1];
    }
  }
}
