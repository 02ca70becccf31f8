/** The decoder's Huffman table: a 9-bit table for short codes and, per length, the numbers the
    slow path searches. Building it and what each part of it holds. */
module ZHuffman {
  import opened Bits
  import opened Canonical
  import opened Slots

  const FAST_BITS := 9
  const FAST_SIZE := 512
  const NUM_SYMBOLS := 288

  // ----- the fast table -----

  /** The low bits of `j`, first stream bit lowest, are the code of `sym`, which is short. */
  predicate FastMatch(lens: seq<nat>, sym: nat, j: nat)
  {
    Used(lens, sym) && lens[sym] <= FAST_BITS && Low(j, lens[sym]) == Reverse(CodeOf(lens, sym), lens[sym])
  }

  /** Entry `j` of the fast table after the first `n` symbols: length and symbol, or 0. */
  function FastEntry(lens: seq<nat>, n: nat, j: nat): nat
    requires n <= |lens|
  {
    if n == 0 then 0
    else if FastMatch(lens, n - 1, j) then lens[n - 1] * 512 + (n - 1)
    else FastEntry(lens, n - 1, j)
  }

  lemma FastStep(lens: seq<nat>, i: nat, j: nat)
    requires i < |lens|
    ensures FastEntry(lens, i + 1, j) ==
            if Used(lens, i) && lens[i] <= FAST_BITS && Low(j, lens[i]) == Reverse(CodeOf(lens, i), lens[i])
            then lens[i] * 512 + i else FastEntry(lens, i, j)
  {}

  lemma {:induction false} FastEntryIs(lens: seq<nat>, n: nat, j: nat)
    requires n <= |lens| <= 512
    ensures FastEntry(lens, n, j) == 0 ==> forall sym :: 0 <= sym < n ==> !FastMatch(lens, sym, j)
    ensures FastEntry(lens, n, j) != 0 ==>
              var sym := FastEntry(lens, n, j) % 512;
              FastMatch(lens, sym, j) && FastEntry(lens, n, j) / 512 == lens[sym]
  {
    if n > 0 { FastEntryIs(lens, n - 1, j); }
  }

  /** A short symbol matches nine stream bits exactly when its code starts the 16-bit lookahead. */
  lemma FastMatchIsHit(lens: seq<nat>, sym: nat, buffer: nat)
    requires Fits(lens) && Used(lens, sym) && lens[sym] <= FAST_BITS
    ensures FastMatch(lens, sym, Low(buffer, FAST_BITS)) <==> Hit(lens, Reverse(buffer, 16), sym)
  {
    var s, c := lens[sym], CodeOf(lens, sym);
    LowLow(buffer, s, FAST_BITS);
    ReverseTop(buffer, s, 16);
    CodeInInterval(lens, sym);
    assert EndCode(lens, s) <= Pow2(s);
    ReverseReverse(c, s);
    LowBound(buffer, s);
    ReverseReverse(Low(buffer, s), s);
    ReverseLow(buffer, s, s);
  }

  /** The fast table answers for every lookahead whose symbol is short, and only for those. */
  lemma FastLookup(lens: seq<nat>, buffer: nat)
    requires Fits(lens) && |lens| <= 512
    ensures var e, w := FastEntry(lens, |lens|, Low(buffer, FAST_BITS)), Reverse(buffer, 16);
            && (e != 0 ==> Lookup(lens, w) == Some(e % 512) && Used(lens, e % 512) && e / 512 == lens[e % 512])
            && (e == 0 ==> w >= Bound(lens, FAST_BITS))
  {
    var j, w := Low(buffer, FAST_BITS), Reverse(buffer, 16);
    var e := FastEntry(lens, |lens|, j);
    FastEntryIs(lens, |lens|, j);
    if e != 0 {
      FastMatchIsHit(lens, e % 512, buffer);
      LookupIs(lens, w, e % 512);
    } else if w < Bound(lens, FAST_BITS) {
      var s := FirstAbove(lens, w, FAST_BITS);
      var sym := IntervalHit(lens, w, s);
      FastMatchIsHit(lens, sym, buffer);
    }
  }

  lemma SameLow(j: nat, x: nat, s: nat)
    requires j < x && Low(j, s) == Low(x, s)
    ensures x >= j + Pow2(s)
  {
    Split(j, s);
    Split(x, s);
    if Shr(x, s) <= Shr(j, s) {
      ShlMono(Shr(x, s), Shr(j, s), s);
    } else {
      ShlMono(Shr(j, s) + 1, Shr(x, s), s);
      ShlAdd(Shr(j, s), 1, s);
    }
  }

  lemma NoneCounted(lens: seq<nat>)
    ensures forall s :: Count(lens, 0, s) == 0
    ensures forall j :: FastEntry(lens, 0, j) == 0
  {}

  lemma OneCounted(lens: seq<nat>, i: nat)
    requires i < |lens|
    ensures forall s :: Count(lens, i + 1, s) == Count(lens, i, s) + (if lens[i] == s then 1 else 0)
    ensures lens[i] == 0 ==> forall j :: FastEntry(lens, i + 1, j) == FastEntry(lens, i, j)
  {}

  // ----- the table -----

  class Table {
    const fast: array<nat>
    const firstcode: array<nat>
    const maxcode: array<nat>
    const firstsymbol: array<nat>
    const size: array<nat>
    const value: array<nat>
    /** The length list the table was last built for. */
    ghost var lens: seq<nat>

    ghost predicate Shape()
    {
      && fast.Length == FAST_SIZE && firstcode.Length == 16 && maxcode.Length == 17
      && firstsymbol.Length == 16 && size.Length == NUM_SYMBOLS && value.Length == NUM_SYMBOLS
      && fast != firstcode && fast != firstsymbol && fast != size && fast != value && fast != maxcode
      && firstcode != firstsymbol && firstcode != size && firstcode != value && firstcode != maxcode
      && firstsymbol != size && firstsymbol != value && firstsymbol != maxcode
      && size != value && size != maxcode && value != maxcode
    }

    ghost function Repr(): set<object>
    {
      {this, fast, firstcode, maxcode, firstsymbol, size, value}
    }

    ghost predicate FastUpTo(sizelist: seq<nat>, n: nat)
      requires Shape() && n <= |sizelist|
      reads fast
    {
      forall j :: 0 <= j < FAST_SIZE ==> fast[j] == FastEntry(sizelist, n, j)
    }

    ghost predicate RangesUpTo(sizelist: seq<nat>, n: nat)
      requires Shape() && n <= 15
      reads firstcode, firstsymbol, maxcode
    {
      forall s :: 1 <= s <= n ==>
        firstcode[s] == FirstCode(sizelist, s) && firstsymbol[s] == FirstSlot(sizelist, s)
        && maxcode[s] == Bound(sizelist, s)
    }

    ghost predicate SlotsUpTo(sizelist: seq<nat>, n: nat)
      requires Shape() && n <= |sizelist| <= NUM_SYMBOLS
      reads size, value
    {
      forall sym :: 0 <= sym < n && Used(sizelist, sym) ==>
        Slot(sizelist, sym) < NUM_SYMBOLS
        && size[Slot(sizelist, sym)] == sizelist[sym] && value[Slot(sizelist, sym)] == sym
    }

    /** The table decodes the canonical code of `lens`. */
    ghost predicate Valid()
      reads Repr()
    {
      && Shape()
      && |lens| <= NUM_SYMBOLS && Lengths(lens, 15) && Fits(lens)
      && FastUpTo(lens, |lens|)
      && RangesUpTo(lens, 15) && maxcode[16] == 0x10000
      && SlotsUpTo(lens, |lens|)
    }

    constructor ()
      ensures Shape() && fresh(Repr())
    {
      fast := new nat[FAST_SIZE];
      firstcode := new nat[16];
      maxcode := new nat[17];
      firstsymbol := new nat[16];
      size := new nat[NUM_SYMBOLS];
      value := new nat[NUM_SYMBOLS];
      lens := [];
    }

    method CountSizes(sizelist: seq<nat>) returns (sizes: array<nat>)
      requires Lengths(sizelist, 15)
      ensures fresh(sizes) && sizes.Length == 17
      ensures forall s :: 0 <= s <= 15 ==> sizes[s] == BlCount(sizelist, s)
    {
      sizes := new nat[17](_ => 0);
      for i := 0 to |sizelist|
        invariant forall s :: 0 <= s < 17 ==> sizes[s] == Count(sizelist, i, s)
      {
        sizes[sizelist[i]] := sizes[sizelist[i]] + 1;
      }
      sizes[0] := 0;
    }

    /** The first code, first slot and left-aligned end of every length, unless some length overflows. */
    method AssignCodes(sizelist: seq<nat>, sizes: array<nat>, nextCode: array<nat>) returns (ok: bool)
      requires Shape() && Lengths(sizelist, 15) && |sizelist| <= NUM_SYMBOLS
      requires sizes.Length == 17 && forall s :: 0 <= s <= 15 ==> sizes[s] == BlCount(sizelist, s)
      requires nextCode.Length == 16
      requires {sizes, nextCode} !! Repr() && sizes != nextCode
      modifies firstcode, firstsymbol, maxcode, nextCode
      ensures ok <==> Fits(sizelist)
      ensures ok ==> RangesUpTo(sizelist, 15) && maxcode[16] == 0x10000
      ensures ok ==> forall s :: 1 <= s <= 15 ==> nextCode[s] == FirstCode(sizelist, s)
    {
      hide FirstCode, FirstSlot, BlCount, Bound;
      var code, k := 0, 0;
      LengthOne(sizelist);
      for i := 1 to 16
        invariant code == FirstCode(sizelist, i) && k == FirstSlot(sizelist, i) && code <= Shl(1, i)
        invariant forall t :: 1 <= t < i ==> EndCode(sizelist, t) <= Pow2(t)
        invariant RangesUpTo(sizelist, i - 1)
        invariant forall s :: 1 <= s < i ==> nextCode[s] == FirstCode(sizelist, s)
        invariant sizes[..] == old(sizes[..])
      {
        NextLength(sizelist, i);
        BeginLength(sizelist, i, code, k, nextCode);
        code := code + sizes[i];
        if sizes[i] != 0 {
          if code - 1 >= Shl(1, i) {
            assert EndCode(sizelist, i) > Pow2(i);
            return false;
          }
        }
        maxcode[i] := Shl(code, 16 - i);
        code := 2 * code;
        k := k + sizes[i];
      }
      maxcode[16] := 0x10000;
      FitsUpTo15(sizelist);
      ok := true;
    }

    method BeginLength(ghost sizelist: seq<nat>, i: nat, code: nat, k: nat, nextCode: array<nat>)
      requires Shape() && 1 <= i <= 15 && |sizelist| <= NUM_SYMBOLS
      requires nextCode.Length == 16 && {nextCode} !! Repr()
      requires code == FirstCode(sizelist, i) && k == FirstSlot(sizelist, i) && code <= Shl(1, i)
      requires RangesUpTo(sizelist, i - 1)
      modifies firstcode, firstsymbol, nextCode
      ensures RangesUpTo(sizelist, i - 1)
      ensures firstcode[i] == FirstCode(sizelist, i) && firstsymbol[i] == FirstSlot(sizelist, i)
      ensures nextCode[..] == old(nextCode[..])[i := FirstCode(sizelist, i)]
    {
      hide FirstCode, FirstSlot, Bound;
      Pow2Mono(i, 15);
      SmallPowers();
      FirstSlotBound(sizelist, i);
      nextCode[i] := code;
      firstcode[i] := code % 0x10000;
      firstsymbol[i] := k % 0x10000;
    }

    /** Store `entry` at every index congruent to `start`. */
    method FillFast(start: nat, s: nat, entry: nat)
      requires Shape() && s <= FAST_BITS && start < Pow2(s)
      modifies fast
      ensures forall j :: 0 <= j < FAST_SIZE ==>
                fast[j] == if Low(j, s) == start then entry else old(fast[j])
    {
      var j := start;
      forall x: nat | x <= start ensures Low(x, s) == x {
        SmallLow(x, s);
      }
      while j < FAST_SIZE
        invariant Low(j, s) == start
        invariant forall x :: 0 <= x < FAST_SIZE ==>
                    fast[x] == if x < j && Low(x, s) == start then entry else old(fast[x])
        decreases FAST_SIZE + Pow2(s) - j
      {
        fast[j] := entry;
        LowAddPow2(j, s, s);
        forall x: nat | j < x < j + Pow2(s) ensures Low(x, s) != start {
          if Low(x, s) == start { SameLow(j, x, s); }
        }
        j := j + Shl(1, s);
      }
    }

    /** `stbi__zbuild_huffman`: accepts exactly the length lists whose codes fit. */
    method Build(sizelist: seq<nat>) returns (ok: bool)
      requires Shape() && Lengths(sizelist, 15) && |sizelist| <= NUM_SYMBOLS
      modifies this, fast, firstcode, firstsymbol, maxcode, size, value
      ensures ok <==> Fits(sizelist)
      ensures ok ==> Valid() && lens == sizelist
    {
      for i := 0 to FAST_SIZE
        invariant forall j :: 0 <= j < i ==> fast[j] == 0
      {
        fast[i] := 0;
      }
      var sizes := CountSizes(sizelist);
      for i := 1 to 16
      {
        if sizes[i] > Shl(1, i) {
          assert EndCode(sizelist, i) > Pow2(i);
          return false;
        }
      }
      var nextCode := new nat[16];
      ok := AssignCodes(sizelist, sizes, nextCode);
      if !ok { return; }
      FillTables(sizelist, nextCode);
      lens := sizelist;
    }

    method FillTables(sizelist: seq<nat>, nextCode: array<nat>)
      requires Shape() && Lengths(sizelist, 15) && |sizelist| <= NUM_SYMBOLS && Fits(sizelist)
      requires nextCode.Length == 16 && {nextCode} !! Repr()
      requires RangesUpTo(sizelist, 15)
      requires forall s :: 1 <= s <= 15 ==> nextCode[s] == FirstCode(sizelist, s)
      requires forall j :: 0 <= j < FAST_SIZE ==> fast[j] == 0
      modifies fast, size, value, nextCode
      ensures FastUpTo(sizelist, |sizelist|) && SlotsUpTo(sizelist, |sizelist|)
    {
      hide FastEntry, FastMatch, FirstCode, FirstSlot, Bound, Count;
      NoneCounted(sizelist);
      for i := 0 to |sizelist|
        invariant forall s :: 1 <= s <= 15 ==> nextCode[s] == FirstCode(sizelist, s) + Count(sizelist, i, s)
        invariant FastUpTo(sizelist, i) && SlotsUpTo(sizelist, i)
        invariant RangesUpTo(sizelist, 15)
      {
        var s := sizelist[i];
        OneCounted(sizelist, i);
        if s != 0 {
          AddSymbol(sizelist, i, nextCode);
          nextCode[s] := nextCode[s] + 1;
        }
      }
    }

    method AddSymbol(sizelist: seq<nat>, i: nat, nextCode: array<nat>)
      requires Shape() && Lengths(sizelist, 15) && |sizelist| <= NUM_SYMBOLS && Fits(sizelist)
      requires nextCode.Length == 16 && {nextCode} !! Repr()
      requires i < |sizelist| && sizelist[i] != 0
      requires nextCode[sizelist[i]] == CodeOf(sizelist, i)
      requires FastUpTo(sizelist, i) && SlotsUpTo(sizelist, i) && RangesUpTo(sizelist, 15)
      modifies fast, size, value
      ensures FastUpTo(sizelist, i + 1) && SlotsUpTo(sizelist, i + 1)
    {
      hide FastEntry, FastMatch, FirstCode, FirstSlot, Bound, Count, BitReverse, Reverse, Low, Shl;
      var s := sizelist[i];
      var c := nextCode[s] - firstcode[s] + firstsymbol[s];
      StoreSymbol(sizelist, i, c);
      if s <= FAST_BITS {
        BitReverseReverses(nextCode[s], s);
        ReverseBound(nextCode[s], s);
        FillFast(BitReverse(nextCode[s], s), s, (s * 512 + i) % 0x10000);
      }
      forall j | 0 <= j < FAST_SIZE ensures fast[j] == FastEntry(sizelist, i + 1, j) {
        FastStep(sizelist, i, j);
      }
    }

    method StoreSymbol(sizelist: seq<nat>, i: nat, c: nat)
      requires Shape() && Lengths(sizelist, 15) && |sizelist| <= NUM_SYMBOLS
      requires i < |sizelist| && sizelist[i] != 0 && c == Slot(sizelist, i)
      requires SlotsUpTo(sizelist, i)
      modifies size, value
      ensures SlotsUpTo(sizelist, i + 1)
    {
      hide FirstSlot, Count;
      SlotInside(sizelist, i);
      forall a | 0 <= a < i && Used(sizelist, a) ensures Slot(sizelist, a) != c {
        SlotInjective(sizelist, a, i);
      }
      size[c] := sizelist[i] % 0x100;
      value[c] := i % 0x10000;
    }
  }
}
