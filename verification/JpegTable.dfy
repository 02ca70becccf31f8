/** `stbi__build_huffman`: filling the arrays of a JPEG Huffman table. */
module JpegTable {
  import opened Bits
  import opened Canonical
  import opened Slots
  import opened JpegHuffman

  class Huffman {
    const fast: array<nat>
    const code: array<nat>
    const values: array<byte>
    const size: array<nat>
    const maxcode: array<nat>
    const delta: array<int>
    /** The code lengths the table was last built for. */
    ghost var lens: seq<nat>

    ghost predicate Shape()
    {
      && fast.Length == FAST_SIZE && code.Length == 256 && values.Length == 256 && size.Length == 257
      && maxcode.Length == 18 && delta.Length == 17
      && fast != code && fast != size && fast != maxcode && code != size && code != maxcode && size != maxcode
    }

    ghost function Repr(): set<object>
    {
      {this, fast, code, values, size, maxcode, delta}
    }

    ghost predicate Sizes()
      reads this, size
    {
      Shape() && Sorted(lens) && |lens| <= 256 && size[..|lens|] == lens && size[|lens|] == 0
    }

    /** The first `n` symbols have their codes, as 16-bit numbers. */
    ghost predicate Codes(n: nat)
      requires Shape() && Sorted(lens) && n <= |lens| <= 256
      reads this, code
    {
      forall i {:trigger code[i]} :: 0 <= i < n ==> code[i] == CodeOf(lens, i) % 0x1_0000
    }

    /** The search numbers of the lengths below `j`. */
    ghost predicate Bounds(j: nat)
      requires Shape() && j <= 17
      reads this, maxcode, delta
    {
      && (forall s {:trigger maxcode[s]} :: 1 <= s < j ==> maxcode[s] == Bound(lens, s))
      && (forall s {:trigger delta[s]} :: 1 <= s < j ==> delta[s] == FirstSlot(lens, s) - FirstCode(lens, s))
    }

    ghost predicate FastFilled(n: nat)
      requires Shape() && n <= |lens|
      reads this, fast
    {
      forall c {:trigger fast[c]} :: 0 <= c < FAST_SIZE ==> fast[c] == FastEntry(lens, n, c)
    }

    ghost predicate Valid()
      reads this, fast, code, size, maxcode, delta
    {
      && Sizes() && Fits(lens) && Bounds(17) && maxcode[17] == UINT_MAX && FastFilled(|lens|)
      && forall i {:trigger code[i]} :: 0 <= i < |lens| ==> code[i] == CodeOf(lens, i)
    }

    constructor (symbols: array<byte>)
      requires symbols.Length == 256
      ensures Shape() && values == symbols
      ensures fresh(fast) && fresh(code) && fresh(size) && fresh(maxcode) && fresh(delta)
    {
      fast := new nat[FAST_SIZE](_ => 0);
      code := new nat[256](_ => 0);
      values := symbols;
      size := new nat[257](_ => 0);
      maxcode := new nat[18](_ => 0);
      delta := new int[17](_ => 0);
    }

    /** A table is accepted exactly when it has at most 256 symbols and room for all their codes. */
    method Build(count: seq<nat>) returns (ok: bool)
      requires Shape() && |count| == 16
      modifies this, fast, code, size, maxcode, delta
      ensures ok <==> |SizesUpTo(count, 16)| <= 256 && Fits(SizesUpTo(count, 16))
      ensures ok ==> Valid() && lens == SizesUpTo(count, 16)
    {
      hide Fits, Sorted, SizesUpTo, Huffman.Codes, Huffman.Bounds, Huffman.FastFilled;
      var k;
      ok, k := ListSizes(count);
      if !ok { return; }
      lens := SizesUpTo(count, 16);
      SizesSorted(count, 16);
      ok, k := AssignCodes();
      if !ok { return; }
      FillFast(k);
      CodesExact();
    }

    lemma CodesExact()
      requires Shape() && Sorted(lens) && |lens| <= 256 && Fits(lens) && Codes(|lens|)
      ensures forall i {:trigger code[i]} :: 0 <= i < |lens| ==> code[i] == CodeOf(lens, i)
    {
      forall i {:trigger code[i]} | 0 <= i < |lens| ensures code[i] == CodeOf(lens, i) {
        CodeFits16(lens, i);
      }
    }

    /** The size of each symbol, in order, and a zero at the end. */
    method ListSizes(count: seq<nat>) returns (ok: bool, k: nat)
      requires Shape() && |count| == 16
      modifies size
      ensures ok <==> |SizesUpTo(count, 16)| <= 256
      ensures ok ==> k == |SizesUpTo(count, 16)| && size[..k] == SizesUpTo(count, 16) && size[k] == 0
    {
      k := 0;
      for i := 0 to 16
        invariant k <= 256 && size[..k] == SizesUpTo(count, i)
      {
        ok, k := ListLength(count, i, k);
        if !ok {
          Longer(count, i + 1);
          return;
        }
      }
      size[k] := 0;
      ok := true;
    }

    method ListLength(count: seq<nat>, i: nat, start: nat) returns (ok: bool, k: nat)
      requires Shape() && |count| == 16 && i < 16 && start <= 256 && size[..start] == SizesUpTo(count, i)
      modifies size
      ensures ok <==> |SizesUpTo(count, i + 1)| <= 256
      ensures ok ==> k <= 256 && size[..k] == SizesUpTo(count, i + 1)
    {
      k := start;
      for j := 0 to count[i]
        invariant k == start + j <= 256 && size[..k] == SizesUpTo(count, i) + Repeat(i + 1, j)
      {
        size[k] := i + 1;
        assert size[..k + 1] == size[..k] + [i + 1];
        k := k + 1;
        if k >= 257 { return false, k; }
      }
      ok := true;
    }

    /** Codes of each length in turn, and the numbers the search by length needs. */
    method AssignCodes() returns (ok: bool, k: nat)
      requires Sizes()
      modifies code, maxcode, delta
      ensures ok <==> Fits(lens)
      ensures ok ==> k == |lens| && Codes(k) && Bounds(17) && maxcode[17] == UINT_MAX
    {
      hide Fits, Sorted, FirstCode, FirstSlot, Bound, Huffman.Codes, BlCount, Pow2;
      var next := 0;
      k := 0;
      LengthOne(lens);
      NothingCoded();
      for j := 1 to 17
        invariant next == FirstCode(lens, j) && k == FirstSlot(lens, j) <= |lens|
        invariant Codes(k) && Bounds(j)
        invariant forall s :: 1 <= s < j ==> EndCode(lens, s) <= Pow2(s)
      {
        ok, k, next := OneLength(j, k, next);
        if !ok {
          TooMany(lens, j);
          return;
        }
      }
      maxcode[17] := UINT_MAX;
      AllListed(lens);
      AllLengthsFit(lens);
      ok := true;
    }

    method OneLength(j: nat, start: nat, first: nat) returns (ok: bool, k: nat, next: nat)
      requires Sizes() && 1 <= j <= 16 && first == FirstCode(lens, j) && start == FirstSlot(lens, j) <= |lens|
      requires Codes(start) && Bounds(j) && (j > 1 ==> EndCode(lens, j - 1) <= Pow2(j - 1))
      modifies code, maxcode, delta
      ensures ok <==> EndCode(lens, j) <= Pow2(j)
      ensures ok ==> k == FirstSlot(lens, j + 1) <= |lens| && next == FirstCode(lens, j + 1)
      ensures ok ==> Codes(k) && Bounds(j + 1)
    {
      hide Fits, Sorted, FirstCode, FirstSlot, Bound, Huffman.Codes, BlCount;
      k, next := start, first;
      delta[j] := k - next;
      NextLength(lens, j);
      if size[k] == j {
        k, next := AssignLength(j, k, next);
        if next - 1 >= Shl(1, j) { return false, k, next; }
      } else {
        LengthDone(lens, j, k);
        EmptyLength(lens, j);
      }
      maxcode[j] := Shl(next, 16 - j);
      assert Shl(next, 0) == next;
      next := Shl(next, 1);
      ok := true;
    }

    lemma NothingCoded()
      requires Shape() && Sorted(lens) && |lens| <= 256
      ensures Codes(0)
    {}

    /** The codes of one length. */
    method AssignLength(j: nat, start: nat, first: nat) returns (k: nat, next: nat)
      requires Sizes() && 1 <= j <= 16 && first == FirstCode(lens, j) && start == FirstSlot(lens, j) <= |lens|
      requires Codes(start)
      modifies code
      ensures k == FirstSlot(lens, j + 1) <= |lens| && next == EndCode(lens, j) && Codes(k)
    {
      hide Fits, FirstCode, FirstSlot;
      k, next := start, first;
      NextLength(lens, j);
      while size[k] == j
        invariant start <= k <= FirstSlot(lens, j + 1) && k <= |lens| && next == first + (k - start)
        invariant Codes(k)
        decreases |lens| - k
      {
        CodeInOrder(lens, j, k);
        FirstSlotBound(lens, j + 1);
        code[k] := next % 0x1_0000;
        k := k + 1;
        next := next + 1;
      }
      LengthDone(lens, j, k);
    }

    /** The acceleration table; 255 is the flag for no entry. */
    method FillFast(k: nat)
      requires Sizes() && k == |lens| && Fits(lens) && Codes(k)
      modifies fast
      ensures FastFilled(|lens|)
    {
      hide Fits, Sorted, Huffman.Codes, FastEntry;
      NoEntries(lens);
      for c := 0 to FAST_SIZE
        invariant forall d {:trigger fast[d]} :: 0 <= d < c ==> fast[d] == NOT_ACCELERATED
      {
        fast[c] := NOT_ACCELERATED;
      }
      for i := 0 to k
        invariant FastFilled(i)
      {
        SizeAndCode(i);
        var s := size[i];
        if s <= FAST_BITS {
          var c := Shl(code[i], FAST_BITS - s);
          FillSymbol(i, c, Shl(1, FAST_BITS - s));
        } else {
          LongSymbol(lens, i);
        }
      }
    }

    lemma SizeAndCode(i: nat)
      requires Sizes() && i < |lens| && Fits(lens) && Codes(|lens|)
      ensures size[i] == lens[i] && code[i] == CodeOf(lens, i) && Used(lens, i)
    {
      CodeFits16(lens, i);
    }

    /** All 9-bit numbers that start with the code of symbol `i`. */
    method FillSymbol(i: nat, c: nat, m: nat)
      requires Shape() && i < |lens| && Used(lens, i) && lens[i] <= FAST_BITS && FastFilled(i) && Fits(lens)
      requires c == Shl(CodeOf(lens, i), FAST_BITS - lens[i]) && m == Pow2(FAST_BITS - lens[i])
      modifies fast
      ensures FastFilled(i + 1)
    {
      hide Fits, FastEntry, Shl, Shr;
      SymbolRange(lens, i);
      for j := 0 to m
        invariant forall d {:trigger fast[d]} :: 0 <= d < FAST_SIZE ==>
                    fast[d] == if c <= d < c + j then i else FastEntry(lens, i, d)
      {
        fast[c + j] := i;
      }
      forall d {:trigger fast[d]} | 0 <= d < FAST_SIZE ensures fast[d] == FastEntry(lens, i + 1, d) {
        MatchRange(lens, i, d);
      }
    }
  }

  lemma CodeFits16(lens: seq<nat>, i: nat)
    requires Fits(lens) && Used(lens, i)
    ensures CodeOf(lens, i) < 0x1_0000
  {
    CodeInInterval(lens, i);
    assert EndCode(lens, lens[i]) <= Pow2(lens[i]);
    Pow2Mono(lens[i], 16);
    SmallPowers();
  }

  lemma {:induction false} Longer(count: seq<nat>, i: nat)
    requires i <= |count| == 16
    ensures |SizesUpTo(count, i)| <= |SizesUpTo(count, 16)|
    decreases 16 - i
  {
    if i < 16 { Longer(count, i + 1); }
  }

  lemma TooMany(lens: seq<nat>, j: nat)
    requires 1 <= j <= 16 && EndCode(lens, j) > Pow2(j)
    ensures !Fits(lens)
  {}

  /** A length without codes fits if the shorter ones do. */
  lemma EmptyLength(lens: seq<nat>, j: nat)
    requires 1 <= j <= 16 && FirstSlot(lens, j + 1) == FirstSlot(lens, j)
    requires j > 1 ==> EndCode(lens, j - 1) <= Pow2(j - 1)
    ensures EndCode(lens, j) <= Pow2(j)
  {
    assert FirstCode(lens, j) == 2 * EndCode(lens, j - 1);
    if j == 1 { assert EndCode(lens, 0) == 0; }
  }

  lemma AllLengthsFit(lens: seq<nat>)
    requires forall s :: 1 <= s < 17 ==> EndCode(lens, s) <= Pow2(s)
    ensures Fits(lens)
  {}

  lemma NoEntries(lens: seq<nat>)
    ensures forall c :: FastEntry(lens, 0, c) == NOT_ACCELERATED
  {}

  lemma LongSymbol(lens: seq<nat>, i: nat)
    requires i < |lens| && lens[i] > FAST_BITS
    ensures forall c :: FastEntry(lens, i + 1, c) == FastEntry(lens, i, c)
  {}

  /** The 9-bit numbers of a short code lie inside the table. */
  lemma SymbolRange(lens: seq<nat>, i: nat)
    requires Fits(lens) && Used(lens, i) && lens[i] <= FAST_BITS
    ensures Shl(CodeOf(lens, i), FAST_BITS - lens[i]) + Pow2(FAST_BITS - lens[i]) <= FAST_SIZE
  {
    hide FirstCode, Count;
    var s, n := lens[i], FAST_BITS - lens[i];
    CodeInInterval(lens, i);
    assert EndCode(lens, s) <= Pow2(s);
    ShlAdd(CodeOf(lens, i), 1, n);
    ShlMono(CodeOf(lens, i) + 1, Pow2(s), n);
    ShlShl(1, s, n);
    SmallPowers();
  }

  lemma MatchRange(lens: seq<nat>, i: nat, d: nat)
    requires i < |lens| && Used(lens, i) && lens[i] <= FAST_BITS
    ensures var c, m := Shl(CodeOf(lens, i), FAST_BITS - lens[i]), Pow2(FAST_BITS - lens[i]);
            FastEntry(lens, i + 1, d) == if c <= d < c + m then i else FastEntry(lens, i, d)
  {
    hide Shl, Shr, CodeOf;
    var n := FAST_BITS - lens[i];
    ShrLess(d, CodeOf(lens, i), n);
    ShrLess(d, CodeOf(lens, i) + 1, n);
    ShlAdd(CodeOf(lens, i), 1, n);
  }
}
