/** DEFLATE in the numbers of RFC 1951: what the fixed codes, the length and distance symbols and the
    code length order are, and blocks as the strings and pairs they stand for (section 3.2.5). */
module DeflateItems {
  import opened Bits
  import opened BitStrings
  import opened Canonical
  import opened Deflate
  import opened DeflateEncode

  /** The two header bytes by their fields (section 2.2 of RFC 1950): compression method 8, no preset dictionary
      and a check number that makes them a multiple of 31. Window size and level do not matter. */
  lemma HeaderFields(info: nat, scheme: nat, level: nat, dictionary: bool, check: nat, rest: seq<byte>)
    requires info < 16 && scheme < 16 && level < 4 && check < 32 && |rest| > 0
    ensures var cmf, flg := 16 * info + scheme, 64 * level + (if dictionary then 32 else 0) + check;
            HeaderOk([cmf, flg] + rest) <==> scheme == 8 && !dictionary && (256 * cmf + flg) % 31 == 0
  {
    var cmf: byte, flg: byte := 16 * info + scheme, 64 * level + (if dictionary then 32 else 0) + check;
    var z := [cmf, flg] + rest;
    assert z[0] == cmf && z[1] == flg && |z| > 2;
    assert flg / 32 == 2 * level + if dictionary then 1 else 0;
  }

  // ----- lengths and distances -----

  /** The ranges of the length symbols: one, two, four ... lengths each, consecutive from 3 on, four
      symbols for every number of extra bits, and 258 alone at the end. */
  lemma LengthRanges(l: nat)
    requires l < 29
    ensures LengthExtra(l) == if l < 8 || l == 28 then 0 else (l - 4) / 4
    ensures LengthBase(0) == 3 && LengthBase(28) == 258
    ensures l < 27 ==> LengthBase(l + 1) == LengthBase(l) + Pow2(LengthExtra(l))
  {
    SmallPowers();
    hide Pow2;
    if l < 10 {
    } else if l < 20 {
    } else {
    }
  }

  /** The ranges of the distance symbols: consecutive from 1 on, two symbols for every number of extra
      bits, up to 32768. */
  lemma DistanceRanges(d: nat)
    requires d < 30
    ensures DistExtra(d) == if d < 4 then 0 else d / 2 - 1
    ensures DistBase(0) == 1 && DistBase(29) + Pow2(DistExtra(29)) == 32769
    ensures d < 29 ==> DistBase(d + 1) == DistBase(d) + Pow2(DistExtra(d))
  {
    LastRanges();
    DistanceStep(d);
    hide DistBase, Pow2;
  }

  lemma DistanceStep(d: nat)
    requires d < 30
    ensures DistBase(0) == 1 && (d < 29 ==> DistBase(d + 1) == DistBase(d) + Pow2(DistExtra(d)))
  {
    SmallPowers();
    hide Pow2;
    if d < 8 {
    } else if d < 16 {
    } else if d < 23 {
    } else {
    }
  }

  lemma PairBounds(l: nat, lx: nat, d: nat, dx: nat)
    requires l < 29 && d < 30 && lx < Pow2(LengthExtra(l)) && dx < Pow2(DistExtra(d))
    ensures 3 <= LengthBase(l) + lx <= 258 && 1 <= DistBase(d) + dx <= 32768
  {
    SmallPowers();
    hide Pow2;
    if d < 10 {
    } else if d < 20 {
    } else {
    }
  }

  /** The largest of the first `l + 1` length symbols that starts at or below `n`. */
  function LengthFrom(n: nat, l: nat): (r: nat)
    requires l < 28 && 3 <= n < LengthBase(l) + Pow2(LengthExtra(l))
    ensures r < 28 && LengthBase(r) <= n < LengthBase(r) + Pow2(LengthExtra(r))
  {
    hide LengthBase, LengthExtra, Pow2;
    LengthRanges(0);
    if LengthBase(l) <= n then l else
    LengthRanges(l - 1);
    LengthFrom(n, l - 1)
  }

  function DistanceFrom(n: nat, d: nat): (r: nat)
    requires d < 30 && 1 <= n < DistBase(d) + Pow2(DistExtra(d))
    ensures r < 30 && DistBase(r) <= n < DistBase(r) + Pow2(DistExtra(r))
  {
    hide DistBase, DistExtra, Pow2;
    DistanceRanges(0);
    if DistBase(d) <= n then d else
    DistanceRanges(d - 1);
    DistanceFrom(n, d - 1)
  }

  lemma LastRanges()
    ensures LengthBase(27) + Pow2(LengthExtra(27)) == 259 && DistBase(29) + Pow2(DistExtra(29)) == 32769
  {
    SmallPowers();
  }

  // ----- fixed codes -----

  lemma {:induction false} FixedCount(n: nat, s: nat)
    requires n <= 288
    ensures Count(FixedLengths(288), n, s) ==
            if s == 7 then (if n <= 256 then 0 else if n <= 280 then n - 256 else 24)
            else if s == 8 then (if n <= 144 then n else if n <= 280 then 144 else n - 136)
            else if s == 9 then (if n <= 144 then 0 else if n <= 256 then n - 144 else 112)
            else 0
  {
    hide FixedLengths;
    if n > 0 { FixedCount(n - 1, s); }
  }

  lemma {:induction false} FixedFirst(s: nat)
    requires s <= 9
    ensures FirstCode(FixedLengths(288), s) == if s <= 7 then 0 else if s == 8 then 48 else 400
  {
    hide FixedLengths, Count;
    if s > 0 {
      FixedFirst(s - 1);
      FixedCount(288, s - 1);
    }
  }

  /** The fixed codes are the ones section 3.2.6 lists. */
  lemma FixedCodes(sym: nat)
    requires sym < 288
    ensures var lens := FixedLengths(288);
            Used(lens, sym) && lens[sym]
              == (if sym < 144 then 8 else if sym < 256 then 9 else if sym < 280 then 7 else 8)
            && CodeOf(lens, sym) ==
               if sym < 144 then 48 + sym
               else if sym < 256 then 400 + (sym - 144)
               else if sym < 280 then sym - 256
               else 192 + (sym - 280)
  {
    hide FixedLengths, Count, FirstCode;
    var s := FixedLengths(288)[sym];
    FixedFirst(s);
    FixedCount(sym, s);
  }

  lemma {:induction false} FivesCount(n: nat, s: nat)
    requires n <= 32
    ensures Count(Repeat(5, 32), n, s) == if s == 5 then n else 0
  {
    hide Repeat;
    if n > 0 { FivesCount(n - 1, s); }
  }

  lemma {:induction false} FivesFirst(s: nat)
    requires s <= 5
    ensures FirstCode(Repeat(5, 32), s) == 0
  {
    hide Repeat, Count;
    if s > 0 {
      FivesFirst(s - 1);
      FivesCount(32, s - 1);
    }
  }

  /** Fixed distance codes are the five-bit numbers of their symbols. */
  lemma FixedDistanceCodes(d: nat)
    requires d < 32
    ensures Used(Repeat(5, 32), d) && CodeOf(Repeat(5, 32), d) == d
  {
    hide Repeat, Count, FirstCode;
    FivesFirst(5);
    FivesCount(d, 5);
  }

  // ----- the code length code -----

  /** The order of section 3.2.7: the three repeat symbols, then 0, then 8 and its neighbours outwards. */
  lemma CodeLengthOrder(i: nat)
    requires i < 19
    ensures CodeLengthSymbol(i) ==
            if i < 3 then 16 + i else if i == 3 then 0
            else if i % 2 == 0 then 8 + (i - 4) / 2 else 7 - (i - 5) / 2
  {}

  // ----- strings and pairs -----

  /** What a block is made of: bytes, and pairs that repeat `len` bytes from `dist` bytes back. */
  datatype Item = Byte(b: byte) | Copy(len: nat, dist: nat)
  {
    predicate Ok()
    {
      Copy? ==> 3 <= len <= 258 && 1 <= dist <= 32768
    }

    /** The symbols and extra bits an encoder writes; the longest length has a symbol of its own. */
    function Token(): (t: Token)
      requires Ok()
      ensures Byte? ==> t == Literal(b)
      ensures Copy? ==> t.Match? && t.l < 29 && t.d < 30 && t.Length() == len && t.Distance() == dist
      ensures Copy? ==> t.lx < Pow2(LengthExtra(t.l)) && t.dx < Pow2(DistExtra(t.d))
      ensures Copy? && len == 258 ==> t.l == 28 && t.lx == 0
    {
      hide LengthBase, LengthExtra, DistBase, DistExtra, Pow2;
      LastRanges();
      LengthRanges(28);
      match this
      case Byte(b) => Literal(b)
      case Copy(len, dist) =>
        var l := if len == 258 then 28 else LengthFrom(len, 27);
        var d := DistanceFrom(dist, 29);
        LengthPower();
        Match(l, len - LengthBase(l), d, dist - DistBase(d))
    }
  }

  lemma LengthPower()
    ensures Pow2(LengthExtra(28)) == 1
  {}

  /** From position `p` on, `r` is what the items say, byte by byte. */
  ghost predicate Shows(r: seq<byte>, p: nat, items: seq<Item>)
    decreases |items|
  {
    if items == [] then |r| == p else
    match items[0]
    case Byte(b) => p < |r| && r[p] == b && Shows(r, p + 1, items[1..])
    case Copy(len, dist) =>
      1 <= dist <= p && p + len <= |r| && (forall k :: p <= k < p + len ==> r[k] == r[k - dist])
      && Shows(r, p + len, items[1..])
  }

  /** Every copied byte is the one `dist` bytes before it, copied itself if need be. */
  lemma {:induction false} CopyMatchAt(out: seq<byte>, dist: nat, n: nat, i: nat)
    requires 1 <= dist <= |out| && |out| <= i < |out| + n
    ensures CopyMatch(out, dist, n)[i] == CopyMatch(out, dist, n)[i - dist]
  {
    if i < |out| + n - 1 { CopyMatchAt(out, dist, n - 1, i); }
  }

  /** ... and nothing else is such a copy. */
  lemma {:induction false} CopyMatchIs(out: seq<byte>, dist: nat, n: nat, r: seq<byte>)
    requires 1 <= dist <= |out| && |out| + n <= |r| && r[..|out|] == out
    requires forall k :: |out| <= k < |out| + n ==> r[k] == r[k - dist]
    ensures CopyMatch(out, dist, n) == r[..|out| + n]
  {
    if n > 0 {
      CopyMatchIs(out, dist, n - 1, r);
      var k := |out| + n - 1;
      assert r[..k + 1] == r[..k] + [r[k]];
    }
  }

  function Tokens(items: seq<Item>): (ts: seq<Token>)
    requires forall i :: 0 <= i < |items| ==> items[i].Ok()
    ensures |ts| == |items| && forall i :: 0 <= i < |items| ==> ts[i] == items[i].Token()
  {
    seq(|items|, i requires 0 <= i < |items| => items[i].Token())
  }

  lemma TokensTail(items: seq<Item>)
    requires items != [] && forall i :: 0 <= i < |items| ==> items[i].Ok()
    ensures Tokens(items)[1..] == Tokens(items[1..]) && Tokens(items)[0] == items[0].Token()
  {}

  lemma {:induction false} ItemsExpand(out: seq<byte>, items: seq<Item>, r: seq<byte>)
    requires forall i :: 0 <= i < |items| ==> items[i].Ok()
    requires out <= r && Shows(r, |out|, items)
    ensures forall i :: 0 <= i < |items| ==> Tokens(items)[i].Match? ==>
            Tokens(items)[i].l < 29 && Tokens(items)[i].d < 30
    ensures Expand(out, Tokens(items)) == Some(r)
    decreases |items|
  {
    hide Item.Token, CopyMatch;
    if items == [] {
      assert r == out;
    } else {
      TokensTail(items);
      match items[0]
      case Byte(b) =>
        assert r[..|out| + 1] == out + [b];
        ItemsExpand(out + [b], items[1..], r);
      case Copy(len, dist) =>
        CopyMatchIs(out, dist, len, r);
        ItemsExpand(r[..|out| + len], items[1..], r);
    }
  }

  /** Any bytes and pairs, written with any codes that have their symbols, decode to the text they
      stand for. */
  lemma ItemsRoundTrip(data: seq<byte>, lit: seq<nat>, dist: seq<nat>, pos: nat, out: seq<byte>, cap: nat,
        items: seq<Item>, r: seq<byte>)
    requires Fits(lit) && Fits(dist) && Used(lit, 256)
    requires (forall i :: 0 <= i < |items| ==> items[i].Ok()) && TokensOk(lit, dist, Tokens(items))
    requires At(data, pos, TokenBits(lit, dist, Tokens(items)))
    requires out <= r && Shows(r, |out|, items) && |r| <= cap
    ensures RefSymbols(data, lit, dist, pos, out, cap) == Done(pos + |TokenBits(lit, dist, Tokens(items))|, r)
  {
    hide At, Fits, TokenBits, Expand, RefSymbols, Shows, Tokens, Token.Ok;
    ItemsExpand(out, items, r);
    TokensRoundTrip(data, lit, dist, pos, out, cap, Tokens(items));
  }

  /** What a token stands for. */
  function ItemOf(t: Token): (i: Item)
    requires t.Match? ==> t.l < 29 && t.d < 30
  {
    match t
    case Literal(b) => Byte(b)
    case Match(l, lx, d, dx) => Copy(t.Length(), t.Distance())
  }

  ghost predicate ItemsOf(items: seq<Item>, ts: seq<Token>)
  {
    |items| == |ts|
    && forall i :: 0 <= i < |ts| ==> (ts[i].Match? ==> ts[i].l < 29 && ts[i].d < 30) && items[i] == ItemOf(ts[i])
  }

  lemma {:induction false} ExpandShows(out: seq<byte>, ts: seq<Token>) returns (items: seq<Item>)
    requires forall i :: 0 <= i < |ts| ==> ts[i].Match? ==> ts[i].l < 29 && ts[i].d < 30
    requires Expand(out, ts).Some?
    ensures ItemsOf(items, ts) && out <= Expand(out, ts).value && Shows(Expand(out, ts).value, |out|, items)
    decreases |ts|
  {
    hide CopyMatch, Token.Length, Token.Distance;
    if ts == [] {
      items := [];
    } else {
      var o := ts[0].Apply(out).value;
      var rest := ExpandShows(o, ts[1..]);
      items := [ItemOf(ts[0])] + rest;
      assert items[1..] == rest;
      var r := Expand(out, ts).value;
      assert r[..|o|] == o;
      if ts[0].Match? {
        var n, dist := ts[0].Length(), ts[0].Distance();
        forall k | |out| <= k < |out| + n ensures r[k] == r[k - dist] {
          CopyMatchAt(out, dist, n, k);
          assert r[k] == o[k] && r[k - dist] == o[k - dist];
        }
      }
    }
  }

  /** Whatever the reference decoder accepts is the text of some bytes and pairs, each within the
      bounds of the standard. */
  lemma ItemsFound(data: seq<byte>, lit: seq<nat>, dist: seq<nat>, pos: nat, out: seq<byte>, cap: nat)
      returns (items: seq<Item>, ts: seq<Token>)
    requires Fits(lit) && Fits(dist) && |out| <= cap
    requires RefSymbols(data, lit, dist, pos, out, cap).Done?
    ensures Used(lit, 256) && TokensOk(lit, dist, ts) && At(data, pos, TokenBits(lit, dist, ts)) && ItemsOf(items, ts)
    ensures forall i :: 0 <= i < |items| ==> items[i].Ok()
    ensures var r := RefSymbols(data, lit, dist, pos, out, cap).out; out <= r && Shows(r, |out|, items)
  {
    hide At, Fits, TokenBits, Expand, RefSymbols, Shows, LengthBase, DistBase, LengthExtra, DistExtra, Pow2;
    ts := TokensFound(data, lit, dist, pos, out, cap);
    items := ExpandShows(out, ts);
    forall i | 0 <= i < |items| ensures items[i].Ok() {
      var t := ts[i];
      if t.Match? { PairBounds(t.l, t.lx, t.d, t.dx); }
    }
  }
}
