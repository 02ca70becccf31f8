/** The two rules of section 3.2.2 of RFC 1951, in terms of the code words alone: put in the order of
    their lengths, then of their symbols, they start at zero and follow each other without a gap. */
module CanonicalOrder {
  import opened Bits
  import opened Canonical

  predicate Before(lens: seq<nat>, a: nat, b: nat)
  {
    Used(lens, a) && Used(lens, b) && (lens[a] < lens[b] || (lens[a] == lens[b] && a < b))
  }

  /** `b` comes right after `a`. */
  ghost predicate Follows(lens: seq<nat>, a: nat, b: nat)
  {
    Before(lens, a, b) && forall c :: !(Before(lens, a, c) && Before(lens, c, b))
  }

  lemma {:induction false} NoneCounted(lens: seq<nat>, m: nat, n: nat, s: nat)
    requires m <= n <= |lens| && forall i :: m <= i < n ==> lens[i] != s
    ensures Count(lens, m, s) == Count(lens, n, s)
  {
    if m < n { NoneCounted(lens, m, n - 1, s); }
  }

  /** Lengths without codes move nothing. */
  lemma {:induction false} EmptyLengths(lens: seq<nat>, s: nat, t: nat)
    requires s <= t <= MAX_LEN && forall u :: s < u <= t ==> BlCount(lens, u) == 0
    ensures Bound(lens, s) == Bound(lens, t)
    decreases t
  {
    hide BlCount, Count;
    if s < t {
      EmptyLengths(lens, s, t - 1);
      FirstBound(lens, t);
    }
  }

  lemma NoneOfLength(lens: seq<nat>, u: nat)
    requires 1 <= u && forall c :: 0 <= c < |lens| ==> lens[c] != u
    ensures BlCount(lens, u) == 0
  {
    NoneCounted(lens, 0, |lens|, u);
  }

  /** Code words, aligned to the left, follow each other without a gap. */
  lemma CodesFollow(lens: seq<nat>, a: nat, b: nat)
    requires Follows(lens, a, b)
    ensures Shl(CodeOf(lens, a) + 1, MAX_LEN - lens[a]) == Shl(CodeOf(lens, b), MAX_LEN - lens[b])
  {
    hide Count, FirstCode, Shl;
    var s, t := lens[a], lens[b];
    if s == t {
      forall i | a + 1 <= i < b ensures lens[i] != s {
        assert lens[i] == s ==> Before(lens, a, i) && Before(lens, i, b);
      }
      NoneCounted(lens, a + 1, b, s);
      CountNext(lens, a);
    } else {
      forall i | a + 1 <= i < |lens| ensures lens[i] != s {
        assert lens[i] == s ==> Before(lens, a, i) && Before(lens, i, b);
      }
      NoneCounted(lens, a + 1, |lens|, s);
      CountNext(lens, a);
      forall i | 0 <= i < b ensures lens[i] != t {
        assert lens[i] == t ==> Before(lens, a, i) && Before(lens, i, b);
      }
      NoneCounted(lens, 0, b, t);
      CountZero(lens, t);
      forall u | s < u <= t - 1 ensures BlCount(lens, u) == 0 {
        forall c: nat | c < |lens| ensures lens[c] != u {
          assert lens[c] == u ==> Before(lens, a, c) && Before(lens, c, b);
        }
        NoneOfLength(lens, u);
      }
      EmptyLengths(lens, s, t - 1);
      FirstBound(lens, t);
    }
  }

  lemma CountNext(lens: seq<nat>, a: nat)
    requires a < |lens|
    ensures Count(lens, a + 1, lens[a]) == Count(lens, a, lens[a]) + 1
  {}

  lemma CountZero(lens: seq<nat>, s: nat)
    ensures Count(lens, 0, s) == 0
  {}

  /** The first code word is zero. */
  lemma FirstIsZero(lens: seq<nat>, b: nat)
    requires Used(lens, b) && forall c :: !Before(lens, c, b)
    ensures CodeOf(lens, b) == 0
  {
    hide Count, FirstCode;
    var t := lens[b];
    forall i: nat | i < b ensures lens[i] != t {
      assert lens[i] == t ==> Before(lens, i, b);
    }
    NoneCounted(lens, 0, b, t);
    CountZero(lens, t);
    ShortestIsZero(lens, t, b);
  }

  lemma {:induction false} ShortestIsZero(lens: seq<nat>, s: nat, b: nat)
    requires Used(lens, b) && s <= lens[b] && forall c :: !Before(lens, c, b)
    ensures FirstCode(lens, s) == 0
  {
    hide Count;
    if s > 0 {
      ShortestIsZero(lens, s - 1, b);
      if s > 1 {
        forall c: nat | c < |lens| ensures lens[c] != s - 1 {
          assert !Before(lens, c, b);
        }
        NoneOfLength(lens, s - 1);
      }
    }
  }
}
