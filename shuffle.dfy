/**
 The in-place Fisher-Yates (Durstenfeld) shuffle that reorders the question bank
 once, right after it is loaded.

 The random choice `Math.floor(Math.random() * (i + 1))` is supplied from outside
 as a sequence `draws`, where `draws[i]` is the index picked at step `i`. Every
 valid draw sequence gives a permutation of the input; for a bank of distinct
 questions the map from draw sequences to permutations is a bijection, which is
 why uniform draws give a uniform shuffle.
 */
module Shuffle {

  /** A draw sequence for an array of length `n`: step `i` picks an index in `[0, i]`. */
  predicate ValidDraws(draws: seq<nat>, n: nat)
  {
    |draws| == n && forall i :: 0 <= i < n ==> draws[i] <= i
  }

  /** No element occurs twice. */
  predicate Distinct<T(==)>(s: seq<T>)
  {
    forall i, j :: 0 <= i < j < |s| ==> s[i] != s[j]
  }

  /** `s` with the elements at `i` and `j` exchanged (the destructuring swap). */
  function Swap<T>(s: seq<T>, i: nat, j: nat): (r: seq<T>)
    requires i < |s| && j < |s|
    ensures |r| == |s| && r[i] == s[j] && r[j] == s[i]
    ensures forall k :: 0 <= k < |s| && k != i && k != j ==> r[k] == s[k]
  {
    s[i := s[j]][j := s[i]]
  }

  lemma SwapPermutes<T>(s: seq<T>, i: nat, j: nat)
    requires i < |s| && j < |s|
    ensures multiset(Swap(s, i, j)) == multiset(s)
  {
  }

  /**
   The steps `k - 1, k - 2, ..., 1` of the shuffle applied to `s`. Positions at
   or above `k` are never touched, and position `k - 1` ends up holding the
   element that step `k - 1` swapped into it.
   */
  function ShuffleDown<T>(s: seq<T>, draws: seq<nat>, k: nat): (r: seq<T>)
    requires k <= |s| && ValidDraws(draws, |s|)
    ensures |r| == |s|
    ensures forall p :: k <= p < |s| ==> r[p] == s[p]
    ensures 1 <= k ==> r[k - 1] == s[draws[k - 1]]
    decreases k
  {
    if k <= 1 then s
    else ShuffleDown(Swap(s, k - 1, draws[k - 1]), draws, k - 1)
  }

  /** The whole shuffle: steps `|s| - 1` down to `1`. */
  function Shuffled<T>(s: seq<T>, draws: seq<nat>): (r: seq<T>)
    requires ValidDraws(draws, |s|)
    ensures multiset(r) == multiset(s)
  {
    ShuffleDownPermutes(s, draws, |s|);
    ShuffleDown(s, draws, |s|)
  }

  lemma {:induction false} ShuffleDownPermutes<T>(s: seq<T>, draws: seq<nat>, k: nat)
    requires k <= |s| && ValidDraws(draws, |s|)
    ensures multiset(ShuffleDown(s, draws, k)) == multiset(s)
    decreases k
  {
    if k > 1 {
      SwapPermutes(s, k - 1, draws[k - 1]);
      ShuffleDownPermutes(Swap(s, k - 1, draws[k - 1]), draws, k - 1);
    }
  }

  /** The descending swap loop of `shuffleArray`, in place on `a`; it keeps the elements and only reorders them. */
  method ShuffleArray<T>(a: array<T>, draws: seq<nat>)
    requires ValidDraws(draws, a.Length)
    modifies a
    ensures a[..] == Shuffled(old(a[..]), draws)
    ensures multiset(a[..]) == multiset(old(a[..]))
  {
    var i := a.Length - 1;
    while i > 0
      invariant -1 <= i < a.Length
      invariant ShuffleDown(a[..], draws, i + 1) == Shuffled(old(a[..]), draws)
      decreases i
    {
      var j := draws[i];
      ghost var before := a[..];
      a[i], a[j] := a[j], a[i];
      assert a[..] == Swap(before, i, j);
      i := i - 1;
    }
  }

  /** Only the draws below `k` matter to the first `k` steps. */
  lemma {:induction false} ShuffleDownUsesDrawsBelow<T>(s: seq<T>, d1: seq<nat>, d2: seq<nat>, k: nat)
    requires k <= |s| && ValidDraws(d1, |s|) && ValidDraws(d2, |s|)
    requires forall i :: 0 <= i < k ==> d1[i] == d2[i]
    ensures ShuffleDown(s, d1, k) == ShuffleDown(s, d2, k)
    decreases k
  {
    if k > 1 {
      ShuffleDownUsesDrawsBelow(Swap(s, k - 1, d1[k - 1]), d1, d2, k - 1);
    }
  }

  lemma SwapDistinct<T>(s: seq<T>, i: nat, j: nat)
    requires i < |s| && j < |s| && Distinct(s)
    ensures Distinct(Swap(s, i, j))
  {
    var r := Swap(s, i, j);
    forall a, b | 0 <= a < b < |r| ensures r[a] != r[b] {
      var a' := if a == i then j else if a == j then i else a;
      var b' := if b == i then j else if b == j then i else b;
      assert r[a] == s[a'] && r[b] == s[b'] && a' != b';
    }
  }

  lemma DistinctAt<T>(s: seq<T>, i: nat, j: nat)
    requires i < |s| && j < |s| && Distinct(s) && s[i] == s[j]
    ensures i == j
  {
  }

  lemma {:induction false} ShuffleDownInjective<T>(s: seq<T>, d1: seq<nat>, d2: seq<nat>, k: nat)
    requires k <= |s| && ValidDraws(d1, |s|) && ValidDraws(d2, |s|) && Distinct(s)
    requires ShuffleDown(s, d1, k) == ShuffleDown(s, d2, k)
    ensures forall i :: 0 <= i < k ==> d1[i] == d2[i]
    decreases k
  {
    if k >= 2 {
      var j1, j2 := d1[k - 1], d2[k - 1];
      var r := ShuffleDown(s, d1, k);
      assert r[k - 1] == s[j1] && r[k - 1] == s[j2];
      DistinctAt(s, j1, j2);
      var t := Swap(s, k - 1, j1);
      assert ShuffleDown(s, d1, k) == ShuffleDown(t, d1, k - 1);
      assert ShuffleDown(s, d2, k) == ShuffleDown(t, d2, k - 1);
      SwapDistinct(s, k - 1, j1);
      assert Distinct(t);
      assert ShuffleDown(t, d1, k - 1) == ShuffleDown(t, d2, k - 1);
      ShuffleDownInjective(t, d1, d2, k - 1);
      assert j1 == j2;
    }
  }

  /** On distinct elements, different valid draw sequences give different orders. */
  lemma ShuffleInjective<T>(s: seq<T>, d1: seq<nat>, d2: seq<nat>)
    requires ValidDraws(d1, |s|) && ValidDraws(d2, |s|) && Distinct(s)
    requires Shuffled(s, d1) == Shuffled(s, d2)
    ensures d1 == d2
  {
    ShuffleDownInjective(s, d1, d2, |s|);
  }

  /** Swapping two positions below `k` keeps the multiset of the first `k` elements. */
  lemma SwapBelowPermutesPrefix<T>(s: seq<T>, k: nat, i: nat, j: nat)
    requires i < k <= |s| && j < k
    ensures multiset(Swap(s, i, j)[..k]) == multiset(s[..k])
  {
    assert Swap(s, i, j)[..k] == Swap(s[..k], i, j);
    SwapPermutes(s[..k], i, j);
  }

  lemma MultisetCancel<T>(a: seq<T>, b: seq<T>, x: T)
    requires multiset(a + [x]) == multiset(b + [x])
    ensures multiset(a) == multiset(b)
  {
    calc {
      multiset(a);
      multiset(a + [x]) - multiset{x};
      multiset(b + [x]) - multiset{x};
      multiset(b);
    }
  }

  /**
   Swapping into position `k - 1` an occurrence of `p[k - 1]` from the first `k`
   elements fixes one more position of the target `p`.
   */
  lemma SwapIntoPlace<T>(s: seq<T>, p: seq<T>, k: nat, j: nat)
    requires |p| == |s| && 1 <= k <= |s| && j < k && s[j] == p[k - 1]
    requires s[k..] == p[k..]
    ensures Swap(s, k - 1, j)[k - 1..] == p[k - 1..]
  {
    var t := Swap(s, k - 1, j);
    assert t[k - 1..] == [t[k - 1]] + t[k..];
    assert p[k - 1..] == [p[k - 1]] + p[k..];
    assert t[k..] == s[k..];
  }

  /** The same swap leaves a permutation of the target's first `k - 1` elements below `k - 1`. */
  lemma SwapIntoPlaceKeepsRest<T>(s: seq<T>, p: seq<T>, k: nat, j: nat)
    requires |p| == |s| && 1 <= k <= |s| && j < k && s[j] == p[k - 1]
    requires multiset(s[..k]) == multiset(p[..k])
    ensures multiset(Swap(s, k - 1, j)[..k - 1]) == multiset(p[..k - 1])
  {
    var t := Swap(s, k - 1, j);
    SwapBelowPermutesPrefix(s, k, k - 1, j);
    assert t[..k] == t[..k - 1] + [p[k - 1]];
    assert p[..k] == p[..k - 1] + [p[k - 1]];
    MultisetCancel(t[..k - 1], p[..k - 1], p[k - 1]);
  }

  /** The element the target has at `k - 1` occurs in `s` at some index below `k`. */
  lemma IndexBelow<T>(s: seq<T>, p: seq<T>, k: nat) returns (j: nat)
    requires 1 <= k <= |s| && k <= |p| && multiset(s[..k]) == multiset(p[..k])
    ensures j < k && s[j] == p[k - 1]
  {
    assert p[..k] == p[..k - 1] + [p[k - 1]];
    assert p[k - 1] in multiset(s[..k]);
    assert p[k - 1] in s[..k];
    var i :| 0 <= i < k && s[..k][i] == p[k - 1];
    j := i;
  }

  /** With at most one element left to place, agreeing above `k` means equal. */
  lemma NothingLeftToPlace<T>(s: seq<T>, p: seq<T>, k: nat)
    requires |p| == |s| && k <= 1 && k <= |s|
    requires s[k..] == p[k..] && multiset(s[..k]) == multiset(p[..k])
    ensures s == p
  {
    if k == 1 {
      assert s[..1] == [s[0]] && p[..1] == [p[0]];
      assert s[0] in multiset(p[..1]);
    }
    assert s == s[..k] + s[k..] && p == p[..k] + p[k..];
  }

  lemma {:induction false} ShuffleDownReaches<T>(s: seq<T>, p: seq<T>, k: nat) returns (d: seq<nat>)
    requires |p| == |s| && k <= |s|
    requires s[k..] == p[k..] && multiset(s[..k]) == multiset(p[..k])
    ensures ValidDraws(d, |s|) && ShuffleDown(s, d, k) == p
    decreases k
  {
    if k <= 1 {
      NothingLeftToPlace(s, p, k);
      d := seq(|s|, i => 0);
    } else {
      var j := IndexBelow(s, p, k);
      SwapIntoPlace(s, p, k, j);
      SwapIntoPlaceKeepsRest(s, p, k, j);
      var t := Swap(s, k - 1, j);
      var d' := ShuffleDownReaches(t, p, k - 1);
      d := SetDraw(d', k - 1, j);
      ShuffleDownUsesDrawsBelow(t, d, d', k - 1);
    }
  }

  /** `draws` with the choice of step `i` replaced by `j`. */
  function SetDraw(draws: seq<nat>, i: nat, j: nat): (r: seq<nat>)
    requires ValidDraws(draws, |draws|) && j <= i < |draws|
    ensures ValidDraws(r, |draws|) && r[i] == j
    ensures forall m :: 0 <= m < |draws| && m != i ==> r[m] == draws[m]
  {
    draws[i := j]
  }

  /** Every permutation of `s` is the result of some valid draw sequence. */
  lemma ShuffleReachesEveryPermutation<T>(s: seq<T>, p: seq<T>) returns (d: seq<nat>)
    requires multiset(p) == multiset(s)
    ensures ValidDraws(d, |s|) && Shuffled(s, d) == p
  {
    assert |p| == |multiset(p)| == |s|;
    assert s[..|s|] == s && p[..|p|] == p;
    d := ShuffleDownReaches(s, p, |s|);
  }
}
