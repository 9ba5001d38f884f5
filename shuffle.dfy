/**
  `Benchmark.shuffle`: the in-place Fisher–Yates shuffle the benchmark uses
  to put identifiers into a random order before updating or removing them.

  `currentIndex` counts down from the array's length; each round draws
  `Math.random()`, scales it to an index below `currentIndex`, decrements
  `currentIndex` and swaps the two cells through a temporary.  Randomness is a
  parameter here: `draws[k]` is what `Math.random()` returned in round `k`, a
  real in [0, 1), and `picks[k]` the index the round computed from it.
*/
module Benchmark {

  // ---------------------------------------------------------------------
  // One round

  /**
    The three assignments through `temporaryValue`: cell `i` takes the value
    of cell `j`, then cell `j` takes the old value of cell `i`.
  */
  function Swap<T>(s: seq<T>, i: nat, j: nat): seq<T>
    requires i < |s| && j < |s|
  {
    s[i := s[j]][j := s[i]]
  }

  /** A round exchanges exactly two cells and changes nothing else; `i == j` changes nothing. */
  lemma SwapExchanges<T>(s: seq<T>, i: nat, j: nat)
    requires i < |s| && j < |s|
    ensures |Swap(s, i, j)| == |s|
    ensures Swap(s, i, j)[i] == s[j] && Swap(s, i, j)[j] == s[i]
    ensures forall k :: 0 <= k < |s| && k != i && k != j ==> Swap(s, i, j)[k] == s[k]
    ensures i == j ==> Swap(s, i, j) == s
  {
  }

  /** A swap moves elements and neither adds nor loses any. */
  lemma SwapPermutes<T>(s: seq<T>, i: nat, j: nat)
    requires i < |s| && j < |s|
    ensures multiset(Swap(s, i, j)) == multiset(s)
  {
  }

  /** Every draw is a possible result of `Math.random()`. */
  predicate UnitDraws(draws: seq<real>) {
    forall k :: 0 <= k < |draws| ==> 0.0 <= draws[k] < 1.0
  }

  /** `Math.floor(draw * currentIndex)`: an index below `currentIndex`. */
  function RandomIndex(draw: real, currentIndex: nat): (r: nat)
    requires 0.0 <= draw < 1.0 && 0 < currentIndex
    ensures r < currentIndex
  {
    var scaled := draw * currentIndex as real;
    assert (1.0 - draw) * currentIndex as real > 0.0;
    assert 0.0 <= scaled < currentIndex as real;
    scaled.Floor
  }

  /** The index is the largest integer not above the scaled draw. */
  lemma RandomIndexIsFloor(draw: real, currentIndex: nat)
    requires 0.0 <= draw < 1.0 && 0 < currentIndex
    ensures var r := RandomIndex(draw, currentIndex);
      r as real <= draw * currentIndex as real < (r + 1) as real
  {
  }

  // ---------------------------------------------------------------------
  // The whole shuffle, as a function of the indices drawn

  /**
    Indices drawn by the rounds, in the order the loop runs them: round `k`
    runs with `currentIndex == |p| - k` before its decrement, so its index
    `p[k]` lies below `|p| - k`.
  */
  predicate ValidPicks(p: seq<nat>) {
    forall k :: 0 <= k < |p| ==> p[k] < |p| - k
  }

  /** The indices the loop computes from the draws, one per round. */
  function Picks(draws: seq<real>): (p: seq<nat>)
    requires UnitDraws(draws)
    ensures |p| == |draws| && ValidPicks(p)
    ensures forall k :: 0 <= k < |p| ==> p[k] == RandomIndex(draws[k], |draws| - k)
  {
    if draws == [] then []
    else [RandomIndex(draws[0], |draws|)] + Picks(draws[1..])
  }

  /**
    The array after the rounds for `currentIndex == c, c - 1, …, 1`, where the
    round at `currentIndex` swaps cell `currentIndex - 1` with the cell its
    pick names, `p[|p| - currentIndex]`.  The whole shuffle is `c == |s|`.
  */
  function FisherYates<T>(s: seq<T>, p: seq<nat>, c: nat): seq<T>
    requires |p| == |s| && c <= |s| && ValidPicks(p)
    decreases c
  {
    if c == 0 then s
    else FisherYates(Swap(s, c - 1, p[|p| - c]), p, c - 1)
  }

  /** The result is a permutation of the input: same length, same multiset. */
  lemma {:induction false} FisherYatesPermutation<T>(s: seq<T>, p: seq<nat>, c: nat)
    requires |p| == |s| && c <= |s| && ValidPicks(p)
    ensures |FisherYates(s, p, c)| == |s|
    ensures multiset(FisherYates(s, p, c)) == multiset(s)
    decreases c
  {
    if c != 0 {
      SwapPermutes(s, c - 1, p[|p| - c]);
      FisherYatesPermutation(Swap(s, c - 1, p[|p| - c]), p, c - 1);
    }
  }

  /** Cells at or above `currentIndex` are never written by the rounds still to run. */
  lemma {:induction false} FisherYatesKeepsSuffix<T>(s: seq<T>, p: seq<nat>, c: nat)
    requires |p| == |s| && c <= |s| && ValidPicks(p)
    ensures |FisherYates(s, p, c)| == |s|
    ensures forall i :: c <= i < |s| ==> FisherYates(s, p, c)[i] == s[i]
    decreases c
  {
    FisherYatesPermutation(s, p, c);
    if c != 0 {
      FisherYatesKeepsSuffix(Swap(s, c - 1, p[|p| - c]), p, c - 1);
    }
  }

  /** The round at `currentIndex == c` settles cell `c - 1` to the element its pick names. */
  lemma FisherYatesSettles<T>(s: seq<T>, p: seq<nat>, c: nat)
    requires |p| == |s| && 0 < c <= |s| && ValidPicks(p)
    ensures |FisherYates(s, p, c)| == |s|
    ensures FisherYates(s, p, c)[c - 1] == s[p[|p| - c]]
  {
    FisherYatesPermutation(s, p, c);
    FisherYatesKeepsSuffix(Swap(s, c - 1, p[|p| - c]), p, c - 1);
  }

  /** The rounds still to run read only their own picks. */
  lemma {:induction false} FisherYatesReadsOwnPicks<T>(s: seq<T>, p: seq<nat>, q: seq<nat>, c: nat)
    requires |p| == |q| == |s| && c <= |s| && ValidPicks(p) && ValidPicks(q)
    requires forall k :: |p| - c <= k < |p| ==> p[k] == q[k]
    ensures FisherYates(s, p, c) == FisherYates(s, q, c)
    decreases c
  {
    if c != 0 {
      assert p[|p| - c] == q[|q| - c];
      FisherYatesReadsOwnPicks(Swap(s, c - 1, p[|p| - c]), p, q, c - 1);
    }
  }

  // ---------------------------------------------------------------------
  // Fisher–Yates reaches every arrangement exactly once

  predicate Distinct<T(==)>(s: seq<T>) {
    forall i, j :: 0 <= i < j < |s| ==> s[i] != s[j]
  }

  /** Swapping keeps the elements distinct. */
  lemma SwapDistinct<T>(s: seq<T>, i: nat, j: nat)
    requires i < |s| && j < |s| && Distinct(s)
    ensures Distinct(Swap(s, i, j))
  {
    var s' := Swap(s, i, j);
    forall m, n | 0 <= m < n < |s'|
      ensures s'[m] != s'[n]
    {
      var m0 := if m == i then j else if m == j then i else m;
      var n0 := if n == i then j else if n == j then i else n;
      assert s'[m] == s[m0] && s'[n] == s[n0];
    }
  }

  /**
    On distinct elements, different picks give different arrangements: if the
    rounds from `currentIndex == c` down reach the same array, their picks agree.
  */
  lemma {:induction false} FisherYatesInjective<T>(s: seq<T>, p: seq<nat>, q: seq<nat>, c: nat)
    requires Distinct(s)
    requires |p| == |q| == |s| && c <= |s| && ValidPicks(p) && ValidPicks(q)
    requires FisherYates(s, p, c) == FisherYates(s, q, c)
    ensures forall k :: |p| - c <= k < |p| ==> p[k] == q[k]
    decreases c
  {
    if c != 0 {
      var n := |p|;
      FisherYatesSettles(s, p, c);
      FisherYatesSettles(s, q, c);
      assert p[n - c] == q[n - c];
      SwapDistinct(s, c - 1, p[n - c]);
      FisherYatesInjective(Swap(s, c - 1, p[n - c]), p, q, c - 1);
    }
  }

  /** A swap inside the first `c` cells keeps the multiset of that prefix and the rest. */
  lemma SwapPrefix<T>(s: seq<T>, c: nat, j: nat)
    requires j < c <= |s|
    ensures multiset(Swap(s, c - 1, j)[..c]) == multiset(s[..c])
    ensures Swap(s, c - 1, j)[c..] == s[c..]
  {
    var s' := Swap(s, c - 1, j);
    assert s'[..c] == Swap(s[..c], c - 1, j);
    SwapPermutes(s[..c], c - 1, j);
  }

  /** The element `t` wants at `c - 1` is somewhere in `s` below `c`. */
  lemma NextElementBelow<T>(s: seq<T>, t: seq<T>, c: nat) returns (j: nat)
    requires |s| == |t| && 0 < c <= |s| && multiset(s[..c]) == multiset(t[..c])
    ensures j < c && s[j] == t[c - 1]
  {
    assert t[c - 1] in multiset(t[..c]) by {
      assert t[..c][c - 1] == t[c - 1];
    }
    assert t[c - 1] in s[..c];
    j :| 0 <= j < c && s[..c][j] == t[c - 1];
  }

  /** Swapping that element to `c - 1` extends the agreeing suffix by one cell. */
  lemma SwapIntoPlaceSuffix<T>(s: seq<T>, t: seq<T>, c: nat, j: nat)
    requires |s| == |t| && j < c <= |s| && s[j] == t[c - 1] && s[c..] == t[c..]
    ensures Swap(s, c - 1, j)[c - 1..] == t[c - 1..]
  {
    var s' := Swap(s, c - 1, j);
    SwapPrefix(s, c, j);
    assert s'[c - 1..] == [s'[c - 1]] + s'[c..];
    assert t[c - 1..] == [t[c - 1]] + t[c..];
  }

  /** … and leaves a prefix one shorter that holds the same elements as `t`'s. */
  lemma SwapIntoPlacePrefix<T>(s: seq<T>, t: seq<T>, c: nat, j: nat)
    requires |s| == |t| && j < c <= |s| && s[j] == t[c - 1] && multiset(s[..c]) == multiset(t[..c])
    ensures multiset(Swap(s, c - 1, j)[..c - 1]) == multiset(t[..c - 1])
  {
    var s' := Swap(s, c - 1, j);
    var x := t[c - 1];
    SwapPrefix(s, c, j);
    assert t[..c] == t[..c - 1] + [x];
    assert s'[..c] == s'[..c - 1] + [x];
    assert multiset(s'[..c - 1]) == multiset(s'[..c]) - multiset{x};
    assert multiset(t[..c - 1]) == multiset(t[..c]) - multiset{x};
  }

  /**
    Every rearrangement is reached by some picks: for any `t` that agrees with
    `s` from `c` on and holds the same elements below `c`, some picks make the
    rounds from `currentIndex == c` down produce `t`.
  */
  lemma {:induction false} FisherYatesReaches<T>(s: seq<T>, t: seq<T>, c: nat) returns (p: seq<nat>)
    requires |s| == |t| && c <= |s|
    requires s[c..] == t[c..] && multiset(s[..c]) == multiset(t[..c])
    ensures |p| == |s| && ValidPicks(p) && FisherYates(s, p, c) == t
    decreases c
  {
    var n := |s|;
    if c == 0 {
      assert s == s[c..] && t == t[c..];
      p := seq(n, k => 0);
      assert ValidPicks(p);
    } else {
      var j := NextElementBelow(s, t, c);
      var s' := Swap(s, c - 1, j);
      SwapIntoPlaceSuffix(s, t, c, j);
      SwapIntoPlacePrefix(s, t, c, j);
      var p' := FisherYatesReaches(s', t, c - 1);
      p := p'[n - c := j];
      assert ValidPicks(p);
      FisherYatesReadsOwnPicks(s', p, p', c - 1);
      assert p[n - c] == j;
    }
  }

  /** For a distinct input, picks and arrangements of it correspond one to one. */
  lemma FisherYatesIsBijective<T>(s: seq<T>)
    requires Distinct(s)
    ensures forall t :: |t| == |s| && multiset(t) == multiset(s) ==>
      exists p: seq<nat> :: |p| == |s| && ValidPicks(p) && FisherYates(s, p, |s|) == t
    ensures forall p: seq<nat>, q: seq<nat> ::
      |p| == |s| && |q| == |s| && ValidPicks(p) && ValidPicks(q) && FisherYates(s, p, |s|) == FisherYates(s, q, |s|) ==> p == q
  {
    forall t | |t| == |s| && multiset(t) == multiset(s)
      ensures exists p: seq<nat> :: |p| == |s| && ValidPicks(p) && FisherYates(s, p, |s|) == t
    {
      assert s[..|s|] == s && t[..|t|] == t;
      var p := FisherYatesReaches(s, t, |s|);
    }
    forall p: seq<nat>, q: seq<nat> |
      |p| == |s| && |q| == |s| && ValidPicks(p) && ValidPicks(q) && FisherYates(s, p, |s|) == FisherYates(s, q, |s|)
      ensures p == q
    {
      FisherYatesInjective(s, p, q, |s|);
    }
  }

  // ---------------------------------------------------------------------
  // The method

  /**
    One round of the loop keeps its invariant: the rounds still to run reach
    `result`, and every cell from `currentIndex` on already holds its final value.
  */
  lemma RoundKeepsInvariant<T>(before: seq<T>, picks: seq<nat>, c: nat, j: nat, result: seq<T>)
    requires |picks| == |before| == |result| && 0 < c <= |before| && ValidPicks(picks)
    requires j == picks[|picks| - c]
    requires FisherYates(before, picks, c) == result
    ensures j < c
    ensures FisherYates(Swap(before, c - 1, j), picks, c - 1) == result
    ensures Swap(before, c - 1, j)[c - 1..] == result[c - 1..]
  {
    FisherYatesKeepsSuffix(Swap(before, c - 1, j), picks, c - 1);
  }

  /**
    `shuffle(array)`: rearranges `a` in place and returns the same array.
    `picks[k]` is the `randomIndex` of round `k`, the value the source draws as
    `Math.floor(Math.random() * currentIndex)`; `Picks` turns the `Math.random()`
    results into exactly such a sequence.
  */
  method Shuffle<T>(a: array<T>, picks: seq<nat>) returns (r: array<T>)
    requires |picks| == a.Length && ValidPicks(picks)
    modifies a
    ensures r == a
    ensures a[..] == FisherYates(old(a[..]), picks, a.Length)
    ensures multiset(a[..]) == multiset(old(a[..]))
    ensures a.Length == 0 ==> a[..] == old(a[..])
  {
    var n := a.Length;
    ghost var result := FisherYates(a[..], picks, n);
    ghost var cells := a[..];
    FisherYatesPermutation(cells, picks, n);
    var currentIndex := n;
    while currentIndex != 0
      invariant 0 <= currentIndex <= n
      invariant a[..] == cells && |cells| == n
      invariant FisherYates(cells, picks, currentIndex) == result
      invariant cells[currentIndex..] == result[currentIndex..]
    {
      var randomIndex := picks[n - currentIndex];
      RoundKeepsInvariant(cells, picks, currentIndex, randomIndex, result);
      currentIndex := currentIndex - 1;
      var temporaryValue := a[currentIndex];
      a[currentIndex] := a[randomIndex];
      a[randomIndex] := temporaryValue;
      cells := Swap(cells, currentIndex, randomIndex);
    }
    FisherYatesPermutation(old(a[..]), picks, n);
    return a;
  }

  /** The shuffle as the source runs it, its indices drawn from the `Math.random()` results. */
  method ShuffleWithDraws<T>(a: array<T>, draws: seq<real>) returns (r: array<T>)
    requires |draws| == a.Length && UnitDraws(draws)
    modifies a
    ensures r == a
    ensures a[..] == FisherYates(old(a[..]), Picks(draws), a.Length)
    ensures multiset(a[..]) == multiset(old(a[..]))
  {
    r := Shuffle(a, Picks(draws));
  }
}
