/**
  The two comparator strategies of the ranged-index factory.

  A comparator is a three-way `compare(val, val2)` that answers 0 for equal
  values, -1 when `val` sorts first and 1 otherwise; every ordered index is
  built on one.  The "js" comparator uses the language's own strict equality
  and `<`; the "abstract" comparator delegates to two helpers (deep equality
  and a type-aware less-than) whose bodies belong to another library, so here
  they are parameters about which nothing is assumed.

  The TypeScript source and its compiled JavaScript output carry the same
  if-chains; both are modelled by the functions below.
*/
module RangedFactory {

  // ---------------------------------------------------------------------
  // Orders

  /** `less` never relates a value to itself. */
  ghost predicate Irreflexive<T(!new)>(less: (T, T) -> bool) {
    forall x :: !less(x, x)
  }

  /** `less` chains. */
  ghost predicate Transitive<T(!new)>(less: (T, T) -> bool) {
    forall x, y, z :: less(x, y) && less(y, z) ==> less(x, z)
  }

  /** Any two different values are related one way or the other. */
  ghost predicate Connected<T(!new)>(less: (T, T) -> bool) {
    forall x, y :: x != y ==> less(x, y) || less(y, x)
  }

  /** What the language's `<` is on a homogeneous domain of integers or of strings. */
  ghost predicate StrictTotalOrder<T(!new)>(less: (T, T) -> bool) {
    Irreflexive(less) && Transitive(less) && Connected(less)
  }

  // ---------------------------------------------------------------------
  // The "js" comparator

  /**
    `CreateJavascriptComparator().compare`: strict equality is tested first,
    then `less` (the relational `<` on the value domain), and 1 is the answer
    for everything else.  `===` on a homogeneous domain of numbers or strings
    is value equality, Dafny's `==`.
  */
  function JsCompare<T(==)>(less: (T, T) -> bool, val: T, val2: T): (r: int)
    ensures r == -1 || r == 0 || r == 1
    ensures r == 0 <==> val == val2
    ensures r == -1 <==> val != val2 && less(val, val2)
  {
    if val == val2 then 0
    else if less(val, val2) then -1
    else 1
  }

  /** A value compares equal to itself, whatever `less` says about it. */
  lemma JsCompareReflexive<T>(less: (T, T) -> bool, x: T)
    ensures JsCompare(less, x, x) == 0
  {
  }

  /** Over a strict total order, -1 means "less" and 1 means "greater", both ways. */
  lemma JsCompareAgreesWithLess<T(!new)>(less: (T, T) -> bool, a: T, b: T)
    requires StrictTotalOrder(less)
    ensures JsCompare(less, a, b) == -1 <==> less(a, b)
    ensures JsCompare(less, a, b) == 1 <==> less(b, a)
  {
  }

  /** Swapping the arguments negates the answer. */
  lemma JsCompareAntisymmetric<T(!new)>(less: (T, T) -> bool, a: T, b: T)
    requires StrictTotalOrder(less)
    ensures JsCompare(less, a, b) == -JsCompare(less, b, a)
  {
  }

  /** "Sorts before" and "sorts no later than" both chain. */
  lemma JsCompareTransitive<T(!new)>(less: (T, T) -> bool, a: T, b: T, c: T)
    requires StrictTotalOrder(less)
    ensures JsCompare(less, a, b) == -1 && JsCompare(less, b, c) == -1 ==> JsCompare(less, a, c) == -1
    ensures JsCompare(less, a, b) <= 0 && JsCompare(less, b, c) <= 0 ==> JsCompare(less, a, c) <= 0
  {
  }

  // ---------------------------------------------------------------------
  // The two value domains the benchmark drives the "js" comparator with

  /** The relational `<` on numbers, restricted to integers. */
  predicate NumberLess(x: int, y: int) {
    x < y
  }

  lemma NumberLessIsStrictTotalOrder()
    ensures StrictTotalOrder(NumberLess)
  {
  }

  /** The comparator laws for number values, as the number benchmarks use them. */
  lemma NumberCompareLaws(a: int, b: int, c: int)
    ensures JsCompare(NumberLess, a, b) == -1 <==> a < b
    ensures JsCompare(NumberLess, a, b) == 1 <==> b < a
    ensures JsCompare(NumberLess, a, b) == -JsCompare(NumberLess, b, a)
    ensures JsCompare(NumberLess, a, b) == -1 && JsCompare(NumberLess, b, c) == -1 ==> JsCompare(NumberLess, a, c) == -1
  {
    NumberLessIsStrictTotalOrder();
    JsCompareAgreesWithLess(NumberLess, a, b);
    JsCompareAntisymmetric(NumberLess, a, b);
    JsCompareTransitive(NumberLess, a, b, c);
  }

  /**
    The relational `<` on strings: code-unit by code-unit from the left; at
    the first difference the smaller unit decides, and when one string runs
    out first it is the smaller one unless both run out together.
  */
  predicate StringLess(s: string, t: string) {
    if |t| == 0 then false
    else if |s| == 0 then true
    else if s[0] != t[0] then s[0] < t[0]
    else StringLess(s[1..], t[1..])
  }

  /** `s` is a proper prefix of `t`. */
  predicate ProperPrefix(s: string, t: string) {
    |s| < |t| && s == t[..|s|]
  }

  /** The strings agree before index `k` and differ at `k`, with `s` holding the smaller unit. */
  predicate SmallerAt(s: string, t: string, k: nat) {
    k < |s| && k < |t| && s[..k] == t[..k] && s[k] < t[k]
  }

  /** `StringLess` is the prefix-or-first-difference order, both ways. */
  lemma {:induction false} StringLessIff(s: string, t: string)
    ensures StringLess(s, t) <==> ProperPrefix(s, t) || exists k: nat :: SmallerAt(s, t, k)
  {
    if |t| == 0 {
      assert !ProperPrefix(s, t);
      assert forall k: nat :: !SmallerAt(s, t, k);
    } else if |s| == 0 {
      assert ProperPrefix(s, t);
    } else if s[0] != t[0] {
      assert !ProperPrefix(s, t) by {
        assert |s| <= |t| ==> t[..|s|][0] == t[0];
      }
      forall k: nat | k > 0 && k < |s| && k < |t|
        ensures s[..k] != t[..k]
      {
        assert s[..k][0] == s[0] && t[..k][0] == t[0];
      }
      if s[0] < t[0] {
        assert SmallerAt(s, t, 0);
      }
    } else {
      StringLessIff(s[1..], t[1..]);
      PrefixTail(s, t);
      SmallerAtTail(s, t);
    }
  }

  /** With equal heads, proper prefixes correspond to those of the tails. */
  lemma PrefixTail(s: string, t: string)
    requires |s| > 0 && |t| > 0 && s[0] == t[0]
    ensures ProperPrefix(s, t) <==> ProperPrefix(s[1..], t[1..])
  {
    if ProperPrefix(s[1..], t[1..]) {
      assert s == [s[0]] + s[1..];
      assert t[..|s|] == [t[0]] + t[1..][..|s| - 1];
    }
    if ProperPrefix(s, t) {
      assert s[1..] == t[..|s|][1..];
    }
  }

  /** With equal heads, first differences correspond to those of the tails, shifted by one. */
  lemma SmallerAtTail(s: string, t: string)
    requires |s| > 0 && |t| > 0 && s[0] == t[0]
    ensures (exists k: nat :: SmallerAt(s, t, k)) <==> (exists k: nat :: SmallerAt(s[1..], t[1..], k))
  {
    if k: nat :| SmallerAt(s, t, k) {
      assert k > 0;
      assert s[1..][..k - 1] == s[..k][1..];
      assert t[1..][..k - 1] == t[..k][1..];
      assert SmallerAt(s[1..], t[1..], k - 1);
    }
    if k: nat :| SmallerAt(s[1..], t[1..], k) {
      assert s[..k + 1] == [s[0]] + s[1..][..k];
      assert t[..k + 1] == [t[0]] + t[1..][..k];
      assert SmallerAt(s, t, k + 1);
    }
  }

  lemma {:induction false} StringLessIrreflexive(s: string)
    ensures !StringLess(s, s)
  {
    if |s| > 0 {
      StringLessIrreflexive(s[1..]);
    }
  }

  lemma {:induction false} StringLessTransitive(s: string, t: string, u: string)
    requires StringLess(s, t) && StringLess(t, u)
    ensures StringLess(s, u)
  {
    if |s| > 0 && s[0] == t[0] && t[0] == u[0] {
      StringLessTransitive(s[1..], t[1..], u[1..]);
    }
  }

  lemma {:induction false} StringLessConnected(s: string, t: string)
    requires s != t
    ensures StringLess(s, t) || StringLess(t, s)
  {
    if |s| > 0 && |t| > 0 && s[0] == t[0] {
      assert s == [s[0]] + s[1..] && t == [t[0]] + t[1..];
      StringLessConnected(s[1..], t[1..]);
    }
  }

  lemma StringLessIsStrictTotalOrder()
    ensures StrictTotalOrder(StringLess)
  {
    forall s: string
      ensures !StringLess(s, s)
    {
      StringLessIrreflexive(s);
    }
    forall s: string, t: string, u: string | StringLess(s, t) && StringLess(t, u)
      ensures StringLess(s, u)
    {
      StringLessTransitive(s, t, u);
    }
    forall s: string, t: string | s != t
      ensures StringLess(s, t) || StringLess(t, s)
    {
      StringLessConnected(s, t);
    }
  }

  /** The comparator laws for string values, as the string benchmarks use them. */
  lemma StringCompareLaws(a: string, b: string, c: string)
    ensures JsCompare(StringLess, a, b) == -1 <==> StringLess(a, b)
    ensures JsCompare(StringLess, a, b) == 1 <==> StringLess(b, a)
    ensures JsCompare(StringLess, a, b) == -JsCompare(StringLess, b, a)
    ensures JsCompare(StringLess, a, b) == -1 && JsCompare(StringLess, b, c) == -1 ==> JsCompare(StringLess, a, c) == -1
  {
    StringLessIsStrictTotalOrder();
    JsCompareAgreesWithLess(StringLess, a, b);
    JsCompareAntisymmetric(StringLess, a, b);
    JsCompareTransitive(StringLess, a, b, c);
  }

  // ---------------------------------------------------------------------
  // The "abstract" comparator

  /**
    `CreateAbstractComparator().compare`: `aeqHelper` (deep equality) is asked
    first, then `ltHelper(val, val2, false)` (strict type-aware less-than), and
    1 is the answer otherwise.  The helpers are parameters: their bodies are
    not part of this model.
  */
  function AbstractCompare<T>(aeqHelper: (T, T) -> bool, ltHelper: (T, T, bool) -> bool, val: T, val2: T): (r: int)
    ensures r == -1 || r == 0 || r == 1
    ensures r == 0 <==> aeqHelper(val, val2)
    ensures r == -1 <==> !aeqHelper(val, val2) && ltHelper(val, val2, false)
    ensures r == 1 <==> !aeqHelper(val, val2) && !ltHelper(val, val2, false)
  {
    if aeqHelper(val, val2) then 0
    else if ltHelper(val, val2, false) then -1
    else 1
  }

  /** Equality wins over less-than: whatever `ltHelper` says, equal values compare 0. */
  lemma AbstractCompareEqualityFirst<T>(aeqHelper: (T, T) -> bool, ltHelper: (T, T, bool) -> bool, val: T, val2: T)
    requires aeqHelper(val, val2)
    ensures forall lt: (T, T, bool) -> bool :: AbstractCompare(aeqHelper, lt, val, val2) == 0
  {
  }

  /**
    When the helpers are symmetric and decisive on the pair (equal both ways,
    or exactly one of the two strict less-thans), swapping the arguments
    negates the answer.
  */
  lemma AbstractCompareAntisymmetric<T>(aeqHelper: (T, T) -> bool, ltHelper: (T, T, bool) -> bool, a: T, b: T)
    requires aeqHelper(a, b) == aeqHelper(b, a)
    requires !aeqHelper(a, b) ==> ltHelper(a, b, false) != ltHelper(b, a, false)
    ensures AbstractCompare(aeqHelper, ltHelper, a, b) == -AbstractCompare(aeqHelper, ltHelper, b, a)
  {
  }

  /** The "js" comparator is the abstract one with `==` for `aeqHelper` and `less` for `ltHelper`. */
  lemma JsCompareIsAbstractCompare<T>(less: (T, T) -> bool, a: T, b: T)
    ensures JsCompare(less, a, b) == AbstractCompare((x: T, y: T) => x == y, (x: T, y: T, orEqual: bool) => less(x, y), a, b)
  {
  }
}
