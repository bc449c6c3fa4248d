/** Sorting of strings in Python 2's byte-string order (lexicographic by
    character code, a proper prefix first), and the fact that any two sorted
    arrangements of the same elements are identical. */
module Sorting {

  /** `a <= b` between Python 2 strings. */
  predicate LessEq(a: string, b: string)
    decreases |a|
  {
    |a| == 0 || (|b| > 0 && (a[0] < b[0] || (a[0] == b[0] && LessEq(a[1..], b[1..]))))
  }

  lemma {:induction false} LessEqReflexive(a: string)
    ensures LessEq(a, a)
    decreases |a|
  {
    if |a| > 0 {
      LessEqReflexive(a[1..]);
    }
  }

  lemma {:induction false} LessEqTotal(a: string, b: string)
    ensures LessEq(a, b) || LessEq(b, a)
    decreases |a|
  {
    if |a| > 0 && |b| > 0 && a[0] == b[0] {
      LessEqTotal(a[1..], b[1..]);
    }
  }

  lemma {:induction false} LessEqAntisymmetric(a: string, b: string)
    requires LessEq(a, b) && LessEq(b, a)
    ensures a == b
    decreases |a|
  {
    if |a| > 0 {
      LessEqAntisymmetric(a[1..], b[1..]);
      assert a == [a[0]] + a[1..];
      assert b == [b[0]] + b[1..];
    }
  }

  lemma {:induction false} LessEqTransitive(a: string, b: string, c: string)
    requires LessEq(a, b) && LessEq(b, c)
    ensures LessEq(a, c)
    decreases |a|
  {
    if |a| > 0 && a[0] == b[0] && b[0] == c[0] {
      LessEqTransitive(a[1..], b[1..], c[1..]);
    }
  }

  predicate Sorted(s: seq<string>) {
    forall i, j :: 0 <= i < j < |s| ==> LessEq(s[i], s[j])
  }

  /** `x` placed before the first element it does not exceed. */
  function Insert(x: string, s: seq<string>): (r: seq<string>)
    requires Sorted(s)
    ensures Sorted(r)
    ensures multiset(r) == multiset(s) + multiset{x}
  {
    if |s| == 0 then [x]
    else if LessEq(x, s[0]) then
      forall j | 0 < j < |s| ensures LessEq(x, s[j]) {
        LessEqTransitive(x, s[0], s[j]);
      }
      [x] + s
    else
      var rest := Insert(x, s[1..]);
      LessEqTotal(x, s[0]);
      assert s == [s[0]] + s[1..];
      forall e | e in rest ensures LessEq(s[0], e) {
        assert e in multiset(rest);
        if e != x {
          assert e in multiset(s[1..]);
          var j :| 0 <= j < |s[1..]| && s[1..][j] == e;
          assert s[j + 1] == e;
        }
      }
      [s[0]] + rest
  }

  /** `list.sort()`: a sorted permutation of the input. */
  function Sort(s: seq<string>): (r: seq<string>)
    ensures Sorted(r)
    ensures multiset(r) == multiset(s)
  {
    if |s| == 0 then []
    else
      assert s == s[..|s| - 1] + [s[|s| - 1]];
      Insert(s[|s| - 1], Sort(s[..|s| - 1]))
  }

  /** The first element of a sorted sequence is its least. */
  lemma SortedHeadIsLeast(a: seq<string>, x: string)
    requires Sorted(a) && x in multiset(a)
    ensures LessEq(a[0], x)
  {
    var i :| 0 <= i < |a| && a[i] == x;
    if i == 0 {
      LessEqReflexive(x);
    }
  }

  lemma TailMultiset(a: seq<string>)
    requires |a| > 0
    ensures multiset(a[1..]) == multiset(a) - multiset{a[0]}
  {
    assert a == [a[0]] + a[1..];
  }

  /** Two sorted sequences holding the same elements are equal, so the
      sorted result does not depend on the input order or on the sorting
      algorithm. */
  lemma {:induction false} SortedUnique(a: seq<string>, b: seq<string>)
    requires Sorted(a) && Sorted(b)
    requires multiset(a) == multiset(b)
    ensures a == b
    decreases |a|
  {
    assert |a| == |multiset(a)| == |multiset(b)| == |b|;
    if |a| > 0 {
      assert a[0] in multiset(a) && b[0] in multiset(b);
      SortedHeadIsLeast(a, b[0]);
      SortedHeadIsLeast(b, a[0]);
      LessEqAntisymmetric(a[0], b[0]);
      TailMultiset(a);
      TailMultiset(b);
      SortedUnique(a[1..], b[1..]);
      assert a == [a[0]] + a[1..];
      assert b == [b[0]] + b[1..];
    }
  }

  /** Sorting two arrangements of the same elements gives the same list. */
  lemma SortIgnoresOrder(a: seq<string>, b: seq<string>)
    requires multiset(a) == multiset(b)
    ensures Sort(a) == Sort(b)
  {
    SortedUnique(Sort(a), Sort(b));
  }
}
