/** Python's `sorted` on a list of strings: code-point lexicographic order. */
module Sorting {

  /** `a <= b` on Python strings: compare code points left to right; a proper
      prefix comes first. */
  predicate StrLessEq(a: string, b: string)
  {
    |a| == 0 || (|b| > 0 && (a[0] < b[0] || (a[0] == b[0] && StrLessEq(a[1..], b[1..]))))
  }

  lemma {:induction false} StrLessEqReflexive(a: string)
    ensures StrLessEq(a, a)
  {
    if |a| > 0 {
      StrLessEqReflexive(a[1..]);
    }
  }

  lemma {:induction false} StrLessEqTotal(a: string, b: string)
    ensures StrLessEq(a, b) || StrLessEq(b, a)
  {
    if |a| > 0 && |b| > 0 && a[0] == b[0] {
      StrLessEqTotal(a[1..], b[1..]);
    }
  }

  lemma {:induction false} StrLessEqTransitive(a: string, b: string, c: string)
    requires StrLessEq(a, b) && StrLessEq(b, c)
    ensures StrLessEq(a, c)
  {
    if |a| > 0 && a[0] == b[0] && b[0] == c[0] {
      StrLessEqTransitive(a[1..], b[1..], c[1..]);
    }
  }

  lemma {:induction false} StrLessEqAntisymmetric(a: string, b: string)
    requires StrLessEq(a, b) && StrLessEq(b, a)
    ensures a == b
  {
    if |a| > 0 {
      StrLessEqAntisymmetric(a[1..], b[1..]);
      assert a == [a[0]] + a[1..] && b == [b[0]] + b[1..];
    }
  }

  predicate Sorted(s: seq<string>)
  {
    forall i, j :: 0 <= i < j < |s| ==> StrLessEq(s[i], s[j])
  }

  /** A lower bound of every element of a sorted sequence may go in front. */
  lemma PrependSorted(y: string, r: seq<string>)
    requires Sorted(r)
    requires forall z :: z in multiset(r) ==> StrLessEq(y, z)
    ensures Sorted([y] + r)
  {
    forall i, j | 0 <= i < j < |[y] + r|
      ensures StrLessEq(([y] + r)[i], ([y] + r)[j])
    {
      if i == 0 {
        assert r[j - 1] in multiset(r);
      }
    }
  }

  /** `x` placed into the sorted `s` before the first element above it. */
  function Insert(x: string, s: seq<string>): (r: seq<string>)
    requires Sorted(s)
    ensures Sorted(r)
    ensures multiset(r) == multiset(s) + multiset{x}
  {
    if |s| == 0 then [x]
    else if StrLessEq(x, s[0]) then
      assert forall z :: z in multiset(s) ==> StrLessEq(x, z) by {
        forall z | z in multiset(s)
          ensures StrLessEq(x, z)
        {
          var j :| 0 <= j < |s| && s[j] == z;
          if j > 0 { StrLessEqTransitive(x, s[0], s[j]); }
        }
      }
      PrependSorted(x, s);
      [x] + s
    else
      StrLessEqTotal(x, s[0]);
      var rest := Insert(x, s[1..]);
      assert s == [s[0]] + s[1..];
      assert forall z :: z in multiset(rest) ==> StrLessEq(s[0], z) by {
        forall z | z in multiset(rest)
          ensures StrLessEq(s[0], z)
        {
          if z != x {
            assert z in multiset(s[1..]);
            var j :| 0 <= j < |s[1..]| && s[1..][j] == z;
            assert s[j + 1] == z;
          }
        }
      }
      PrependSorted(s[0], rest);
      [s[0]] + rest
  }

  /** Insertion sort: a sorted permutation of `s`. */
  function Sort(s: seq<string>): (r: seq<string>)
    ensures Sorted(r)
    ensures multiset(r) == multiset(s)
  {
    if |s| == 0 then []
    else
      assert s == [s[0]] + s[1..];
      Insert(s[0], Sort(s[1..]))
  }

  /** The head of a sorted sequence is below everything in it. */
  lemma SortedHeadLeast(s: seq<string>, z: string)
    requires Sorted(s) && z in multiset(s)
    ensures |s| > 0 && StrLessEq(s[0], z)
  {
    var i :| 0 <= i < |s| && s[i] == z;
    if i == 0 {
      StrLessEqReflexive(z);
    }
  }

  /** The tail of a sorted sequence is sorted and holds the rest. */
  lemma SortedTail(s: seq<string>)
    requires Sorted(s) && |s| > 0
    ensures Sorted(s[1..])
    ensures multiset(s[1..]) == multiset(s) - multiset{s[0]}
  {
    assert s == [s[0]] + s[1..];
  }

  /** Two sorted arrangements of the same non-empty multiset start alike. */
  lemma SortedSameHead(a: seq<string>, b: seq<string>)
    requires Sorted(a) && Sorted(b) && multiset(a) == multiset(b) && |a| > 0
    ensures |b| > 0 && a[0] == b[0]
  {
    assert a[0] in multiset(a);
    SortedHeadLeast(b, a[0]);
    assert b[0] in multiset(b);
    SortedHeadLeast(a, b[0]);
    StrLessEqAntisymmetric(a[0], b[0]);
  }

  /** There is only one sorted arrangement of a multiset of strings, so
      `Sort` agrees with any other sorting procedure. */
  lemma {:induction false} SortedUnique(a: seq<string>, b: seq<string>)
    requires Sorted(a) && Sorted(b) && multiset(a) == multiset(b)
    ensures a == b
    decreases |a|
  {
    if |a| == 0 {
      assert |b| == |multiset(b)| == 0;
    } else {
      SortedSameHead(a, b);
      SortedTail(a);
      SortedTail(b);
      SortedUnique(a[1..], b[1..]);
      assert a == [a[0]] + a[1..] && b == [b[0]] + b[1..];
    }
  }
}
