/** Generic sequence helpers: searching, stripping, splitting and joining. */
module Seqs {

  /** Position of the last `x` in `s`, or -1 when `x` does not occur. */
  function LastIndexOf<T(==)>(s: seq<T>, x: T): (r: int)
    ensures -1 <= r < |s|
    ensures r >= 0 ==> s[r] == x
    ensures forall k :: r < k < |s| ==> s[k] != x
  {
    if |s| == 0 then -1
    else if s[|s| - 1] == x then |s| - 1
    else LastIndexOf(s[..|s| - 1], x)
  }

  /** The last `x` lies before `n`, so cutting `s` at `n` does not move it. */
  lemma {:induction false} LastIndexOfPrefix<T>(s: seq<T>, x: T, n: nat)
    requires LastIndexOf(s, x) < n <= |s|
    ensures LastIndexOf(s[..n], x) == LastIndexOf(s, x)
    decreases |s|
  {
    if n < |s| {
      var front := s[..|s| - 1];
      assert s[|s| - 1] != x;
      assert LastIndexOf(s, x) == LastIndexOf(front, x);
      LastIndexOfPrefix(front, x, n);
      assert front[..n] == s[..n];
    } else {
      assert s[..n] == s;
    }
  }

  /** The last `x` of `a + b` is the last one of `a` when `b` has none. */
  lemma LastIndexOfAppend<T>(a: seq<T>, b: seq<T>, x: T)
    requires x !in b
    ensures LastIndexOf(a + b, x) == LastIndexOf(a, x)
  {
    LastIndexOfPrefix(a + b, x, |a|);
    assert (a + b)[..|a|] == a;
  }

  /** Position of the first `x` in `s`, or -1 when `x` does not occur. */
  function FirstIndexOf<T(==)>(s: seq<T>, x: T): (r: int)
    ensures -1 <= r < |s|
    ensures r >= 0 ==> s[r] == x
    ensures forall k :: 0 <= k < |s| && (r < 0 || k < r) ==> s[k] != x
  {
    if |s| == 0 then -1
    else if s[0] == x then 0
    else
      var r := FirstIndexOf(s[1..], x);
      if r < 0 then -1 else r + 1
  }

  /** The first `x` is the one with no `x` before it. */
  lemma FirstIndexOfAt<T>(s: seq<T>, k: int, x: T)
    requires 0 <= k < |s| && s[k] == x && x !in s[..k]
    ensures FirstIndexOf(s, x) == k
  {
  }

  /** The first `x` of `a + b` is the first one of `a` when `a` has one. */
  lemma FirstIndexOfAppend<T>(a: seq<T>, b: seq<T>, x: T)
    requires x in a
    ensures FirstIndexOf(a + b, x) == FirstIndexOf(a, x)
  {
    var r, r' := FirstIndexOf(a, x), FirstIndexOf(a + b, x);
    assert (a + b)[r] == x;
  }

  /** The first `x` of `a + [x]` is its last element when `a` has none. */
  lemma FirstIndexOfNew<T>(a: seq<T>, x: T)
    requires x !in a
    ensures FirstIndexOf(a + [x], x) == |a|
  {
    assert (a + [x])[|a|] == x;
  }

  /** `s` taken apart around position `k`. */
  lemma SplitAround<T>(s: seq<T>, k: int)
    requires 0 <= k < |s|
    ensures s == s[..k] + [s[k]] + s[k + 1..]
  {
  }

  /** `s` without its trailing run of `x` (Python's `rstrip` with one byte). */
  function RStrip<T(==)>(s: seq<T>, x: T): (r: seq<T>)
    ensures |r| <= |s| && r == s[..|r|]
    ensures forall k :: |r| <= k < |s| ==> s[k] == x
    ensures |r| == 0 || r[|r| - 1] != x
  {
    if |s| == 0 || s[|s| - 1] != x then s
    else RStrip(s[..|s| - 1], x)
  }

  /** `s` cut at every `sep` (Python's `split` with a separator): never empty. */
  function Split<T(==)>(s: seq<T>, sep: T): (r: seq<seq<T>>)
    ensures |r| >= 1
    ensures forall i :: 0 <= i < |r| ==> sep !in r[i]
    decreases |s|
  {
    var i := LastIndexOf(s, sep);
    if i < 0 then [s] else Split(s[..i], sep) + [s[i + 1..]]
  }

  /** The lines `ls` glued with `sep` between neighbours (Python's `join`). */
  function Join<T>(ls: seq<seq<T>>, sep: T): seq<T>
  {
    if |ls| == 0 then []
    else if |ls| == 1 then ls[0]
    else Join(ls[..|ls| - 1], sep) + [sep] + ls[|ls| - 1]
  }

  /** Joining the pieces of a split gives back the original sequence. */
  lemma {:induction false} JoinSplit<T>(s: seq<T>, sep: T)
    ensures Join(Split(s, sep), sep) == s
    decreases |s|
  {
    var i := LastIndexOf(s, sep);
    if i >= 0 {
      var front := Split(s[..i], sep);
      var ls := front + [s[i + 1..]];
      JoinSplit(s[..i], sep);
      assert Split(s, sep) == ls;
      assert ls[..|ls| - 1] == front && ls[|ls| - 1] == s[i + 1..];
      assert Join(ls, sep) == Join(front, sep) + [sep] + s[i + 1..];
      assert s == s[..i] + [sep] + s[i + 1..];
    }
  }

  /** Splitting a join of separator-free pieces gives back the pieces. */
  lemma {:induction false} SplitJoin<T>(ls: seq<seq<T>>, sep: T)
    requires |ls| >= 1
    requires forall i :: 0 <= i < |ls| ==> sep !in ls[i]
    ensures Split(Join(ls, sep), sep) == ls
    decreases |ls|
  {
    if |ls| > 1 {
      var front := ls[..|ls| - 1];
      var last := ls[|ls| - 1];
      var j := Join(front, sep);
      SplitJoin(front, sep);
      var s := j + [sep] + last;
      assert Join(ls, sep) == s;
      assert s[|j|] == sep;
      assert forall k :: |j| < k < |s| ==> s[k] == last[k - |j| - 1];
      assert LastIndexOf(s, sep) == |j|;
      assert s[..|j|] == j;
      assert s[|j| + 1..] == last;
      assert ls == front + [last];
    }
  }

  /** Python's `list.remove(x)`, with its `ValueError` swallowed: drops the
      first `x`, and leaves `s` alone when there is none. */
  function RemoveFirst<T(==)>(s: seq<T>, x: T): (r: seq<T>)
    ensures x !in s ==> r == s
    ensures x in s ==> exists k :: 0 <= k < |s| && s[k] == x && x !in s[..k] && r == s[..k] + s[k + 1..]
    ensures multiset(r) == multiset(s) - multiset{x}
  {
    var k := FirstIndexOf(s, x);
    if k < 0 then s
    else
      assert x !in s[..k];
      assert s == s[..k] + [s[k]] + s[k + 1..];
      s[..k] + s[k + 1..]
  }
}
