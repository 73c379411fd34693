/** Insertion-ordered dictionaries with string keys (Python's `OrderedDict`,
    and the `dict` that `json.loads` builds): a sequence of key/value pairs. */
module OrderedMaps {
  import opened Wrappers
  import opened Seqs

  type OMap<V> = seq<(string, V)>

  /** The keys in iteration order. */
  function Keys<V>(m: OMap<V>): (r: seq<string>)
    ensures |r| == |m|
    ensures forall i :: 0 <= i < |m| ==> r[i] == m[i].0
  {
    seq(|m|, i requires 0 <= i < |m| => m[i].0)
  }

  predicate Distinct(s: seq<string>)
  {
    forall i, j :: 0 <= i < j < |s| ==> s[i] != s[j]
  }

  /** `m[k]` when `k` is a key. */
  function Get<V>(m: OMap<V>, k: string): (r: Option<V>)
    ensures r.None? <==> k !in Keys(m)
    ensures r.Some? ==> exists i :: 0 <= i < |m| && m[i] == (k, r.value)
  {
    var i := FirstIndexOf(Keys(m), k);
    if i < 0 then None else Some(m[i].1)
  }

  /** `m[k] = v`: an existing key keeps its position and takes the new value;
      a new key goes last. */
  function Put<V>(m: OMap<V>, k: string, v: V): (r: OMap<V>)
    ensures Keys(r) == if k in Keys(m) then Keys(m) else Keys(m) + [k]
    ensures Get(r, k) == Some(v)
    ensures forall k' :: k' != k ==> Get(r, k') == Get(m, k')
  {
    var i := FirstIndexOf(Keys(m), k);
    if i < 0 then
      var r := m + [(k, v)];
      assert Keys(r) == Keys(m) + [k];
      FirstIndexOfNew(Keys(m), k);
      forall k' | k' != k ensures Get(r, k') == Get(m, k') {
        if k' in Keys(m) {
          FirstIndexOfAppend(Keys(m), [k], k');
        }
      }
      r
    else
      var r := m[i := (k, v)];
      assert Keys(r) == Keys(m);
      forall k' | k' != k ensures Get(r, k') == Get(m, k') {
        var j := FirstIndexOf(Keys(m), k');
        if j >= 0 {
          assert r[j] == m[j];
        }
      }
      r
  }

  /** In a sequence without repeats, an element's first position is its position. */
  lemma FirstIndexOfDistinct(s: seq<string>, j: int)
    requires Distinct(s) && 0 <= j < |s|
    ensures FirstIndexOf(s, s[j]) == j
  {
  }

  /** With distinct keys, looking up the key of a pair finds that pair's value. */
  lemma GetAt<V>(m: OMap<V>, j: int)
    requires Distinct(Keys(m)) && 0 <= j < |m|
    ensures Get(m, m[j].0) == Some(m[j].1)
  {
    FirstIndexOfDistinct(Keys(m), j);
  }

  /** Appending a pair with a new key does not disturb the other lookups. */
  lemma GetAppend<V>(m: OMap<V>, k: string, v: V, k': string)
    requires k' != k
    ensures Get(m + [(k, v)], k') == Get(m, k')
  {
    assert Keys(m + [(k, v)]) == Keys(m) + [k];
    if k' in Keys(m) {
      FirstIndexOfAppend(Keys(m), [k], k');
    }
  }

  /** The keys of a prefix are the prefix of the keys. */
  lemma KeysPrefix<V>(m: OMap<V>, n: nat)
    requires n <= |m|
    ensures Keys(m[..n]) == Keys(m)[..n]
  {
    var a, b := Keys(m[..n]), Keys(m)[..n];
    forall i | 0 <= i < n ensures a[i] == b[i] {
      assert a[i] == m[..n][i].0 == m[i].0;
    }
  }

  /** The keys of a non-empty map: those of its front, then the last key. */
  lemma KeysLast<V>(m: OMap<V>)
    requires |m| > 0
    ensures Keys(m) == Keys(m[..|m| - 1]) + [m[|m| - 1].0]
  {
    var n := |m| - 1;
    KeysPrefix(m, n);
    assert Keys(m) == Keys(m)[..n] + [Keys(m)[n]];
  }

  /** Dropping the last pair keeps the keys distinct, and its key is not
      among the rest. */
  lemma DistinctKeysFront<V>(entries: OMap<V>)
    requires |entries| > 0 && Distinct(Keys(entries))
    ensures var n := |entries| - 1;
      && Keys(entries) == Keys(entries[..n]) + [entries[n].0]
      && Distinct(Keys(entries[..n]))
      && entries[n].0 !in Keys(entries[..n])
  {
    var n := |entries| - 1;
    var ks := Keys(entries);
    KeysPrefix(entries, n);
    assert ks == ks[..n] + [ks[n]];
    forall j | 0 <= j < n ensures ks[..n][j] != ks[n] {
      assert ks[..n][j] == ks[j];
    }
  }

  /** The dictionary built by putting the pairs of `ps` in order. */
  function FromPairs<V>(ps: seq<(string, V)>): OMap<V>
  {
    if |ps| == 0 then [] else Put(FromPairs(ps[..|ps| - 1]), ps[|ps| - 1].0, ps[|ps| - 1].1)
  }

  /** A new element may go last without creating a repeat. */
  lemma DistinctAppend(s: seq<string>, k: string)
    requires Distinct(s) && k !in s
    ensures Distinct(s + [k])
  {
    forall i, j | 0 <= i < j < |s + [k]|
      ensures (s + [k])[i] != (s + [k])[j]
    {
      if j == |s| {
        assert (s + [k])[i] == s[i];
      }
    }
  }

  /** Building a dictionary from pairs: exactly the keys of the pairs, each
      once. */
  lemma {:induction false} FromPairsKeySet<V>(ps: seq<(string, V)>)
    ensures Distinct(Keys(FromPairs(ps)))
    ensures forall k :: k in Keys(FromPairs(ps)) <==> k in Keys(ps)
  {
    if |ps| > 0 {
      var n := |ps| - 1;
      var front, k, v := ps[..n], ps[n].0, ps[n].1;
      var m := FromPairs(front);
      FromPairsKeySet(front);
      KeysLast(ps);
      assert FromPairs(ps) == Put(m, k, v);
      if k !in Keys(m) {
        DistinctAppend(Keys(m), k);
      }
    }
  }

  /** The keys `ks` appear in the order of their first occurrence in `src`. */
  predicate InFirstOccurrenceOrder(src: seq<string>, ks: seq<string>)
  {
    forall i, j :: 0 <= i < j < |ks| ==> FirstIndexOf(src, ks[i]) < FirstIndexOf(src, ks[j])
  }

  lemma ExtendFirstOccurrenceOrder(src: seq<string>, ks: seq<string>, k: string)
    requires forall x :: x in ks ==> x in src
    requires InFirstOccurrenceOrder(src, ks)
    ensures InFirstOccurrenceOrder(src + [k], ks)
    ensures k !in src ==> InFirstOccurrenceOrder(src + [k], ks + [k])
  {
    forall i, j | 0 <= i < j < |ks|
      ensures FirstIndexOf(src + [k], ks[i]) < FirstIndexOf(src + [k], ks[j])
    {
      FirstIndexOfAppend(src, [k], ks[i]);
      FirstIndexOfAppend(src, [k], ks[j]);
    }
    if k !in src {
      var kr := ks + [k];
      FirstIndexOfNew(src, k);
      forall i, j | 0 <= i < j < |kr|
        ensures FirstIndexOf(src + [k], kr[i]) < FirstIndexOf(src + [k], kr[j])
      {
        FirstIndexOfAppend(src, [k], kr[i]);
        if j < |ks| {
          FirstIndexOfAppend(src, [k], kr[j]);
        }
      }
    }
  }

  /** Building a dictionary from pairs: keys appear in the order of their
      FIRST occurrence. */
  lemma {:induction false} FromPairsKeyOrder<V>(ps: seq<(string, V)>)
    ensures InFirstOccurrenceOrder(Keys(ps), Keys(FromPairs(ps)))
  {
    if |ps| > 0 {
      var n := |ps| - 1;
      var front, k, v := ps[..n], ps[n].0, ps[n].1;
      FromPairsKeyOrder(front);
      FromPairsKeySet(front);
      var m := FromPairs(front);
      KeysLast(ps);
      assert FromPairs(ps) == Put(m, k, v);
      ExtendFirstOccurrenceOrder(Keys(front), Keys(m), k);
    }
  }

  /** Building a dictionary from pairs: each key holds the value of its LAST
      occurrence. */
  lemma {:induction false} FromPairsValues<V>(ps: seq<(string, V)>)
    ensures forall k :: k in Keys(ps) ==> Get(FromPairs(ps), k) == Some(ps[LastIndexOf(Keys(ps), k)].1)
  {
    if |ps| > 0 {
      var n := |ps| - 1;
      FromPairsValues(ps[..n]);
      KeysLast(ps);
      forall x | x in Keys(ps)
        ensures Get(FromPairs(ps), x) == Some(ps[LastIndexOf(Keys(ps), x)].1)
      {
        FromPairsValueStep(ps, x);
      }
    }
  }

  /** One step of `FromPairsValues`: the last pair decides its own key, and
      the front decides the others. */
  lemma FromPairsValueStep<V>(ps: seq<(string, V)>, x: string)
    requires |ps| > 0 && x in Keys(ps)
    requires var front := ps[..|ps| - 1];
      x in Keys(front) ==> Get(FromPairs(front), x) == Some(front[LastIndexOf(Keys(front), x)].1)
    ensures Get(FromPairs(ps), x) == Some(ps[LastIndexOf(Keys(ps), x)].1)
  {
    if x == ps[|ps| - 1].0 {
      FromPairsValueLast(ps);
    } else {
      FromPairsValueEarlier(ps, x);
    }
  }

  /** `FromPairsValueStep` for the key of the last pair. */
  lemma FromPairsValueLast<V>(ps: seq<(string, V)>)
    requires |ps| > 0
    ensures Get(FromPairs(ps), ps[|ps| - 1].0) == Some(ps[LastIndexOf(Keys(ps), ps[|ps| - 1].0)].1)
  {
    var n := |ps| - 1;
    var kp := Keys(ps);
    assert kp[n] == ps[n].0;
    assert LastIndexOf(kp, ps[n].0) == n;
    assert FromPairs(ps) == Put(FromPairs(ps[..n]), ps[n].0, ps[n].1);
  }

  /** `FromPairsValueStep` for a key other than that of the last pair. */
  lemma FromPairsValueEarlier<V>(ps: seq<(string, V)>, x: string)
    requires |ps| > 0 && x in Keys(ps) && x != ps[|ps| - 1].0
    requires var front := ps[..|ps| - 1];
      x in Keys(front) ==> Get(FromPairs(front), x) == Some(front[LastIndexOf(Keys(front), x)].1)
    ensures Get(FromPairs(ps), x) == Some(ps[LastIndexOf(Keys(ps), x)].1)
  {
    var n := |ps| - 1;
    var front, k, v := ps[..n], ps[n].0, ps[n].1;
    var kf, kp := Keys(front), Keys(ps);
    KeysLast(ps);
    assert FromPairs(ps) == Put(FromPairs(front), k, v);
    LastIndexOfAppend(kf, [k], x);
    assert ps[LastIndexOf(kp, x)] == front[LastIndexOf(kf, x)];
  }
}
