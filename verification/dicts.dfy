/** Python's `dict` with string keys, as the endpoint uses it: entries kept in
    insertion order, each key at most once, assignment replacing a value in
    place and appending a new key at the end. */
module Dicts {
  import opened Wrappers
  import opened Seqs

  /** No key occurs twice among the entries. */
  predicate DistinctKeys<V>(entries: seq<(string, V)>) {
    forall i, j | 0 <= i < j < |entries| :: entries[i].0 != entries[j].0
  }

  type Dict<V> = d: seq<(string, V)> | DistinctKeys(d) witness []

  predicate NoDuplicates(xs: seq<string>) {
    forall i, j | 0 <= i < j < |xs| :: xs[i] != xs[j]
  }

  /** The keys in insertion order (`list(d)`). */
  function Keys<V>(d: seq<(string, V)>): (ks: seq<string>)
    ensures |ks| == |d|
    ensures forall i | 0 <= i < |d| :: ks[i] == d[i].0
  {
    if |d| == 0 then [] else [d[0].0] + Keys(d[1..])
  }

  lemma KeysDistinct<V>(d: Dict<V>)
    ensures NoDuplicates(Keys(d))
  {
  }

  /** `d[k]` when `k in d`, otherwise nothing. */
  function Get<V>(d: seq<(string, V)>, k: string): (r: Option<V>)
    ensures r.None? <==> k !in Keys(d)
    ensures r.Some? ==> (k, r.value) in d
  {
    if |d| == 0 then None
    else if d[0].0 == k then Some(d[0].1)
    else Get(d[1..], k)
  }

  lemma TailDistinct<V>(d: Dict<V>)
    requires |d| > 0
    ensures DistinctKeys(d[1..])
    ensures d[0].0 !in Keys(d[1..])
  {
    assert forall i | 0 <= i < |d| - 1 :: d[1..][i] == d[i + 1];
  }

  lemma ConsDistinct<V>(e: (string, V), d: Dict<V>)
    requires e.0 !in Keys(d)
    ensures DistinctKeys([e] + d)
  {
    KeysDistinct(d);
    ConsReads(e, d);
    PrependDistinct(e.0, Keys(d));
    DistinctKeysOfKeys([e] + d);
  }

  lemma PrependDistinct(x: string, xs: seq<string>)
    requires NoDuplicates(xs) && x !in xs
    ensures NoDuplicates([x] + xs)
  {
    var ys := [x] + xs;
    forall i, j | 0 <= i < j < |ys|
      ensures ys[i] != ys[j]
    {
      assert ys[j] == xs[j - 1];
      if i > 0 {
        assert ys[i] == xs[i - 1];
      }
    }
  }

  /** How lookups and keys read an entry placed in front of a dictionary. */
  lemma ConsReads<V>(e: (string, V), d: seq<(string, V)>)
    ensures Keys([e] + d) == [e.0] + Keys(d)
    ensures forall k :: Get([e] + d, k) == if e.0 == k then Some(e.1) else Get(d, k)
  {
    assert ([e] + d)[1..] == d;
  }

  /** Assigning behind an entry with another key: what `SetEntries` promises
      for the tail holds for the whole list, one promise at a time. */
  lemma SetBehindGet<V>(e: (string, V), rest: seq<(string, V)>, k: string, v: V)
    requires e.0 != k && Get(rest, k) == Some(v)
    ensures Get([e] + rest, k) == Some(v)
  {
    ConsReads(e, rest);
  }

  lemma SetBehindOthers<V>(e: (string, V), tail: seq<(string, V)>, rest: seq<(string, V)>, k: string)
    requires forall k' | k' != k :: Get(rest, k') == Get(tail, k')
    ensures forall k' | k' != k :: Get([e] + rest, k') == Get([e] + tail, k')
  {
    ConsReads(e, tail);
    ConsReads(e, rest);
  }

  lemma SetBehindKeys<V>(e: (string, V), tail: seq<(string, V)>, rest: seq<(string, V)>, k: string)
    requires e.0 != k
    requires Keys(rest) == if k in Keys(tail) then Keys(tail) else Keys(tail) + [k]
    ensures Keys([e] + rest) == if k in Keys([e] + tail) then Keys([e] + tail) else Keys([e] + tail) + [k]
  {
    ConsReads(e, tail);
    ConsReads(e, rest);
    ConsSnoc(e.0, Keys(tail), k);
  }

  /** Assigning to the first key replaces its value in place. */
  lemma SetFront<V>(e: (string, V), tail: seq<(string, V)>, v: V)
    ensures Get([(e.0, v)] + tail, e.0) == Some(v)
    ensures forall k' | k' != e.0 :: Get([(e.0, v)] + tail, k') == Get([e] + tail, k')
    ensures Keys([(e.0, v)] + tail) == Keys([e] + tail)
  {
    ConsReads(e, tail);
    ConsReads((e.0, v), tail);
  }

  /** `d[k] = v` on the entry list: the value of `k` becomes `v`, every other
      key keeps its value, and the key order changes only by appending a key
      that was absent. */
  function SetEntries<V>(d: seq<(string, V)>, k: string, v: V): (r: seq<(string, V)>)
    ensures Get(r, k) == Some(v)
    ensures forall k' | k' != k :: Get(r, k') == Get(d, k')
    ensures Keys(r) == if k in Keys(d) then Keys(d) else Keys(d) + [k]
  {
    if |d| == 0 then [(k, v)]
    else
      var tail := d[1..];
      assert d == [d[0]] + tail;
      if d[0].0 == k then
        SetFront(d[0], tail, v);
        [(k, v)] + tail
      else
        var rest := SetEntries(tail, k, v);
        SetBehindGet(d[0], rest, k, v);
        SetBehindOthers(d[0], tail, rest, k);
        SetBehindKeys(d[0], tail, rest, k);
        [d[0]] + rest
  }

  /** `d[k] = v` keeps the keys distinct. */
  function Set<V>(d: Dict<V>, k: string, v: V): Dict<V> {
    var r := SetEntries(d, k, v);
    assert DistinctKeys(r) by {
      KeysDistinct(d);
      DistinctKeysOfKeys(r);
      if k !in Keys(d) {
        AppendDistinct(Keys(d), k);
      }
    }
    r
  }

  /** After `d[k] = v`, `k` reads `v` and every other key reads as before. */
  lemma SetReads<V>(d: Dict<V>, k: string, v: V)
    ensures Get(Set(d, k, v), k) == Some(v)
    ensures forall k' | k' != k :: Get(Set(d, k, v), k') == Get(d, k')
  {
  }

  /** Entries whose key list repeats nothing have distinct keys. */
  lemma DistinctKeysOfKeys<V>(entries: seq<(string, V)>)
    requires NoDuplicates(Keys(entries))
    ensures DistinctKeys(entries)
  {
    forall i, j | 0 <= i < j < |entries|
      ensures entries[i].0 != entries[j].0
    {
      assert Keys(entries)[i] == entries[i].0 && Keys(entries)[j] == entries[j].0;
    }
  }

  lemma AppendDistinct(xs: seq<string>, x: string)
    requires NoDuplicates(xs) && x !in xs
    ensures NoDuplicates(xs + [x])
  {
    var ys := xs + [x];
    forall i, j | 0 <= i < j < |ys|
      ensures ys[i] != ys[j]
    {
      assert ys[i] == xs[i];
      if j < |xs| {
        assert ys[j] == xs[j];
      }
    }
  }

  /** Two assignments to distinct keys that are both present, or both absent. */
  lemma SetTwoKeys<V>(d: Dict<V>, k1: string, v1: V, k2: string, v2: V)
    requires k1 != k2
    requires (k1 in Keys(d)) == (k2 in Keys(d))
    ensures Keys(Set(Set(d, k1, v1), k2, v2)) == if k1 in Keys(d) then Keys(d) else Keys(d) + [k1, k2]
  {
    var d1 := Set(d, k1, v1);
    if k1 !in Keys(d) {
      assert Keys(d1) == Keys(d) + [k1];
      assert k2 !in Keys(d1);
      assert Keys(d) + [k1] + [k2] == Keys(d) + [k1, k2];
    }
  }

  /** `d` without the entry for `k`, if any. */
  function Remove<V>(d: Dict<V>, k: string): (r: Dict<V>)
    ensures Get(r, k) == None
    ensures forall k' | k' != k :: Get(r, k') == Get(d, k')
    ensures forall x :: x in Keys(r) <==> x in Keys(d) && x != k
  {
    if |d| == 0 then []
    else
      TailDistinct(d);
      var tail: Dict<V> := d[1..];
      var rest := Remove(tail, k);
      if d[0].0 == k then rest
      else
        ConsDistinct(d[0], rest);
        [d[0]] + rest
  }

  // ---------------------------------------------------------------------------
  // Sums over integer-valued dictionaries

  /** `sum(d.values())`. */
  function SumValues(d: seq<(string, int)>): int {
    if |d| == 0 then 0 else d[0].1 + SumValues(d[1..])
  }

  /** The sum of `d.get(k, 0)` over the keys `ks`, one term per position of `ks`. */
  function SumOver(ks: seq<string>, d: seq<(string, int)>): int {
    if |ks| == 0 then 0 else Get(d, ks[0]).GetOr(0) + SumOver(ks[1..], d)
  }

  /** Taking one key's value out of the sum leaves the sum of the rest. */
  lemma {:induction false} SumWithout(d: Dict<int>, k: string)
    ensures SumValues(d) == Get(d, k).GetOr(0) + SumValues(Remove(d, k))
  {
    if |d| > 0 {
      TailDistinct(d);
      var tail: Dict<int> := d[1..];
      SumWithout(tail, k);
      if d[0].0 == k {
        AbsentRemove(tail, k);
      }
    }
  }

  lemma {:induction false} AbsentRemove(d: Dict<int>, k: string)
    requires k !in Keys(d)
    ensures Remove(d, k) == d
  {
    if |d| > 0 {
      TailDistinct(d);
      var tail: Dict<int> := d[1..];
      AbsentRemove(tail, k);
    }
  }

  /** `SumOver` reads `d` only at the keys `ks`. */
  lemma {:induction false} SumOverFrame(ks: seq<string>, d: seq<(string, int)>, e: seq<(string, int)>)
    requires forall i | 0 <= i < |ks| :: Get(d, ks[i]) == Get(e, ks[i])
    ensures SumOver(ks, d) == SumOver(ks, e)
  {
    if |ks| > 0 {
      SumOverFrame(ks[1..], d, e);
    }
  }

  /** When every key of `d` is listed in the duplicate-free `ks`, summing the
      values of `d` is the same as summing `d.get(k, 0)` over `ks`. */
  lemma {:induction false} SumCovered(ks: seq<string>, d: Dict<int>)
    requires NoDuplicates(ks)
    requires forall k | k in Keys(d) :: k in ks
    ensures SumValues(d) == SumOver(ks, d)
  {
    if |ks| == 0 {
      assert forall i | 0 <= i < |d| :: d[i].0 in Keys(d);
    } else {
      var k := ks[0];
      var rest := Remove(d, k);
      SumWithout(d, k);
      assert NoDuplicates(ks[1..]);
      forall x | x in Keys(rest)
        ensures x in ks[1..]
      {
        assert x in ks && x != ks[0];
      }
      SumCovered(ks[1..], rest);
      forall i | 0 <= i < |ks[1..]|
        ensures Get(rest, ks[1..][i]) == Get(d, ks[1..][i])
      {
        assert ks[1..][i] == ks[i + 1] != ks[0];
      }
      SumOverFrame(ks[1..], rest, d);
    }
  }
}
