/**
 * `queryset.values(field).annotate(count=Count('id'))` on a closed set of
 * field values: one group per value that occurs, with its number of rows.
 * The rows are modelled as the sequence of their `field` values.
 */
module Grouping {
  datatype Group<K> = Group(key: K, count: nat)

  /** Keys listed at most once. */
  predicate Distinct<K(==)>(keys: seq<K>) {
    forall i, j :: 0 <= i < j < |keys| ==> keys[i] != keys[j]
  }

  /** The groups of `s`, one per key of `keys` occurring in `s`, in the order of `keys`. */
  function GroupBy<K(==)>(keys: seq<K>, s: seq<K>): (g: seq<Group<K>>)
    ensures forall j :: 0 <= j < |g| ==>
      g[j].key in keys && g[j].count == multiset(s)[g[j].key] && g[j].count > 0
    ensures forall k :: k in keys && k in s ==> exists j :: 0 <= j < |g| && g[j].key == k
  {
    if keys == [] then []
    else
      var rest := GroupBy(keys[1..], s);
      assert forall k :: k in keys ==> k == keys[0] || k in keys[1..];
      if multiset(s)[keys[0]] > 0 then
        var g := [Group(keys[0], multiset(s)[keys[0]])] + rest;
        assert forall j :: 0 <= j < |rest| ==> g[j + 1] == rest[j];
        assert g[0].key == keys[0];
        g
      else rest
  }

  /** The sum of a count map's entries over `keys`, a missing key counting 0. */
  function Total<K>(keys: seq<K>, m: map<K, nat>): nat {
    if keys == [] then 0
    else (if keys[0] in m then m[keys[0]] else 0) + Total(keys[1..], m)
  }

  /** The sum, over `keys`, of how often each key occurs in `s`. */
  function SumCounts<K(==)>(keys: seq<K>, s: seq<K>): nat {
    if keys == [] then 0 else multiset(s)[keys[0]] + SumCounts(keys[1..], s)
  }

  /** How often `x` is listed in `keys`. */
  function Occurrences<K(==)>(keys: seq<K>, x: K): nat {
    if keys == [] then 0 else (if keys[0] == x then 1 else 0) + Occurrences(keys[1..], x)
  }

  lemma {:induction false} DistinctOccurrence<K>(keys: seq<K>, x: K)
    requires Distinct(keys) && x in keys
    ensures Occurrences(keys, x) == 1
  {
    if keys[0] == x {
      NotInOccurrence(keys[1..], x);
    } else {
      DistinctOccurrence(keys[1..], x);
    }
  }

  lemma {:induction false} NotInOccurrence<K>(keys: seq<K>, x: K)
    requires x !in keys
    ensures Occurrences(keys, x) == 0
  {
    if keys != [] {
      NotInOccurrence(keys[1..], x);
    }
  }

  lemma {:induction false} SumCountsSnoc<K>(keys: seq<K>, s: seq<K>, x: K)
    ensures SumCounts(keys, s + [x]) == SumCounts(keys, s) + Occurrences(keys, x)
  {
    assert multiset(s + [x]) == multiset(s) + multiset{x};
    if keys != [] {
      SumCountsSnoc(keys[1..], s, x);
    }
  }

  /** When every key is listed once and every row's value is listed, the counts add up to the number of rows. */
  lemma {:induction false} SumCountsIsLength<K>(keys: seq<K>, s: seq<K>)
    requires Distinct(keys)
    requires forall i :: 0 <= i < |s| ==> s[i] in keys
    ensures SumCounts(keys, s) == |s|
    decreases |s|
  {
    if s == [] {
      SumCountsEmpty(keys);
    } else {
      var init := s[..|s| - 1];
      assert s == init + [s[|s| - 1]];
      SumCountsIsLength(keys, init);
      SumCountsSnoc(keys, init, s[|s| - 1]);
      DistinctOccurrence(keys, s[|s| - 1]);
    }
  }

  lemma {:induction false} SumCountsEmpty<K>(keys: seq<K>)
    ensures SumCounts(keys, []) == 0
  {
    if keys != [] {
      SumCountsEmpty(keys[1..]);
    }
  }

  /** A map holding exactly the occurring keys with their counts totals as `SumCounts`. */
  lemma {:induction false} TotalOfCounts<K>(keys: seq<K>, s: seq<K>, m: map<K, nat>)
    requires forall k :: k in m <==> k in s
    requires forall k :: k in m ==> m[k] == multiset(s)[k]
    ensures Total(keys, m) == SumCounts(keys, s)
  {
    if keys != [] {
      TotalOfCounts(keys[1..], s, m);
    }
  }

  /**
   * Storing each group's count under its key yields a map whose entries add
   * up to the number of rows: every row is counted once, under its own value.
   */
  lemma GroupTotal<K>(keys: seq<K>, s: seq<K>, m: map<K, nat>)
    requires Distinct(keys)
    requires forall i :: 0 <= i < |s| ==> s[i] in keys
    requires forall k :: k in m <==> k in s
    requires forall k :: k in m ==> m[k] == multiset(s)[k]
    ensures Total(keys, m) == |s|
  {
    TotalOfCounts(keys, s, m);
    SumCountsIsLength(keys, s);
  }
}
