/**
 The association list of src/linear_map.rs: pairs in a vector, scanned from the front, removed by
 moving the last pair into the hole. The functions give each operation on the list of pairs, order
 included, because the reassembler breaks ties by iteration order; the lemmas say what the
 operation means for the finite map the list stands for.
 */
module LinearMaps {
  import opened Wrappers

  /** The index of the first pair under `k`, or the length of the list. */
  function Position<K(==), V>(s: seq<(K, V)>, k: K): (i: nat)
    ensures i <= |s|
    ensures i < |s| ==> s[i].0 == k
    ensures forall j :: 0 <= j < i ==> s[j].0 != k
  {
    if s == [] then 0
    else if s[0].0 == k then 0
    else
      var i := Position(s[1..], k);
      assert forall j :: 0 < j < i + 1 ==> s[j] == s[1..][j - 1];
      i + 1
  }

  predicate Has<K(==), V>(s: seq<(K, V)>, k: K) {
    Position(s, k) < |s|
  }

  function Put<K(==), V>(s: seq<(K, V)>, k: K, v: V): seq<(K, V)> {
    var i := Position(s, k);
    if i < |s| then s[i := (k, v)] else s + [(k, v)]
  }

  /** Vec::swap_remove. */
  function SwapRemove<T>(s: seq<T>, i: nat): (r: seq<T>)
    requires i < |s|
    ensures |r| == |s| - 1
    ensures forall j :: 0 <= j < |r| ==> r[j] == s[if j == i then |s| - 1 else j]
  {
    s[i := s[|s| - 1]][..|s| - 1]
  }

  function Delete<K(==), V>(s: seq<(K, V)>, k: K): seq<(K, V)> {
    if Has(s, k) then SwapRemove(s, Position(s, k)) else s
  }

  function Filter<T>(s: seq<T>, keep: T -> bool): seq<T> {
    if s == [] then []
    else if keep(s[0]) then [s[0]] + Filter(s[1..], keep)
    else Filter(s[1..], keep)
  }

  ghost predicate Distinct<K, V>(s: seq<(K, V)>) {
    forall i, j :: 0 <= i < j < |s| ==> s[i].0 != s[j].0
  }

  ghost function Keys<K, V>(s: seq<(K, V)>): set<K> {
    set i | 0 <= i < |s| :: s[i].0
  }

  /** The list of pairs stands for the finite map `m`. */
  ghost predicate StandsFor<K, V>(s: seq<(K, V)>, m: map<K, V>) {
    && Distinct(s)
    && m.Keys == Keys(s)
    && forall i :: 0 <= i < |s| ==> m[s[i].0] == s[i].1
  }

  lemma HasIffKey<K, V>(s: seq<(K, V)>, k: K)
    ensures Has(s, k) <==> k in Keys(s)
  {
    if Has(s, k) {
      assert s[Position(s, k)].0 == k;
    }
  }

  /** Every list without a repeated key stands for some map, and for one of its own size. */
  lemma {:induction false} StandsForSome<K, V>(s: seq<(K, V)>) returns (m: map<K, V>)
    requires Distinct(s)
    ensures StandsFor(s, m) && |m| == |s|
  {
    if s == [] {
      m := map[];
    } else {
      var t, last := s[..|s| - 1], s[|s| - 1];
      var n := StandsForSome(t);
      m := n[last.0 := last.1];
      assert last.0 !in n;
      forall i | 0 <= i < |s|
        ensures s[i].0 in m && m[s[i].0] == s[i].1
      {
        if i < |t| {
          assert t[i] == s[i];
        }
      }
      forall k | k in m
        ensures k in Keys(s)
      {
        if k != last.0 {
          var i :| 0 <= i < |t| && t[i].0 == k;
          assert s[i].0 == k;
        }
      }
    }
  }

  lemma PutIsMapUpdate<K, V>(s: seq<(K, V)>, m: map<K, V>, k: K, v: V)
    requires StandsFor(s, m)
    ensures StandsFor(Put(s, k, v), m[k := v])
    ensures forall i :: 0 <= i < |s| ==> Put(s, k, v)[i].0 == s[i].0
  {
    var r, i := Put(s, k, v), Position(s, k);
    assert r[i] == (k, v);
    forall j | 0 <= j < |s|
      ensures r[j].0 == s[j].0 && s[j].0 in Keys(r)
    {
      assert r[j].0 == s[j].0;
    }
    assert k in Keys(r);
  }

  lemma DeleteIsMapRemoval<K, V>(s: seq<(K, V)>, m: map<K, V>, k: K)
    requires StandsFor(s, m)
    ensures StandsFor(Delete(s, k), m - {k})
    ensures |Delete(s, k)| == |s| - (if k in m then 1 else 0)
    ensures forall i :: 0 <= i < |Delete(s, k)| ==> Delete(s, k)[i] == if s[i].0 == k then s[|s| - 1] else s[i]
  {
    HasIffKey(s, k);
    if Has(s, k) {
      var i, r := Position(s, k), Delete(s, k);
      forall j | 0 <= j < |s| && j != i
        ensures s[j].0 in Keys(r)
      {
        assert r[if j == |s| - 1 then i else j] == s[j];
      }
      assert |r| == |s| - 1;
    }
  }

  lemma {:induction false} RetainIsMapRestriction<K, V>(s: seq<(K, V)>, m: map<K, V>, keep: ((K, V)) -> bool)
    requires StandsFor(s, m)
    ensures StandsFor(Filter(s, keep), map k | k in m && keep((k, m[k])) :: m[k])
  {
    FilterKeepsExactly(s, keep);
    var r := Filter(s, keep);
    forall i | 0 <= i < |r|
      ensures r[i].0 in m && m[r[i].0] == r[i].1 && keep(r[i])
    {
      assert r[i] in s;
      var j :| 0 <= j < |s| && s[j] == r[i];
    }
    forall k | k in m && keep((k, m[k]))
      ensures k in Keys(r)
    {
      var i :| 0 <= i < |s| && s[i].0 == k;
      assert s[i] in r;
      var j :| 0 <= j < |r| && r[j] == s[i];
    }
  }

  lemma {:induction false} FilterKeepsExactly<K, V>(s: seq<(K, V)>, keep: ((K, V)) -> bool)
    requires Distinct(s)
    ensures var r := Filter(s, keep);
            && |r| <= |s|
            && Distinct(r)
            && (forall i :: 0 <= i < |r| ==> r[i] in s && keep(r[i]))
            && (forall i :: 0 <= i < |s| && keep(s[i]) ==> s[i] in r)
  {
    if s != [] {
      var t, r := s[1..], Filter(s[1..], keep);
      FilterKeepsExactly(t, keep);
      assert s == [s[0]] + t;
      forall i | 0 <= i < |r|
        ensures r[i] in s && r[i].0 != s[0].0
      {
        assert r[i] in t;
        var j :| 0 <= j < |t| && t[j] == r[i];
        assert s[j + 1] == r[i];
      }
      forall i | 0 <= i < |s| && keep(s[i])
        ensures s[i] in Filter(s, keep)
      {
        if i > 0 {
          assert t[i - 1] == s[i] && s[i] in r;
        }
      }
    }
  }

  function Lookup<K(==), V>(s: seq<(K, V)>, k: K): Option<V> {
    var i := Position(s, k);
    if i < |s| then Some(s[i].1) else None
  }

  lemma LookupIsMapLookup<K, V>(s: seq<(K, V)>, m: map<K, V>, k: K)
    requires StandsFor(s, m)
    ensures Lookup(s, k) == if k in m then Some(m[k]) else None
  {
    HasIffKey(s, k);
  }

  lemma PutLookup<K, V>(s: seq<(K, V)>, k: K, v: V, x: K)
    requires Distinct(s)
    ensures Distinct(Put(s, k, v))
    ensures Lookup(Put(s, k, v), x) == if x == k then Some(v) else Lookup(s, x)
    ensures |Put(s, k, v)| == |s| + (if Has(s, k) then 0 else 1)
  {
    var m := StandsForSome(s);
    PutIsMapUpdate(s, m, k, v);
    LookupIsMapLookup(s, m, x);
    LookupIsMapLookup(Put(s, k, v), m[k := v], x);
  }

  lemma DeleteLookup<K, V>(s: seq<(K, V)>, k: K, x: K)
    requires Distinct(s)
    ensures Distinct(Delete(s, k))
    ensures Lookup(Delete(s, k), x) == if x == k then None else Lookup(s, x)
    ensures |Delete(s, k)| == |s| - (if Has(s, k) then 1 else 0)
  {
    var m := StandsForSome(s);
    DeleteIsMapRemoval(s, m, k);
    HasIffKey(s, k);
    LookupIsMapLookup(s, m, x);
    LookupIsMapLookup(Delete(s, k), m - {k}, x);
  }

  lemma FilterLookup<K, V>(s: seq<(K, V)>, keep: ((K, V)) -> bool, x: K)
    requires Distinct(s)
    ensures Distinct(Filter(s, keep)) && |Filter(s, keep)| <= |s|
    ensures Lookup(Filter(s, keep), x) ==
            (match Lookup(s, x) case None => None case Some(v) => if keep((x, v)) then Some(v) else None)
  {
    var m := StandsForSome(s);
    RetainIsMapRestriction(s, m, keep);
    FilterKeepsExactly(s, keep);
    LookupIsMapLookup(s, m, x);
    LookupIsMapLookup(Filter(s, keep), map k | k in m && keep((k, m[k])) :: m[k], x);
  }

  class LinearMap<K(==), V> {
    var entries: seq<(K, V)>

    constructor ()
      ensures entries == []
    {
      entries := [];
    }

    method Find(k: K) returns (i: nat)
      ensures i == Position(entries, k)
    {
      i := 0;
      while i < |entries| && entries[i].0 != k
        invariant i <= |entries|
        invariant forall j :: 0 <= j < i ==> entries[j].0 != k
      {
        i := i + 1;
      }
      assert i < |entries| ==> entries[i].0 == k;
    }

    method Get(k: K) returns (v: Option<V>)
      ensures v == Lookup(entries, k)
    {
      var i := Find(k);
      v := if i < |entries| then Some(entries[i].1) else None;
    }

    method Insert(k: K, v: V) returns (was: Option<V>)
      modifies this
      ensures entries == Put(old(entries), k, v)
      ensures was == Lookup(old(entries), k)
    {
      var i := Find(k);
      if i < |entries| {
        was := Some(entries[i].1);
        entries := entries[i := (k, v)];
      } else {
        was := None;
        entries := entries + [(k, v)];
      }
    }

    method Remove(k: K) returns (was: Option<V>)
      modifies this
      ensures entries == Delete(old(entries), k)
      ensures was == Lookup(old(entries), k)
    {
      var i := Find(k);
      if i < |entries| {
        was := Some(entries[i].1);
        entries := SwapRemove(entries, i);
      } else {
        was := None;
      }
    }

    method Retain(keep: ((K, V)) -> bool)
      modifies this
      ensures entries == Filter(old(entries), keep)
    {
      var kept := [];
      var i := 0;
      while i < |entries|
        invariant i <= |entries| && entries == old(entries)
        invariant kept + Filter(entries[i..], keep) == Filter(entries, keep)
      {
        assert entries[i..][1..] == entries[i + 1..];
        if keep(entries[i]) {
          kept := kept + [entries[i]];
        }
        i := i + 1;
      }
      entries := kept;
    }
  }
}
