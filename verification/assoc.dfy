/**
 * PHP arrays keyed by names, modelled as ordered association lists.
 *
 * A PHP array remembers insertion order: assigning to an existing key keeps
 * the entry where it is, assigning to a new key appends it, and `unset`
 * removes it. The order matters to the model because the diff iterates the
 * arrays and the generated update list follows that iteration order.
 */
module Assoc {
  import opened Wrappers

  type Assoc<K, V> = seq<(K, V)>

  /** The keys in iteration order. */
  function Keys<K, V>(a: Assoc<K, V>): (ks: seq<K>)
    ensures |ks| == |a|
    ensures forall i :: 0 <= i < |a| ==> ks[i] == a[i].0
  {
    if |a| == 0 then [] else [a[0].0] + Keys(a[1..])
  }

  /** `isset($a[$k])` for an array whose values are never null. */
  predicate HasKey<K(==), V>(a: Assoc<K, V>, k: K) {
    |a| > 0 && (a[0].0 == k || HasKey(a[1..], k))
  }

  /** The key of every entry is present. */
  lemma {:induction false} HasKeyAt<K, V>(a: Assoc<K, V>, i: nat)
    requires i < |a|
    ensures HasKey(a, a[i].0)
  {
    if i > 0 {
      HasKeyAt(a[1..], i - 1);
    }
  }

  /** A present key is the key of some entry. */
  lemma {:induction false} KeyIndex<K, V>(a: Assoc<K, V>, k: K) returns (i: nat)
    requires HasKey(a, k)
    ensures i < |a| && a[i].0 == k
  {
    if a[0].0 == k {
      i := 0;
    } else {
      var j := KeyIndex(a[1..], k);
      i := j + 1;
    }
  }

  /** `HasKey` is membership among the keys. */
  lemma {:induction false} HasKeyKeys<K, V>(a: Assoc<K, V>, k: K)
    ensures HasKey(a, k) <==> k in Keys(a)
  {
    if HasKey(a, k) {
      var i := KeyIndex(a, k);
      assert Keys(a)[i] == k;
    }
    if k in Keys(a) {
      var i :| 0 <= i < |Keys(a)| && Keys(a)[i] == k;
      HasKeyAt(a, i);
    }
  }

  /** An entry appended at the end adds its key to those present. */
  lemma HasKeySnoc<K, V>(a: Assoc<K, V>, e: (K, V), k: K)
    ensures HasKey(a + [e], k) <==> HasKey(a, k) || e.0 == k
  {
    HasKeyKeys(a, k);
    HasKeyKeys(a + [e], k);
    assert Keys(a + [e]) == Keys(a) + [e.0];
  }

  /** A PHP array never holds the same key twice. */
  ghost predicate Distinct<K, V>(a: Assoc<K, V>) {
    forall i, j :: 0 <= i < j < |a| ==> a[i].0 != a[j].0
  }

  /** `$a[$k]`, with None for a missing key. */
  function Get<K(==), V>(a: Assoc<K, V>, k: K): (r: Option<V>)
    ensures r.Some? <==> HasKey(a, k)
  {
    if |a| == 0 then None
    else if a[0].0 == k then Some(a[0].1)
    else Get(a[1..], k)
  }

  /** In an array without repeated keys, every entry is what its key reads. */
  lemma {:induction false} GetEntry<K, V>(a: Assoc<K, V>, i: nat)
    requires Distinct(a) && i < |a|
    ensures Get(a, a[i].0) == Some(a[i].1)
  {
    if i > 0 {
      DistinctTail(a);
      GetEntry(a[1..], i - 1);
    }
  }

  /** Every entry's key is present. */
  lemma EntryHasKey<K, V>(a: Assoc<K, V>, e: (K, V))
    requires e in a
    ensures HasKey(a, e.0)
  {
    var i :| 0 <= i < |a| && a[i] == e;
    HasKeyAt(a, i);
  }

  /** Without repeated keys, an entry is in the array exactly when its key reads its value. */
  lemma EntryGet<K, V>(a: Assoc<K, V>, k: K, v: V)
    requires Distinct(a)
    ensures (k, v) in a <==> Get(a, k) == Some(v)
  {
    if (k, v) in a {
      var i :| 0 <= i < |a| && a[i] == (k, v);
      GetEntry(a, i);
    }
    if Get(a, k) == Some(v) {
      GetIsEntry(a, k);
    }
  }

  /** What a key reads is one of the entries. */
  lemma {:induction false} GetIsEntry<K, V>(a: Assoc<K, V>, k: K)
    requires HasKey(a, k)
    ensures (k, Get(a, k).value) in a
    decreases |a|
  {
    if a[0].0 != k {
      GetIsEntry(a[1..], k);
    }
  }

  /** The contents of the array, forgetting order. */
  function ToMap<K(==,!new), V>(a: Assoc<K, V>): (m: map<K, V>)
    ensures forall k :: k in m <==> HasKey(a, k)
    ensures forall k :: k in m ==> Get(a, k) == Some(m[k])
    decreases |a|
  {
    if |a| == 0 then map[] else ToMap(a[1..])[a[0].0 := a[0].1]
  }

  /** `$a[$k] = $v`: replaces the value in place, or appends a new entry. */
  function Put<K(==,!new), V>(a: Assoc<K, V>, k: K, v: V): (r: Assoc<K, V>)
    ensures forall j :: Get(r, j) == if j == k then Some(v) else Get(a, j)
    ensures Distinct(a) ==> Distinct(r)
    decreases |a|
  {
    if |a| == 0 then [(k, v)]
    else if a[0].0 == k then
      var r := [(k, v)] + a[1..];
      DistinctTail(a);
      DistinctCons((k, v), a[1..]);
      r
    else
      var rest := Put(a[1..], k, v);
      DistinctTail(a);
      assert Get(rest, a[0].0) == Get(a[1..], a[0].0);
      DistinctCons(a[0], rest);
      [a[0]] + rest
  }

  /** `unset($a[$k])`: drops the entry, keeping the others in order. */
  function Remove<K(==,!new), V>(a: Assoc<K, V>, k: K): (r: Assoc<K, V>)
    ensures forall j :: Get(r, j) == if j == k then None else Get(a, j)
    ensures Distinct(a) ==> Distinct(r)
    decreases |a|
  {
    if |a| == 0 then []
    else
      var rest := Remove(a[1..], k);
      DistinctTail(a);
      if a[0].0 == k then rest
      else
        var r := [a[0]] + rest;
        assert Get(rest, a[0].0) == Get(a[1..], a[0].0);
        DistinctCons(a[0], rest);
        r
  }

  lemma DistinctTail<K, V>(a: Assoc<K, V>)
    requires |a| > 0
    ensures Distinct(a) ==> Distinct(a[1..]) && !HasKey(a[1..], a[0].0)
  {
    if HasKey(a[1..], a[0].0) {
      var i := KeyIndex(a[1..], a[0].0);
      assert a[1..][i] == a[i + 1];
    }
  }

  lemma DistinctCons<K, V>(e: (K, V), a: Assoc<K, V>)
    ensures Distinct(a) && !HasKey(a, e.0) ==> Distinct([e] + a)
  {
    var r := [e] + a;
    if Distinct(a) && !HasKey(a, e.0) {
      forall i, j | 0 <= i < j < |r|
        ensures r[i].0 != r[j].0
      {
        if i > 0 {
          assert r[i] == a[i - 1] && r[j] == a[j - 1];
        } else {
          HasKeyAt(a, j - 1);
        }
      }
    }
  }

  /** `$a[$k][] = $x` on an array of lists: appends to the list under `k`, creating it if needed. */
  function Append<K(==,!new), T>(a: Assoc<K, seq<T>>, k: K, x: T): (r: Assoc<K, seq<T>>)
    ensures forall j :: Get(r, j) == if j == k then Some(Get(a, k).GetOr([]) + [x]) else Get(a, j)
    ensures Distinct(a) ==> Distinct(r)
  {
    Put(a, k, Get(a, k).GetOr([]) + [x])
  }

  /** Assigning keeps an existing key in place and appends a new one. */
  lemma {:induction false} PutKeys<K(!new), V>(a: Assoc<K, V>, k: K, v: V)
    ensures Keys(Put(a, k, v)) == if HasKey(a, k) then Keys(a) else Keys(a) + [k]
    decreases |a|
  {
    if |a| > 0 && a[0].0 != k {
      PutKeys(a[1..], k, v);
      assert Keys(a) == [a[0].0] + Keys(a[1..]);
    }
  }

  lemma ToMapPut<K(!new), V>(a: Assoc<K, V>, k: K, v: V)
    ensures ToMap(Put(a, k, v)) == ToMap(a)[k := v]
  {
    var l, r := ToMap(Put(a, k, v)), ToMap(a)[k := v];
    forall j
      ensures j in l <==> j in r
      ensures j in l ==> l[j] == r[j]
    {
      assert Get(Put(a, k, v), j) == if j == k then Some(v) else Get(a, j);
    }
  }

  lemma ToMapRemove<K(!new), V>(a: Assoc<K, V>, k: K)
    ensures ToMap(Remove(a, k)) == ToMap(a) - {k}
  {
    var l, r := ToMap(Remove(a, k)), ToMap(a) - {k};
    forall j
      ensures j in l <==> j in r
      ensures j in l ==> l[j] == r[j]
    {
      assert Get(Remove(a, k), j) == if j == k then None else Get(a, j);
    }
  }

  /** The lists of an array of lists, concatenated in key order. */
  function Flatten<K, T>(a: Assoc<K, seq<T>>): seq<T> {
    if |a| == 0 then [] else a[0].1 + Flatten(a[1..])
  }
}
