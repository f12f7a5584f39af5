/**
 * A Ruby `Hash` keyed by strings: an association list in insertion order in which
 * each key appears at most once.
 */
module Assoc {
  import opened Wrappers

  type Assoc<V> = seq<(string, V)>

  predicate UniqueKeys<V>(a: Assoc<V>) {
    forall i, j :: 0 <= i < j < |a| ==> a[i].0 != a[j].0
  }

  function Keys<V>(a: Assoc<V>): (ks: seq<string>)
    ensures |ks| == |a| && forall i :: 0 <= i < |a| ==> ks[i] == a[i].0
  {
    if a == [] then [] else [a[0].0] + Keys(a[1..])
  }

  /** `hash[key]` without a default: the value of the first entry with this key. */
  function Lookup<V>(a: Assoc<V>, key: string): Option<V> {
    if a == [] then None
    else if a[0].0 == key then Some(a[0].1)
    else Lookup(a[1..], key)
  }

  lemma {:induction false} LookupFound<V>(a: Assoc<V>, key: string)
    ensures Lookup(a, key).Some? <==> key in Keys(a)
    ensures Lookup(a, key).Some? ==> exists i :: 0 <= i < |a| && a[i] == (key, Lookup(a, key).value)
    decreases |a|
  {
    if a != [] {
      LookupFound(a[1..], key);
      assert Keys(a) == [a[0].0] + Keys(a[1..]);
      if a[0].0 != key && Lookup(a, key).Some? {
        var i :| 0 <= i < |a[1..]| && a[1..][i] == (key, Lookup(a, key).value);
        assert a[i + 1] == a[1..][i];
      }
    }
  }

  /** `hash[key] = value`: an existing key keeps its place, a new one goes last. */
  function Put<V>(a: Assoc<V>, key: string, value: V): Assoc<V> {
    if a == [] then [(key, value)]
    else if a[0].0 == key then [(key, value)] + a[1..]
    else [a[0]] + Put(a[1..], key, value)
  }

  lemma PutSpec<V>(a: Assoc<V>, key: string, value: V)
    ensures Keys(Put(a, key, value)) == if key in Keys(a) then Keys(a) else Keys(a) + [key]
    ensures Lookup(Put(a, key, value), key) == Some(value)
    ensures forall k :: k != key ==> Lookup(Put(a, key, value), k) == Lookup(a, k)
    ensures UniqueKeys(a) ==> UniqueKeys(Put(a, key, value))
  {
    PutKeys(a, key, value);
    PutLookup(a, key, value);
    if UniqueKeys(a) {
      PutUnique(a, key, value);
    }
  }

  /** An existing key keeps its place; a new key is added at the end. */
  lemma {:induction false} PutKeys<V>(a: Assoc<V>, key: string, value: V)
    ensures Keys(Put(a, key, value)) == if key in Keys(a) then Keys(a) else Keys(a) + [key]
    decreases |a|
  {
    if a != [] {
      var r := Put(a, key, value);
      assert Keys(a) == [a[0].0] + Keys(a[1..]);
      if a[0].0 != key {
        PutKeys(a[1..], key, value);
        assert r == [a[0]] + Put(a[1..], key, value);
        assert Keys(r) == [a[0].0] + Keys(Put(a[1..], key, value));
        if key !in Keys(a[1..]) {
          assert [a[0].0] + (Keys(a[1..]) + [key]) == Keys(a) + [key];
        }
      } else {
        assert r == [(key, value)] + a[1..];
        assert Keys(r) == [key] + Keys(a[1..]);
      }
    }
  }

  /** The key put reads back the value put; every other key reads as before. */
  lemma {:induction false} PutLookup<V>(a: Assoc<V>, key: string, value: V)
    ensures Lookup(Put(a, key, value), key) == Some(value)
    ensures forall k :: k != key ==> Lookup(Put(a, key, value), k) == Lookup(a, k)
    decreases |a|
  {
    if a != [] {
      var r := Put(a, key, value);
      if a[0].0 != key {
        PutLookup(a[1..], key, value);
        assert r[0] == a[0] && r[1..] == Put(a[1..], key, value);
      } else {
        assert r[0] == (key, value) && r[1..] == a[1..];
      }
    }
  }

  lemma PutUnique<V>(a: Assoc<V>, key: string, value: V)
    requires UniqueKeys(a)
    ensures UniqueKeys(Put(a, key, value))
  {
    var r := Put(a, key, value);
    PutKeys(a, key, value);
    var ks, ka := Keys(r), Keys(a);
    forall i, j | 0 <= i < j < |r| ensures r[i].0 != r[j].0 {
      assert r[i].0 == ks[i] && r[j].0 == ks[j];
      if j < |a| {
        assert ks[i] == ka[i] == a[i].0 && ks[j] == ka[j] == a[j].0;
      } else {
        assert key !in ka && ks[j] == key && ks[i] == ka[i];
      }
    }
  }

  lemma {:induction false} LookupAppend<V>(a: Assoc<V>, k: string, v: V, key: string)
    ensures Lookup(a + [(k, v)], key) == if Lookup(a, key).Some? then Lookup(a, key) else if k == key then Some(v) else None
    decreases |a|
  {
    if a != [] {
      assert (a + [(k, v)])[1..] == a[1..] + [(k, v)];
      LookupAppend(a[1..], k, v, key);
    }
  }
}
