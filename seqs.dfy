/** Sequence helpers shared by the namespace listing and the sidebar:
    first-occurrence deduplication and insertion-ordered association lists
    (Go slices guarded by a membership test, JavaScript `Set` and object keys). */
module Seqs {

  /** The distinct elements of `s`, each at the position of its first occurrence. */
  function FirstOccurrences<T(==)>(s: seq<T>): seq<T>
    decreases |s|
  {
    if s == [] then []
    else
      var init := s[..|s| - 1];
      if s[|s| - 1] in init then FirstOccurrences(init) else FirstOccurrences(init) + [s[|s| - 1]]
  }

  predicate Distinct<T(==)>(s: seq<T>)
  {
    forall i, j :: 0 <= i < j < |s| ==> s[i] != s[j]
  }

  /** Index of the first occurrence of `x` in `s`. */
  function IndexOf<T(==)>(s: seq<T>, x: T): (i: nat)
    requires x in s
    ensures i < |s| && s[i] == x && x !in s[..i]
  {
    if s[0] == x then 0 else 1 + IndexOf(s[1..], x)
  }

  /** FirstOccurrences keeps each element once, loses none, and orders them by first appearance. */
  lemma {:induction false} FirstOccurrencesSpec<T>(s: seq<T>)
    ensures Distinct(FirstOccurrences(s))
    ensures forall x :: x in FirstOccurrences(s) <==> x in s
    ensures forall i, j :: 0 <= i < j < |FirstOccurrences(s)| ==>
      IndexOf(s, FirstOccurrences(s)[i]) < IndexOf(s, FirstOccurrences(s)[j])
    decreases |s|
  {
    if s != [] {
      var init := s[..|s| - 1];
      var last := s[|s| - 1];
      FirstOccurrencesSpec(init);
      assert s == init + [last];
      forall x | x in init ensures IndexOf(s, x) == IndexOf(init, x) {
        IndexOfPrefix(init, [last], x);
      }
      if last !in init {
        assert IndexOf(s, last) == |init| by {
          assert s[..|init|] == init;
        }
      }
    }
  }

  lemma {:induction false} IndexOfPrefix<T>(s: seq<T>, t: seq<T>, x: T)
    requires x in s
    ensures IndexOf(s + t, x) == IndexOf(s, x)
  {
    if s[0] != x {
      assert (s + t)[1..] == s[1..] + t;
      IndexOfPrefix(s[1..], t, x);
    }
  }

  /** An insertion-ordered map: a later value for a key replaces the earlier one in place. */
  datatype Assoc<K, V> = Assoc(keys: seq<K>, vals: seq<V>)
  {
    ghost predicate Valid()
    {
      |keys| == |vals| && Distinct(keys)
    }
  }

  function Find<K(==)>(keys: seq<K>, k: K): (i: nat)
    ensures i <= |keys|
    ensures i < |keys| ==> keys[i] == k
    ensures i == |keys| ==> k !in keys
  {
    if keys == [] then 0
    else if keys[|keys| - 1] == k then |keys| - 1
    else
      var j := Find(keys[..|keys| - 1], k);
      if j < |keys| - 1 then j else |keys|
  }

  function Lookup<K(==), V>(a: Assoc<K, V>, k: K, default: V): (v: V)
    requires |a.keys| == |a.vals|
    ensures v == default || v in a.vals
    ensures k !in a.keys ==> v == default
  {
    var i := Find(a.keys, k);
    if i < |a.keys| then a.vals[i] else default
  }

  /** Assign `a[k] = v`: an existing key keeps its place, a new key goes last. */
  function Put<K(==), V>(a: Assoc<K, V>, k: K, v: V): (r: Assoc<K, V>)
    requires a.Valid()
    ensures r.Valid()
    ensures forall x :: x in r.vals ==> x == v || x in a.vals
  {
    var i := Find(a.keys, k);
    if i < |a.keys| then Assoc(a.keys, a.vals[i := v])
    else
      Assoc(a.keys + [k], a.vals + [v])
  }

  /** After `Put`, the key holds the new value, every other key its old one,
      and the key order is the old order with a new key appended. */
  lemma PutSpec<K, V>(a: Assoc<K, V>, k: K, v: V, k': K, d: V)
    requires a.Valid()
    ensures Lookup(Put(a, k, v), k, d) == v
    ensures k' != k ==> Lookup(Put(a, k, v), k', d) == Lookup(a, k', d)
    ensures Put(a, k, v).keys == if k in a.keys then a.keys else a.keys + [k]
  {
    PutHere(a, k, v, d);
    if k' != k {
      PutElsewhere(a, k, v, k', d);
    }
  }

  lemma PutHere<K, V>(a: Assoc<K, V>, k: K, v: V, d: V)
    requires a.Valid()
    ensures Lookup(Put(a, k, v), k, d) == v
  {
    FindDistinct(Put(a, k, v).keys, k);
  }

  lemma PutElsewhere<K, V>(a: Assoc<K, V>, k: K, v: V, k': K, d: V)
    requires a.Valid() && k' != k
    ensures Lookup(Put(a, k, v), k', d) == Lookup(a, k', d)
  {
    var r := Put(a, k, v);
    if k' in a.keys {
      FindDistinct(a.keys, k');
      FindDistinct(r.keys, k');
    } else {
      assert k' !in r.keys;
    }
  }

  lemma {:induction false} FindDistinct<K>(keys: seq<K>, k: K)
    requires Distinct(keys) && k in keys
    ensures Find(keys, k) == IndexOf(keys, k)
    decreases |keys|
  {
    if keys[|keys| - 1] != k {
      var init := keys[..|keys| - 1];
      assert keys == init + [keys[|keys| - 1]];
      FindDistinct(init, k);
      IndexOfPrefix(init, [keys[|keys| - 1]], k);
    } else {
      var i := IndexOf(keys, k);
      assert i == |keys| - 1;
    }
  }
}
