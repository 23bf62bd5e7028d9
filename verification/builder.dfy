/**
 * The encoder's staging buffer (`ArrayList` in src/convert.rs): a
 * java.util.ArrayList that the serializer appends encoded objects to, then
 * turns into a PersistentVector (`to_vector`) or, read as alternating keys
 * and values, into a PersistentHashMap (`to_hashmap`).
 *
 * The host's `PersistentHashMap.create(Object[])` associates the pairs in
 * order: a key seen again keeps its first position and takes the later value,
 * and an odd-length array throws (the last key has no value), which the
 * binding reports as a failed host call.
 */
module Builder {
  import opened Host
  import opened Errors
  import opened SeqFacts

  /** Some entry has key `k`. */
  predicate HasKey<K(==), V>(entries: seq<(K, V)>, k: K) {
    exists i :: 0 <= i < |entries| && entries[i].0 == k
  }

  lemma HasKeyCons<K, V>(entries: seq<(K, V)>, k: K)
    requires entries != []
    ensures HasKey(entries, k) <==> entries[0].0 == k || HasKey(entries[1..], k)
  {
    if HasKey(entries[1..], k) {
      var i :| 0 <= i < |entries[1..]| && entries[1..][i].0 == k;
      assert entries[i + 1].0 == k;
    }
  }

  /** The first value bound to `k` among `entries`. */
  function Lookup<K(==), V>(entries: seq<(K, V)>, k: K): (r: Option<V>)
    ensures r.Some? <==> HasKey(entries, k)
  {
    if entries == [] then None
    else if entries[0].0 == k then Some(entries[0].1)
    else
      HasKeyCons(entries, k);
      Lookup(entries[1..], k)
  }

  /** No key occurs twice: what every PersistentHashMap satisfies. */
  predicate DistinctKeys<K(==), V>(entries: seq<(K, V)>) {
    forall i, j :: 0 <= i < j < |entries| ==> entries[i].0 != entries[j].0
  }

  /**
   * `assoc`: binds `k` to `v`, replacing the value of an existing binding
   * in place or adding a new last entry.
   */
  function Assoc<K(==), V>(entries: seq<(K, V)>, k: K, v: V): (r: seq<(K, V)>)
    ensures |r| == if HasKey(entries, k) then |entries| else |entries| + 1
  {
    if entries == [] then [(k, v)]
    else if entries[0].0 == k then [(k, v)] + entries[1..]
    else
      HasKeyCons(entries, k);
      [entries[0]] + Assoc(entries[1..], k, v)
  }

  /** After `assoc`, `k` is bound to `v` and every other key keeps its binding. */
  lemma {:induction false} AssocLookup<K, V>(entries: seq<(K, V)>, k: K, v: V, k': K)
    ensures Lookup(Assoc(entries, k, v), k') == if k' == k then Some(v) else Lookup(entries, k')
  {
    if entries != [] && entries[0].0 != k {
      AssocLookup(entries[1..], k, v, k');
      assert Assoc(entries, k, v)[1..] == Assoc(entries[1..], k, v);
    }
  }

  /** `assoc` keeps every key where it is and adds nothing but `k`. */
  lemma {:induction false} AssocKeys<K, V>(entries: seq<(K, V)>, k: K, v: V)
    ensures forall i :: 0 <= i < |entries| ==> Assoc(entries, k, v)[i].0 == entries[i].0
    ensures !HasKey(entries, k) ==> Assoc(entries, k, v)[|entries|].0 == k
  {
    if entries != [] && entries[0].0 != k {
      AssocKeys(entries[1..], k, v);
      var r := Assoc(entries, k, v);
      assert r[1..] == Assoc(entries[1..], k, v);
      forall i | 1 <= i < |entries|
        ensures r[i].0 == entries[i].0
      {
        assert r[i] == r[1..][i - 1];
      }
      HasKeyCons(entries, k);
    }
  }

  /** `assoc` never makes a key occur twice. */
  lemma AssocDistinct<K, V>(entries: seq<(K, V)>, k: K, v: V)
    requires DistinctKeys(entries)
    ensures DistinctKeys(Assoc(entries, k, v))
  {
    AssocKeys(entries, k, v);
  }

  /** Pairs laid out as alternating keys and values. */
  function Flatten(ps: seq<(Obj, Obj)>): (flat: seq<Obj>)
    ensures |flat| == 2 * |ps|
    ensures forall i :: 0 <= i < |ps| ==> flat[2 * i] == ps[i].0 && flat[2 * i + 1] == ps[i].1
  {
    if ps == [] then [] else [ps[0].0, ps[0].1] + Flatten(ps[1..])
  }

  /** The map `create` builds from the first `2 * n` objects of `flat`. */
  function AssocPairs(flat: seq<Obj>, n: nat): (entries: seq<(Obj, Obj)>)
    requires 2 * n <= |flat|
    ensures DistinctKeys(entries)
  {
    if n == 0 then []
    else
      var prev := AssocPairs(flat, n - 1);
      AssocDistinct(prev, flat[2 * (n - 1)], flat[2 * (n - 1) + 1]);
      Assoc(prev, flat[2 * (n - 1)], flat[2 * (n - 1) + 1])
  }

  /** The value of the last binding of `k` among the first `n` pairs of `flat`. */
  function LastBinding(flat: seq<Obj>, n: nat, k: Obj): Option<Obj>
    requires 2 * n <= |flat|
  {
    if n == 0 then None
    else if flat[2 * (n - 1)] == k then Some(flat[2 * (n - 1) + 1])
    else LastBinding(flat, n - 1, k)
  }

  /** In the map built from pairs, every key is bound to the value of its last pair. */
  lemma {:induction false} AssocPairsLastWins(flat: seq<Obj>, n: nat, k: Obj)
    requires 2 * n <= |flat|
    ensures Lookup(AssocPairs(flat, n), k) == LastBinding(flat, n, k)
  {
    if n > 0 {
      AssocPairsLastWins(flat, n - 1, k);
      AssocLookup(AssocPairs(flat, n - 1), flat[2 * (n - 1)], flat[2 * (n - 1) + 1], k);
    }
  }

  /** A key not yet bound is associated by appending a new entry. */
  lemma {:induction false} AppendNew<K, V>(entries: seq<(K, V)>, k: K, v: V)
    requires !HasKey(entries, k)
    ensures Assoc(entries, k, v) == entries + [(k, v)]
  {
    if entries != [] {
      HasKeyCons(entries, k);
      AppendNew(entries[1..], k, v);
      assert entries == [entries[0]] + entries[1..];
    }
  }

  /**
   * `PersistentHashMap.create(Object[])`: fails on an odd-length array;
   * otherwise a map with distinct keys in which every key is bound to the
   * value of its last pair, and nothing else is bound.
   */
  function CreateHashMap(flat: seq<Obj>): (r: Result<Obj>)
    ensures r.Ok? <==> |flat| % 2 == 0
    ensures r.Err? ==> r.error == HostCallFailure
    ensures r.Ok? ==> r.value.HashMap? && DistinctKeys(r.value.entries)
  {
    if |flat| % 2 != 0 then Err(HostCallFailure)
    else Ok(HashMap(AssocPairs(flat, |flat| / 2)))
  }

  /** The pairs associated in order, as `PersistentHashMap.create` does with them laid out flat. */
  function AssocAll<K(==), V>(ps: seq<(K, V)>): (entries: seq<(K, V)>)
    ensures DistinctKeys(entries)
  {
    if ps == [] then []
    else
      var prev := AssocAll(ps[..|ps| - 1]);
      AssocDistinct(prev, ps[|ps| - 1].0, ps[|ps| - 1].1);
      Assoc(prev, ps[|ps| - 1].0, ps[|ps| - 1].1)
  }

  /** Pairs whose keys are all different are kept as they are, in order. */
  lemma {:induction false} AssocAllDistinct<K, V>(ps: seq<(K, V)>)
    requires DistinctKeys(ps)
    ensures AssocAll(ps) == ps
  {
    if ps != [] {
      var init := ps[..|ps| - 1];
      var (k, v) := ps[|ps| - 1];
      assert DistinctKeys(init);
      AssocAllDistinct(init);
      forall j | 0 <= j < |init|
        ensures init[j].0 != k
      {
        assert init[j] == ps[j];
      }
      AppendNew(init, k, v);
      assert ps == init + [(k, v)];
    }
  }

  /** Associating pairs never adds more entries than pairs, and every key of a pair is bound. */
  lemma {:induction false} AssocAllKeys<K, V>(ps: seq<(K, V)>)
    ensures |AssocAll(ps)| <= |ps|
    ensures forall i :: 0 <= i < |ps| ==> HasKey(AssocAll(ps), ps[i].0)
  {
    if ps != [] {
      var init := ps[..|ps| - 1];
      var (k, v) := ps[|ps| - 1];
      var prev := AssocAll(init);
      AssocAllKeys(init);
      AssocKeys(prev, k, v);
      var entries := Assoc(prev, k, v);
      assert AssocAll(ps) == entries;
      forall i | 0 <= i < |ps|
        ensures HasKey(entries, ps[i].0)
      {
        if i < |ps| - 1 {
          assert ps[i] == init[i];
          var m :| 0 <= m < |prev| && prev[m].0 == ps[i].0;
          assert entries[m].0 == ps[i].0;
        } else if HasKey(prev, k) {
          var m :| 0 <= m < |prev| && prev[m].0 == k;
          assert entries[m].0 == k;
        } else {
          assert entries[|prev|].0 == k;
        }
      }
    }
  }

  /** Two pairs with the same key leave fewer entries than pairs: the later one overwrites the earlier. */
  lemma {:induction false} AssocAllShrinks<K, V>(ps: seq<(K, V)>, i: nat, j: nat)
    requires i < j < |ps| && ps[i].0 == ps[j].0
    ensures |AssocAll(ps)| < |ps|
  {
    var init := ps[..|ps| - 1];
    var (k, v) := ps[|ps| - 1];
    assert AssocAll(ps) == Assoc(AssocAll(init), k, v);
    if j == |ps| - 1 {
      AssocAllKeys(init);
      assert init[i] == ps[i];
      assert HasKey(AssocAll(init), k);
    } else {
      assert init[i] == ps[i] && init[j] == ps[j];
      AssocAllShrinks(init, i, j);
    }
  }

  /** The value of the last pair with key `k`, if any pair has that key. */
  function LastValue<K(==), V>(ps: seq<(K, V)>, k: K): Option<V> {
    if ps == [] then None
    else if ps[|ps| - 1].0 == k then Some(ps[|ps| - 1].1)
    else LastValue(ps[..|ps| - 1], k)
  }

  /** Associating pairs in order binds every key to the value of its last pair, and nothing else. */
  lemma {:induction false} AssocAllLastWins<K, V>(ps: seq<(K, V)>, k: K)
    ensures Lookup(AssocAll(ps), k) == LastValue(ps, k)
  {
    if ps != [] {
      var init := ps[..|ps| - 1];
      AssocAllLastWins(init, k);
      AssocLookup(AssocAll(init), ps[|ps| - 1].0, ps[|ps| - 1].1, k);
    }
  }

  /** `assoc` adds no entry but the one it is given. */
  lemma {:induction false} AssocFrom<K, V>(entries: seq<(K, V)>, k: K, v: V)
    ensures forall e :: e in Assoc(entries, k, v) ==> e in entries || e == (k, v)
  {
    if entries != [] {
      if entries[0].0 == k {
        assert forall e :: e in entries[1..] ==> e in entries;
      } else {
        AssocFrom(entries[1..], k, v);
        assert Assoc(entries, k, v) == [entries[0]] + Assoc(entries[1..], k, v);
        assert forall e :: e in entries[1..] ==> e in entries;
      }
    }
  }

  /** Every entry left after associating pairs is one of the pairs. */
  lemma {:induction false} AssocAllFrom<K, V>(ps: seq<(K, V)>)
    ensures forall e :: e in AssocAll(ps) ==> e in ps
  {
    if ps != [] {
      var init := ps[..|ps| - 1];
      AssocAllFrom(init);
      AssocFrom(AssocAll(init), ps[|ps| - 1].0, ps[|ps| - 1].1);
      assert forall e :: e in init ==> e in ps;
    }
  }

  /** With distinct keys, each entry is what `Lookup` finds for its key. */
  lemma {:induction false} LookupAt<K, V>(entries: seq<(K, V)>, i: nat)
    requires DistinctKeys(entries) && i < |entries|
    ensures Lookup(entries, entries[i].0) == Some(entries[i].1)
  {
    if i > 0 {
      assert entries[0].0 != entries[i].0;
      assert entries[1..][i - 1] == entries[i];
      LookupAt(entries[1..], i - 1);
    }
  }

  /** Rearranging entries with distinct keys keeps the keys distinct. */
  lemma PermuteDistinct<K, V>(entries: seq<(K, V)>, p: seq<nat>)
    requires DistinctKeys(entries) && IsPermutation(p, |entries|)
    ensures DistinctKeys(Permute(entries, p))
  {
  }

  /** Rearranging entries with distinct keys changes no binding. */
  lemma LookupPermute<K, V>(entries: seq<(K, V)>, p: seq<nat>, k: K)
    requires DistinctKeys(entries) && IsPermutation(p, |entries|)
    ensures Lookup(Permute(entries, p), k) == Lookup(entries, k)
  {
    var r := Permute(entries, p);
    PermuteDistinct(entries, p);
    if HasKey(entries, k) {
      var m :| 0 <= m < |entries| && entries[m].0 == k;
      assert m in p;
      var i :| 0 <= i < |p| && p[i] == m;
      LookupAt(entries, m);
      LookupAt(r, i);
    }
  }

  /** The map the encoder builds from pairs: `to_hashmap` over the pairs laid out flat. */
  function HashMapOf(ps: seq<(Obj, Obj)>): (o: Obj)
    ensures o.HashMap? && DistinctKeys(o.entries)
  {
    HashMap(AssocAll(ps))
  }

  /** Pairs with distinct keys make a map holding exactly those entries, in order. */
  lemma HashMapOfDistinct(ps: seq<(Obj, Obj)>)
    requires DistinctKeys(ps)
    ensures HashMapOf(ps) == HashMap(ps)
  {
    AssocAllDistinct(ps);
  }

  /** Associating the first `n` pairs of a flat layout is associating the first `n` pairs. */
  lemma {:induction false} AssocPairsOfFlatten(ps: seq<(Obj, Obj)>, n: nat)
    requires n <= |ps|
    ensures AssocPairs(Flatten(ps), n) == AssocAll(ps[..n])
  {
    if n > 0 {
      AssocPairsOfFlatten(ps, n - 1);
      var flat := Flatten(ps);
      assert flat[2 * (n - 1)] == ps[n - 1].0 && flat[2 * (n - 1) + 1] == ps[n - 1].1;
      assert ps[..n][..n - 1] == ps[..n - 1];
      assert AssocAll(ps[..n]) == Assoc(AssocAll(ps[..n - 1]), ps[n - 1].0, ps[n - 1].1);
    }
  }

  /** `create` over pairs laid out flat never fails, and builds `HashMapOf` of the pairs. */
  lemma CreateOfFlatten(ps: seq<(Obj, Obj)>)
    ensures CreateHashMap(Flatten(ps)) == Ok(HashMapOf(ps))
  {
    assert |Flatten(ps)| % 2 == 0 && |Flatten(ps)| / 2 == |ps|;
    AssocPairsOfFlatten(ps, |ps|);
    assert ps[..|ps|] == ps;
  }

  /** In the map built from pairs, a key repeated among them is bound to its last value. */
  lemma HashMapOfLastWins(ps: seq<(Obj, Obj)>, k: Obj)
    ensures Lookup(HashMapOf(ps).entries, k) == LastBinding(Flatten(ps), |ps|, k)
  {
    AssocPairsOfFlatten(ps, |ps|);
    assert ps[..|ps|] == ps;
    AssocPairsLastWins(Flatten(ps), |ps|, k);
  }

  /** Laying out one more pair appends its key and its value. */
  lemma {:induction false} FlattenSnoc(ps: seq<(Obj, Obj)>, p: (Obj, Obj))
    ensures Flatten(ps + [p]) == Flatten(ps) + [p.0, p.1]
  {
    if ps != [] {
      assert (ps + [p])[1..] == ps[1..] + [p];
      FlattenSnoc(ps[1..], p);
    }
  }

  /**
   * The staging java.util.ArrayList. `to_vector` and `to_hashmap` take the
   * list by value, so once either has run (`frozen`) nothing more is added
   * and the list is not frozen again.
   */
  class ArrayList {
    var items: seq<Obj>
    var frozen: bool

    /** `ArrayList::new`: an empty list. */
    constructor ()
      ensures items == [] && !frozen
    {
      items := [];
      frozen := false;
    }

    /** `add`: appends one object after the ones already staged. */
    method Add(x: Obj)
      requires !frozen
      modifies this
      ensures items == old(items) + [x] && !frozen
    {
      items := items + [x];
    }

    /** `to_vector`: `PersistentVector.create` over the list, same elements, same order. */
    method ToVector() returns (o: Obj)
      requires !frozen
      modifies this
      ensures frozen && items == old(items)
      ensures o.Vector? && o.elems == items
    {
      frozen := true;
      o := Vector(items);
    }

    /** `to_hashmap`: `toArray`, then `PersistentHashMap.create` on the array. */
    method ToHashMap() returns (r: Result<Obj>)
      requires !frozen
      modifies this
      ensures frozen && items == old(items)
      ensures r == CreateHashMap(items)
    {
      frozen := true;
      r := CreateHashMap(items);
    }
  }
}
