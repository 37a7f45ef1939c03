/**
  * Python's `dict`, which remembers the order in which keys were first
  * inserted: a sequence of entries with distinct keys. Assigning to a key that
  * is present keeps its place; a new key goes last; deleting a key takes its
  * entry out and leaves the others in order.
  */
module OrderedDict {
  import opened Wrappers

  type Entries<K, V> = seq<(K, V)>

  /** The keys, in order. */
  function Keys<K, V>(e: Entries<K, V>): (ks: seq<K>)
    ensures |ks| == |e|
  {
    if e == [] then [] else [e[0].0] + Keys(e[1..])
  }

  /** Python's `k in d`. */
  predicate HasKey<K(==), V>(e: Entries<K, V>, k: K) {
    k in Keys(e)
  }

  /** The dictionary invariant: no key has two entries. */
  predicate DistinctKeys<K(==), V>(e: Entries<K, V>) {
    e == [] || (e[0].0 !in Keys(e[1..]) && DistinctKeys(e[1..]))
  }

  /** Python's `d.get(k)`. */
  function Lookup<K(==), V>(e: Entries<K, V>, k: K): (r: Option<V>)
    ensures r.Some? <==> HasKey(e, k)
  {
    if e == [] then None
    else if e[0].0 == k then Some(e[0].1)
    else Lookup(e[1..], k)
  }

  /** Python's `d[k] = v`. */
  function Assign<K(==), V>(e: Entries<K, V>, k: K, v: V): Entries<K, V> {
    if e == [] then [(k, v)]
    else if e[0].0 == k then [(k, v)] + e[1..]
    else [e[0]] + Assign(e[1..], k, v)
  }

  /** Python's `del d[k]`; the callers here only delete keys that are present. */
  function Remove<K(==), V>(e: Entries<K, V>, k: K): Entries<K, V> {
    if e == [] then []
    else if e[0].0 == k then e[1..]
    else [e[0]] + Remove(e[1..], k)
  }

  /** Assigning keeps the place of an existing key and appends a new one. */
  lemma {:induction false} AssignKeys<K, V>(e: Entries<K, V>, k: K, v: V)
    ensures Keys(Assign(e, k, v)) == if k in Keys(e) then Keys(e) else Keys(e) + [k]
  {
    if e != [] {
      if e[0].0 != k {
        AssignKeys(e[1..], k, v);
        assert ([e[0]] + Assign(e[1..], k, v))[1..] == Assign(e[1..], k, v);
      } else {
        assert ([(k, v)] + e[1..])[1..] == e[1..];
      }
    }
  }

  /** After `d[k] = v` the key holds the new value, the other keys keep
      theirs, and no key has two entries. */
  lemma {:induction false} AssignSpec<K, V>(e: Entries<K, V>, k: K, v: V)
    requires DistinctKeys(e)
    ensures DistinctKeys(Assign(e, k, v))
    ensures forall j :: Lookup(Assign(e, k, v), j) == if j == k then Some(v) else Lookup(e, j)
  {
    if e != [] {
      var r := Assign(e, k, v);
      if e[0].0 == k {
        assert r[1..] == e[1..];
      } else {
        AssignSpec(e[1..], k, v);
        AssignKeys(e[1..], k, v);
        assert r[1..] == Assign(e[1..], k, v);
      }
    }
  }

  /** Deleting takes out exactly the key's entry. */
  lemma {:induction false} RemoveKeys<K, V>(e: Entries<K, V>, k: K)
    requires DistinctKeys(e)
    ensures forall j :: j in Keys(Remove(e, k)) <==> j in Keys(e) && j != k
  {
    if e != [] {
      if e[0].0 != k {
        RemoveKeys(e[1..], k);
        assert ([e[0]] + Remove(e[1..], k))[1..] == Remove(e[1..], k);
      }
    }
  }

  /** After `del d[k]` the key is absent, the other keys keep their values,
      and no key has two entries. */
  lemma {:induction false} RemoveSpec<K, V>(e: Entries<K, V>, k: K)
    requires DistinctKeys(e)
    ensures DistinctKeys(Remove(e, k))
    ensures forall j :: Lookup(Remove(e, k), j) == if j == k then None else Lookup(e, j)
  {
    if e != [] {
      var r := Remove(e, k);
      if e[0].0 != k {
        RemoveSpec(e[1..], k);
        RemoveKeys(e[1..], k);
        assert r[1..] == Remove(e[1..], k);
      }
    }
  }

  /** Facts about a dictionary extended by one entry at the end. */
  lemma {:induction false} AppendEntry<K, V>(e: Entries<K, V>, x: (K, V))
    ensures Keys(e + [x]) == Keys(e) + [x.0]
    ensures DistinctKeys(e + [x]) <==> DistinctKeys(e) && x.0 !in Keys(e)
    ensures forall k :: Lookup(e + [x], k) == if HasKey(e, k) then Lookup(e, k) else if k == x.0 then Some(x.1) else None
  {
    if e != [] {
      AppendEntry(e[1..], x);
      assert (e + [x])[1..] == e[1..] + [x];
    }
  }

  /** Assigning a new key appends its entry. */
  lemma {:induction false} AssignNew<K, V>(e: Entries<K, V>, k: K, v: V)
    requires !HasKey(e, k)
    ensures Assign(e, k, v) == e + [(k, v)]
  {
    if e != [] {
      AssignNew(e[1..], k, v);
      assert [e[0]] + (e[1..] + [(k, v)]) == e + [(k, v)];
    }
  }
}
