/** A dictionary that remembers insertion order, as a Python `dict` does:
    assigning to a new key appends it, assigning to an existing key
    replaces its value and keeps its position. */
module OrderedTable {

  datatype Table<K, V> = Table(keys: seq<K>, entries: map<K, V>) {

    /** The keys are listed once each and are exactly the map's keys. */
    predicate Valid() {
      && (forall i, j :: 0 <= i < j < |keys| ==> keys[i] != keys[j])
      && entries.Keys == set k | k in keys
    }

    /** `d[k] = v` */
    function Put(k: K, v: V): (t: Table<K, V>)
      requires Valid()
      ensures t.Valid()
      ensures t.entries == entries[k := v]
      ensures |t.keys| == |keys| + (if k in entries then 0 else 1)
      ensures t.keys[..|keys|] == keys
      ensures !(k in entries) ==> t.keys[|keys|] == k
    {
      if k in entries then Table(keys, entries[k := v])
      else Table(keys + [k], entries[k := v])
    }

    /** `d.values()`, in insertion order. */
    function Values(): (vs: seq<V>)
      requires Valid()
      ensures |vs| == |keys|
      ensures forall i :: 0 <= i < |keys| ==> vs[i] == entries[keys[i]]
    {
      seq(|keys|, i requires 0 <= i < |keys| => entries[keys[i]])
    }
  }

  function Empty<K, V>(): (t: Table<K, V>)
    ensures t.Valid() && t.entries == map[]
  {
    Table([], map[])
  }

  /** Inserting a new key adds its value at the end of `values()`. */
  lemma PutNewAppends<K, V>(t: Table<K, V>, k: K, v: V)
    requires t.Valid() && k !in t.entries
    ensures t.Put(k, v).Values() == t.Values() + [v]
  {
  }

  /** Assigning to a key already present replaces its value in place. */
  lemma PutExistingReplaces<K, V>(t: Table<K, V>, k: K, v: V, j: nat)
    requires t.Valid() && j < |t.keys| && t.keys[j] == k
    ensures t.Put(k, v).Values() == t.Values()[j := v]
  {
  }
}
