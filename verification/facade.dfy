/**
 * The typed facade of hashtable.h. `hashtable_define_ext` generates, for one
 * key type and one value type, a struct holding the bucket array and the two
 * counters, and a family of wrappers (`TABLE_init`, `TABLE_insert`, ...)
 * that hash the key with the injected `compute_hash` and delegate to the
 * engine. Here the struct is an Engine.HashTable and the injected functions
 * form a Behaviour; each wrapper is a method on the table.
 *
 * `hashtable_panic` is not called: the `e` wrappers report, in `panicked`,
 * whether they would call it.
 */
module Facade {
  import opened Slots
  import opened Probing
  import opened Growth
  import opened Erasure
  import opened Engine
  import Fnv

  /**
   * The functions a table type is generated with (hashtable_define_ext):
   * `hashOf` is compute_hash, `eq` says that compare_keys returns 0, and
   * `freeKeys` whether a free_key function is given.
   */
  datatype Behaviour<!K> = Behaviour(hashOf: K -> nat, eq: (K, K) -> bool, freeKeys: bool)

  /**
   * hashtable_define (hashtable.h:442-444): keys are the bytes of a
   * fixed-size type, hashed with the 64-bit hashtable_hash, compared with
   * memcmp, copied with memcpy (which never fails), and never freed.
   */
  function Defaults(): Behaviour<seq<bv8>>
  {
    Behaviour(k => Fnv.Fnv64(k) as nat, (x, y) => Fnv.CompareBytes(x, y) == 0, false)
  }

  /**
   * For keys of one size the default comparison is byte equality, so it is
   * an equivalence that gives equal keys equal hashes.
   */
  lemma DefaultsCompareBytes(x: seq<bv8>, y: seq<bv8>)
    requires |x| == |y|
    ensures Defaults().eq(x, y) <==> x == y
    ensures Defaults().eq(x, y) ==> Defaults().eq(y, x) && Defaults().hashOf(x) == Defaults().hashOf(y)
  {
    Fnv.CompareBytesZeroIff(x, y);
  }

  /** TABLE_init (hashtable.h:490-496): the engine's error code, 0 on success. */
  method TableInit<K, V>(t: HashTable<K, V>, size: nat, allocOk: bool) returns (err: nat)
    modifies t
    ensures err == (if size > 0 && !allocOk then 1 else 0)
    ensures err == 0 ==> t.Valid() && t.buckets[..] == Blanks(size, t.zeroKey, t.zeroValue)
                         && t.numBuckets == size && t.numValues == 0
    ensures err != 0 ==> t.buckets.Length == 0
  {
    err := t.Init(size, allocOk);
  }

  /** TABLE_einit (hashtable.h:498-500, 650-659): panics exactly when init reports an error. */
  method TableEinit<K, V>(t: HashTable<K, V>, size: nat, allocOk: bool) returns (panicked: bool)
    modifies t
    ensures panicked <==> size > 0 && !allocOk
    ensures !panicked ==> t.Valid() && t.buckets[..] == Blanks(size, t.zeroKey, t.zeroValue)
                          && t.numBuckets == size && t.numValues == 0
  {
    var err := t.Init(size, allocOk);
    panicked := err != 0;
  }

  /**
   * TABLE_insert (hashtable.h:506-514): insert under the key's own hash,
   * returning the engine's error code. A key it accepts is found afterwards,
   * in a bucket holding that key, that value and that hash.
   */
  method TableInsert<K, V>(t: HashTable<K, V>, b: Behaviour<K>, key: K, value: V, copyOk: bool, allocOk: bool)
    returns (err: nat)
    requires t.Valid()
    modifies t, t.buckets
    ensures t.Valid() && (t.buckets == old(t.buckets) || fresh(t.buckets))
    ensures var o := InsertResult(old(t.buckets[..]), old(t.numValues), key, b.hashOf(key), value, b.eq,
                                  copyOk, allocOk, t.zeroKey, t.zeroValue);
      err == o.err && t.buckets[..] == o.buckets && t.numValues == o.count
    ensures err == 0 && b.eq(key, key) ==>
      var r := Lookup(t.buckets[..], key, b.hashOf(key), b.eq);
      r.Some? && t.buckets[r.value] == Bucket(key, value, b.hashOf(key))
  {
    ghost var s := t.buckets[..];
    ghost var count := t.numValues;
    var hash := b.hashOf(key);
    err := t.Insert(key, hash, value, b.eq, copyOk, allocOk);
    if err == 0 && b.eq(key, key) {
      InsertThenFind(s, count, key, hash, value, b.eq, copyOk, allocOk, t.zeroKey, t.zeroValue);
    }
  }

  /**
   * TABLE_einsert (hashtable.h:516-522, 661-676): panics exactly when insert
   * reports any error, a duplicate key included.
   */
  method TableEinsert<K, V>(t: HashTable<K, V>, b: Behaviour<K>, key: K, value: V, copyOk: bool, allocOk: bool)
    returns (panicked: bool)
    requires t.Valid()
    modifies t, t.buckets
    ensures t.Valid() && (t.buckets == old(t.buckets) || fresh(t.buckets))
    ensures var o := InsertResult(old(t.buckets[..]), old(t.numValues), key, b.hashOf(key), value, b.eq,
                                  copyOk, allocOk, t.zeroKey, t.zeroValue);
      (panicked <==> o.err != 0) && t.buckets[..] == o.buckets && t.numValues == o.count
  {
    var err := t.Insert(key, b.hashOf(key), value, b.eq, copyOk, allocOk);
    panicked := err != 0;
  }

  /**
   * TABLE_erase (hashtable.h:524-529): erase under the key's own hash, with
   * the table's free_key. The engine's erase returns only under the stated
   * conditions (see Engine.HashTable.Erase).
   */
  method TableErase<K, V>(t: HashTable<K, V>, b: Behaviour<K>, key: K) returns (freed: seq<K>)
    requires t.Valid() && EraseReturns(t.buckets[..], t.numValues, key, b.hashOf(key), b.eq)
    requires t.numValues > 0 ==> t.buckets[EraseSearch(t.buckets[..], key, b.eq, b.hashOf(key)).value].Live()
    modifies t, t.buckets
    ensures t.Valid() && t.buckets == old(t.buckets)
    ensures var o := EraseResult(old(t.buckets[..]), old(t.numValues), key, b.hashOf(key), b.eq, b.freeKeys,
                                 t.zeroKey, t.zeroValue);
      t.buckets[..] == o.buckets && t.numValues == o.count && freed == o.freed
  {
    freed := t.Erase(key, b.hashOf(key), b.eq, b.freeKeys);
  }

  /**
   * TABLE_exists (hashtable.h:531-536, via hashtable_exists, 345-346): 1
   * exactly when find succeeds, else 0. On a well-laid-out array with an
   * equivalence as comparison, that is exactly when some live key compares
   * equal to `key`.
   */
  method TableExists<K, V>(t: HashTable<K, V>, b: Behaviour<K>, key: K) returns (r: int)
    requires t.Valid()
    ensures r == (if Lookup(t.buckets[..], key, b.hashOf(key), b.eq).Some? then 1 else 0)
    ensures r == 1 ==> exists i :: 0 <= i < t.buckets.Length && t.buckets[i].Live() && b.eq(t.buckets[i].key, key)
    ensures WellFormed(t.buckets[..], b.eq, b.hashOf)
            && (forall x, y :: b.eq(x, y) ==> b.eq(y, x) && b.hashOf(x) == b.hashOf(y))
            && (forall x, y, z :: b.eq(x, y) && b.eq(y, z) ==> b.eq(x, z))
            && (exists i :: 0 <= i < t.buckets.Length && t.buckets[i].Live() && b.eq(t.buckets[i].key, key))
            ==> r == 1
  {
    var found := t.Find(key, b.hashOf(key), b.eq);
    r := if found.Some? then 1 else 0;
    if r == 0 {
      forall i | 0 <= i < t.buckets.Length && t.buckets[i].Live() && b.eq(t.buckets[i].key, key)
        ensures !(WellFormed(t.buckets[..], b.eq, b.hashOf)
                  && (forall x, y :: b.eq(x, y) ==> b.eq(y, x) && b.hashOf(x) == b.hashOf(y))
                  && (forall x, y, z :: b.eq(x, y) && b.eq(y, z) ==> b.eq(x, z)))
      {
        if WellFormed(t.buckets[..], b.eq, b.hashOf)
           && (forall x, y :: b.eq(x, y) ==> b.eq(y, x) && b.hashOf(x) == b.hashOf(y))
           && (forall x, y, z :: b.eq(x, y) && b.eq(y, z) ==> b.eq(x, z))
        {
          LookupComplete(t.buckets[..], b.eq, b.hashOf, key, i);
        }
      }
    }
  }

  /**
   * TABLE_find (hashtable.h:538-544): the value stored with the first live
   * key on the walk that compares equal, or None where C returns NULL.
   */
  method TableFind<K, V>(t: HashTable<K, V>, b: Behaviour<K>, key: K) returns (r: Option<V>)
    requires t.Valid()
    ensures var found := Lookup(t.buckets[..], key, b.hashOf(key), b.eq);
      r == if found.Some? then Some(t.buckets[found.value].value) else None
    ensures r.Some? ==> exists i :: 0 <= i < t.buckets.Length && t.buckets[i].Live()
                                    && b.eq(t.buckets[i].key, key) && t.buckets[i].value == r.value
  {
    var found := t.Find(key, b.hashOf(key), b.eq);
    match found {
      case None => r := None;
      case Some(i) => r := Some(t.buckets[i].value);
    }
  }

  /**
   * TABLE_insert followed by TABLE_find on the same key: a key the insert
   * accepts is found with the value it was inserted with.
   */
  method InsertFindRoundTrip<K, V>(t: HashTable<K, V>, b: Behaviour<K>, key: K, value: V, copyOk: bool, allocOk: bool)
    returns (err: nat, r: Option<V>)
    requires t.Valid()
    modifies t, t.buckets
    ensures t.Valid()
    ensures err == 0 && b.eq(key, key) ==> r == Some(value)
  {
    err := TableInsert(t, b, key, value, copyOk, allocOk);
    r := TableFind(t, b, key);
  }

  /** TABLE_clear (hashtable.h:546-549): clear with the table's free_key. */
  method TableClear<K, V>(t: HashTable<K, V>, b: Behaviour<K>) returns (freed: seq<K>)
    requires t.Valid()
    modifies t, t.buckets
    ensures t.Valid() && t.buckets == old(t.buckets) && t.numBuckets == old(t.numBuckets)
    ensures t.numValues == 0 && forall i :: 0 <= i < t.buckets.Length ==> !t.buckets[i].Live()
    ensures freed == if b.freeKeys then LiveKeys(old(t.buckets[..])) else []
    ensures |freed| == if b.freeKeys then old(t.numValues) else 0
  {
    ghost var s := t.buckets[..];
    freed := t.Clear(b.freeKeys);
    LiveKeysCount(s);
  }

  /** TABLE_destroy (hashtable.h:502-504): destroy with the table's free_key. */
  method TableDestroy<K, V>(t: HashTable<K, V>, b: Behaviour<K>) returns (freed: seq<K>)
    requires t.Valid()
    modifies t
    ensures t.Valid() && t.buckets.Length == 0 && t.numBuckets == 0 && t.numValues == 0
    ensures freed == if b.freeKeys && old(t.numValues) > 0 then LiveKeys(old(t.buckets[..])) else []
    ensures |freed| == if b.freeKeys then old(t.numValues) else 0
  {
    ghost var s := t.buckets[..];
    freed := t.Destroy(b.freeKeys);
    LiveKeysCount(s);
  }

  /**
   * hashtable_for_each_pair (hashtable.h:382-393): both cursors start at 0
   * and the body runs once per step that yields a pair. The pairs come out
   * in slot order, one per slot in use, `num_values` of them.
   */
  method ForEachPair<K, V>(t: HashTable<K, V>) returns (pairs: seq<(K, V)>)
    requires t.Valid()
    ensures pairs == Entries(t.buckets[..]) && |pairs| == t.numValues
  {
    EntriesCount(t.buckets[..]);
    assert t.buckets[..][..0] == [];
    pairs := [];
    var i: nat, j: nat := 0, 0;
    while true
      invariant i <= t.buckets.Length && j == Occupied(t.buckets[..][..i]) && j <= t.numValues
      invariant pairs == Entries(t.buckets[..])[..j]
      decreases t.numValues - j
    {
      var pair, i', j' := t.NextPair(i, j);
      if pair.None? {
        break;
      }
      pairs := pairs + [pair.value];
      i, j := i', j';
    }
    assert Entries(t.buckets[..])[..j] == Entries(t.buckets[..]);
  }
}
