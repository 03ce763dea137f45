/**
 * The probing engine of hashtable.c as an object: the bucket array and the
 * two counters `num_buckets` and `num_values` that the generated table
 * struct holds (hashtable.h:586-593), updated in place by the engine's
 * functions. Each method is proved to leave the state that the value-level
 * model of its operation (modules Growth, Erasure, Slots) describes.
 *
 * Key comparison, key copying and freeing are parameters: `eq` is the
 * comparison (a zero `compare_keys` result), `copyOk` is whether `copy_key`
 * succeeds, `allocOk` whether `calloc` succeeds, and keys handed to
 * `free_key` are returned in order.
 */
module Engine {
  import opened Slots
  import opened Probing
  import opened Growth
  import opened Erasure

  class HashTable<K, V> {
    var buckets: array<Bucket<K, V>>
    var numBuckets: nat
    var numValues: nat
    /** The key and value that zeroed bytes stand for (calloc, memset). */
    const zeroKey: K
    const zeroValue: V

    /** The counters describe the array: its length and its number of slots in use. */
    ghost predicate Valid()
      reads this, buckets
    {
      numBuckets == buckets.Length && numValues == Occupied(buckets[..])
    }

    /** A table struct whose fields are all zero: no array, no slots, no values. */
    constructor (zeroKey: K, zeroValue: V)
      ensures Valid() && buckets.Length == 0 && numValues == 0
      ensures this.zeroKey == zeroKey && this.zeroValue == zeroValue
    {
      this.zeroKey := zeroKey;
      this.zeroValue := zeroValue;
      buckets := new Bucket<K, V>[0](_ => Blank(zeroKey, zeroValue));
      numBuckets := 0;
      numValues := 0;
    }

    /**
     * _hashtable_init (hashtable.c:82-96): a zeroed array of `n` slots, or,
     * when calloc fails for n > 0, error 1 with a null array and the counters
     * left as they were.
     */
    method Init(n: nat, allocOk: bool) returns (err: nat)
      modifies this
      ensures err == (if n > 0 && !allocOk then 1 else 0)
      ensures err == 0 ==> fresh(buckets) && buckets[..] == Blanks(n, zeroKey, zeroValue)
                           && numBuckets == n && numValues == 0 && Valid()
      ensures err != 0 ==> buckets.Length == 0 && numBuckets == old(numBuckets) && numValues == old(numValues)
    {
      if !allocOk && n > 0 {
        buckets := new Bucket<K, V>[0](_ => Blank(zeroKey, zeroValue));
        return 1;
      }
      buckets := new Bucket<K, V>[n](_ => Blank(zeroKey, zeroValue));
      numBuckets := n;
      numValues := 0;
      assert buckets[..] == Blanks(n, zeroKey, zeroValue);
      BlanksEmpty(n, zeroKey, zeroValue);
      err := 0;
    }

    /** hashtable_num_buckets (hashtable.h:89-90): the capacity. */
    function NumBuckets(): (r: nat)
      reads this, buckets
      requires Valid()
      ensures r == buckets.Length
    {
      numBuckets
    }

    /** hashtable_num_values (hashtable.h:92-93): the number of slots in use. */
    function NumValues(): (r: nat)
      reads this, buckets
      requires Valid()
      ensures r == Occupied(buckets[..]) <= buckets.Length
    {
      OccupiedBound(buckets[..]);
      numValues
    }

    /**
     * _hashtable_find (hashtable.c:218-239): the slot where find stops on an
     * equal live key, or None at an empty slot, after a full lap, or on a
     * table without slots.
     */
    method Find(key: K, hash: nat, eq: (K, K) -> bool) returns (r: Option<nat>)
      requires Valid()
      ensures r == Lookup(buckets[..], key, hash, eq)
    {
      var n := numBuckets;
      if n == 0 {
        return None;
      }
      ghost var s := buckets[..];
      var home := hash % n;
      var i := home;
      ghost var d := 0;
      while true
        invariant d < n && i == At(n, home, d)
        invariant ProbeFrom(s, key, eq, home, d) == Probe(s, key, eq, hash)
        decreases n - d
      {
        assert buckets[i] == s[i];
        if !buckets[i].Live() {
          return None;
        }
        if eq(buckets[i].key, key) {
          return Some(i);
        }
        LapEnds(n, home, d);
        i := (i + 1) % n;
        d := d + 1;
        if i == home {
          return None;
        }
      }
    }
  
    /**
     * The rehash loop of hashtable.c:166-185: every live slot of the old
     * array, in slot order, is copied to the first empty slot of a fresh
     * zeroed array of `newN` slots on its walk; the fresh array replaces the
     * old one.
     */
    method Resize(newN: nat)
      requires Valid() && 0 < newN && numValues <= newN
      modifies this
      ensures Valid() && fresh(buckets)
      ensures buckets[..] == Rehash(old(buckets[..]), newN, zeroKey, zeroValue)
      ensures numBuckets == newN && numValues == old(numValues)
    {
      ghost var s := buckets[..];
      var grown := new Bucket<K, V>[newN](_ => Blank(zeroKey, zeroValue));
      assert grown[..] == Blanks(newN, zeroKey, zeroValue);
      BlanksEmpty(newN, zeroKey, zeroValue);
      RehashInto(buckets, grown);
      RehashKeepsEntries(s, newN, zeroKey, zeroValue);
      buckets := grown;
      numBuckets := newN;
    }

    /**
     * The growth step of hashtable.c:150-187: when the load check fires, the
     * capacity goes from 0 to 8 or doubles and the entries are rehashed; if
     * calloc fails nothing changes and `ok` is false.
     */
    method Grow(allocOk: bool) returns (ok: bool)
      requires Valid()
      modifies this
      ensures Valid() && numValues == old(numValues)
      ensures ok == !(NeedsGrowth(old(numValues), old(numBuckets)) && !allocOk)
      ensures ok ==> buckets[..] == Prepared(old(buckets[..]), old(numValues), zeroKey, zeroValue)
      ensures !ok ==> buckets == old(buckets) && numBuckets == old(numBuckets)
      ensures buckets == old(buckets) || fresh(buckets)
    {
      if numBuckets == 0 || 100 * numValues / numBuckets >= LoadFactor {
        var newN := numBuckets * (GrowthFactor * 100) / 100;
        if newN == 0 {
          newN := 8;
        } else if newN == numBuckets {
          newN := 2 * numBuckets;
        }
        if !allocOk {
          return false;
        }
        OccupiedBound(buckets[..]);
        GrownCapacityDoubles(numBuckets);
        Resize(newN);
      }
      return true;
    }

    /**
     * The placement walk of hashtable.c:190-215 on a table with room: the
     * first empty slot gets key, value and tag and the count goes up (error 3
     * instead if the key copy fails); an equal live key is error 2.
     */
    method PlaceEntry(key: K, hash: nat, value: V, eq: (K, K) -> bool, copyOk: bool) returns (err: nat)
      requires Valid() && hash != 0 && numValues < numBuckets
      modifies this, buckets
      ensures Valid() && buckets == old(buckets)
      ensures var o := Place(old(buckets[..]), old(numValues), key, hash, value, eq, copyOk);
        err == o.err && buckets[..] == o.buckets && numValues == o.count
    {
      ghost var t := buckets[..];
      var slot := PlacementSlot(buckets, key, hash, eq);
      match slot {
        case Vacant(i) =>
          if !copyOk {
            return 3;
          }
          buckets[i] := Bucket(key, value, hash);
          numValues := numValues + 1;
          FillAdds(t, i, Bucket(key, value, hash));
          return 0;
        case Taken(_) =>
          return 2;
      }
    }

    /**
     * _hashtable_insert (hashtable.c:136-216). Error 1 for hash 0; when the
     * load check fires, error 4 if calloc fails, otherwise grow first; then
     * the placement walk.
     */
    method Insert(key: K, hash: nat, value: V, eq: (K, K) -> bool, copyOk: bool, allocOk: bool) returns (err: nat)
      requires Valid()
      modifies this, buckets
      ensures Valid() && (buckets == old(buckets) || fresh(buckets))
      ensures var o := InsertResult(old(buckets[..]), old(numValues), key, hash, value, eq, copyOk, allocOk, zeroKey, zeroValue);
        err == o.err && buckets[..] == o.buckets && numValues == o.count
    {
      if hash == 0 {
        return 1;
      }
      ghost var s := buckets[..];
      ghost var count := numValues;
      var ok := Grow(allocOk);
      if !ok {
        return 4;
      }
      PreparedHasRoom(s, count, zeroKey, zeroValue);
      err := PlaceEntry(key, hash, value, eq, copyOk);
    }

    /**
     * _hashtable_erase (hashtable.c:242-282) as written: nothing on an empty
     * table; otherwise search from the home slot for a slot whose key compares
     * equal (tags ignored), hand its key to free_key, zero the slot, compact
     * the slots after it and decrement the count.
     *
     * The code returns only when the search meets an equal key and the
     * compaction meets an empty slot (EraseReturns); the slot the search stops
     * at must also be live for the count to stay right.
     */
    method Erase(key: K, hash: nat, eq: (K, K) -> bool, freeKeys: bool) returns (freed: seq<K>)
      requires Valid() && EraseReturns(buckets[..], numValues, key, hash, eq)
      requires numValues > 0 ==> buckets[EraseSearch(buckets[..], key, eq, hash).value].Live()
      modifies this, buckets
      ensures Valid() && buckets == old(buckets)
      ensures var o := EraseResult(old(buckets[..]), old(numValues), key, hash, eq, freeKeys, zeroKey, zeroValue);
        buckets[..] == o.buckets && numValues == o.count && freed == o.freed
    {
      if numValues == 0 {
        return [];
      }
      EraseRemovesEntry(buckets[..], numValues, key, hash, eq, freeKeys, zeroKey, zeroValue);
      freed := EraseFound(buckets, numValues, key, hash, eq, freeKeys, zeroKey, zeroValue);
      numValues := numValues - 1;
    }

    /**
     * _hashtable_clear (hashtable.c:98-119): every tag is zeroed, keys and
     * values stay behind as stale bytes, the capacity is kept and the count
     * becomes 0; with free_key, each key in use is handed to it in slot order.
     */
    method Clear(freeKeys: bool) returns (freed: seq<K>)
      requires Valid()
      modifies this, buckets
      ensures Valid() && buckets == old(buckets) && numBuckets == old(numBuckets)
      ensures buckets[..] == ClearTags(old(buckets[..])) && numValues == 0
      ensures freed == if freeKeys then LiveKeys(old(buckets[..])) else []
    {
      freed := ClearSlots(buckets, freeKeys);
      numValues := 0;
      ClearTagsEmpties(old(buckets[..]));
    }

    /**
     * _hashtable_destroy (hashtable.c:121-134): with free_key and a non-zero
     * count, each key in use is handed to it in slot order; then the array is
     * released and the whole table struct is zeroed.
     */
    method Destroy(freeKeys: bool) returns (freed: seq<K>)
      requires Valid()
      modifies this
      ensures Valid() && buckets.Length == 0 && numBuckets == 0 && numValues == 0
      ensures freed == if freeKeys && old(numValues) > 0 then LiveKeys(old(buckets[..])) else []
    {
      freed := [];
      if freeKeys && numValues > 0 {
        freed := KeysInUse(buckets);
      }
      buckets := new Bucket<K, V>[0](_ => Blank(zeroKey, zeroValue));
      numBuckets := 0;
      numValues := 0;
    }

    /**
     * One step of _hashtable_for_each_pair (hashtable.c:285-307) from the
     * cursors `i` (next slot to look at) and `j` (pairs handed out so far):
     * after `numValues` pairs it yields nothing and leaves the cursors;
     * otherwise it yields pair number `j` in slot order and moves `i` just
     * past its slot.
     */
    method NextPair(i: nat, j: nat) returns (pair: Option<(K, V)>, i': nat, j': nat)
      requires Valid() && i <= buckets.Length && j == Occupied(buckets[..i])
      ensures j >= numValues ==> pair == None && i' == i && j' == j
      ensures j < numValues ==> pair.Some? && j < |Entries(buckets[..])| && pair.value == Entries(buckets[..])[j]
      ensures j < numValues ==> i < i' <= buckets.Length && j' == j + 1 == Occupied(buckets[..i'])
    {
      if j >= numValues {
        return None, i, j;
      }
      var k := NextLive(buckets, i, j);
      pair, i', j' := Some((buckets[k].key, buckets[k].value)), k + 1, j + 1;
    }
  }

  /**
   * The walk of the rehash loop (hashtable.c:171-183): the first empty slot
   * from `home` on. Some slot is empty, so the wrap-around assert of
   * hashtable.c:182 cannot fire.
   */
  method FirstFree<K, V>(a: array<Bucket<K, V>>, home: nat) returns (j: nat)
    requires home < a.Length && FreeFrom(a[..], home, 0).Some?
    ensures FreeFrom(a[..], home, 0) == Some(j)
  {
    ghost var u := a[..];
    j := home;
    ghost var d := 0;
    while a[j].Live()
      invariant d < a.Length && j == At(a.Length, home, d)
      invariant FreeFrom(u, home, d) == FreeFrom(u, home, 0)
      decreases a.Length - d
    {
      LapEnds(a.Length, home, d);
      j := (j + 1) % a.Length;
      d := d + 1;
    }
  }

  /**
   * The loop of hashtable.c:166-185: every bucket of `a`, in slot order, is
   * re-placed into the zeroed array `b`, which has room for all of them.
   */
  method RehashInto<K, V>(a: array<Bucket<K, V>>, b: array<Bucket<K, V>>)
    requires a != b && 0 < b.Length && LiveBag(b[..]) == multiset{} && Occupied(a[..]) <= b.Length
    modifies b
    ensures b[..] == RehashPrefix(a[..], a.Length, old(b[..]))
  {
    ghost var t0 := b[..];
    ghost var s := a[..];
    var i := 0;
    while i < a.Length
      invariant i <= a.Length
      invariant b[..] == RehashPrefix(s, i, t0)
      invariant LiveBag(b[..]) == LiveBag(s[..i])
    {
      OccupiedPrefix(s, i + 1);
      LiveBagPrefix(s, i);
      ReinsertInto(b, a[i]);
      RehashStep(s, i + 1, t0);
      i := i + 1;
    }
  }

  /** One round of the rehash loop: a live bucket goes to the first empty slot of its walk. */
  method ReinsertInto<K, V>(a: array<Bucket<K, V>>, b: Bucket<K, V>)
    requires b.Live() ==> 0 < a.Length && Occupied(a[..]) < a.Length
    modifies a
    ensures a[..] == Reinsert(old(a[..]), b)
  {
    if b.Live() {
      FreeFromFinds(a[..], b.hash % a.Length);
      var j := FirstFree(a, b.hash % a.Length);
      a[j] := b;
    }
  }

  /**
   * The walk of insert (hashtable.c:190-215): it stops at the first empty
   * slot or the first live slot whose key compares equal. With an empty slot
   * somewhere it never laps the array, so the assert of hashtable.c:213-214
   * cannot fire.
   */
  method PlacementSlot<K, V>(a: array<Bucket<K, V>>, key: K, hash: nat, eq: (K, K) -> bool) returns (slot: Slot)
    requires 0 < a.Length && Occupied(a[..]) < a.Length
    ensures slot == Probe(a[..], key, eq, hash) && !slot.Wrapped?
  {
    ghost var t := a[..];
    ProbeStopsWithRoom(t, key, eq, hash);
    var n := a.Length;
    var home := hash % n;
    var i := home;
    ghost var d := 0;
    while true
      invariant d < n && i == At(n, home, d)
      invariant ProbeFrom(t, key, eq, home, d) == Probe(t, key, eq, hash)
      decreases n - d
    {
      if !a[i].Live() {
        return Vacant(i);
      } else if eq(a[i].key, key) {
        return Taken(i);
      }
      LapEnds(n, home, d);
      i := (i + 1) % n;
      d := d + 1;
    }
  }

  /**
   * The search of erase (hashtable.c:250-256): from the home slot, the first
   * slot whose key compares equal, whatever its tag.
   */
  method EraseSlot<K, V>(a: array<Bucket<K, V>>, key: K, hash: nat, eq: (K, K) -> bool) returns (i: nat)
    requires 0 < a.Length && EraseSearch(a[..], key, eq, hash).Some?
    ensures Some(i) == EraseSearch(a[..], key, eq, hash)
  {
    ghost var s := a[..];
    var n := a.Length;
    var home := hash % n;
    i := home;
    ghost var d := 0;
    while !eq(a[i].key, key)
      invariant d < n && i == At(n, home, d)
      invariant EraseSearchFrom(s, key, eq, home, d) == EraseSearch(s, key, eq, hash)
      decreases n - d
    {
      LapEnds(n, home, d);
      i := (i + 1) % n;
      d := d + 1;
    }
  }

  /**
   * The compaction loop of hashtable.c:263-279: from slot `j` on, every live
   * entry away from its home slot is copied into `prev` and its own tag is
   * cleared, until an empty slot; `fuel` bounds the rounds that takes.
   */
  method CompactFrom<K, V>(a: array<Bucket<K, V>>, prev: nat, j: nat, ghost fuel: nat)
    requires prev < a.Length && j < a.Length && CompactEnds(a[..], prev, j, fuel)
    modifies a
    ensures a[..] == Compact(old(a[..]), prev, j, fuel)
  {
    ghost var goal := Compact(a[..], prev, j, fuel);
    ghost var f := fuel;
    var p: nat, k: nat := prev, j;
    var n: nat := a.Length;
    while a[k].Live()
      invariant p < n && k < n && CompactEnds(a[..], p, k, f)
      invariant Compact(a[..], p, k, f) == goal
      decreases f
    {
      ghost var w := CompactStep(Walk(a[..], p, k));
      if a[k].hash % n != k {
        a[p] := a[k];
        a[k] := a[k].(hash := 0);
        p := k;
      }
      k := (k + 1) % n;
      f := f - 1;
      assert a[..] == w.buckets && p == w.prev && k == w.j;
    }
  }

  /** The search, the zeroing and the compaction of erase on a non-empty table. */
  method EraseFound<K, V>(a: array<Bucket<K, V>>, count: nat, key: K, hash: nat, eq: (K, K) -> bool, freeKeys: bool,
                          zeroKey: K, zeroValue: V) returns (freed: seq<K>)
    requires count > 0 && EraseReturns(a[..], count, key, hash, eq)
    modifies a
    ensures var o := EraseResult(old(a[..]), count, key, hash, eq, freeKeys, zeroKey, zeroValue);
      a[..] == o.buckets && freed == o.freed
  {
    ghost var s := a[..];
    var n := a.Length;
    var i := EraseSlot(a, key, hash, eq);
    freed := if freeKeys then [a[i].key] else [];
    a[i] := Blank(zeroKey, zeroValue);
    assert a[..] == Zeroed(s, i, zeroKey, zeroValue);
    CompactFrom(a, i, (i + 1) % n, EraseFuel(s, i));
  }

  /** The two loops of hashtable.c:102-117: with or without free_key, every tag ends up zero. */
  method ClearSlots<K, V>(a: array<Bucket<K, V>>, freeKeys: bool) returns (freed: seq<K>)
    modifies a
    ensures a[..] == ClearTags(old(a[..]))
    ensures freed == if freeKeys then LiveKeys(old(a[..])) else []
  {
    ghost var s := a[..];
    freed := [];
    var i := 0;
    while i < a.Length
      invariant i <= a.Length && |s| == a.Length
      invariant forall k :: 0 <= k < i ==> a[k] == s[k].(hash := 0)
      invariant forall k :: i <= k < a.Length ==> a[k] == s[k]
      invariant freed == if freeKeys then LiveKeys(s[..i]) else []
    {
      assert s[..i + 1][..i] == s[..i];
      if !freeKeys {
        a[i] := a[i].(hash := 0);
      } else if a[i].Live() {
        freed := freed + [a[i].key];
        a[i] := a[i].(hash := 0);
      }
      i := i + 1;
    }
    assert s[..i] == s;
  }

  /** The free_key loop of hashtable.c:125-131, which leaves the slots as they are. */
  method KeysInUse<K, V>(a: array<Bucket<K, V>>) returns (keys: seq<K>)
    ensures keys == LiveKeys(a[..]) && |keys| == Occupied(a[..])
  {
    keys := [];
    var i := 0;
    while i < a.Length
      invariant i <= a.Length && keys == LiveKeys(a[..i])
    {
      assert a[..i + 1][..i] == a[..i];
      if a[i].Live() {
        keys := keys + [a[i].key];
      }
      i := i + 1;
    }
    assert a[..i] == a[..];
    LiveKeysCount(a[..]);
  }

  /**
   * The scan of hashtable.c:296-306: from slot `i`, the first slot in use.
   * Fewer than all the slots in use lie before `i`, so one lies at or after
   * it and the scan stays inside the array.
   */
  method NextLive<K, V>(a: array<Bucket<K, V>>, i: nat, j: nat) returns (k: nat)
    requires i <= a.Length && j == Occupied(a[..i]) < Occupied(a[..])
    ensures i <= k < a.Length && a[k].Live() && Occupied(a[..k + 1]) == j + 1
    ensures j < |Entries(a[..])| && Entries(a[..])[j] == (a[k].key, a[k].value)
  {
    ghost var s := a[..];
    assert s[..a.Length] == s;
    k := i;
    while !a[k].Live()
      invariant i <= k < a.Length && Occupied(s[..k]) == j && s[..a.Length] == s
      decreases a.Length - k
    {
      LiveBagPrefix(s, k);
      k := k + 1;
    }
    EntryAt(s, k);
  }
}
