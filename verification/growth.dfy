/**
 * Insert, as a function of the bucket array and the live count
 * (hashtable.c:136-216): reject hash 0, grow and rehash when the load check
 * fires, then place the entry in the first empty slot of its walk unless an
 * equal key is met first.
 */
module Growth {
  import opened Slots
  import opened Probing

  /** hashtable.c:24-25 */
  const LoadFactor: nat := 70
  const GrowthFactor: nat := 2

  /**
   * The load check of hashtable.c:151-152, with C's truncating division.
   * The truncation never changes the verdict: the check fires exactly when
   * the entries fill at least 70% of the buckets.
   */
  predicate NeedsGrowth(count: nat, cap: nat): (r: bool)
    ensures r <==> 100 * count >= LoadFactor * cap
  {
    if cap == 0 then true
    else
      LoadDivision(100 * count, cap);
      100 * count / cap >= LoadFactor
  }

  /** Comparing the truncated quotient with the load factor compares the whole products. */
  lemma LoadDivision(x: nat, c: nat)
    requires c > 0
    ensures x / c >= LoadFactor <==> x >= LoadFactor * c
  {
    var q := x / c;
    assert x == c * q + x % c;
    if x >= LoadFactor * c {
      DivLowerBound(x, c, LoadFactor);
    }
    if q >= LoadFactor {
      MulMonotone(c, LoadFactor, q);
    }
  }

  /** The new capacity of hashtable.c:154-159. */
  function GrownCapacity(cap: nat): (r: nat)
    ensures r > cap
  {
    var n := cap * (GrowthFactor * 100) / 100;
    if n == 0 then 8 else if n == cap then 2 * cap else n
  }

  /** Growth starts at 8 slots and otherwise doubles. */
  lemma GrownCapacityDoubles(cap: nat)
    ensures GrownCapacity(cap) == if cap == 0 then 8 else 2 * cap
  {
    assert cap * (GrowthFactor * 100) == 200 * cap;
    assert 200 * cap / 100 == 2 * cap;
  }

  /** While the load check is quiet, the table has an empty slot: count < capacity. */
  lemma QuietLoadLeavesRoom(count: nat, cap: nat)
    requires !NeedsGrowth(count, cap)
    ensures count < cap
  {
  }

  /** Truncating division: x >= k * c gives x / c >= k. */
  lemma DivLowerBound(x: nat, c: nat, k: nat)
    requires c > 0 && x >= k * c
    ensures x / c >= k
  {
    var q, r := x / c, x % c;
    assert x == c * q + r && r < c;
    if q < k {
      MulMonotone(c, q + 1, k);
    }
  }

  lemma MulMonotone(c: nat, x: nat, y: nat)
    requires x <= y
    ensures c * x <= c * y
  {
  }

  /** The capacity-8 sequence of the code: 5 entries (62%) let the 6th in, 6 entries (75%) grow. */
  lemma GrowthAtEight()
    ensures !NeedsGrowth(5, 8) && NeedsGrowth(6, 8)
    ensures !NeedsGrowth(0, 1) && NeedsGrowth(1, 1)
    ensures !NeedsGrowth(2, 3) && NeedsGrowth(3, 3)
  {
  }

  // ---------------------------------------------------------------------------
  // Rehash (hashtable.c:166-184): every live slot of the old array, in slot
  // order, goes to the first empty slot of a fresh array on its walk.

  /** The first empty slot at least `d` steps along the walk from `home`. */
  function FreeFrom<K, V>(t: seq<Bucket<K, V>>, home: nat, d: nat): (r: Option<nat>)
    requires home < |t| && d <= |t|
    ensures r.Some? ==> r.value < |t| && !t[r.value].Live()
    decreases |t| - d
  {
    if d == |t| then None
    else if !t[At(|t|, home, d)].Live() then Some(At(|t|, home, d))
    else FreeFrom(t, home, d + 1)
  }

  /** Where FreeFrom stops: an empty slot reached over live slots; None only when all are live. */
  lemma {:induction false} FreeFromStops<K, V>(t: seq<Bucket<K, V>>, home: nat, d0: nat)
    requires home < |t| && d0 <= |t|
    ensures match FreeFrom(t, home, d0)
      case None => forall e :: d0 <= e < |t| ==> t[At(|t|, home, e)].Live()
      case Some(j) =>
        exists d :: d0 <= d < |t| && j == At(|t|, home, d) && !t[j].Live()
          && forall e :: d0 <= e < d ==> t[At(|t|, home, e)].Live()
    decreases |t| - d0
  {
    if d0 < |t| && t[At(|t|, home, d0)].Live() {
      FreeFromStops(t, home, d0 + 1);
    }
  }

  lemma FreeFromFinds<K, V>(t: seq<Bucket<K, V>>, home: nat)
    requires home < |t| && Occupied(t) < |t|
    ensures FreeFrom(t, home, 0).Some?
  {
    FreeFromStops(t, home, 0);
    if FreeFrom(t, home, 0).None? {
      forall i | 0 <= i < |t| ensures t[i].Live() {
        assert t[At(|t|, home, Dist(|t|, home, i))].Live();
      }
      OccupiedBound(t);
    }
  }

  /** One step of the rehash loop: place a live bucket at its first empty slot. */
  function Reinsert<K, V>(t: seq<Bucket<K, V>>, b: Bucket<K, V>): seq<Bucket<K, V>>
  {
    if !b.Live() || |t| == 0 then t
    else match FreeFrom(t, b.hash % |t|, 0)
      case Some(j) => t[j := b]
      case None => t
  }

  /** The fresh array after the first `k` old slots have been re-placed. */
  function RehashPrefix<K, V>(s: seq<Bucket<K, V>>, k: nat, t: seq<Bucket<K, V>>): seq<Bucket<K, V>>
    requires k <= |s|
    decreases k
  {
    if k == 0 then t else Reinsert(RehashPrefix(s, k - 1, t), s[k - 1])
  }

  /** The whole rehash into `n` fresh zeroed slots. */
  function Rehash<K, V>(s: seq<Bucket<K, V>>, n: nat, zeroKey: K, zeroValue: V): (r: seq<Bucket<K, V>>)
    ensures |r| == n
  {
    RehashPrefixLength(s, |s|, Blanks(n, zeroKey, zeroValue));
    RehashPrefix(s, |s|, Blanks(n, zeroKey, zeroValue))
  }

  lemma {:induction false} RehashPrefixLength<K, V>(s: seq<Bucket<K, V>>, k: nat, t: seq<Bucket<K, V>>)
    requires k <= |s|
    ensures |RehashPrefix(s, k, t)| == |t|
    decreases k
  {
    if k > 0 { RehashPrefixLength(s, k - 1, t); }
  }

  /** One re-placement adds the bucket's entry, provided the fresh array still has room. */
  lemma ReinsertAdds<K, V>(u: seq<Bucket<K, V>>, b: Bucket<K, V>)
    requires b.Live() ==> Occupied(u) < |u|
    ensures |Reinsert(u, b)| == |u|
    ensures LiveBag(Reinsert(u, b)) == LiveBag(u) + Tally(b)
  {
    if b.Live() {
      FreeFromFinds(u, b.hash % |u|);
      var j := FreeFrom(u, b.hash % |u|, 0).value;
      LiveBagUpdate(u, j, b);
    }
  }

  /** Re-placing keeps every entry: the fresh array ends up holding exactly the old live entries. */
  lemma {:induction false} RehashPrefixKeepsEntries<K, V>(s: seq<Bucket<K, V>>, k: nat, t: seq<Bucket<K, V>>)
    requires k <= |s| && Occupied(t) + Occupied(s[..k]) <= |t|
    ensures LiveBag(RehashPrefix(s, k, t)) == LiveBag(t) + LiveBag(s[..k])
    decreases k
  {
    if k > 0 {
      LiveBagPrefix(s, k - 1);
      RehashPrefixKeepsEntries(s, k - 1, t);
      RehashStep(s, k, t);
    }
  }

  lemma RehashStep<K, V>(s: seq<Bucket<K, V>>, k: nat, t: seq<Bucket<K, V>>)
    requires 0 < k <= |s| && Occupied(t) + Occupied(s[..k]) <= |t|
    requires LiveBag(RehashPrefix(s, k - 1, t)) == LiveBag(t) + LiveBag(s[..k - 1])
    ensures LiveBag(RehashPrefix(s, k, t)) == LiveBag(t) + LiveBag(s[..k])
  {
      var u := RehashPrefix(s, k - 1, t);
      var b := s[k - 1];
      LiveBagPrefix(s, k - 1);
      RehashPrefixLength(s, k - 1, t);
      ReinsertAdds(u, b);
  }

  /** A rehash keeps the entry multiset, hence the count (the source's live count fits the new capacity). */
  lemma RehashKeepsEntries<K, V>(s: seq<Bucket<K, V>>, n: nat, zeroKey: K, zeroValue: V)
    requires Occupied(s) <= n
    ensures |Rehash(s, n, zeroKey, zeroValue)| == n
    ensures LiveBag(Rehash(s, n, zeroKey, zeroValue)) == LiveBag(s)
    ensures Occupied(Rehash(s, n, zeroKey, zeroValue)) == Occupied(s)
  {
    BlanksEmpty(n, zeroKey, zeroValue);
    assert s[..|s|] == s;
    RehashPrefixKeepsEntries(s, |s|, Blanks(n, zeroKey, zeroValue));
    RehashPrefixLength(s, |s|, Blanks(n, zeroKey, zeroValue));
  }

  /** Every live slot of the fresh array holds some entry of the first `k` old slots. */
  ghost predicate FromPrefix<K, V>(s: seq<Bucket<K, V>>, k: nat, t: seq<Bucket<K, V>>)
    requires k <= |s|
  {
    forall x :: 0 <= x < |t| && t[x].Live() ==> exists y :: 0 <= y < k && s[y] == t[x]
  }

  /** The rehash lays the fresh array out for probing and brings no equal keys together. */
  lemma {:induction false} RehashPrefixWellFormed<K, V>(s: seq<Bucket<K, V>>, k: nat, t: seq<Bucket<K, V>>, eq: (K, K) -> bool, hashOf: K -> nat)
    requires k <= |s| && |t| > 0
    requires WellFormed(s, eq, hashOf)
    requires LiveBag(t) == multiset{}
    ensures |RehashPrefix(s, k, t)| == |t|
    ensures WellFormed(RehashPrefix(s, k, t), eq, hashOf)
    ensures FromPrefix(s, k, RehashPrefix(s, k, t))
    decreases k
  {
    RehashPrefixLength(s, k, t);
    if k == 0 {
      forall x | 0 <= x < |t| ensures !t[x].Live() {
        if t[x].Live() { LiveInBag(t, x); }
      }
    } else {
      RehashPrefixWellFormed(s, k - 1, t, eq, hashOf);
      ReinsertWellFormed(s, k, RehashPrefix(s, k - 1, t), eq, hashOf);
    }
  }

  /** One re-placement step keeps the fresh array well formed and made of old entries. */
  lemma ReinsertWellFormed<K, V>(s: seq<Bucket<K, V>>, k: nat, u: seq<Bucket<K, V>>, eq: (K, K) -> bool, hashOf: K -> nat)
    requires 0 < k <= |s| && |u| > 0
    requires WellFormed(s, eq, hashOf) && WellFormed(u, eq, hashOf) && FromPrefix(s, k - 1, u)
    ensures WellFormed(Reinsert(u, s[k - 1]), eq, hashOf)
    ensures FromPrefix(s, k, Reinsert(u, s[k - 1]))
  {
    var b := s[k - 1];
    var r := Reinsert(u, b);
    if b.Live() && FreeFrom(u, b.hash % |u|, 0).Some? {
      var home := b.hash % |u|;
      var j := FreeFrom(u, home, 0).value;
      FreeFromStops(u, home, 0);
      var d :| 0 <= d < |u| && j == At(|u|, home, d) && !u[j].Live()
        && forall e :: 0 <= e < d ==> u[At(|u|, home, e)].Live();
      assert Dist(|u|, home, j) == d;
      FillKeepsClosed(u, j, b);
      forall x, y | 0 <= x < |r| && 0 <= y < |r| && x != y && r[x].Live() && r[y].Live()
        ensures !eq(r[x].key, r[y].key)
      {
        if x != j && y != j {
          assert r[x] == u[x] && r[y] == u[y];
        } else if x == j {
          var y' :| 0 <= y' < k - 1 && s[y'] == u[y];
          assert s[k - 1] == r[x] && s[y'] == r[y];
        } else {
          var x' :| 0 <= x' < k - 1 && s[x'] == u[x];
          assert s[k - 1] == r[y] && s[x'] == r[x];
        }
      }
      forall x | 0 <= x < |r| && r[x].Live() ensures exists y :: 0 <= y < k && s[y] == r[x] {
        if x == j { assert s[k - 1] == r[x]; } else { assert r[x] == u[x]; }
      }
    }
  }

  /** Resizing keeps every entry findable: the rehashed array is well laid out whenever the old one was. */
  lemma RehashWellFormed<K, V>(s: seq<Bucket<K, V>>, n: nat, zeroKey: K, zeroValue: V, eq: (K, K) -> bool, hashOf: K -> nat)
    requires n > 0 && WellFormed(s, eq, hashOf)
    ensures WellFormed(Rehash(s, n, zeroKey, zeroValue), eq, hashOf)
  {
    BlanksEmpty(n, zeroKey, zeroValue);
    RehashPrefixWellFormed(s, |s|, Blanks(n, zeroKey, zeroValue), eq, hashOf);
  }

  // ---------------------------------------------------------------------------
  // The whole insert.

  datatype Outcome<K, V> = Outcome(err: nat, buckets: seq<Bucket<K, V>>, count: nat)

  /** The array the placement walk runs on: grown and rehashed if the load check fires. */
  function Prepared<K, V>(s: seq<Bucket<K, V>>, count: nat, zeroKey: K, zeroValue: V): (t: seq<Bucket<K, V>>)
    ensures 0 < |t| && |t| == if NeedsGrowth(count, |s|) then GrownCapacity(|s|) else |s|
  {
    GrownCapacityDoubles(|s|);
    if NeedsGrowth(count, |s|) then
      RehashPrefixLength(s, |s|, Blanks(GrownCapacity(|s|), zeroKey, zeroValue));
      Rehash(s, GrownCapacity(|s|), zeroKey, zeroValue)
    else s
  }

  /** After the growth step there is an empty slot and the entries are those of before. */
  lemma PreparedHasRoom<K, V>(s: seq<Bucket<K, V>>, count: nat, zeroKey: K, zeroValue: V)
    requires count == Occupied(s)
    ensures var t := Prepared(s, count, zeroKey, zeroValue);
      Occupied(t) == count < |t| && LiveBag(t) == LiveBag(s)
  {
    OccupiedBound(s);
    GrownCapacityDoubles(|s|);
    if NeedsGrowth(count, |s|) {
      RehashKeepsEntries(s, GrownCapacity(|s|), zeroKey, zeroValue);
    } else {
      QuietLoadLeavesRoom(count, |s|);
    }
  }

  /**
   * The placement walk of hashtable.c:190-215 on a table with room: the first
   * empty slot receives the entry (error 0) unless the key copy fails (error
   * 3); an equal live key met first is error 2.
   */
  function Place<K, V>(t: seq<Bucket<K, V>>, count: nat, key: K, hash: nat, value: V,
                       eq: (K, K) -> bool, copyOk: bool): (r: Outcome<K, V>)
    requires |t| > 0 && hash != 0
    ensures r.err in {0, 2, 3} && |r.buckets| == |t|
    ensures r.err != 0 ==> r.buckets == t && r.count == count
  {
    var slot := Probe(t, key, eq, hash);
    if slot.Vacant? then
      if copyOk then Outcome(0, t[slot.index := Bucket(key, value, hash)], count + 1)
      else Outcome(3, t, count)
    else
      // A full lap cannot happen on a table with room (ProbeStopsWithRoom),
      // so the walk stopped at an equal key.
      Outcome(2, t, count)
  }

  /**
   * _hashtable_insert. Error codes: 1 hash 0, 4 allocation failure while
   * growing, 3 key copy failure, 2 key already present, 0 success. The live
   * count must be the table's own (`num_values`).
   */
  function InsertResult<K, V>(s: seq<Bucket<K, V>>, count: nat, key: K, hash: nat, value: V,
                              eq: (K, K) -> bool, copyOk: bool, allocOk: bool,
                              zeroKey: K, zeroValue: V): (r: Outcome<K, V>)
    requires count == Occupied(s)
    ensures r.err in {0, 1, 2, 3, 4} && (r.err == 1 <==> hash == 0)
    ensures r.err == 0 ==> r.count == count + 1
  {
    if hash == 0 then Outcome(1, s, count)
    else if NeedsGrowth(count, |s|) && !allocOk then Outcome(4, s, count)
    else Place(Prepared(s, count, zeroKey, zeroValue), count, key, hash, value, eq, copyOk)
  }

  /**
   * On a table with room the placement walk never laps it (the asserts of
   * hashtable.c:182 and 213-214 cannot fire); it reports a duplicate exactly
   * when find would find the key, fails on a failed copy, and otherwise
   * succeeds.
   */
  lemma PlaceErrors<K, V>(t: seq<Bucket<K, V>>, count: nat, key: K, hash: nat, value: V,
                          eq: (K, K) -> bool, copyOk: bool)
    requires |t| > 0 && hash != 0 && Occupied(t) < |t|
    ensures var o := Place(t, count, key, hash, value, eq, copyOk);
      && Probe(t, key, eq, hash) != Wrapped
      && (o.err == 2 <==> Lookup(t, key, hash, eq).Some?)
      && (o.err == 3 <==> Lookup(t, key, hash, eq).None? && !copyOk)
      && (o.err == 0 <==> Lookup(t, key, hash, eq).None? && copyOk)
  {
    ProbeStopsWithRoom(t, key, eq, hash);
  }

  /** A failed placement changes nothing; a successful one adds exactly the new entry. */
  lemma PlaceOutcomes<K, V>(t: seq<Bucket<K, V>>, count: nat, key: K, hash: nat, value: V,
                            eq: (K, K) -> bool, copyOk: bool)
    requires |t| > 0 && hash != 0 && count == Occupied(t)
    ensures var o := Place(t, count, key, hash, value, eq, copyOk);
      && |o.buckets| == |t| && o.count == Occupied(o.buckets)
      && (o.err != 0 ==> o.buckets == t && o.count == count)
      && (o.err == 0 ==> o.count == count + 1
                         && LiveBag(o.buckets) == LiveBag(t) + multiset{Bucket(key, value, hash)})
  {
    var slot := Probe(t, key, eq, hash);
    if slot.Vacant? && copyOk {
      FillAdds(t, slot.index, Bucket(key, value, hash));
    }
  }

  /** Hash 0 and a failed allocation are rejected before anything changes. */
  lemma InsertRejects<K, V>(s: seq<Bucket<K, V>>, count: nat, key: K, hash: nat, value: V,
                            eq: (K, K) -> bool, copyOk: bool, allocOk: bool, zeroKey: K, zeroValue: V)
    requires count == Occupied(s)
    ensures var o := InsertResult(s, count, key, hash, value, eq, copyOk, allocOk, zeroKey, zeroValue);
      && (o.err == 1 <==> hash == 0)
      && (o.err == 4 <==> hash != 0 && NeedsGrowth(count, |s|) && !allocOk)
      && (o.err in {1, 4} ==> o.buckets == s && o.count == count)
  {
    if hash != 0 && !(NeedsGrowth(count, |s|) && !allocOk) {
      PreparedHasRoom(s, count, zeroKey, zeroValue);
      PlaceErrors(Prepared(s, count, zeroKey, zeroValue), count, key, hash, value, eq, copyOk);
    }
  }

  /**
   * Whatever happens, the count still equals the number of live slots; a
   * failed insert keeps the entries (the table may have grown), a successful
   * one adds exactly the new entry; a table that grew has the new capacity.
   */
  lemma InsertOutcomes<K, V>(s: seq<Bucket<K, V>>, count: nat, key: K, hash: nat, value: V,
                             eq: (K, K) -> bool, copyOk: bool, allocOk: bool, zeroKey: K, zeroValue: V)
    requires count == Occupied(s)
    ensures var o := InsertResult(s, count, key, hash, value, eq, copyOk, allocOk, zeroKey, zeroValue);
      && o.count == Occupied(o.buckets)
      && (o.err !in {1, 4} ==>
            |o.buckets| == (if NeedsGrowth(count, |s|) then GrownCapacity(|s|) else |s|))
      && (o.err != 0 ==> LiveBag(o.buckets) == LiveBag(s) && o.count == count)
      && (o.err == 0 ==> copyOk && o.count == count + 1
                         && LiveBag(o.buckets) == LiveBag(s) + multiset{Bucket(key, value, hash)})
  {
    if hash != 0 && !(NeedsGrowth(count, |s|) && !allocOk) {
      PreparedHasRoom(s, count, zeroKey, zeroValue);
      PlaceOutcomes(Prepared(s, count, zeroKey, zeroValue), count, key, hash, value, eq, copyOk);
    }
  }

  /** Round trip: right after a successful placement, find reports the new entry, key, value and tag. */
  lemma PlaceThenFind<K, V>(t: seq<Bucket<K, V>>, count: nat, key: K, hash: nat, value: V,
                            eq: (K, K) -> bool, copyOk: bool)
    requires |t| > 0 && hash != 0 && eq(key, key)
    requires Place(t, count, key, hash, value, eq, copyOk).err == 0
    ensures var o := Place(t, count, key, hash, value, eq, copyOk);
      var r := Lookup(o.buckets, key, hash, eq);
      r.Some? && r.value < |o.buckets| && o.buckets[r.value] == Bucket(key, value, hash)
  {
    FillThenFind(t, key, eq, Bucket(key, value, hash));
  }

  /** The same round trip for the whole insert, growth included. */
  lemma InsertThenFind<K, V>(s: seq<Bucket<K, V>>, count: nat, key: K, hash: nat, value: V,
                             eq: (K, K) -> bool, copyOk: bool, allocOk: bool, zeroKey: K, zeroValue: V)
    requires count == Occupied(s) && eq(key, key)
    requires InsertResult(s, count, key, hash, value, eq, copyOk, allocOk, zeroKey, zeroValue).err == 0
    ensures var o := InsertResult(s, count, key, hash, value, eq, copyOk, allocOk, zeroKey, zeroValue);
      var r := Lookup(o.buckets, key, hash, eq);
      r.Some? && r.value < |o.buckets| && o.buckets[r.value] == Bucket(key, value, hash)
  {
    assert hash != 0;
    PlaceThenFind(Prepared(s, count, zeroKey, zeroValue), count, key, hash, value, eq, copyOk);
  }

  /** Insert never hides an entry find could reach before, unless it rehashed the table. */
  lemma InsertKeepsFound<K, V>(s: seq<Bucket<K, V>>, count: nat, key: K, hash: nat, value: V,
                               eq: (K, K) -> bool, copyOk: bool, allocOk: bool, zeroKey: K, zeroValue: V,
                               other: K, otherHash: nat)
    requires count == Occupied(s) && !NeedsGrowth(count, |s|)
    requires Lookup(s, other, otherHash, eq).Some?
    ensures var o := InsertResult(s, count, key, hash, value, eq, copyOk, allocOk, zeroKey, zeroValue);
      Lookup(o.buckets, other, otherHash, eq) == Lookup(s, other, otherHash, eq)
  {
    if hash != 0 {
      var slot := Probe(s, key, eq, hash);
      if slot.Vacant? && copyOk {
        LookupKeptByFill(s, slot.index, Bucket(key, value, hash), other, otherHash, eq);
      }
    }
  }

  /** Placement keeps the array well laid out, given a comparison that is symmetric and agrees with the hash. */
  lemma PlaceWellFormed<K, V>(t: seq<Bucket<K, V>>, count: nat, key: K, value: V,
                              eq: (K, K) -> bool, hashOf: K -> nat, copyOk: bool)
    requires |t| > 0 && WellFormed(t, eq, hashOf)
    requires forall a, b :: eq(a, b) ==> eq(b, a) && hashOf(a) == hashOf(b)
    requires hashOf(key) != 0
    ensures WellFormed(Place(t, count, key, hashOf(key), value, eq, copyOk).buckets, eq, hashOf)
  {
    if Probe(t, key, eq, hashOf(key)).Vacant? && copyOk {
      FillWellFormed(t, Bucket(key, value, hashOf(key)), eq, hashOf);
    }
  }

  /**
   * With a comparison that is symmetric and agrees with the hash, insert
   * keeps the array well laid out: every entry stays findable and no two
   * live keys compare equal. Together with LookupFindsEntry this gives: after
   * any run of inserts, every inserted key is found.
   */
  lemma InsertWellFormed<K, V>(s: seq<Bucket<K, V>>, count: nat, key: K, value: V,
                               eq: (K, K) -> bool, hashOf: K -> nat, copyOk: bool, allocOk: bool,
                               zeroKey: K, zeroValue: V)
    requires count == Occupied(s) && WellFormed(s, eq, hashOf)
    requires forall a, b :: eq(a, b) ==> eq(b, a) && hashOf(a) == hashOf(b)
    ensures WellFormed(InsertResult(s, count, key, hashOf(key), value, eq, copyOk, allocOk, zeroKey, zeroValue).buckets, eq, hashOf)
  {
    if hashOf(key) != 0 && !(NeedsGrowth(count, |s|) && !allocOk) {
      if NeedsGrowth(count, |s|) {
        GrownCapacityDoubles(|s|);
        RehashWellFormed(s, GrownCapacity(|s|), zeroKey, zeroValue, eq, hashOf);
      }
      PlaceWellFormed(Prepared(s, count, zeroKey, zeroValue), count, key, value, eq, hashOf, copyOk);
    }
  }
}
