/**
 * Erase as the code does it (hashtable.c:242-282): search for a slot whose
 * key compares equal, starting at the key's home slot and ignoring tags; zero
 * that slot; then walk on from the next slot, moving every live entry that
 * does not sit in its own home slot back into the slot vacated last, until the
 * walk meets an empty slot.
 *
 * The search has no stop of its own and the compaction walk only stops at an
 * empty slot, so the model states when the code terminates and requires it.
 */
module Erasure {
  import opened Slots
  import opened Probing

  /** C's `(j + 1) % n` step. */
  function Next(n: nat, j: nat): (r: nat)
    requires j < n
    ensures r < n && r == (j + 1) % n
  {
    if j + 1 == n then
      assert (j + 1) % n == 0;
      0
    else
      assert (j + 1) % n == j + 1;
      j + 1
  }

  // ---------------------------------------------------------------------------
  // The search (hashtable.c:251-256).

  /**
   * The first slot, at least `d` steps along the walk from `home`, whose key
   * compares equal to `key`, live or not. None means that no slot of the
   * array compares equal, and then the code's loop never ends.
   */
  function EraseSearchFrom<K, V>(s: seq<Bucket<K, V>>, key: K, eq: (K, K) -> bool, home: nat, d: nat): (r: Option<nat>)
    requires home < |s| && d <= |s|
    ensures r.Some? ==> r.value < |s| && eq(s[r.value].key, key)
    decreases |s| - d
  {
    if d == |s| then None
    else if eq(s[At(|s|, home, d)].key, key) then Some(At(|s|, home, d))
    else EraseSearchFrom(s, key, eq, home, d + 1)
  }

  function EraseSearch<K, V>(s: seq<Bucket<K, V>>, key: K, eq: (K, K) -> bool, hash: nat): (r: Option<nat>)
    requires |s| > 0
    ensures r.Some? ==> r.value < |s| && eq(s[r.value].key, key)
  {
    EraseSearchFrom(s, key, eq, hash % |s|, 0)
  }

  /** The search gives up only when no slot compares equal (then the code spins forever). */
  lemma {:induction false} EraseSearchNone<K, V>(s: seq<Bucket<K, V>>, key: K, eq: (K, K) -> bool, home: nat, d: nat)
    requires home < |s| && d <= |s|
    ensures EraseSearchFrom(s, key, eq, home, d).None? <==>
      forall e :: d <= e < |s| ==> !eq(s[At(|s|, home, e)].key, key)
    decreases |s| - d
  {
    if d < |s| {
      EraseSearchNone(s, key, eq, home, d + 1);
    }
  }

  /**
   * When find finds the key, the search of erase stops at the same slot: the
   * slots before it on the walk are live and compare unequal.
   */
  lemma {:induction false} EraseSearchFollowsProbe<K, V>(s: seq<Bucket<K, V>>, key: K, eq: (K, K) -> bool, home: nat, d: nat)
    requires home < |s| && d <= |s|
    requires ProbeFrom(s, key, eq, home, d).Taken?
    ensures EraseSearchFrom(s, key, eq, home, d) == Some(ProbeFrom(s, key, eq, home, d).index)
    decreases |s| - d
  {
    var i := At(|s|, home, d);
    if s[i].Live() && !eq(s[i].key, key) {
      EraseSearchFollowsProbe(s, key, eq, home, d + 1);
    }
  }

  lemma LookupGuidesErase<K, V>(s: seq<Bucket<K, V>>, key: K, hash: nat, eq: (K, K) -> bool)
    requires Lookup(s, key, hash, eq).Some?
    ensures |s| > 0 && EraseSearch(s, key, eq, hash) == Lookup(s, key, hash, eq)
  {
    EraseSearchFollowsProbe(s, key, eq, hash % |s|, 0);
  }

  // ---------------------------------------------------------------------------
  // The compaction walk (hashtable.c:263-279).

  /** Where the compaction walk is: the array, the slot vacated last, and the slot it looks at next. */
  datatype Walk<K, V> = Walk(buckets: seq<Bucket<K, V>>, prev: nat, j: nat)

  /**
   * One round of the compaction loop at a live slot `j`. An entry away from
   * its home slot is copied whole into `prev`, only the tag of its old slot
   * is cleared (its key and value bytes stay), and `prev` moves to `j`.
   */
  function CompactStep<K, V>(w: Walk<K, V>): (r: Walk<K, V>)
    requires w.prev < |w.buckets| && w.j < |w.buckets|
    ensures |r.buckets| == |w.buckets| && r.j == Next(|w.buckets|, w.j)
    ensures r.prev == w.prev || (r.prev == w.j && !r.buckets[w.j].Live())
    ensures forall x :: 0 <= x < |w.buckets| && x != w.prev && x != w.j ==> r.buckets[x] == w.buckets[x]
  {
    var s := w.buckets;
    var j := w.j;
    if s[j].hash % |s| != j then Walk(s[w.prev := s[j]][j := s[j].(hash := 0)], j, Next(|s|, j))
    else Walk(s, w.prev, Next(|s|, j))
  }

  /**
   * Whether the compaction walk from slot `j`, with `prev` the slot vacated
   * last, meets an empty slot within `fuel` rounds. The loop of the code has
   * no other way out.
   */
  ghost predicate CompactEnds<K, V>(s: seq<Bucket<K, V>>, prev: nat, j: nat, fuel: nat)
    requires prev < |s| && j < |s|
    decreases fuel
  {
    !s[j].Live() || (fuel > 0 && var w := CompactStep(Walk(s, prev, j)); CompactEnds(w.buckets, w.prev, w.j, fuel - 1))
  }

  /** The compaction walk from slot `j` with `prev` the slot vacated last: it stops at the first empty slot. */
  function Compact<K, V>(s: seq<Bucket<K, V>>, prev: nat, j: nat, ghost fuel: nat): (r: seq<Bucket<K, V>>)
    requires prev < |s| && j < |s| && CompactEnds(s, prev, j, fuel)
    ensures |r| == |s|
    decreases fuel
  {
    if !s[j].Live() then s
    else
      var w := CompactStep(Walk(s, prev, j));
      Compact(w.buckets, w.prev, w.j, fuel - 1)
  }

  /** An empty slot `spare` other than `prev` ends the walk at the latest when the walk reaches it. */
  lemma {:induction false} SpareEnds<K, V>(s: seq<Bucket<K, V>>, prev: nat, j: nat, spare: nat)
    requires prev < |s| && j < |s| && spare < |s| && spare != prev && !s[spare].Live()
    ensures CompactEnds(s, prev, j, Dist(|s|, j, spare))
    decreases Dist(|s|, j, spare)
  {
    if s[j].Live() {
      var w := CompactStep(Walk(s, prev, j));
      SpareEnds(w.buckets, w.prev, w.j, spare);
    }
  }

  /** Whether the walk ends depends on the tags alone, not on the key and value bytes. */
  lemma {:induction false} CompactEndsByTags<K, V>(s: seq<Bucket<K, V>>, s': seq<Bucket<K, V>>, prev: nat, j: nat, fuel: nat)
    requires prev < |s| && j < |s| && |s'| == |s|
    requires forall x :: 0 <= x < |s| ==> s'[x].hash == s[x].hash
    ensures CompactEnds(s, prev, j, fuel) == CompactEnds(s', prev, j, fuel)
    decreases fuel
  {
    if s[j].Live() && fuel > 0 {
      var w := CompactStep(Walk(s, prev, j));
      var w' := CompactStep(Walk(s', prev, j));
      assert w'.prev == w.prev && w'.j == w.j;
      CompactEndsByTags(w.buckets, w'.buckets, w.prev, w.j, fuel - 1);
    }
  }

  /** One move of the walk keeps the entries: the entry leaves slot `j` and lands in the empty `prev`. */
  lemma MoveKeepsEntries<K, V>(s: seq<Bucket<K, V>>, prev: nat, j: nat)
    requires prev < |s| && j < |s| && prev != j && !s[prev].Live() && s[j].Live()
    ensures LiveBag(s[prev := s[j]][j := s[j].(hash := 0)]) == LiveBag(s)
  {
    var t := s[prev := s[j]];
    LiveBagUpdate(s, prev, s[j]);
    LiveBagUpdate(t, j, s[j].(hash := 0));
  }

  /** Compaction moves entries around but keeps every one of them, so the number of live slots stays. */
  lemma {:induction false} CompactKeepsEntries<K, V>(s: seq<Bucket<K, V>>, prev: nat, j: nat, fuel: nat)
    requires prev < |s| && j < |s| && CompactEnds(s, prev, j, fuel) && !s[prev].Live()
    ensures LiveBag(Compact(s, prev, j, fuel)) == LiveBag(s)
    ensures Occupied(Compact(s, prev, j, fuel)) == Occupied(s)
    decreases fuel
  {
    if s[j].Live() {
      var w := CompactStep(Walk(s, prev, j));
      if s[j].hash % |s| != j {
        MoveKeepsEntries(s, prev, j);
      }
      CompactKeepsEntries(w.buckets, w.prev, w.j, fuel - 1);
    }
  }

  // ---------------------------------------------------------------------------
  // The whole erase.

  datatype Erased<K, V> = Erased(buckets: seq<Bucket<K, V>>, count: nat, freed: seq<K>)

  /** Slot `i` with its tag zeroed: the array the compaction walk starts on, as far as tags go. */
  function Vacated<K, V>(s: seq<Bucket<K, V>>, i: nat): (r: seq<Bucket<K, V>>)
    requires i < |s|
    ensures |r| == |s| && !r[i].Live() && forall x :: 0 <= x < |s| && x != i ==> r[x] == s[x]
  {
    s[i := s[i].(hash := 0)]
  }

  /** Compaction after erasing slot `i` meets an empty slot after some number of rounds. */
  ghost predicate CompactionEnds<K, V>(s: seq<Bucket<K, V>>, i: nat)
    requires i < |s|
  {
    exists fuel: nat :: CompactEnds(Vacated(s, i), i, Next(|s|, i), fuel)
  }

  /** A number of rounds within which that compaction ends. */
  ghost function EraseFuel<K, V>(s: seq<Bucket<K, V>>, i: nat): (fuel: nat)
    requires i < |s| && CompactionEnds(s, i)
    ensures CompactEnds(Vacated(s, i), i, Next(|s|, i), fuel)
  {
    var fuel: nat :| CompactEnds(Vacated(s, i), i, Next(|s|, i), fuel); fuel
  }

  /** An empty slot besides `i` is enough for the compaction after erasing `i` to end. */
  lemma SpareMeansEnds<K, V>(s: seq<Bucket<K, V>>, i: nat, e: nat)
    requires i < |s| && e < |s| && e != i && !s[e].Live()
    ensures CompactionEnds(s, i)
  {
    SpareEnds(Vacated(s, i), i, Next(|s|, i), e);
  }

  /** On one or two slots the walk reaches the vacated slot within two rounds, full table or not. */
  lemma SmallTableCompactionEnds<K, V>(s: seq<Bucket<K, V>>, i: nat)
    requires i < |s| <= 2
    ensures CompactionEnds(s, i)
  {
    var u := Vacated(s, i);
    var j := Next(|s|, i);
    if |s| == 1 {
      assert CompactEnds(u, i, j, 0);
    } else if !u[j].Live() {
      assert CompactEnds(u, i, j, 0);
    } else {
      var w := CompactStep(Walk(u, i, j));
      assert w.j == i;
      if u[j].hash % 2 != j {
        var w2 := CompactStep(w);
        assert w2.j == j && !w2.buckets[j].Live();
        assert CompactEnds(w2.buckets, w2.prev, w2.j, 0);
        assert CompactEnds(u, i, j, 2);
      } else {
        assert CompactEnds(w.buckets, w.prev, w.j, 0);
        assert CompactEnds(u, i, j, 1);
      }
    }
  }

  /**
   * When erase returns at all: at once on an empty table; otherwise the
   * search must meet an equal key and compaction must meet an empty slot.
   */
  ghost predicate EraseReturns<K, V>(s: seq<Bucket<K, V>>, count: nat, key: K, hash: nat, eq: (K, K) -> bool)
  {
    count == 0 ||
    (|s| > 0 && EraseSearch(s, key, eq, hash).Some? && CompactionEnds(s, EraseSearch(s, key, eq, hash).value))
  }

  /** The array compaction starts on after erasing slot `i`: the whole slot zeroed. */
  function Zeroed<K, V>(s: seq<Bucket<K, V>>, i: nat, zeroKey: K, zeroValue: V): (r: seq<Bucket<K, V>>)
    requires i < |s| && CompactionEnds(s, i)
    ensures |r| == |s| && r[i] == Blank(zeroKey, zeroValue) && forall x :: 0 <= x < |s| && x != i ==> r[x] == s[x]
    ensures CompactEnds(r, i, Next(|s|, i), EraseFuel(s, i))
  {
    var r := s[i := Blank(zeroKey, zeroValue)];
    CompactEndsByTags(Vacated(s, i), r, i, Next(|s|, i), EraseFuel(s, i));
    r
  }

  /**
   * _hashtable_erase: nothing on an empty table; otherwise free the key of
   * the slot the search stopped at (when a free_key is given), zero the whole
   * slot, compact from the next slot and decrement the count.
   */
  ghost function EraseResult<K, V>(s: seq<Bucket<K, V>>, count: nat, key: K, hash: nat, eq: (K, K) -> bool,
                                   freeKeys: bool, zeroKey: K, zeroValue: V): (r: Erased<K, V>)
    requires EraseReturns(s, count, key, hash, eq)
    ensures |r.buckets| == |s| && |r.freed| <= 1 && (count > 0 ==> r.count == count - 1)
    ensures count == 0 ==> r == Erased(s, 0, [])
  {
    if count == 0 then Erased(s, count, [])
    else
      var i := EraseSearch(s, key, eq, hash).value;
      Erased(Compact(Zeroed(s, i, zeroKey, zeroValue), i, Next(|s|, i), EraseFuel(s, i)), count - 1,
             if freeKeys then [s[i].key] else [])
  }

  /**
   * Erasing a key whose slot the search reaches removes exactly that entry,
   * frees exactly its key, and keeps the count equal to the live slots.
   */
  lemma EraseRemovesEntry<K, V>(s: seq<Bucket<K, V>>, count: nat, key: K, hash: nat, eq: (K, K) -> bool,
                                freeKeys: bool, zeroKey: K, zeroValue: V)
    requires count == Occupied(s) && count > 0 && EraseReturns(s, count, key, hash, eq)
    requires s[EraseSearch(s, key, eq, hash).value].Live()
    ensures var i := EraseSearch(s, key, eq, hash).value;
      var o := EraseResult(s, count, key, hash, eq, freeKeys, zeroKey, zeroValue);
      && |o.buckets| == |s|
      && LiveBag(o.buckets) == LiveBag(s) - multiset{s[i]}
      && o.count == count - 1 == Occupied(o.buckets)
      && o.freed == (if freeKeys then [s[i].key] else [])
  {
    var i := EraseSearch(s, key, eq, hash).value;
    LiveBagUpdate(s, i, Blank(zeroKey, zeroValue));
    CompactKeepsEntries(Zeroed(s, i, zeroKey, zeroValue), i, Next(|s|, i), EraseFuel(s, i));
  }

  /** Erase on an empty table returns at once and changes nothing. */
  lemma EraseEmptyIsNoOp<K, V>(s: seq<Bucket<K, V>>, key: K, hash: nat, eq: (K, K) -> bool,
                               freeKeys: bool, zeroKey: K, zeroValue: V)
    ensures EraseReturns(s, 0, key, hash, eq)
    ensures EraseResult(s, 0, key, hash, eq, freeKeys, zeroKey, zeroValue) == Erased(s, 0, [])
  {
  }

  /**
   * A table with an empty slot, or with at most two slots, erases every key
   * that find finds: the search stops at find's slot and compaction stops at
   * an empty slot.
   */
  lemma EraseReturnsForFoundKey<K, V>(s: seq<Bucket<K, V>>, count: nat, key: K, hash: nat, eq: (K, K) -> bool)
    requires (Occupied(s) < |s| || |s| <= 2) && Lookup(s, key, hash, eq).Some?
    ensures |s| > 0 && EraseSearch(s, key, eq, hash) == Lookup(s, key, hash, eq)
    ensures s[EraseSearch(s, key, eq, hash).value].Live()
    ensures EraseReturns(s, count, key, hash, eq)
  {
    LookupGuidesErase(s, key, hash, eq);
    var i := EraseSearch(s, key, eq, hash).value;
    if |s| <= 2 {
      SmallTableCompactionEnds(s, i);
    } else {
      RoomIffEmptySlot(s);
      var e :| 0 <= e < |s| && !s[e].Live();
      SpareMeansEnds(s, i, e);
    }
  }

  /**
   * With keys unique, a key that find finds is no longer found once erase
   * returns: the only live slot holding it was the one erased.
   */
  lemma EraseForgets<K, V>(s: seq<Bucket<K, V>>, count: nat, key: K, hash: nat, eq: (K, K) -> bool,
                           freeKeys: bool, zeroKey: K, zeroValue: V)
    requires count == Occupied(s) && UniqueKeys(s, eq) && Lookup(s, key, hash, eq).Some?
    requires EraseReturns(s, count, key, hash, eq)
    ensures var i := Lookup(s, key, hash, eq).value;
      Lookup(EraseResult(s, count, key, hash, eq, freeKeys, zeroKey, zeroValue).buckets, s[i].key, s[i].hash, eq) == None
  {
    var i := Lookup(s, key, hash, eq).value;
    LookupGuidesErase(s, key, hash, eq);
    LiveInBag(s, i);
    EraseRemovesEntry(s, count, key, hash, eq, freeKeys, zeroKey, zeroValue);
    var r := EraseResult(s, count, key, hash, eq, freeKeys, zeroKey, zeroValue).buckets;
    var blank := Blank(zeroKey, zeroValue);
    LiveBagUpdate(s, i, blank);
    assert LiveBag(r) == LiveBag(s[i := blank]);
    forall x | 0 <= x < |r| && r[x].Live() ensures !eq(r[x].key, s[i].key) {
      LiveInBag(r, x);
      BagInLive(s[i := blank], r[x]);
      var y :| 0 <= y < |s| && s[i := blank][y] == r[x] && s[i := blank][y].Live();
      assert y != i && s[y] == r[x];
    }
  }

  // ---------------------------------------------------------------------------
  // One cluster whose keys share a home slot: here the test of hashtable.c:273
  // does what linear-probing deletion needs.

  /**
   * The `m` slots from `h` on (wrapping) are live and all have home slot
   * `h`, and the slot after them is empty.
   */
  ghost predicate Cluster<K, V>(s: seq<Bucket<K, V>>, h: nat, m: nat)
  {
    h < |s| && m < |s|
    && (forall d :: 0 <= d < m ==> s[At(|s|, h, d)].Live() && s[At(|s|, h, d)].hash % |s| == h)
    && !s[At(|s|, h, m)].Live()
  }

  /**
   * Where compaction is inside such a cluster after the entry at offset `k`
   * was erased: the entries before `k` are in place, those from `k + 1` up
   * to `p` have each moved back one slot, offset `p` is the slot vacated
   * last, and the rest of the array is as it was.
   */
  ghost predicate ShiftedUpTo<K, V>(s0: seq<Bucket<K, V>>, u: seq<Bucket<K, V>>, h: nat, m: nat, k: nat, p: nat)
    requires Cluster(s0, h, m) && k <= p < m
  {
    var n := |s0|;
    |u| == n
    && (forall d :: 0 <= d < k ==> u[At(n, h, d)] == s0[At(n, h, d)])
    && (forall d :: k <= d < p ==> u[At(n, h, d)] == s0[At(n, h, d + 1)])
    && !u[At(n, h, p)].Live()
    && (forall d :: p < d <= m ==> u[At(n, h, d)] == s0[At(n, h, d)])
    && (forall x :: 0 <= x < n && Dist(n, h, x) > m ==> u[x] == s0[x])
  }

  /** One round of the walk inside the cluster: the entry at offset `p + 1` moves back into offset `p`. */
  lemma ClusterShiftStep<K, V>(s0: seq<Bucket<K, V>>, u: seq<Bucket<K, V>>, h: nat, m: nat, k: nat, p: nat)
    requires Cluster(s0, h, m) && k <= p && p + 1 < m && ShiftedUpTo(s0, u, h, m, k, p)
    ensures var n := |u|;
      var w := CompactStep(Walk(u, At(n, h, p), At(n, h, p + 1)));
      u[At(n, h, p + 1)].Live() && w.prev == At(n, h, p + 1) && w.j == Next(n, At(n, h, p + 1))
      && ShiftedUpTo(s0, w.buckets, h, m, k, p + 1)
  {
    var n := |u|;
    var prev := At(n, h, p);
    var j := At(n, h, p + 1);
    assert u[j] == s0[At(n, h, p + 1)];
    AtDistinct(n, h, 0, p + 1);
    assert u[j].hash % n == h != j;
    var w := CompactStep(Walk(u, prev, j));
    var r := u[prev := u[j]][j := u[j].(hash := 0)];
    assert w == Walk(r, j, Next(n, j));
    forall d | 0 <= d < k ensures r[At(n, h, d)] == s0[At(n, h, d)] {
      AtDistinct(n, h, d, p);
      AtDistinct(n, h, d, p + 1);
    }
    forall d | k <= d < p + 1 ensures r[At(n, h, d)] == s0[At(n, h, d + 1)] {
      AtDistinct(n, h, d, p + 1);
      if d < p {
        AtDistinct(n, h, d, p);
      }
    }
    forall d | p + 1 < d <= m ensures r[At(n, h, d)] == s0[At(n, h, d)] {
      AtDistinct(n, h, d, p);
      AtDistinct(n, h, d, p + 1);
    }
    forall x | 0 <= x < n && Dist(n, h, x) > m ensures r[x] == s0[x] {
      AtDistinct(n, h, Dist(n, h, x), p);
      AtDistinct(n, h, Dist(n, h, x), p + 1);
    }
  }

  /** Every entry after the vacated slot is away from its home slot, so the walk moves each back by one. */
  lemma {:induction false} ClusterCompaction<K, V>(s0: seq<Bucket<K, V>>, u: seq<Bucket<K, V>>, h: nat, m: nat, k: nat, p: nat, fuel: nat)
    requires Cluster(s0, h, m) && k <= p < m && ShiftedUpTo(s0, u, h, m, k, p)
    requires CompactEnds(u, At(|u|, h, p), Next(|u|, At(|u|, h, p)), fuel)
    ensures ShiftedUpTo(s0, Compact(u, At(|u|, h, p), Next(|u|, At(|u|, h, p)), fuel), h, m, k, m - 1)
    decreases m - p
  {
    var n := |u|;
    var prev := At(n, h, p);
    var j := Next(n, prev);
    assert j == At(n, h, p + 1);
    if p + 1 < m {
      ClusterShiftStep(s0, u, h, m, k, p);
      var w := CompactStep(Walk(u, prev, j));
      ClusterCompaction(s0, w.buckets, h, m, k, p + 1, fuel - 1);
    } else {
      assert !u[j].Live();
    }
  }

  /** A live slot reached over live slots whose keys differ from `key` is where find stops. */
  lemma FoundAfterShift<K, V>(r: seq<Bucket<K, V>>, key: K, eq: (K, K) -> bool, h: nat, q: nat)
    requires h < |r| && q < |r|
    requires forall e :: 0 <= e < q ==> r[At(|r|, h, e)].Live() && !eq(r[At(|r|, h, e)].key, key)
    ensures r[At(|r|, h, q)].Live() && eq(r[At(|r|, h, q)].key, key) ==>
      ProbeFrom(r, key, eq, h, 0) == Taken(At(|r|, h, q))
    ensures !r[At(|r|, h, q)].Live() ==> ProbeFrom(r, key, eq, h, 0) == Vacant(At(|r|, h, q))
  {
    forall e | 0 <= e < q ensures Passes(r, key, eq, h, e) {
    }
    ProbeReaches(r, key, eq, h, q);
  }

  /** Zeroing the erased slot is the walk's starting point. */
  lemma ClusterEraseStarts<K, V>(s: seq<Bucket<K, V>>, h: nat, m: nat, k: nat, z: Bucket<K, V>)
    requires Cluster(s, h, m) && k < m && !z.Live()
    ensures ShiftedUpTo(s, s[At(|s|, h, k) := z], h, m, k, k)
  {
    var n := |s|;
    var t := s[At(n, h, k) := z];
    forall d | 0 <= d <= m && d != k ensures t[At(n, h, d)] == s[At(n, h, d)] {
      AtDistinct(n, h, d, k);
    }
    forall x | 0 <= x < n && Dist(n, h, x) > m ensures t[x] == s[x] {
      AtDistinct(n, h, Dist(n, h, x), k);
    }
  }

  /** After the walk, each other key of the cluster is found where it now sits. */
  lemma ClusterOtherFound<K, V>(s: seq<Bucket<K, V>>, r: seq<Bucket<K, V>>, eq: (K, K) -> bool, h: nat, m: nat, k: nat, d: nat)
    requires Cluster(s, h, m) && UniqueKeys(s, eq) && (forall a :: eq(a, a))
    requires k < m && ShiftedUpTo(s, r, h, m, k, m - 1) && d < m && d != k
    ensures Lookup(r, s[At(|s|, h, d)].key, s[At(|s|, h, d)].hash, eq) == Some(At(|s|, h, if d < k then d else d - 1))
  {
    var n := |s|;
    var q := if d < k then d else d - 1;
    var kd := s[At(n, h, d)].key;
    forall e | 0 <= e < q ensures r[At(n, h, e)].Live() && !eq(r[At(n, h, e)].key, kd) {
      var e' := if e < k then e else e + 1;
      assert r[At(n, h, e)] == s[At(n, h, e')];
      AtDistinct(n, h, e', d);
    }
    assert r[At(n, h, q)] == s[At(n, h, d)];
    FoundAfterShift(r, kd, eq, h, q);
  }

  /** After the walk, the erased key is no longer found. */
  lemma ClusterErasedGone<K, V>(s: seq<Bucket<K, V>>, r: seq<Bucket<K, V>>, eq: (K, K) -> bool, h: nat, m: nat, k: nat)
    requires Cluster(s, h, m) && UniqueKeys(s, eq)
    requires k < m && ShiftedUpTo(s, r, h, m, k, m - 1)
    ensures Lookup(r, s[At(|s|, h, k)].key, s[At(|s|, h, k)].hash, eq) == None
  {
    var n := |s|;
    var kk := s[At(n, h, k)].key;
    forall e | 0 <= e < m - 1 ensures r[At(n, h, e)].Live() && !eq(r[At(n, h, e)].key, kk) {
      var e' := if e < k then e else e + 1;
      assert r[At(n, h, e)] == s[At(n, h, e')];
      AtDistinct(n, h, e', k);
    }
    FoundAfterShift(r, kk, eq, h, m - 1);
  }

  /**
   * Erasing one key of a cluster whose keys share their home slot keeps
   * every other key of the cluster findable (in its old slot, or one slot
   * back if it came after the erased one), and the erased key is gone.
   */
  lemma ClusterEraseKeepsOthers<K, V>(s: seq<Bucket<K, V>>, count: nat, key: K, hash: nat, eq: (K, K) -> bool,
                                      freeKeys: bool, zeroKey: K, zeroValue: V, h: nat, m: nat, k: nat)
    requires Cluster(s, h, m) && UniqueKeys(s, eq) && (forall a :: eq(a, a))
    requires k < m && count > 0 && EraseSearch(s, key, eq, hash) == Some(At(|s|, h, k))
    ensures EraseReturns(s, count, key, hash, eq)
    ensures var r := EraseResult(s, count, key, hash, eq, freeKeys, zeroKey, zeroValue).buckets;
      && (forall d :: 0 <= d < m && d != k ==>
            Lookup(r, s[At(|s|, h, d)].key, s[At(|s|, h, d)].hash, eq) == Some(At(|s|, h, if d < k then d else d - 1)))
      && Lookup(r, s[At(|s|, h, k)].key, s[At(|s|, h, k)].hash, eq) == None
  {
    var n := |s|;
    var i := At(n, h, k);
    AtDistinct(n, h, k, m);
    SpareMeansEnds(s, i, At(n, h, m));
    ClusterEraseStarts(s, h, m, k, Blank(zeroKey, zeroValue));
    var t := Zeroed(s, i, zeroKey, zeroValue);
    ClusterCompaction(s, t, h, m, k, k, EraseFuel(s, i));
    var r := Compact(t, i, Next(n, i), EraseFuel(s, i));
    assert r == EraseResult(s, count, key, hash, eq, freeKeys, zeroKey, zeroValue).buckets;
    forall d | 0 <= d < m && d != k
      ensures Lookup(r, s[At(n, h, d)].key, s[At(n, h, d)].hash, eq) == Some(At(n, h, if d < k then d else d - 1))
    {
      ClusterOtherFound(s, r, eq, h, m, k, d);
    }
    ClusterErasedGone(s, r, eq, h, m, k);
  }
}
