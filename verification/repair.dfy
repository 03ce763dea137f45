/**
 * Erase as linear probing needs it: find the key the way find does, zero its
 * slot, then walk on and move back each entry whose walk from its home slot
 * would otherwise cross the new hole (Knuth's algorithm R, section 6.4 of The
 * Art of Computer Programming, volume 3).
 *
 * The loop has the shape of hashtable.c:263-279; only its test differs. An
 * entry at slot j stays where it is exactly when its home slot lies cyclically
 * in (gap, j], where gap is the slot vacated last; otherwise it is copied
 * into gap and its own slot's tag is cleared.
 */
module Repair {
  import opened Slots
  import opened Probing
  import opened Erasure

  /** Slot `g` comes before `x` on the walk from `home` to `x`. */
  predicate Crosses(n: nat, home: nat, g: nat, x: nat)
    requires home < n && g < n && x < n
  {
    Dist(n, home, g) < Dist(n, home, x)
  }

  // ---------------------------------------------------------------------------
  // How far the entries are from their home slots: the walk's measure.

  /** How many steps the entry in slot `x` lies past its home slot (0 for an empty slot). */
  ghost function SlotDisp<K, V>(s: seq<Bucket<K, V>>, x: nat): nat
    requires x < |s|
  {
    if s[x].Live() then Dist(|s|, s[x].hash % |s|, x) else 0
  }

  ghost function DispUpTo<K, V>(s: seq<Bucket<K, V>>, m: nat): nat
    requires m <= |s|
  {
    if m == 0 then 0 else DispUpTo(s, m - 1) + SlotDisp(s, m - 1)
  }

  /** The total displacement of the array's entries. */
  ghost function Disp<K, V>(s: seq<Bucket<K, V>>): nat
  {
    DispUpTo(s, |s|)
  }

  lemma {:induction false} DispUpdate<K, V>(s: seq<Bucket<K, V>>, i: nat, b: Bucket<K, V>, m: nat)
    requires i < |s| && m <= |s|
    ensures DispUpTo(s[i := b], m) + (if i < m then SlotDisp(s, i) else 0)
         == DispUpTo(s, m) + (if i < m then SlotDisp(s[i := b], i) else 0)
    decreases m
  {
    if m > 0 {
      DispUpdate(s, i, b, m - 1);
      if m - 1 != i {
        assert SlotDisp(s[i := b], m - 1) == SlotDisp(s, m - 1);
      }
    }
  }

  /** Moving an entry to a slot nearer its home slot lowers the total displacement. */
  lemma MoveLowersDisp<K, V>(s: seq<Bucket<K, V>>, g: nat, j: nat)
    requires g < |s| && j < |s| && g != j && !s[g].Live() && s[j].Live()
    requires Crosses(|s|, s[j].hash % |s|, g, j)
    ensures Disp(s[g := s[j]][j := s[j].(hash := 0)]) < Disp(s)
  {
    var t := s[g := s[j]];
    DispUpdate(s, g, s[j], |s|);
    DispUpdate(t, j, s[j].(hash := 0), |s|);
  }

  // ---------------------------------------------------------------------------
  // The corrected walk.

  /**
   * The walk with `gap` the slot vacated last and `k` steps taken since:
   * it stops at an empty slot or after a full lap back to `gap`.
   */
  function ShiftBack<K, V>(s: seq<Bucket<K, V>>, gap: nat, k: nat): (r: seq<Bucket<K, V>>)
    requires gap < |s| && 0 < k <= |s| && !s[gap].Live()
    ensures |r| == |s|
    decreases Disp(s), |s| - k
  {
    if k == |s| then s
    else
      var j := At(|s|, gap, k);
      if !s[j].Live() then s
      else if 0 < Dist(|s|, gap, s[j].hash % |s|) <= k then ShiftBack(s, gap, k + 1)
      else
        AtDistinct(|s|, gap, 0, k);
        MoveLowersDisp(s, gap, j);
        ShiftBack(s[gap := s[j]][j := s[j].(hash := 0)], j, 1)
  }

  // ---------------------------------------------------------------------------
  // The walk's invariant.

  /** Every slot on the walk from a live entry's home slot to the entry is in use, except `gap`. */
  ghost predicate PathsLiveExcept<K, V>(s: seq<Bucket<K, V>>, gap: nat)
  {
    forall x, d :: 0 <= x < |s| && s[x].Live() && 0 <= d < Dist(|s|, s[x].hash % |s|, x) ==>
      At(|s|, s[x].hash % |s|, d) == gap || s[At(|s|, s[x].hash % |s|, d)].Live()
  }

  /** An entry whose walk crosses `gap` lies at least `k` steps past it. */
  ghost predicate GapAhead<K, V>(s: seq<Bucket<K, V>>, gap: nat, k: nat)
    requires gap < |s|
  {
    forall x :: 0 <= x < |s| && s[x].Live() && Crosses(|s|, s[x].hash % |s|, gap, x) ==> Dist(|s|, gap, x) >= k
  }

  /** Zeroing one slot of a closed layout starts the walk in its invariant. */
  lemma ShiftStarts<K, V>(s: seq<Bucket<K, V>>, i: nat, z: Bucket<K, V>)
    requires i < |s| && ProbeClosed(s) && !z.Live()
    ensures PathsLiveExcept(s[i := z], i) && GapAhead(s[i := z], i, 1)
  {
    var t := s[i := z];
    forall x, d | 0 <= x < |t| && t[x].Live() && 0 <= d < Dist(|t|, t[x].hash % |t|, x)
      ensures At(|t|, t[x].hash % |t|, d) == i || t[At(|t|, t[x].hash % |t|, d)].Live()
    {
      assert Reachable(s, x);
    }
  }

  /** An entry whose home slot lies between the gap and itself stays, and the walk goes on. */
  lemma ShiftSkips<K, V>(s: seq<Bucket<K, V>>, gap: nat, k: nat)
    requires gap < |s| && 0 < k < |s| && GapAhead(s, gap, k)
    requires s[At(|s|, gap, k)].Live() && 0 < Dist(|s|, gap, s[At(|s|, gap, k)].hash % |s|) <= k
    ensures GapAhead(s, gap, k + 1)
  {
    var n := |s|;
    forall x | 0 <= x < n && s[x].Live() && Crosses(n, s[x].hash % n, gap, x) ensures Dist(n, gap, x) >= k + 1 {
    }
  }

  /** A home slot outside (gap, j] lies before the gap on the walk to `j`. */
  lemma MoveCrosses(n: nat, gap: nat, k: nat, home: nat)
    requires gap < n && 0 < k < n && home < n && !(0 < Dist(n, gap, home) <= k)
    ensures Crosses(n, home, gap, At(n, gap, k))
  {
  }

  /** After a move, one slot on the walk of one live entry is in use unless it is the new gap. */
  lemma PathAfterMove<K, V>(s: seq<Bucket<K, V>>, gap: nat, j: nat, x: nat, d: nat)
    requires gap < |s| && j < |s| && gap != j && !s[gap].Live() && s[j].Live()
    requires PathsLiveExcept(s, gap) && Crosses(|s|, s[j].hash % |s|, gap, j)
    requires var t := s[gap := s[j]][j := s[j].(hash := 0)];
      x < |s| && t[x].Live() && d < Dist(|s|, t[x].hash % |s|, x)
    ensures var t := s[gap := s[j]][j := s[j].(hash := 0)];
      At(|s|, t[x].hash % |s|, d) == j || t[At(|s|, t[x].hash % |s|, d)].Live()
  {
    var n := |s|;
    var t := s[gap := s[j]][j := s[j].(hash := 0)];
    var home := t[x].hash % n;
    var y := At(n, home, d);
    if x == gap {
      assert d < Dist(n, home, j);
      assert y != gap;
      assert s[y].Live();
    } else if y != gap && y != j {
      assert s[x].Live();
      assert s[y].Live();
    }
  }

  /** An entry whose home slot lies before the gap moves into it, and the walk restarts from its old slot. */
  lemma ShiftMoves<K, V>(s: seq<Bucket<K, V>>, gap: nat, k: nat)
    requires gap < |s| && 0 < k < |s| && !s[gap].Live() && PathsLiveExcept(s, gap)
    requires s[At(|s|, gap, k)].Live() && !(0 < Dist(|s|, gap, s[At(|s|, gap, k)].hash % |s|) <= k)
    ensures var j := At(|s|, gap, k);
      var t := s[gap := s[j]][j := s[j].(hash := 0)];
      Crosses(|s|, s[j].hash % |s|, gap, j) && PathsLiveExcept(t, j) && GapAhead(t, j, 1)
  {
    var n := |s|;
    var j := At(n, gap, k);
    AtDistinct(n, gap, 0, k);
    MoveCrosses(n, gap, k, s[j].hash % n);
    var t := s[gap := s[j]][j := s[j].(hash := 0)];
    forall x, d | 0 <= x < n && t[x].Live() && 0 <= d < Dist(n, t[x].hash % n, x)
      ensures At(n, t[x].hash % n, d) == j || t[At(n, t[x].hash % n, d)].Live()
    {
      PathAfterMove(s, gap, j, x, d);
    }
  }

  /** Where the walk stops, no entry's walk crosses the gap, so the layout is closed. */
  lemma ShiftStops<K, V>(s: seq<Bucket<K, V>>, gap: nat, k: nat)
    requires gap < |s| && 0 < k <= |s| && !s[gap].Live()
    requires PathsLiveExcept(s, gap) && GapAhead(s, gap, k)
    requires k == |s| || !s[At(|s|, gap, k)].Live()
    ensures ProbeClosed(s)
  {
    var n := |s|;
    forall x | 0 <= x < n && s[x].Live() ensures Reachable(s, x) {
      var home := s[x].hash % n;
      var dg := Dist(n, home, gap);
      assert Crosses(n, home, gap, x) ==> Dist(n, gap, x) > k && At(n, home, dg + k) == At(n, gap, k);
      forall d | 0 <= d < Dist(n, home, x) ensures s[At(n, home, d)].Live() {
      }
    }
  }

  /** The corrected walk always leaves a closed layout. */
  lemma {:induction false} ShiftBackCloses<K, V>(s: seq<Bucket<K, V>>, gap: nat, k: nat)
    requires gap < |s| && 0 < k <= |s| && !s[gap].Live()
    requires PathsLiveExcept(s, gap) && GapAhead(s, gap, k)
    ensures ProbeClosed(ShiftBack(s, gap, k))
    decreases Disp(s), |s| - k
  {
    if k == |s| || !s[At(|s|, gap, k)].Live() {
      ShiftStops(s, gap, k);
    } else {
      var j := At(|s|, gap, k);
      if 0 < Dist(|s|, gap, s[j].hash % |s|) <= k {
        ShiftSkips(s, gap, k);
        ShiftBackCloses(s, gap, k + 1);
      } else {
        ShiftMoves(s, gap, k);
        AtDistinct(|s|, gap, 0, k);
        MoveLowersDisp(s, gap, j);
        ShiftBackCloses(s[gap := s[j]][j := s[j].(hash := 0)], j, 1);
      }
    }
  }

  // ---------------------------------------------------------------------------
  // What every move keeps.

  /** No live slot holds a key that compares equal to `key`. */
  ghost predicate Absent<K, V>(s: seq<Bucket<K, V>>, key: K, eq: (K, K) -> bool)
  {
    forall x :: 0 <= x < |s| && s[x].Live() ==> !eq(s[x].key, key)
  }

  /** A move only relocates one live entry, so key facts about the live slots stay true. */
  lemma MoveKeepsKeys<K, V>(s: seq<Bucket<K, V>>, gap: nat, j: nat, eq: (K, K) -> bool, hashOf: K -> nat, key: K)
    requires gap < |s| && j < |s| && gap != j && !s[gap].Live()
    ensures var t := s[gap := s[j]][j := s[j].(hash := 0)];
      && (UniqueKeys(s, eq) ==> UniqueKeys(t, eq))
      && (TagsMatch(s, hashOf) ==> TagsMatch(t, hashOf))
      && (Absent(s, key, eq) ==> Absent(t, key, eq))
  {
    var t := s[gap := s[j]][j := s[j].(hash := 0)];
    if UniqueKeys(s, eq) {
      forall x, y | 0 <= x < |t| && 0 <= y < |t| && x != y && t[x].Live() && t[y].Live()
        ensures !eq(t[x].key, t[y].key)
      {
        var x' := if x == gap then j else x;
        var y' := if y == gap then j else y;
        assert t[x] == s[x'] && t[y] == s[y'];
      }
    }
  }

  lemma {:induction false} ShiftBackKeepsEntries<K, V>(s: seq<Bucket<K, V>>, gap: nat, k: nat)
    requires gap < |s| && 0 < k <= |s| && !s[gap].Live()
    ensures LiveBag(ShiftBack(s, gap, k)) == LiveBag(s)
    decreases Disp(s), |s| - k
  {
    if k < |s| && s[At(|s|, gap, k)].Live() {
      var j := At(|s|, gap, k);
      if 0 < Dist(|s|, gap, s[j].hash % |s|) <= k {
        ShiftBackKeepsEntries(s, gap, k + 1);
      } else {
        AtDistinct(|s|, gap, 0, k);
        MoveCrosses(|s|, gap, k, s[j].hash % |s|);
        MoveLowersDisp(s, gap, j);
        MoveKeepsEntries(s, gap, j);
        ShiftBackKeepsEntries(s[gap := s[j]][j := s[j].(hash := 0)], j, 1);
      }
    }
  }

  lemma {:induction false} ShiftBackKeepsKeys<K, V>(s: seq<Bucket<K, V>>, gap: nat, k: nat, eq: (K, K) -> bool, hashOf: K -> nat, key: K)
    requires gap < |s| && 0 < k <= |s| && !s[gap].Live()
    ensures var r := ShiftBack(s, gap, k);
      && (UniqueKeys(s, eq) ==> UniqueKeys(r, eq))
      && (TagsMatch(s, hashOf) ==> TagsMatch(r, hashOf))
      && (Absent(s, key, eq) ==> Absent(r, key, eq))
    decreases Disp(s), |s| - k
  {
    if k < |s| && s[At(|s|, gap, k)].Live() {
      var j := At(|s|, gap, k);
      if 0 < Dist(|s|, gap, s[j].hash % |s|) <= k {
        ShiftBackKeepsKeys(s, gap, k + 1, eq, hashOf, key);
      } else {
        AtDistinct(|s|, gap, 0, k);
        MoveCrosses(|s|, gap, k, s[j].hash % |s|);
        MoveLowersDisp(s, gap, j);
        MoveKeepsKeys(s, gap, j, eq, hashOf, key);
        ShiftBackKeepsKeys(s[gap := s[j]][j := s[j].(hash := 0)], j, 1, eq, hashOf, key);
      }
    }
  }

  // ---------------------------------------------------------------------------
  // The corrected erase.

  /**
   * Erase with the three corrections: the search is find's, so a key that
   * is not there changes nothing; the walk uses the test of algorithm R; and
   * the walk ends on every table, a full one included.
   */
  function RepairedErase<K, V>(s: seq<Bucket<K, V>>, count: nat, key: K, hash: nat, eq: (K, K) -> bool,
                               freeKeys: bool, zeroKey: K, zeroValue: V): (o: Erased<K, V>)
    ensures |o.buckets| == |s|
  {
    if count == 0 then Erased(s, count, [])
    else match Lookup(s, key, hash, eq)
      case None => Erased(s, count, [])
      case Some(i) =>
        Erased(ShiftBack(s[i := Blank(zeroKey, zeroValue)], i, 1), count - 1, if freeKeys then [s[i].key] else [])
  }

  /**
   * A key that find does not find leaves the table as it was; a key it finds
   * loses exactly its entry, frees exactly its key, and the count follows.
   */
  lemma RepairedEraseOutcomes<K, V>(s: seq<Bucket<K, V>>, count: nat, key: K, hash: nat, eq: (K, K) -> bool,
                                    freeKeys: bool, zeroKey: K, zeroValue: V)
    requires count == Occupied(s)
    ensures var o := RepairedErase(s, count, key, hash, eq, freeKeys, zeroKey, zeroValue);
      && o.count == Occupied(o.buckets)
      && (Lookup(s, key, hash, eq).None? ==> o == Erased(s, count, []))
      && (Lookup(s, key, hash, eq).Some? ==>
            var i := Lookup(s, key, hash, eq).value;
            && LiveBag(o.buckets) == LiveBag(s) - multiset{s[i]}
            && o.count == count - 1
            && o.freed == (if freeKeys then [s[i].key] else []))
  {
    if Lookup(s, key, hash, eq).Some? {
      var i := Lookup(s, key, hash, eq).value;
      LiveInBag(s, i);
      LiveBagUpdate(s, i, Blank(zeroKey, zeroValue));
      ShiftBackKeepsEntries(s[i := Blank(zeroKey, zeroValue)], i, 1);
    }
  }

  /** The corrected erase keeps the layout that find relies on. */
  lemma RepairedEraseWellFormed<K, V>(s: seq<Bucket<K, V>>, count: nat, key: K, hash: nat, eq: (K, K) -> bool,
                                      hashOf: K -> nat, freeKeys: bool, zeroKey: K, zeroValue: V)
    requires WellFormed(s, eq, hashOf)
    ensures WellFormed(RepairedErase(s, count, key, hash, eq, freeKeys, zeroKey, zeroValue).buckets, eq, hashOf)
  {
    if count > 0 && Lookup(s, key, hash, eq).Some? {
      var i := Lookup(s, key, hash, eq).value;
      var t := s[i := Blank(zeroKey, zeroValue)];
      ShiftStarts(s, i, Blank(zeroKey, zeroValue));
      ShiftBackCloses(t, i, 1);
      MoveFreeKeys(s, i, Blank(zeroKey, zeroValue), eq, hashOf);
      ShiftBackKeepsKeys(t, i, 1, eq, hashOf, key);
    }
  }

  /** Emptying a slot keeps the key facts about the live slots. */
  lemma MoveFreeKeys<K, V>(s: seq<Bucket<K, V>>, i: nat, z: Bucket<K, V>, eq: (K, K) -> bool, hashOf: K -> nat)
    requires i < |s| && !z.Live()
    ensures UniqueKeys(s, eq) ==> UniqueKeys(s[i := z], eq)
    ensures TagsMatch(s, hashOf) ==> TagsMatch(s[i := z], hashOf)
    ensures UniqueKeys(s, eq) && s[i].Live() ==> Absent(s[i := z], s[i].key, eq)
  {
  }

  /** After the corrected erase, the erased entry's key is no longer found. */
  lemma RepairedEraseForgets<K, V>(s: seq<Bucket<K, V>>, count: nat, key: K, hash: nat, eq: (K, K) -> bool,
                                   freeKeys: bool, zeroKey: K, zeroValue: V)
    requires count == Occupied(s) && UniqueKeys(s, eq) && Lookup(s, key, hash, eq).Some?
    ensures var i := Lookup(s, key, hash, eq).value;
      Lookup(RepairedErase(s, count, key, hash, eq, freeKeys, zeroKey, zeroValue).buckets, s[i].key, s[i].hash, eq) == None
  {
    var i := Lookup(s, key, hash, eq).value;
    LiveInBag(s, i);
    var t := s[i := Blank(zeroKey, zeroValue)];
    MoveFreeKeys(s, i, Blank(zeroKey, zeroValue), eq, s => 0);
    ShiftBackKeepsKeys(t, i, 1, eq, s => 0, s[i].key);
  }

  /** Every entry other than the erased one is still found, in the slot that now holds it. */
  lemma RepairedEraseKeepsOthers<K, V>(s: seq<Bucket<K, V>>, count: nat, key: K, hash: nat, eq: (K, K) -> bool,
                                       hashOf: K -> nat, freeKeys: bool, zeroKey: K, zeroValue: V, y: nat)
    requires count == Occupied(s) && WellFormed(s, eq, hashOf)
    requires y < |s| && s[y].Live() && eq(s[y].key, s[y].key) && Lookup(s, key, hash, eq) != Some(y)
    ensures var r := RepairedErase(s, count, key, hash, eq, freeKeys, zeroKey, zeroValue).buckets;
      Lookup(r, s[y].key, s[y].hash, eq).Some? && r[Lookup(r, s[y].key, s[y].hash, eq).value] == s[y]
  {
    var r := RepairedErase(s, count, key, hash, eq, freeKeys, zeroKey, zeroValue).buckets;
    RepairedEraseOutcomes(s, count, key, hash, eq, freeKeys, zeroKey, zeroValue);
    RepairedEraseWellFormed(s, count, key, hash, eq, hashOf, freeKeys, zeroKey, zeroValue);
    LiveInBag(s, y);
    if Lookup(s, key, hash, eq).Some? {
      var i := Lookup(s, key, hash, eq).value;
      assert s[y] != s[i];
      assert s[y] in LiveBag(r);
    }
    BagInLive(r, s[y]);
    var z :| 0 <= z < |r| && r[z] == s[y] && r[z].Live();
    LookupFindsEntry(r, eq, z);
  }
}
