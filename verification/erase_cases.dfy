/**
 * Concrete tables on which the erase of hashtable.c:242-282 misbehaves. Keys
 * and values are integers compared with `==`; every bucket is written with
 * its full hash, its home slot being that hash modulo the capacity.
 */
module EraseCases {
  import opened Slots
  import opened Probing
  import opened Erasure

  function IntEq(a: int, b: int): bool { a == b }

  const Empty: Bucket<int, int> := Blank(0, 0)

  // ---------------------------------------------------------------------------
  // An entry moved in front of its home slot (hashtable.c:273).

  /**
   * Capacity 8 after four inserts: A (key 1) and B (key 2) both hash to slot
   * 0, D (key 3) and C (key 4) both to slot 2.
   */
  function LostKeyTable(): seq<Bucket<int, int>>
  {
    [Bucket(1, 10, 8), Bucket(2, 20, 16), Bucket(3, 30, 2), Bucket(4, 40, 10),
     Empty, Empty, Empty, Empty]
  }

  /** The array after erasing A: B in slot 0, C in slot 1, D in slot 2, slot 3 empty with C's stale bytes. */
  function LostKeyAfter(): seq<Bucket<int, int>>
  {
    [Bucket(2, 20, 16), Bucket(4, 40, 10), Bucket(3, 30, 2), Bucket(4, 40, 0),
     Empty, Empty, Empty, Empty]
  }

  lemma LostKeyCompaction(fuel: nat)
    requires CompactEnds(LostKeyTable()[0 := Empty], 0, 1, fuel)
    ensures Compact(LostKeyTable()[0 := Empty], 0, 1, fuel) == LostKeyAfter()
  {
    var t := LostKeyTable()[0 := Empty];
    var s1 := [Bucket(2, 20, 16), Bucket(2, 20, 0), Bucket(3, 30, 2), Bucket(4, 40, 10), Empty, Empty, Empty, Empty];
    var s2 := LostKeyAfter();
    assert CompactStep(Walk(t, 0, 1)) == Walk(s1, 1, 2);
    assert CompactStep(Walk(s1, 1, 2)) == Walk(s1, 1, 3);
    assert CompactStep(Walk(s1, 1, 3)) == Walk(s2, 3, 4);
    assert fuel >= 3;
    assert Compact(s2, 3, 4, fuel - 3) == s2;
    assert Compact(s1, 1, 3, fuel - 2) == s2;
    assert Compact(s1, 1, 2, fuel - 1) == s2;
  }

  /** Before the erase the layout is sound and find reaches C in slot 3. */
  lemma LostKeyTableSound()
    ensures ProbeClosed(LostKeyTable())
  {
    var s := LostKeyTable();
    forall i | 0 <= i < 8 && s[i].Live() ensures Reachable(s, i) {
      assert i < 4;
    }
  }

  lemma LostKeyTableUnique()
    ensures UniqueKeys(LostKeyTable(), IntEq)
  {
    var s := LostKeyTable();
    forall i, j | 0 <= i < 8 && 0 <= j < 8 && i != j && s[i].Live() && s[j].Live()
      ensures !IntEq(s[i].key, s[j].key)
    {
      assert i < 4 && j < 4;
    }
  }

  lemma LostKeyFoundBefore()
    ensures Lookup(LostKeyTable(), 4, 10, IntEq) == Some(3)
  {
    assert ProbeFrom(LostKeyTable(), 4, IntEq, 2, 1) == Taken(3);
  }

  /**
   * Erasing A moves B back to slot 0, leaves D in its home slot 2, and moves
   * C (home 2) to slot 1, in front of its home: afterwards C is still stored
   * but find no longer reaches it.
   */
  lemma EraseLosesKey()
    ensures EraseReturns(LostKeyTable(), 4, 1, 8, IntEq)
    ensures var o := EraseResult(LostKeyTable(), 4, 1, 8, IntEq, false, 0, 0);
      && o.buckets == LostKeyAfter()
      && o.buckets[1] == Bucket(4, 40, 10)
      && Lookup(o.buckets, 4, 10, IntEq) == None
  {
    var s := LostKeyTable();
    assert EraseSearch(s, 1, IntEq, 8) == Some(0);
    SpareMeansEnds(s, 0, 4);
    assert Zeroed(s, 0, 0, 0) == LostKeyTable()[0 := Empty];
    LostKeyCompaction(EraseFuel(s, 0));
    assert ProbeFrom(LostKeyAfter(), 4, IntEq, 2, 1) == Vacant(3);
  }

  // ---------------------------------------------------------------------------
  // Compaction on a full table (hashtable.c:263-279).

  /**
   * Capacity 3, filled by three inserts (the load check lets the third in at
   * 66%): W (key 1) homes at slot 0, Z (key 2) and X (key 3) at slot 1.
   */
  function FullTable(): seq<Bucket<int, int>>
  {
    [Bucket(1, 10, 3), Bucket(2, 20, 1), Bucket(3, 30, 4)]
  }

  /** The full table is a sound layout, and the search for W stops at slot 0. */
  lemma FullTableSound()
    ensures Occupied(FullTable()) == |FullTable()| && ProbeClosed(FullTable())
    ensures EraseSearch(FullTable(), 1, IntEq, 3) == Some(0)
  {
    var s := FullTable();
    OccupiedBound(s);
    forall i | 0 <= i < 3 && s[i].Live() ensures Reachable(s, i) {
    }
  }

  /**
   * Erasing W: after slot 0 is zeroed the walk never meets an empty slot.
   * X is moved to slot 0, then (away from its home 1) back to slot 2, then to
   * slot 0 again: from the third round on the walk repeats three states and
   * looks only at live slots, so however many rounds it is given it does
   * not end.
   */
  lemma {:induction false} FullTableCycle(fuel: nat)
    ensures var x := Bucket(3, 30, 4);
      && !CompactEnds([x, Bucket(2, 20, 1), x.(hash := 0)], 2, 0, fuel)
      && !CompactEnds([x.(hash := 0), Bucket(2, 20, 1), x], 0, 1, fuel)
      && !CompactEnds([x.(hash := 0), Bucket(2, 20, 1), x], 0, 2, fuel)
    decreases fuel
  {
    var x := Bucket(3, 30, 4);
    var z := Bucket(2, 20, 1);
    assert CompactStep(Walk([x, z, x.(hash := 0)], 2, 0)) == Walk([x.(hash := 0), z, x], 0, 1);
    assert CompactStep(Walk([x.(hash := 0), z, x], 0, 1)) == Walk([x.(hash := 0), z, x], 0, 2);
    assert CompactStep(Walk([x.(hash := 0), z, x], 0, 2)) == Walk([x, z, x.(hash := 0)], 2, 0);
    if fuel > 0 {
      FullTableCycle(fuel - 1);
    }
  }

  /** Erasing W from the full table never returns: the search finds W, and compaction never meets an empty slot. */
  lemma FullTableEraseNeverReturns()
    ensures EraseSearch(FullTable(), 1, IntEq, 3) == Some(0)
    ensures !EraseReturns(FullTable(), 3, 1, 3, IntEq)
  {
    var s := FullTable();
    var x := Bucket(3, 30, 4);
    var z := Bucket(2, 20, 1);
    FullTableSound();
    var u := Vacated(s, 0);
    assert CompactStep(Walk(u, 0, 1)) == Walk(u, 0, 2);
    assert CompactStep(Walk(u, 0, 2)) == Walk([x, z, x.(hash := 0)], 2, 0);
    forall fuel: nat ensures !CompactEnds(u, 0, 1, fuel) {
      if fuel >= 2 {
        FullTableCycle(fuel - 2);
      }
    }
  }

  // ---------------------------------------------------------------------------
  // Erasing an absent key (hashtable.c:251-256).

  /** Capacity 4 holding the single key 1 in slot 1; the other slots are zeroed. */
  function OneKeyTable(): seq<Bucket<int, int>>
  {
    [Empty, Bucket(1, 10, 1), Empty, Empty]
  }

  /**
   * Erasing the absent key 0, with home slot 3: the search ignores tags, so
   * the zeroed key bytes of empty slot 3 compare equal and the "erase"
   * proceeds. The count drops to 0 while key 1 is still stored and found.
   */
  lemma EraseAbsentKeyMiscounts()
    ensures Occupied(OneKeyTable()) == 1 && Lookup(OneKeyTable(), 0, 7, IntEq) == None
    ensures EraseReturns(OneKeyTable(), 1, 0, 7, IntEq)
    ensures var o := EraseResult(OneKeyTable(), 1, 0, 7, IntEq, false, 0, 0);
      && o.count == 0 && Occupied(o.buckets) == 1
      && Lookup(o.buckets, 1, 1, IntEq) == Some(1)
  {
    var s := OneKeyTable();
    assert s == Blanks(4, 0, 0)[1 := s[1]];
    BlanksEmpty(4, 0, 0);
    FillAdds(Blanks(4, 0, 0), 1, s[1]);
    assert EraseSearch(s, 0, IntEq, 7) == Some(3);
    SpareMeansEnds(s, 3, 0);
    assert Zeroed(s, 3, 0, 0) == s;
    assert Compact(s, 3, 0, EraseFuel(s, 3)) == s;
  }
}
