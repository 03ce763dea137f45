/**
 * Linear probing over the bucket array (hashtable.c:190-215, 218-239): a key
 * with hash h starts at slot h % n and walks forward one slot at a time,
 * wrapping from the last slot to slot 0, for at most n slots.
 *
 * Insert and find walk the same way: both stop at the first empty slot or at
 * the first live slot whose key compares equal. `Probe` is that walk; find
 * reports the equal slot, insert fills the empty one.
 */
module Probing {
  import opened Slots

  /** The slot `d` steps after `home`, wrapping around an array of `n` slots. */
  function At(n: nat, home: nat, d: nat): (i: nat)
    requires home < n && d < n
    ensures i < n
  {
    if home + d < n then home + d else home + d - n
  }

  /** How many steps separate `home` from slot `i` on the walk. */
  function Dist(n: nat, home: nat, i: nat): (d: nat)
    requires home < n && i < n
    ensures d < n && At(n, home, d) == i
  {
    if home <= i then i - home else i + n - home
  }

  /** Different step counts within one lap reach different slots. */
  lemma AtDistinct(n: nat, home: nat, d1: nat, d2: nat)
    requires home < n && d1 < n && d2 < n && d1 != d2
    ensures At(n, home, d1) != At(n, home, d2)
  {
  }

  /** C's `(i + 1) % n` step is one more step of the walk. */
  lemma NextAt(n: nat, home: nat, d: nat)
    requires home < n && d + 1 < n
    ensures (At(n, home, d) + 1) % n == At(n, home, d + 1)
  {
  }

  /** The step after the last one of a lap is back at `home`, and no earlier step is. */
  lemma LapEnds(n: nat, home: nat, d: nat)
    requires home < n && d < n
    ensures (At(n, home, d) + 1) % n == home <==> d + 1 == n
    ensures d + 1 < n ==> (At(n, home, d) + 1) % n == At(n, home, d + 1)
  {
    var i := At(n, home, d);
    if i + 1 < n {
      assert (i + 1) % n == i + 1;
    } else {
      assert (i + 1) % n == 0;
    }
  }

  datatype Slot = Vacant(index: nat) | Taken(index: nat) | Wrapped

  /** Where the walk from `home` stops when it has already passed `d` slots. */
  function ProbeFrom<K, V>(s: seq<Bucket<K, V>>, key: K, eq: (K, K) -> bool, home: nat, d: nat): (r: Slot)
    requires home < |s| && d <= |s|
    ensures r.Vacant? ==> r.index < |s| && !s[r.index].Live()
    ensures r.Taken? ==> r.index < |s| && s[r.index].Live() && eq(s[r.index].key, key)
    decreases |s| - d
  {
    if d == |s| then Wrapped
    else
      var i := At(|s|, home, d);
      if !s[i].Live() then Vacant(i)
      else if eq(s[i].key, key) then Taken(i)
      else ProbeFrom(s, key, eq, home, d + 1)
  }

  /** The walk for `key` with hash `hash`: first empty slot, first equal live slot, or a full lap. */
  function Probe<K, V>(s: seq<Bucket<K, V>>, key: K, eq: (K, K) -> bool, hash: nat): (r: Slot)
    requires |s| > 0
    ensures r.Vacant? ==> r.index < |s| && !s[r.index].Live()
    ensures r.Taken? ==> r.index < |s| && s[r.index].Live() && eq(s[r.index].key, key)
  {
    ProbeFrom(s, key, eq, hash % |s|, 0)
  }

  /** _hashtable_find: the slot holding `key`, or None. An empty array finds nothing. */
  function Lookup<K, V>(s: seq<Bucket<K, V>>, key: K, hash: nat, eq: (K, K) -> bool): (r: Option<nat>)
    ensures r.Some? ==> r.value < |s| && s[r.value].Live() && eq(s[r.value].key, key)
  {
    if |s| == 0 then None
    else match Probe(s, key, eq, hash)
      case Taken(i) => Some(i)
      case _ => None
  }

  /** The slot `d` steps along is live and its key does not compare equal to `key`. */
  ghost predicate Passes<K, V>(s: seq<Bucket<K, V>>, key: K, eq: (K, K) -> bool, home: nat, d: nat)
    requires home < |s| && d < |s|
  {
    var i := At(|s|, home, d);
    s[i].Live() && !eq(s[i].key, key)
  }

  /** Slots that the walk passes over do not change where it stops. */
  lemma {:induction false} ProbeSkips<K, V>(s: seq<Bucket<K, V>>, key: K, eq: (K, K) -> bool, home: nat, d0: nat, d: nat)
    requires home < |s| && d0 <= d <= |s|
    requires forall e :: d0 <= e < d ==> Passes(s, key, eq, home, e)
    ensures ProbeFrom(s, key, eq, home, d0) == ProbeFrom(s, key, eq, home, d)
    decreases d - d0
  {
    if d0 < d {
      assert Passes(s, key, eq, home, d0);
      ProbeSkips(s, key, eq, home, d0 + 1, d);
    }
  }

  /**
   * Where the walk stops, described without recursion: every slot before the
   * stop is passed over, and the stop is an empty slot or an equal live one.
   */
  lemma {:induction false} ProbeStops<K, V>(s: seq<Bucket<K, V>>, key: K, eq: (K, K) -> bool, home: nat, d0: nat)
    requires home < |s| && d0 <= |s|
    ensures match ProbeFrom(s, key, eq, home, d0)
      case Wrapped => forall e :: d0 <= e < |s| ==> Passes(s, key, eq, home, e)
      case Vacant(i) =>
        exists d :: d0 <= d < |s| && i == At(|s|, home, d) && !s[i].Live()
          && forall e :: d0 <= e < d ==> Passes(s, key, eq, home, e)
      case Taken(i) =>
        exists d :: d0 <= d < |s| && i == At(|s|, home, d) && s[i].Live() && eq(s[i].key, key)
          && forall e :: d0 <= e < d ==> Passes(s, key, eq, home, e)
    decreases |s| - d0
  {
    if d0 < |s| {
      var i := At(|s|, home, d0);
      if s[i].Live() && !eq(s[i].key, key) {
        ProbeStops(s, key, eq, home, d0 + 1);
      }
    }
  }

  /** The converse of ProbeStops: a slot reached over passed slots is where the walk stops. */
  lemma ProbeReaches<K, V>(s: seq<Bucket<K, V>>, key: K, eq: (K, K) -> bool, home: nat, d: nat)
    requires home < |s| && d < |s|
    requires forall e :: 0 <= e < d ==> Passes(s, key, eq, home, e)
    ensures !s[At(|s|, home, d)].Live() ==> ProbeFrom(s, key, eq, home, 0) == Vacant(At(|s|, home, d))
    ensures s[At(|s|, home, d)].Live() && eq(s[At(|s|, home, d)].key, key) ==>
      ProbeFrom(s, key, eq, home, 0) == Taken(At(|s|, home, d))
  {
    ProbeSkips(s, key, eq, home, 0, d);
  }

  /** A walk that laps the whole array saw only live slots, so every slot is in use. */
  lemma ProbeWrapsOnlyWhenFull<K, V>(s: seq<Bucket<K, V>>, key: K, eq: (K, K) -> bool, hash: nat)
    requires |s| > 0
    requires Probe(s, key, eq, hash) == Wrapped
    ensures Occupied(s) == |s|
  {
    var home := hash % |s|;
    ProbeStops(s, key, eq, home, 0);
    forall i | 0 <= i < |s| ensures s[i].Live() {
      assert Passes(s, key, eq, home, Dist(|s|, home, i));
    }
    OccupiedBound(s);
  }

  /**
   * The wrap-around asserts of insert (hashtable.c:213-214) cannot fire while
   * some slot is empty: the walk stops at an empty or an equal slot.
   */
  lemma ProbeStopsWithRoom<K, V>(s: seq<Bucket<K, V>>, key: K, eq: (K, K) -> bool, hash: nat)
    requires 0 < |s| && Occupied(s) < |s|
    ensures Probe(s, key, eq, hash) != Wrapped
  {
    if Probe(s, key, eq, hash) == Wrapped {
      ProbeWrapsOnlyWhenFull(s, key, eq, hash);
    }
  }

  // ---------------------------------------------------------------------------
  // The layout that linear probing relies on, and what it buys.

  /** Every slot from the entry's home slot up to (not including) its own slot is in use. */
  ghost predicate Reachable<K, V>(s: seq<Bucket<K, V>>, i: nat)
    requires i < |s|
  {
    var home := s[i].hash % |s|;
    forall d :: 0 <= d < Dist(|s|, home, i) ==> s[At(|s|, home, d)].Live()
  }

  /** No entry is cut off from its home slot by an empty slot. */
  ghost predicate ProbeClosed<K, V>(s: seq<Bucket<K, V>>)
  {
    forall i :: 0 <= i < |s| && s[i].Live() ==> Reachable(s, i)
  }

  /** No two live slots hold keys that compare equal. */
  ghost predicate UniqueKeys<K, V>(s: seq<Bucket<K, V>>, eq: (K, K) -> bool)
  {
    forall i, j :: 0 <= i < |s| && 0 <= j < |s| && i != j && s[i].Live() && s[j].Live() ==>
      !eq(s[i].key, s[j].key)
  }

  /** Each live tag is the hash of its key under `hashOf`. */
  ghost predicate TagsMatch<K, V>(s: seq<Bucket<K, V>>, hashOf: K -> nat)
  {
    forall i :: 0 <= i < |s| && s[i].Live() ==> s[i].hash == hashOf(s[i].key)
  }

  ghost predicate WellFormed<K, V>(s: seq<Bucket<K, V>>, eq: (K, K) -> bool, hashOf: K -> nat)
  {
    ProbeClosed(s) && UniqueKeys(s, eq) && TagsMatch(s, hashOf)
  }

  /** In a well-laid-out array, find reaches every entry with the hash it was stored under. */
  lemma LookupFindsEntry<K, V>(s: seq<Bucket<K, V>>, eq: (K, K) -> bool, i: nat)
    requires i < |s| && s[i].Live() && eq(s[i].key, s[i].key)
    requires ProbeClosed(s) && UniqueKeys(s, eq)
    ensures Lookup(s, s[i].key, s[i].hash, eq) == Some(i)
  {
    var home := s[i].hash % |s|;
    var d := Dist(|s|, home, i);
    assert Reachable(s, i);
    forall e | 0 <= e < d ensures Passes(s, s[i].key, eq, home, e) {
      AtDistinct(|s|, home, e, d);
    }
    ProbeReaches(s, s[i].key, eq, home, d);
  }

  /**
   * In a well-laid-out array, find with the key's own hash reaches every live
   * slot whose key compares equal to it; with the postcondition of Lookup,
   * find succeeds exactly when such a slot exists. The comparison must be an
   * equivalence that gives equal keys equal hashes.
   */
  lemma LookupComplete<K, V>(s: seq<Bucket<K, V>>, eq: (K, K) -> bool, hashOf: K -> nat, key: K, i: nat)
    requires WellFormed(s, eq, hashOf)
    requires forall a, b :: eq(a, b) ==> eq(b, a) && hashOf(a) == hashOf(b)
    requires forall a, b, c :: eq(a, b) && eq(b, c) ==> eq(a, c)
    requires i < |s| && s[i].Live() && eq(s[i].key, key)
    ensures Lookup(s, key, hashOf(key), eq) == Some(i)
  {
    var home := hashOf(key) % |s|;
    assert s[i].hash == hashOf(key);
    var d := Dist(|s|, home, i);
    assert Reachable(s, i);
    forall e | 0 <= e < d ensures Passes(s, key, eq, home, e) {
      var j := At(|s|, home, e);
      AtDistinct(|s|, home, e, d);
      assert !eq(s[j].key, s[i].key) && eq(key, s[i].key);
    }
    ProbeReaches(s, key, eq, home, d);
  }

  /** Filling an empty slot keeps the walk's stop for every key whose walk stops at a live slot. */
  lemma {:induction false} ProbeKeptByFill<K, V>(s: seq<Bucket<K, V>>, p: nat, b: Bucket<K, V>, key: K, eq: (K, K) -> bool, home: nat, d0: nat)
    requires p < |s| && !s[p].Live() && home < |s| && d0 <= |s|
    requires ProbeFrom(s, key, eq, home, d0).Taken?
    ensures ProbeFrom(s[p := b], key, eq, home, d0) == ProbeFrom(s, key, eq, home, d0)
    decreases |s| - d0
  {
    var i := At(|s|, home, d0);
    if s[i].Live() && !eq(s[i].key, key) {
      ProbeKeptByFill(s, p, b, key, eq, home, d0 + 1);
    }
  }

  /** Inserting into an empty slot never hides an entry that find could reach. */
  lemma LookupKeptByFill<K, V>(s: seq<Bucket<K, V>>, p: nat, b: Bucket<K, V>, key: K, hash: nat, eq: (K, K) -> bool)
    requires p < |s| && !s[p].Live()
    requires Lookup(s, key, hash, eq).Some?
    ensures Lookup(s[p := b], key, hash, eq) == Lookup(s, key, hash, eq)
  {
    ProbeKeptByFill(s, p, b, key, eq, hash % |s|, 0);
  }

  /** Filling the empty slot where the walk for `key` stopped makes find stop there. */
  lemma FillThenFind<K, V>(s: seq<Bucket<K, V>>, key: K, eq: (K, K) -> bool, b: Bucket<K, V>)
    requires |s| > 0 && b.key == key && b.Live() && eq(key, key)
    requires Probe(s, key, eq, b.hash).Vacant?
    ensures Lookup(s[Probe(s, key, eq, b.hash).index := b], key, b.hash, eq) == Some(Probe(s, key, eq, b.hash).index)
  {
    var home := b.hash % |s|;
    ProbeStops(s, key, eq, home, 0);
    var p := Probe(s, key, eq, b.hash).index;
    var d :| 0 <= d < |s| && p == At(|s|, home, d) && !s[p].Live()
      && forall e :: 0 <= e < d ==> Passes(s, key, eq, home, e);
    var u := s[p := b];
    forall e | 0 <= e < d ensures Passes(u, key, eq, home, e) {
      AtDistinct(|s|, home, e, d);
      assert Passes(s, key, eq, home, e);
      assert u[At(|s|, home, e)] == s[At(|s|, home, e)];
    }
    ProbeReaches(u, key, eq, home, d);
  }

  /**
   * Filling the slot where the walk for `b` stopped, with `b`, keeps the
   * layout closed: `b` is reachable over the slots its walk passed, and the
   * walks of all other entries only gain a live slot.
   */
  lemma FillKeepsClosed<K, V>(s: seq<Bucket<K, V>>, p: nat, b: Bucket<K, V>)
    requires p < |s| && !s[p].Live() && b.Live()
    requires ProbeClosed(s)
    requires forall e :: 0 <= e < Dist(|s|, b.hash % |s|, p) ==> s[At(|s|, b.hash % |s|, e)].Live()
    ensures ProbeClosed(s[p := b])
  {
    var t := s[p := b];
    forall i | 0 <= i < |t| && t[i].Live() ensures Reachable(t, i) {
      if i != p {
        assert Reachable(s, i);
        var home := s[i].hash % |s|;
        forall d | 0 <= d < Dist(|s|, home, i) ensures t[At(|s|, home, d)].Live() {
          assert s[At(|s|, home, d)].Live();
        }
      } else {
        var home := b.hash % |s|;
        forall d | 0 <= d < Dist(|s|, home, p) ensures t[At(|s|, home, d)].Live() {
          assert s[At(|s|, home, d)].Live();
        }
      }
    }
  }

  /** The key placed at the end of its walk compares unequal to every other live key. */
  lemma PlacedKeyUnique<K, V>(s: seq<Bucket<K, V>>, key: K, eq: (K, K) -> bool, hashOf: K -> nat,
                              p: nat, d: nat, j: nat)
    requires WellFormed(s, eq, hashOf)
    requires forall a, b :: eq(a, b) ==> eq(b, a) && hashOf(a) == hashOf(b)
    requires |s| > 0 && d < |s| && p == At(|s|, hashOf(key) % |s|, d) && !s[p].Live()
    requires forall e :: 0 <= e < d ==> Passes(s, key, eq, hashOf(key) % |s|, e)
    requires j < |s| && j != p && s[j].Live()
    ensures !eq(s[j].key, key) && !eq(key, s[j].key)
  {
    var home := hashOf(key) % |s|;
    var dj := Dist(|s|, home, j);
    assert Reachable(s, j);
    assert dj < d ==> Passes(s, key, eq, home, dj);
  }

  /**
   * Filling the empty slot where the walk for a key stopped keeps the layout
   * well formed, given a comparison that is symmetric and agrees with the hash.
   */
  lemma FillWellFormed<K, V>(s: seq<Bucket<K, V>>, b: Bucket<K, V>, eq: (K, K) -> bool, hashOf: K -> nat)
    requires |s| > 0 && WellFormed(s, eq, hashOf)
    requires forall a, c :: eq(a, c) ==> eq(c, a) && hashOf(a) == hashOf(c)
    requires b.hash == hashOf(b.key) && b.Live()
    requires Probe(s, b.key, eq, b.hash).Vacant?
    ensures WellFormed(s[Probe(s, b.key, eq, b.hash).index := b], eq, hashOf)
  {
    var key := b.key;
    var home := b.hash % |s|;
    ProbeStops(s, key, eq, home, 0);
    var p := Probe(s, key, eq, b.hash).index;
    var d :| 0 <= d < |s| && p == At(|s|, home, d) && !s[p].Live()
      && forall e :: 0 <= e < d ==> Passes(s, key, eq, home, e);
    assert Dist(|s|, home, p) == d;
    forall e | 0 <= e < d ensures s[At(|s|, home, e)].Live() {
      assert Passes(s, key, eq, home, e);
    }
    FillKeepsClosed(s, p, b);
    var u := s[p := b];
    forall j | 0 <= j < |s| && j != p && s[j].Live() ensures !eq(s[j].key, key) && !eq(key, s[j].key) {
      PlacedKeyUnique(s, key, eq, hashOf, p, d, j);
    }
    assert UniqueKeys(u, eq);
  }
}
