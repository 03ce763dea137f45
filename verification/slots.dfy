/**
 * The bucket array as a value (hashtable.h:586-593): every slot holds a key,
 * a value and a hash tag, and a tag of 0 marks the slot as empty. A live
 * slot's tag is the full hash its entry was inserted with.
 *
 * This module gives the array's abstract contents (the multiset of live
 * entries, their number, their order) and the facts about how a single slot
 * update changes them.
 */
module Slots {

  datatype Option<T> = None | Some(value: T)

  datatype Bucket<K, V> = Bucket(key: K, value: V, hash: nat)
  {
    /** A bucket is in use exactly when its tag is non-zero. */
    predicate Live() { hash != 0 }
  }

  /** The slot that calloc and memset leave behind: zero key, zero value, zero tag. */
  function Blank<K, V>(zeroKey: K, zeroValue: V): Bucket<K, V>
  {
    Bucket(zeroKey, zeroValue, 0)
  }

  function Blanks<K, V>(n: nat, zeroKey: K, zeroValue: V): (s: seq<Bucket<K, V>>)
    ensures |s| == n && forall i :: 0 <= i < n ==> s[i] == Blank(zeroKey, zeroValue)
  {
    seq(n, _ => Blank(zeroKey, zeroValue))
  }

  /** The contribution of one slot to the table's contents. */
  ghost function Tally<K, V>(b: Bucket<K, V>): multiset<Bucket<K, V>>
  {
    if b.Live() then multiset{b} else multiset{}
  }

  /** The entries held by the live slots of `s`. */
  ghost function LiveBag<K, V>(s: seq<Bucket<K, V>>): multiset<Bucket<K, V>>
    decreases |s|
  {
    if s == [] then multiset{} else LiveBag(s[..|s| - 1]) + Tally(s[|s| - 1])
  }

  /** The number of slots in use: what `num_values` must always equal. */
  ghost function Occupied<K, V>(s: seq<Bucket<K, V>>): nat
  {
    |LiveBag(s)|
  }

  ghost predicate AllLive<K, V>(s: seq<Bucket<K, V>>)
  {
    forall i :: 0 <= i < |s| ==> s[i].Live()
  }

  lemma {:induction false} LiveBagAppend<K, V>(a: seq<Bucket<K, V>>, b: seq<Bucket<K, V>>)
    ensures LiveBag(a + b) == LiveBag(a) + LiveBag(b)
    decreases |b|
  {
    if b != [] {
      var b' := b[..|b| - 1];
      assert (a + b)[..|a + b| - 1] == a + b';
      LiveBagAppend(a, b');
    } else {
      assert a + b == a;
    }
  }

  lemma LiveBagSingle<K, V>(b: Bucket<K, V>)
    ensures LiveBag([b]) == Tally(b)
  {
    assert [b][..0] == [];
  }

  /** Overwriting one slot removes that slot's entry (if any) and adds the new one (if live). */
  lemma LiveBagUpdate<K, V>(s: seq<Bucket<K, V>>, i: nat, b: Bucket<K, V>)
    requires i < |s|
    ensures LiveBag(s[i := b]) == LiveBag(s) - Tally(s[i]) + Tally(b)
    ensures Occupied(s[i := b]) == Occupied(s) - |Tally(s[i])| + |Tally(b)|
  {
    var s' := s[i := b];
    assert s == s[..i] + [s[i]] + s[i + 1..];
    assert s' == s[..i] + [b] + s[i + 1..];
    LiveBagAppend(s[..i] + [s[i]], s[i + 1..]);
    LiveBagAppend(s[..i], [s[i]]);
    LiveBagAppend(s[..i] + [b], s[i + 1..]);
    LiveBagAppend(s[..i], [b]);
    LiveBagSingle(s[i]);
    LiveBagSingle(b);
  }

  /** Filling an empty slot with a live bucket adds exactly that entry. */
  lemma FillAdds<K, V>(s: seq<Bucket<K, V>>, i: nat, b: Bucket<K, V>)
    requires i < |s| && !s[i].Live() && b.Live()
    ensures LiveBag(s[i := b]) == LiveBag(s) + multiset{b}
    ensures Occupied(s[i := b]) == Occupied(s) + 1
  {
    LiveBagUpdate(s, i, b);
  }

  /** The tally of the first k slots grows by the tally of slot k. */
  lemma LiveBagPrefix<K, V>(s: seq<Bucket<K, V>>, k: nat)
    requires k < |s|
    ensures LiveBag(s[..k + 1]) == LiveBag(s[..k]) + Tally(s[k])
  {
    assert s[..k + 1][..k] == s[..k];
  }

  /** No more slots are in use than there are slots, and all of them exactly when every tag is set. */
  lemma {:induction false} OccupiedBound<K, V>(s: seq<Bucket<K, V>>)
    ensures Occupied(s) <= |s|
    ensures Occupied(s) == |s| <==> AllLive(s)
    decreases |s|
  {
    if s != [] {
      var s' := s[..|s| - 1];
      OccupiedBound(s');
      if AllLive(s) {
        assert AllLive(s') by {
          forall i | 0 <= i < |s'| ensures s'[i].Live() { assert s'[i] == s[i]; }
        }
      }
      if Occupied(s) == |s| {
        forall i | 0 <= i < |s| ensures s[i].Live() {
          if i < |s'| { assert s'[i] == s[i]; }
        }
      }
    }
  }

  /** An empty slot exists exactly when fewer slots are in use than there are slots. */
  lemma RoomIffEmptySlot<K, V>(s: seq<Bucket<K, V>>)
    ensures Occupied(s) < |s| <==> exists i :: 0 <= i < |s| && !s[i].Live()
  {
    OccupiedBound(s);
  }

  /** A live slot contributes its entry to the contents. */
  lemma LiveInBag<K, V>(s: seq<Bucket<K, V>>, i: nat)
    requires i < |s| && s[i].Live()
    ensures s[i] in LiveBag(s)
  {
    LiveBagUpdate(s, i, s[i]);
    assert s[i := s[i]] == s;
  }

  /** Every entry of the contents sits in some live slot. */
  lemma {:induction false} BagInLive<K, V>(s: seq<Bucket<K, V>>, b: Bucket<K, V>)
    requires b in LiveBag(s)
    ensures exists i :: 0 <= i < |s| && s[i] == b && s[i].Live()
    decreases |s|
  {
    var s' := s[..|s| - 1];
    if b in LiveBag(s') {
      BagInLive(s', b);
      var i :| 0 <= i < |s'| && s'[i] == b && s'[i].Live();
      assert s[i] == b;
    } else {
      assert s[|s| - 1] == b && b.Live();
    }
  }

  /** When only tags are cleared, the contents become empty. */
  function ClearTags<K, V>(s: seq<Bucket<K, V>>): (r: seq<Bucket<K, V>>)
    ensures |r| == |s|
    ensures forall i :: 0 <= i < |s| ==> r[i] == s[i].(hash := 0)
  {
    seq(|s|, i requires 0 <= i < |s| => s[i].(hash := 0))
  }

  lemma {:induction false} ClearTagsEmpties<K, V>(s: seq<Bucket<K, V>>)
    ensures LiveBag(ClearTags(s)) == multiset{}
    ensures Occupied(ClearTags(s)) == 0
    decreases |s|
  {
    if s != [] {
      var s' := s[..|s| - 1];
      assert ClearTags(s)[..|s| - 1] == ClearTags(s');
      ClearTagsEmpties(s');
    }
  }

  lemma {:induction false} BlanksEmpty<K, V>(n: nat, zeroKey: K, zeroValue: V)
    ensures LiveBag(Blanks(n, zeroKey, zeroValue)) == multiset{}
    decreases n
  {
    if n > 0 {
      assert Blanks(n, zeroKey, zeroValue)[..n - 1] == Blanks(n - 1, zeroKey, zeroValue);
      BlanksEmpty(n - 1, zeroKey, zeroValue);
    }
  }

  /** The keys of the live slots in increasing slot order: what free_key is called on. */
  function LiveKeys<K, V>(s: seq<Bucket<K, V>>): (r: seq<K>)
    ensures forall k :: k in r ==> exists i :: 0 <= i < |s| && s[i].Live() && s[i].key == k
    decreases |s|
  {
    if s == [] then []
    else LiveKeys(s[..|s| - 1]) + (if s[|s| - 1].Live() then [s[|s| - 1].key] else [])
  }

  /** free_key is called once per slot in use. */
  lemma {:induction false} LiveKeysCount<K, V>(s: seq<Bucket<K, V>>)
    ensures |LiveKeys(s)| == Occupied(s)
    decreases |s|
  {
    if s != [] {
      LiveKeysCount(s[..|s| - 1]);
    }
  }

  /** The (key, value) pairs of the live slots in increasing slot order: what iteration yields. */
  function Entries<K, V>(s: seq<Bucket<K, V>>): (r: seq<(K, V)>)
    ensures forall p :: p in r ==> exists i :: 0 <= i < |s| && s[i].Live() && (s[i].key, s[i].value) == p
    decreases |s|
  {
    if s == [] then []
    else Entries(s[..|s| - 1]) + (if s[|s| - 1].Live() then [(s[|s| - 1].key, s[|s| - 1].value)] else [])
  }

  /** Iteration yields one pair per slot in use. */
  lemma {:induction false} EntriesCount<K, V>(s: seq<Bucket<K, V>>)
    ensures |Entries(s)| == Occupied(s)
    decreases |s|
  {
    if s != [] {
      EntriesCount(s[..|s| - 1]);
    }
  }

  /** A prefix of the array holds no more live slots than the whole. */
  lemma OccupiedPrefix<K, V>(s: seq<Bucket<K, V>>, m: nat)
    requires m <= |s|
    ensures Occupied(s[..m]) <= Occupied(s)
  {
    assert s == s[..m] + s[m..];
    LiveBagAppend(s[..m], s[m..]);
  }

  /** The pairs of the first `m` slots are the first pairs of the whole array. */
  lemma {:induction false} EntriesPrefix<K, V>(s: seq<Bucket<K, V>>, m: nat)
    requires m <= |s|
    ensures Occupied(s[..m]) <= |Entries(s)|
    ensures Entries(s[..m]) == Entries(s)[..Occupied(s[..m])]
    decreases |s|
  {
    EntriesCount(s);
    OccupiedPrefix(s, m);
    if m == |s| {
      assert s[..m] == s;
    } else {
      var s' := s[..|s| - 1];
      assert s[..m] == s'[..m];
      EntriesPrefix(s', m);
      EntriesCount(s');
    }
  }

  /** A slot in use holds the pair numbered by the count of slots in use before it. */
  lemma EntryAt<K, V>(s: seq<Bucket<K, V>>, k: nat)
    requires k < |s| && s[k].Live()
    ensures Occupied(s[..k + 1]) == Occupied(s[..k]) + 1
    ensures Occupied(s[..k]) < |Entries(s)| && Entries(s)[Occupied(s[..k])] == (s[k].key, s[k].value)
  {
    LiveBagPrefix(s, k);
    assert s[..k + 1][..k] == s[..k];
    EntriesCount(s[..k]);
    EntriesPrefix(s, k + 1);
  }
}
