# Mun Hashtable in Dafny

A model of Mun Hashtable, a C library for one open-addressing hash table with
linear probing, together with proofs about that model.

- **Buckets.** The table is an array of buckets. Each bucket holds a key, a
  value and a hash tag, and tag 0 marks an empty bucket.
- **Counters.** Two counters go with the array: `num_buckets` (the capacity)
  and `num_values` (the number of buckets in use).
- **Engine.** The probing engine (`hashtable.c`) is modelled imperatively as
  the class `Engine.HashTable`, over a Dafny `array`. Its operations are
  init, insert (with growth and rehash), find, erase (with compaction),
  clear, destroy and the iteration step. Each method is proved to leave
  exactly the state that a value-level function of the old state describes.
  The properties are proved about those functions.
- **Facade.** The typed facade that `hashtable_define_ext` generates
  (`hashtable.h`) is the module `Facade`. Its wrappers hash the key with one
  injected `compute_hash` and delegate to the engine.

Files:

| file | module | contents |
|---|---|---|
| `fnv.dfy` | `Fnv` | FNV-1a `hashtable_hash` and `hashtable_str_hash` (32 and 64 bit), the default compare and copy |
| `slots.dfy` | `Slots` | the bucket datatype, the contents of an array (multiset of live buckets), slot counting, the pairs iteration yields, the keys `free_key` receives |
| `probing.dfy` | `Probing` | the walk from `hash % n`, find (`Lookup`), and the layout that find relies on (`WellFormed`) |
| `growth.dfy` | `Growth` | the load check, the new capacity, rehash, and the whole insert as a function with its error codes |
| `erase.dfy` | `Erasure` | erase as written: the search, the compaction walk, the result, and the one-cluster theorem |
| `repair.dfy` | `Repair` | a corrected erase (backward shift with Knuth's algorithm R test) and its properties |
| `erase_cases.dfy` | `EraseCases` | concrete tables on which the erase as written misbehaves |
| `engine.dfy` | `Engine` | the class `HashTable` and the loops of `hashtable.c` |
| `facade.dfy` | `Facade` | the generated `TABLE_*` wrappers, `hashtable_exists`, and the `hashtable_for_each_pair` loop |

External effects become parameters:

- **Key comparison.** `compare_keys(a, b) == 0` is a function `eq: (K, K) -> bool`.
- **Hashing.** `compute_hash` is `hashOf: K -> nat`.
- **Copy and allocation.** Whether `copy_key` and `calloc` succeed are the
  boolean inputs `copyOk` and `allocOk`.
- **free_key.** The keys handed to `free_key` are returned, in call order.
- **Zeroed memory.** The key and value that zeroed memory stands for are
  fixed per table (`zeroKey`, `zeroValue`).

Three behaviours of the code shape the model:

- **Growth timing.** The load check (hashtable.c:151-152) runs before
  placing. At capacity 8 with 5 entries the load is `500/8 = 62 < 70`, so
  the 6th entry goes in at 75% load and growth happens on the 7th insert
  (`Growth.GrowthAtEight`). After `init(1)` to `init(3)` the table can become
  completely full.
- **Erasing an absent key.** The header documents erase as erasing a
  key-value pair (hashtable.h:274-275). The code's search
  (hashtable.c:250-256) ignores tags, so an empty bucket whose leftover key
  bytes compare equal is "erased" too (finding C below).
- **Compaction.** The test at hashtable.c:273 moves every entry that is away
  from its home bucket, which can put an entry in front of its home
  (finding A). The loop ends only at an empty bucket, which a full table may
  never offer (finding B).

## Model

| member | source | states |
|---|---|---|
| Fnv.Hash32 | hashtable.c:33-39 | the 32-bit hash of a buffer is the FNV-1a fold from offset basis 0x811C9DC5 with prime 0x01000193; the empty buffer hashes to the offset basis |
| Fnv.Hash64 | hashtable.c:40-46 | the 64-bit hash is the FNV-1a fold from 0xcbf29ce484222325 with prime 0x100000001b3; the empty buffer hashes to the offset basis |
| Fnv.Fnv32 | hashtable.c:33-38 | the 32-bit FNV-1a hash of a buffer, defined as the fold from the offset basis; its properties are stated by Fnv.Hash32 and Fnv.Fold32Snoc |
| Fnv.Fnv64 | hashtable.c:40-45 | the 64-bit FNV-1a hash, defined likewise; its properties are stated by Fnv.Hash64 and Fnv.Fold64Snoc |
| Fnv.Fold32Snoc | hashtable.c:35-38 | one more byte applies exactly one more round `(h xor b) * prime` mod 2^32 |
| Fnv.Fold64Snoc | hashtable.c:42-45 | the same for 64 bits, mod 2^64 |
| Fnv.CString | hashtable.c:56 | the string hashed is the bytes before the first NUL: it has no NUL, it is a prefix, and the NUL follows it |
| Fnv.StrFold32 | hashtable.c:55-58 | the loop of the 32-bit string hash: it stops at the first NUL and folds each earlier byte read as a signed `char`; its properties are stated by Fnv.StrHash32MatchesHash |
| Fnv.StrFold64 | hashtable.c:62-65 | the loop of the 64-bit string hash, likewise; see Fnv.StrHash64MatchesHash and Fnv.StrHash64DiffersOnHighByte |
| Fnv.StrHash32 | hashtable.c:54-60 | the 32-bit string hash stops at the NUL and folds each byte after reading it as a signed `char` |
| Fnv.StrHash64 | hashtable.c:61-67 | the 64-bit string hash, likewise |
| Fnv.StrHash32MatchesHash | hashtable.c:54-60 | for strings whose bytes are all below 0x80, the 32-bit string hash equals the buffer hash of the bytes before the NUL |
| Fnv.StrHash64MatchesHash | hashtable.c:61-67 | the same for 64 bits |
| Fnv.StrHash64DiffersOnHighByte | hashtable.c:64 | the string "\x80" hashes differently from the buffer holding the byte 0x80 |
| Fnv.UnsignedStrHashMatchesHash | hashtable.c:40-46 | with the byte read as `unsigned char`, the string hash equals the buffer hash for every string |
| Fnv.CompareBytes | hashtable.c:79-80 | the default comparison is memcmp; C promises only its sign, and the model picks the difference of the first differing bytes, so the result lies between -255 and 255 |
| Fnv.CompareBytesZeroIff | hashtable.c:79-80 | for keys of one size, the default comparison reports equality exactly when the bytes are equal |
| Fnv.CompareBytesSwap | hashtable.c:79-80 | swapping the keys negates the modelled memcmp (C promises only that the sign flips), so default key equality is symmetric |
| Fnv.CopyKey | hashtable.c:73-77 | the default copy always succeeds (result 0) and copies the key exactly |
| Slots.Blanks | hashtable.c:84 | calloc yields `n` buckets, all zero |
| Slots.BlanksEmpty | hashtable.c:84-92 | a freshly allocated array holds no entries |
| Slots.OccupiedBound | hashtable.c:151-152 | no more buckets are in use than exist, and all are in use exactly when every tag is set |
| Slots.RoomIffEmptySlot | hashtable.c:190-215 | an empty bucket exists exactly when fewer buckets are in use than exist |
| Slots.LiveBagUpdate | hashtable.c:201-205 | overwriting one bucket removes its entry, if any, and adds the new one, if it is live; the count of live buckets follows |
| Slots.FillAdds | hashtable.c:201-205 | filling an empty bucket adds exactly that entry and one live bucket |
| Slots.LiveInBag | hashtable.c:166-185 | a live bucket belongs to the table's contents |
| Slots.BagInLive | hashtable.c:166-185 | every entry of the contents sits in some live bucket |
| Slots.ClearTags | hashtable.c:102-106 | clearing keeps the array's length and zeroes exactly the tags, leaving keys and values |
| Slots.ClearTagsEmpties | hashtable.c:98-119 | after the tags are zeroed the table holds no entries |
| Slots.LiveKeysCount | hashtable.c:108-115 | free_key is called once per bucket in use |
| Slots.LiveKeys | hashtable.c:108-115 | every key handed to free_key is the key of a live bucket |
| Slots.EntriesCount | hashtable.c:285-307 | iteration yields one pair per bucket in use |
| Slots.Entries | hashtable.c:285-307 | every pair iteration yields is the key and value of a live bucket |
| Slots.EntriesPrefix | hashtable.c:295-306 | the pairs of the first `m` buckets are the first pairs of the whole array |
| Slots.EntryAt | hashtable.c:299-305 | a live bucket holds the pair whose number is the count of live buckets before it |
| Slots.OccupiedPrefix | hashtable.c:293-306 | a prefix of the array has no more live buckets than the whole |
| Probing.NextAt | hashtable.c:234 | the step `(i + 1) % n` is one more step of the walk from the home bucket |
| Probing.LapEnds | hashtable.c:234-236 | the step returns to the home bucket exactly after a full lap |
| Probing.AtDistinct | hashtable.c:226-237 | within one lap the walk visits each bucket once |
| Probing.ProbeFrom | hashtable.c:226-237 | the walk stops at an empty bucket or at a live bucket whose key compares equal, and at a bucket of the array |
| Probing.Probe | hashtable.c:226-237 | the walk from `hash % n` stops at an empty bucket or at a live bucket whose key compares equal |
| Probing.Lookup | hashtable.c:218-239 | find on capacity 0 finds nothing; a found bucket is live, in range and compares equal to the key |
| Probing.ProbeStops | hashtable.c:226-237 | where the walk stops: every bucket before the stop is live with an unequal key, and the stop is empty or equal |
| Probing.ProbeSkips | hashtable.c:226-237 | buckets that the walk passes over do not change where it stops |
| Probing.ProbeReaches | hashtable.c:226-237 | a bucket reached over passed buckets is where the walk stops |
| Probing.ProbeWrapsOnlyWhenFull | hashtable.c:235-236 | a walk that laps the array means every bucket is in use |
| Probing.ProbeStopsWithRoom | hashtable.c:212-214 | with an empty bucket the walk never laps, so the wrap-around assert cannot fire |
| Probing.LookupFindsEntry | hashtable.c:218-239 | in a well-laid-out array, find with an entry's tag reaches that entry's bucket |
| Probing.LookupComplete | hashtable.c:218-239 | in a well-laid-out array with an equivalence as comparison, find with the key's hash reaches every live bucket whose key compares equal, so find succeeds exactly when such a bucket exists |
| Probing.ProbeKeptByFill | hashtable.c:201-205 | filling an empty bucket keeps every walk that stopped at a live bucket |
| Probing.LookupKeptByFill | hashtable.c:201-205 | filling an empty bucket keeps every successful find |
| Probing.FillThenFind | hashtable.c:190-206 | after the placement walk fills the bucket it stopped at, find for that key stops there |
| Probing.FillKeepsClosed | hashtable.c:190-206 | filling the first empty bucket on an entry's walk keeps every entry reachable from its home bucket |
| Probing.PlacedKeyUnique | hashtable.c:207-211 | a key placed where find failed does not compare equal to any other live key |
| Probing.FillWellFormed | hashtable.c:190-211 | the placement walk keeps the array well laid out |
| Growth.NeedsGrowth | hashtable.c:151-152 | the truncating division never changes the verdict: the check fires exactly when `100 * count >= 70 * capacity`, capacity 0 included |
| Growth.LoadDivision | hashtable.c:152 | the truncated quotient `100 * num_values / num_buckets` reaches 70 exactly when `100 * num_values` reaches `70 * num_buckets` |
| Growth.GrownCapacity | hashtable.c:154-159 | the new capacity is always larger than the old one |
| Growth.GrownCapacityDoubles | hashtable.c:154-159 | the new capacity is 8 from 0 and otherwise twice the old one |
| Growth.QuietLoadLeavesRoom | hashtable.c:151-152 | while the load check is quiet, fewer buckets are in use than exist |
| Growth.GrowthAtEight | hashtable.c:151-152 | at capacity 8, 5 entries do not trigger growth and 6 do; capacities 1 and 3 can fill up completely |
| Growth.FreeFrom | hashtable.c:171-183 | the rehash walk finds an empty bucket of the new array, on the walk from the entry's home |
| Growth.FreeFromStops | hashtable.c:171-183 | the buckets before the one found are live |
| Growth.FreeFromFinds | hashtable.c:171-183 | a new array with an empty bucket always yields one, so the assert at line 182 cannot fire |
| Growth.RehashPrefixLength | hashtable.c:166-185 | rehashing keeps the new array's length |
| Growth.Rehash | hashtable.c:166-185 | the rehash into `n` fresh buckets has exactly `n` buckets |
| Growth.ReinsertAdds | hashtable.c:171-183 | re-placing one live bucket adds exactly its entry |
| Growth.RehashPrefixKeepsEntries | hashtable.c:166-185 | after the first `k` old buckets, the new array holds exactly their entries |
| Growth.RehashStep | hashtable.c:166-185 | one round of the rehash loop extends the previous contents by that bucket's entry |
| Growth.RehashKeepsEntries | hashtable.c:166-185 | rehash keeps the multiset of entries and the count |
| Growth.RehashPrefixWellFormed | hashtable.c:166-185 | rehash keeps every entry reachable, the keys unique and the tags equal to the hashes |
| Growth.ReinsertWellFormed | hashtable.c:171-183 | one re-placement keeps those facts |
| Growth.RehashWellFormed | hashtable.c:166-185 | the grown array is well laid out, so every key findable before growth is still found |
| Growth.Prepared | hashtable.c:150-187 | the array the placement runs on is non-empty, and has the grown capacity exactly when the load check fires |
| Growth.PreparedHasRoom | hashtable.c:150-188 | after the growth step an empty bucket exists and the entries are those of before |
| Growth.Place | hashtable.c:190-215 | the placement walk returns error 0, 2 or 3 and keeps the length; a failure leaves buckets and count as they were |
| Growth.InsertResult | hashtable.c:136-216 | insert returns one of the codes 0 to 4, error 1 exactly for hash 0, and success adds one to the count |
| Growth.PlaceErrors | hashtable.c:190-215 | on a table with room: error 2 exactly when find finds the key, error 3 exactly when it does not and the copy fails, 0 otherwise; the walk never laps |
| Growth.PlaceOutcomes | hashtable.c:190-215 | a failed placement changes no bucket and no count; a successful one adds exactly the new entry and one to the count |
| Growth.InsertRejects | hashtable.c:145-165 | error 1 exactly for hash 0 and error 4 exactly for a failed allocation while growing; both leave buckets and count as they were |
| Growth.InsertOutcomes | hashtable.c:136-216 | after any insert the count equals the live buckets; errors 2 and 3 keep the entries though the table may have grown; success adds exactly the new entry |
| Growth.PlaceThenFind | hashtable.c:190-239 | right after a successful placement, find returns the bucket holding the new key, value and tag |
| Growth.InsertThenFind | hashtable.c:136-239 | the same round trip for the whole insert, growth included |
| Growth.InsertKeepsFound | hashtable.c:190-215 | an insert that does not grow keeps every successful find where it was |
| Growth.PlaceWellFormed | hashtable.c:190-215 | placement keeps the array well laid out |
| Growth.InsertWellFormed | hashtable.c:136-216 | insert keeps the array well laid out, so every inserted key stays findable across inserts and growth |
| Erasure.Next | hashtable.c:278 | the step `(j + 1) % n` stays in the array |
| Erasure.EraseSearch | hashtable.c:250-256 | a bucket the erase search stops at is in range and its key compares equal |
| Erasure.EraseSearchFrom | hashtable.c:250-256 | the search of erase stops only at a bucket whose key compares equal, live or not |
| Erasure.EraseSearchNone | hashtable.c:251-256 | the search comes back empty exactly when no bucket's key compares equal (the code then loops forever) |
| Erasure.EraseSearchFollowsProbe | hashtable.c:250-256 | where find's walk stops at a live equal key, the erase search stops at the same bucket |
| Erasure.LookupGuidesErase | hashtable.c:250-256 | a key that find finds is found by the erase search in the same bucket |
| Erasure.CompactStep | hashtable.c:263-279 | one round of the compaction loop advances `j`, touches only `previous_bucket` and bucket `j`, and leaves a moved-from bucket empty |
| Erasure.Compact | hashtable.c:263-279 | the compaction loop, given enough rounds to meet an empty bucket, keeps the array's length |
| Erasure.SpareEnds | hashtable.c:263-279 | an empty bucket other than the one vacated last ends the walk, at the latest when the walk reaches it |
| Erasure.CompactEndsByTags | hashtable.c:263-279 | whether the walk ends depends on the tags alone, not on key and value bytes |
| Erasure.MoveKeepsEntries | hashtable.c:274-276 | one move relocates an entry without losing or duplicating it |
| Erasure.CompactKeepsEntries | hashtable.c:263-279 | compaction keeps the multiset of entries and the number of live buckets |
| Erasure.Vacated | hashtable.c:259 | the tags after the erased bucket is zeroed: that bucket empty, the others unchanged |
| Erasure.SpareMeansEnds | hashtable.c:259-279 | an empty bucket besides the erased one makes the compaction after erasing it end |
| Erasure.SmallTableCompactionEnds | hashtable.c:259-279 | on one or two buckets the compaction ends within two rounds, even on a full table |
| Erasure.Zeroed | hashtable.c:259 | the erased bucket is zeroed whole and the others stay, so the walk ends within the same rounds as on the tags |
| Erasure.EraseResult | hashtable.c:241-283 | erase keeps the length, frees at most one key, and lowers a non-zero count by one; on an empty table it changes nothing |
| Erasure.EraseRemovesEntry | hashtable.c:241-283 | erasing a key whose bucket the search reaches removes exactly that entry, frees exactly its key when free_key is given, and decrements the count, which still equals the live buckets |
| Erasure.EraseEmptyIsNoOp | hashtable.c:248-249 | on an empty table erase returns at once and changes nothing |
| Erasure.EraseReturnsForFoundKey | hashtable.c:250-279 | on a table with an empty bucket or with at most two buckets, a key that find finds is erased from find's bucket and the code returns |
| Erasure.EraseForgets | hashtable.c:241-283 | with unique keys, after an erase that returns, the erased key is no longer found |
| Erasure.ClusterShiftStep | hashtable.c:264-278 | inside such a run, one round of the walk moves the next entry back into the slot vacated last and clears the tag of its old slot |
| Erasure.ClusterCompaction | hashtable.c:263-279 | in a run of buckets sharing one home, every entry after the erased one moves back by one bucket |
| Erasure.FoundAfterShift | hashtable.c:226-237 | a bucket reached over live unequal buckets is where find stops |
| Erasure.ClusterEraseStarts | hashtable.c:259 | zeroing the erased bucket starts the walk in its invariant |
| Erasure.ClusterOtherFound | hashtable.c:241-283 | after the walk, each other key of the cluster is found one bucket earlier if it came after the erased one, or in place if before |
| Erasure.ClusterErasedGone | hashtable.c:241-283 | after the walk the erased key is no longer found |
| Erasure.ClusterEraseKeepsOthers | hashtable.c:241-283 | erasing one key of a cluster whose keys share a home bucket returns, and leaves every other key of the cluster findable and the erased one unfindable |
| Repair.MoveLowersDisp | hashtable.c:273-276 | moving an entry back over its home to the gap lowers the total displacement, so the corrected walk terminates |
| Repair.DispUpdate | hashtable.c:274-275 | the total displacement changes only by the two buckets a move touches |
| Repair.ShiftBack | hashtable.c:263-279 | the corrected compaction walk ends on every table, a full one included, and keeps the length |
| Repair.ShiftStarts | hashtable.c:259 | zeroing one bucket of a closed layout starts the corrected walk in its invariant |
| Repair.ShiftSkips | hashtable.c:273 | an entry whose home lies between the gap and itself stays |
| Repair.MoveCrosses | hashtable.c:273 | an entry whose home lies outside (gap, j] has the gap on its walk |
| Repair.PathAfterMove | hashtable.c:274-276 | after a move, the walk of every live entry is live except for the new gap |
| Repair.ShiftMoves | hashtable.c:274-276 | a move restarts the walk from the moved-from bucket with its invariant |
| Repair.ShiftStops | hashtable.c:267-268 | where the corrected walk stops, every entry is reachable from its home |
| Repair.ShiftBackCloses | hashtable.c:263-279 | the corrected walk always leaves every entry reachable from its home |
| Repair.MoveKeepsKeys | hashtable.c:274-276 | a move keeps keys unique, tags equal to hashes, and an absent key absent |
| Repair.ShiftBackKeepsEntries | hashtable.c:263-279 | the corrected walk keeps the multiset of entries |
| Repair.ShiftBackKeepsKeys | hashtable.c:263-279 | the corrected walk keeps keys unique, tags equal to hashes, and an absent key absent |
| Repair.MoveFreeKeys | hashtable.c:259 | zeroing a bucket keeps keys unique and tags matching, and makes its key absent |
| Repair.RepairedErase | hashtable.c:241-283 | the corrected erase keeps the array's length |
| Repair.RepairedEraseOutcomes | hashtable.c:241-283 | with the corrected erase, a key that find does not find changes nothing; a found key loses exactly its entry, frees exactly its key, and the count drops by one and still equals the live buckets |
| Repair.RepairedEraseWellFormed | hashtable.c:241-283 | the corrected erase keeps the array well laid out |
| Repair.RepairedEraseForgets | hashtable.c:241-283 | after the corrected erase the erased key is no longer found |
| Repair.RepairedEraseKeepsOthers | hashtable.c:241-283 | after the corrected erase every other entry is still found, in the bucket that now holds it |
| EraseCases.LostKeyCompaction | hashtable.c:263-279 | on the capacity-8 table, compaction after erasing A leaves C in front of its home |
| EraseCases.LostKeyTableSound | hashtable.c:190-215 | that table is a layout inserts can produce: every entry is reachable from its home |
| EraseCases.LostKeyTableUnique | hashtable.c:207-211 | its keys are distinct |
| EraseCases.LostKeyFoundBefore | hashtable.c:218-239 | before the erase, find reaches C |
| EraseCases.EraseLosesKey | hashtable.c:273 | after the erase as written, C is still stored but find no longer reaches it |
| EraseCases.FullTableSound | hashtable.c:151-256 | a capacity-3 table filled by three inserts is a sound layout and the search finds W |
| EraseCases.FullTableCycle | hashtable.c:263-279 | on that full table the walk reaches three states that lead into one another and see only live buckets, so from them it ends within no number of rounds |
| EraseCases.FullTableEraseNeverReturns | hashtable.c:241-283 | erasing the key of bucket 0 from that table never returns: the search finds it, and the compaction never meets an empty bucket |
| EraseCases.EraseAbsentKeyMiscounts | hashtable.c:250-280 | erasing an absent key whose zero bytes match an empty bucket's returns with the count lowered while every entry stays stored and found |
| Engine.HashTable.constructor | hashtable.h:586-593 | a zeroed table struct: no buckets, no values |
| Engine.HashTable.Init | hashtable.c:82-96 | success gives a fresh zeroed array of `n` buckets with the counters `n` and 0; allocation failure for `n > 0` is error 1 with a null array and the counters unwritten |
| Engine.HashTable.NumBuckets | hashtable.h:89-90 | the capacity is the array's length |
| Engine.HashTable.NumValues | hashtable.h:92-93 | the count is the number of buckets in use, at most the capacity |
| Engine.HashTable.Find | hashtable.c:218-239 | the loop returns the bucket where find's walk stops on an equal live key, or none |
| Engine.HashTable.Resize | hashtable.c:166-187 | the loop leaves a fresh array holding the rehash of the old one, with the new capacity and the count unchanged |
| Engine.HashTable.Grow | hashtable.c:150-188 | growth happens exactly when the load check fires; failure only on a failed allocation, leaving the table as it was |
| Engine.HashTable.PlaceEntry | hashtable.c:190-215 | the placement walk leaves exactly the outcome of the placement function |
| Engine.HashTable.Insert | hashtable.c:136-216 | the error code, the buckets and the count are exactly those of the insert function; the array is the old one or a fresh one |
| Engine.HashTable.Erase | hashtable.c:241-283 | erase as written leaves exactly the buckets, count and freed key of the erase function, in the same array |
| Engine.HashTable.Clear | hashtable.c:98-119 | every tag zeroed, keys and values left, capacity kept, count 0, free_key called on exactly the live keys in bucket order |
| Engine.HashTable.Destroy | hashtable.c:121-134 | free_key on the live keys only when given and the count is non-zero; then no buckets, capacity 0, count 0 |
| Engine.HashTable.NextPair | hashtable.c:285-307 | after `num_values` pairs the step yields nothing and leaves the cursors; otherwise it yields pair number `j` in bucket order and moves `i` past its bucket |
| Engine.FirstFree | hashtable.c:171-183 | the loop stops at the first empty bucket on the walk |
| Engine.RehashInto | hashtable.c:166-185 | the loop leaves the new array the rehash function describes |
| Engine.ReinsertInto | hashtable.c:169-183 | one round of the rehash loop leaves the array the rehash function describes |
| Engine.PlacementSlot | hashtable.c:190-215 | the loop stops where the walk stops, never after a lap |
| Engine.EraseSlot | hashtable.c:250-256 | the loop stops at the first bucket whose key compares equal |
| Engine.CompactFrom | hashtable.c:263-279 | the loop, which ends within the rounds the compaction function is given, leaves the array that function describes |
| Engine.EraseFound | hashtable.c:250-279 | search, free, zeroing and compaction leave the erase function's array and freed key |
| Engine.ClearSlots | hashtable.c:100-117 | both loops zero every tag; the second one frees exactly the live keys in order |
| Engine.KeysInUse | hashtable.c:125-131 | the free_key loop visits exactly the live keys in bucket order, one per bucket in use |
| Engine.NextLive | hashtable.c:295-306 | the scan finds the next live bucket, which holds pair number `j` |
| Facade.Defaults | hashtable.h:442-444 | hashtable_define's behaviour: the 64-bit FNV-1a hash of the key bytes, memcmp equality, no free_key; its properties are stated by Facade.DefaultsCompareBytes |
| Facade.DefaultsCompareBytes | hashtable.h:442-444 | with the default comparison and keys of one size, equality is byte equality, symmetric, and agrees with the default hash |
| Facade.TableInit | hashtable.h:490-496 | TABLE_init returns the engine's error code: 0 with a zeroed array of the requested size, 1 on failed allocation |
| Facade.TableEinit | hashtable.h:498-500 | TABLE_einit panics (through hashtable_einit, hashtable.h:650-659) exactly when init reports an error |
| Facade.TableInsert | hashtable.h:506-514 | TABLE_insert hashes the key with `compute_hash` and returns the engine's code; a key it accepts is then found with its value |
| Facade.TableEinsert | hashtable.h:516-522 | TABLE_einsert panics (through hashtable_einsert, hashtable.h:661-676) exactly when insert reports any error, a duplicate included |
| Facade.TableErase | hashtable.h:524-529 | TABLE_erase erases under the same hash with the table's free_key |
| Facade.TableExists | hashtable.h:531-536 | 1 exactly when find succeeds, else 0; on a well-laid-out table with an equivalence as comparison, 1 exactly when some live key compares equal |
| Facade.TableFind | hashtable.h:538-544 | TABLE_find returns the value of the bucket where find stops, and nothing exactly when find fails; that value is stored with a live key that compares equal |
| Facade.InsertFindRoundTrip | hashtable.h:506-544 | a key TABLE_insert accepts is then found by TABLE_find with the value it was inserted with |
| Facade.TableClear | hashtable.h:546-549 | TABLE_clear empties every bucket, keeps the capacity, and frees one key per entry when free_key is given |
| Facade.TableDestroy | hashtable.h:502-504 | TABLE_destroy leaves an empty struct and frees one key per entry when free_key is given |
| Facade.ForEachPair | hashtable.h:382-393 | iteration from cursors (0, 0) yields the live pairs in bucket order, exactly `num_values` of them |

## Left out

- Engine.HashTable.Erase: requires that the code returns: the table is empty, or the search meets a key that compares equal and the compaction then meets an empty bucket within some number of rounds (`Erasure.EraseReturns`). Every table with an empty bucket besides the erased one qualifies, and so does every table of one or two buckets, full or not (`Erasure.EraseReturnsForFoundKey`). Runs that never return (findings B and C) are shown on values in `EraseCases`, not on the class. It also requires that the bucket the search stops at is live, which finding C shows the code does not ensure.
- Facade.TableErase: carries the same precondition as Engine.HashTable.Erase.
- Erasure.ClusterEraseKeepsOthers: proves "every other key is still found" only for one cluster whose keys share a home bucket. The general statement is false for the code as written (finding A).
- Facade.TableExists: the direction "a live equal key exists, so exists returns 1" needs an equivalence as comparison and a well-laid-out table. The code promises nothing for other comparisons.
- Engine.HashTable.Find: returns the bucket index, not a pointer to the value. Writes through the returned pointer are not modelled.
- Engine.HashTable.NextPair: requires cursors produced by the `hashtable_for_each_pair` loop. Cursors from elsewhere may make the C scan run past the array.
- Mutating the table during iteration (iterator invalidation) is not modelled. The code does not guard against it.
- `size_t` arithmetic: hashes, counters and capacities are unbounded naturals. The overflow of `100 * num_values` and `num_buckets * 200` (hashtable.c:152, 154-155) is not modelled. The FNV hashes themselves are exact 32- and 64-bit computations.
- The byte layout of buckets is replaced by a `Bucket` datatype: `bucket_size`, the key, value and hash offsets, `_hashtable_ptr_offset`, and memcpy/memset/memcmp on raw bytes.
- Stale key bytes that a memset leaves are modelled. Partial writes by a `copy_key` that fails are not: the bucket stays unchanged.
- `calloc` and `free` are not modelled. Allocation failure is an input flag, and freed memory is simply dropped.
- `hashtable_panic` and `abort` (hashtable.c:27-29, 309-310) are not modelled. The `e` wrappers return whether they would panic.
- The asserts at hashtable.c:182 and 213-214 are proved unreachable (Growth.FreeFromFinds, Probing.ProbeStopsWithRoom), not modelled as aborts.
- The untyped macros `hashtable_init`, `hashtable_insert(_ext)`, `hashtable_einsert(_ext)`, `hashtable_find(_ext)`, `hashtable_erase(_ext)`, `hashtable_clear` and `hashtable_destroy` have no members of their own. Each is one engine call, here a method of `Engine.HashTable`, with the default functions or the given ones.
- Facade.Defaults uses the 64-bit `hashtable_hash`. The 32-bit build differs only in its hash function (Fnv.Hash32).
- Fnv.UnsignedStrFold64: the corrected string hash is stated for the 64-bit build only.
- The example and benchmark programs (example/) are not part of this model.

## Findings

| source | as written | input that shows it | evidently intended | confidence | as-written member | corrected member |
|---|---|---|---|---|---|---|
| hashtable.c:273 | compaction moves every entry that is not in its home bucket, even to a bucket before its home | capacity 8: keys 1 and 2 with home 0 in buckets 0-1, keys 3 and 4 with home 2 in buckets 2-3; erase key 1: key 4 moves to bucket 1 and find for it stops at empty bucket 3 | move an entry only when the gap lies on its walk from home (Knuth's algorithm R), so every other key stays findable | high; not executed | EraseCases.EraseLosesKey | Repair.RepairedEraseKeepsOthers |
| hashtable.c:263-279 | the compaction loop ends only at an empty bucket | `init(3)`, then three inserts (load 2/3 = 66% passes the check) fill the table; erasing the key of bucket 0 makes the walk cycle with period three | the walk ends after at most one lap on every table | high; not executed | EraseCases.FullTableEraseNeverReturns | Repair.ShiftBack |
| hashtable.c:250-280 | the erase search ignores tags, so an empty bucket whose stale or zeroed key bytes compare equal is "erased" and the count drops | capacity 4 holding key 1 in bucket 1; erase key 0 with hash 7: bucket 3 is empty with zeroed key 0, the count goes to 0 while key 1 stays stored | the search stops at an empty bucket as find does, and erasing an absent key changes nothing | high; not executed | EraseCases.EraseAbsentKeyMiscounts | Repair.RepairedEraseOutcomes |
| hashtable.c:57, 64 | `hash ^= *c` reads the byte as plain `char`, which sign-extends bytes of 0x80 and above where `char` is signed | the string "\x80" with 64-bit hashing: the string hash differs from `hashtable_hash` of the same byte | read the byte as `unsigned char`, as `hashtable_hash` does, so both hashes agree | medium (depends on the signedness of `char`); not executed | Fnv.StrHash64DiffersOnHighByte | Fnv.UnsignedStrHashMatchesHash |

The class `Engine.HashTable` keeps the erase as written, so that it stays the
model of `hashtable.c`. `Repair.RepairedErase` is the corrected definition
that the three erase findings are proved against.
