# Extendible hash page table

This project models the extendible hash table that the buffer pool manager uses as its page table (`project1/src/include/hash/extendible_hash.h`). The table maps a page id to the location of the page in memory, or reports that the page is not buffered. The project then proves that the model behaves as a map and keeps the structure of the table intact.

The table has two parts:

- A **bucket** holds at most `BUCKET_MAX` (10) key/value pairs in a fixed array with a fill counter, plus its *local depth*.
- The **table** keeps a directory of 2^*global depth* slots. Slot `s` refers to the bucket that serves every key whose hash has `s` as its low *global depth* bits. Several slots may share one bucket.

Insertion works as follows:

- An insert into a full bucket splits that bucket on the next hash bit.
- If the bucket already uses every directory bit, the directory is doubled first.
- The insert then retries.
- The insert gives up only when the hash has no bits left. In that case the key is new and `BUCKET_MAX` keys already have exactly its hash.

Removal never merges buckets or shrinks the directory.

The model has five modules:

- `Bits` (`bits.dfy`) defines the low-order hash bits: `Low(x, d)` is x mod 2^d and `Bit(x, d)` is bit d. Hashes are 64 bits wide (`size_t`).
- `Entries` (`entries.dfy`) defines the map that the filled prefix of a bucket's array stands for. It also says how the in-place edits of a bucket change that map.
- `Buckets` (`bucket.dfy`) contains the class `Bucket`, with its fixed array of pairs, fill counter `index` and local depth `depth`.
- `DirectoryModel` (`layout.dfy`) describes the table as a value, `Layout`. The fields are the global depth, the directory, and for each bucket handle its local depth, the low-bit pattern it serves and its map. This module also defines:
  - the table invariant `Inv`, with the equivalent quantified form `Wf`;
  - the steps the table takes: `RemoveAt`, `PutAt`, `Doubled` and `Split`;
  - lemmas that each step keeps the invariant and changes the key/value map as intended.
- `ExtendibleHashing` (`extendible_hash.dfy`) contains the class `ExtendibleHash`. Its `directory` array holds bucket handles, and its `arena` of buckets is addressed by handle. It also has `depth` and `bNum`. The class keeps the ghost `layout` and the ghost map `Contents` in step with its real state. The primitive mutators `DropAt`, `StoreAt`, `Double`, `SplitBucket` and `Install` are each proved to move `layout` by one step of `DirectoryModel`. `SplitHome` is proved to take a split, after a doubling when one is needed. `Insert` composes these steps, and its contract is stated on `Contents`.

The hash function is a parameter `hasher: K -> nat` of the constructor. `HashKey` truncates it to 64 bits.

## Model

| member | source | states |
|---|---|---|
| Buckets.Bucket.constructor | project1/src/include/hash/extendible_hash.h:25 | a new bucket is well formed, empty, and has the given local depth |
| Buckets.Bucket.IsFull | project1/src/include/hash/extendible_hash.h:26 | true exactly when the bucket holds BUCKET_MAX distinct keys |
| Buckets.Bucket.GetLocalDepth | project1/src/include/hash/extendible_hash.h:30 | the bucket's local depth, the field that the table's invariant ties to the layout's local depth for its handle |
| Buckets.Bucket.Locate | project1/src/include/hash/extendible_hash.h:27 | the linear scan returns the slot that holds the key, or the fill count exactly when the key is absent |
| Buckets.Bucket.Find | project1/src/include/hash/extendible_hash.h:27 | found exactly when the key is in the bucket, with its value; when absent, the caller's value comes back unchanged |
| Buckets.Bucket.Remove | project1/src/include/hash/extendible_hash.h:28 | true exactly when the key was present; the map loses that key and nothing else; the bucket stays well formed |
| Buckets.Bucket.Insert | project1/src/include/hash/extendible_hash.h:29 | succeeds exactly when the bucket has room or already holds the key, and then binds the key to the value; otherwise nothing changes |
| Entries.MapOfSize | project1/src/include/hash/extendible_hash.h:33-35 | with distinct keys, the fill counter equals the number of keys in the bucket's map |
| Entries.MapOfAt | project1/src/include/hash/extendible_hash.h:27 | the pair in a filled slot is the binding of its key in the bucket's map |
| Entries.MapOfDomain | project1/src/include/hash/extendible_hash.h:27 | a key is in the bucket's map exactly when some filled slot carries it |
| Entries.MapOfEntries | project1/src/include/hash/extendible_hash.h:33-35 | a key/value binding is in the map exactly when that pair fills a slot |
| Entries.MapOfAppend | project1/src/include/hash/extendible_hash.h:29 | filling the next slot with a pair binds its key to its value in the map |
| Entries.MapOfOverwrite | project1/src/include/hash/extendible_hash.h:29 | overwriting the value in a slot rebinds that key and keeps the keys distinct |
| Entries.RemoveEntries | project1/src/include/hash/extendible_hash.h:28 | moving the last pair into the removed pair's slot keeps exactly the other pairs |
| Entries.MapOfRemove | project1/src/include/hash/extendible_hash.h:28 | moving the last pair into the removed pair's slot removes exactly that key from the map and keeps the keys distinct |
| Bits.LowIsMod | project1/src/include/hash/extendible_hash.h:45 | the low d bits of a hash are the hash modulo 2^d, the slot-selection rule |
| Bits.LowSucc | project1/src/include/hash/extendible_hash.h:36 | one more low bit adds 2^d exactly when bit d is set, which is how a split separates entries |
| Bits.LowLow | project1/src/include/hash/extendible_hash.h:58 | the low d1 bits of the low d2 bits are the low d1 bits, for d1 <= d2 |
| Bits.BitLow | project1/src/include/hash/extendible_hash.h:58 | bit d of the low g bits is bit d itself when d < g |
| Bits.LowOfDoubled | project1/src/include/hash/extendible_hash.h:58 | after doubling, slot s + 2^g has the same low g bits as slot s |
| DirectoryModel.InvIsWf | project1/src/include/hash/extendible_hash.h:57-58 | the per-slot and per-key form of the invariant is equivalent to the quantified one: 2^depth slots, handles in range, local depths at most the global depth, buckets within capacity, slots agree with bucket prefixes, entries sit where their hash bits say, and every key is stored |
| DirectoryModel.EmptyInv | project1/src/include/hash/extendible_hash.h:43 | the initial table (one slot, one empty bucket, depth 0) satisfies the invariant and holds the empty map |
| DirectoryModel.LookupCorrect | project1/src/include/hash/extendible_hash.h:51 | a key is in the table exactly when it is in the bucket that its slot refers to, with the same value |
| DirectoryModel.KeyInItsSlotBucket | project1/src/include/hash/extendible_hash.h:57 | a key stored in any bucket is stored in the bucket that its slot refers to |
| DirectoryModel.EveryHandleReferenced | project1/src/include/hash/extendible_hash.h:57 | every bucket handle is referenced by the directory, from the slot equal to its prefix |
| DirectoryModel.SharedSlots | project1/src/include/hash/extendible_hash.h:48 | the slots sharing a bucket are exactly those that agree on its local depth, and so do the hashes of its keys |
| DirectoryModel.RemovePreserves | project1/src/include/hash/extendible_hash.h:52 | dropping a key from its bucket keeps the invariant and removes exactly that key from the map |
| DirectoryModel.PutPreserves | project1/src/include/hash/extendible_hash.h:53 | binding a key in its bucket (when it has room or holds the key) keeps the invariant and updates the map at that key only |
| DirectoryModel.DoublePreserves | project1/src/include/hash/extendible_hash.h:53 | doubling the directory keeps the invariant and the map, and every key's slot still refers to the same bucket |
| DirectoryModel.DoubleHome | project1/src/include/hash/extendible_hash.h:58 | after doubling, each key's new slot refers to the bucket its old slot did |
| DirectoryModel.SplitPreserves | project1/src/include/hash/extendible_hash.h:53 | splitting a bucket shallower than the directory keeps the invariant and the map, adds one bucket, and the bucket serving each of its keys is one bit deeper |
| DirectoryModel.SplitDirShapeAt | project1/src/include/hash/extendible_hash.h:57 | after a split, a slot refers to a handle exactly when it agrees with that handle's prefix on its local depth |
| DirectoryModel.SplitPlacementAt | project1/src/include/hash/extendible_hash.h:36 | after a split, every entry at any handle is in the map with its value and agrees with its bucket's prefix on that bucket's (new) local depth |
| DirectoryModel.SameHashInSlotBucket | project1/src/include/hash/extendible_hash.h:45 | every key with exactly the same hash as `key` sits in `key`'s bucket, so there are no more of them than that bucket holds |
| DirectoryModel.DeepBucketIsSameHash | project1/src/include/hash/extendible_hash.h:53 | a bucket that uses all 64 hash bits holds exactly the keys that have the same full hash |
| DirectoryModel.RoomMeansInsertable | project1/src/include/hash/extendible_hash.h:53 | if `key`'s bucket has room or holds it, then `key` is present or fewer than BUCKET_MAX keys share its full hash |
| DirectoryModel.DeepBucketStuck | project1/src/include/hash/extendible_hash.h:53 | a full 64-bit-deep bucket without the key means the key is new and BUCKET_MAX keys share its hash |
| ExtendibleHashing.DistinctCard | project1/src/include/hash/extendible_hash.h:49 | a sequence without repeats has as many distinct elements as its length |
| ExtendibleHashing.HalfStep | project1/src/include/hash/extendible_hash.h:53 | scanning one more entry of a bucket adds it to the half its hash bit selects, and each half so far has room |
| ExtendibleHashing.ExtendibleHash.constructor | project1/src/include/hash/extendible_hash.h:43 | a new table is valid and empty: one slot, one bucket, depth 0 |
| ExtendibleHashing.ExtendibleHash.BucketAt | project1/src/include/hash/extendible_hash.h:57 | the bucket at each handle is well formed and matches the layout's local depth and map |
| ExtendibleHashing.ExtendibleHash.ArenaDistinct | project1/src/include/hash/extendible_hash.h:57 | no two handles share a bucket |
| ExtendibleHashing.ExtendibleHash.ReferencedIsArena | project1/src/include/hash/extendible_hash.h:57 | the buckets the directory refers to are exactly all the buckets |
| ExtendibleHashing.ExtendibleHash.HashKey | project1/src/include/hash/extendible_hash.h:45 | the hash fits in 64 bits |
| ExtendibleHashing.ExtendibleHash.GetGlobalDepth | project1/src/include/hash/extendible_hash.h:47 | the directory has 2^depth slots, depth is at most 64, and no bucket is deeper |
| ExtendibleHashing.ExtendibleHash.GetLocalDepth | project1/src/include/hash/extendible_hash.h:48 | at most the global depth; the slots sharing the bucket, and the hashes of its keys, are exactly those that agree with the slot on that many low bits |
| ExtendibleHashing.ExtendibleHash.GetNumBuckets | project1/src/include/hash/extendible_hash.h:49 | the number of distinct buckets the directory refers to |
| ExtendibleHashing.ExtendibleHash.Find | project1/src/include/hash/extendible_hash.h:51 | true exactly when the key is in the table, with its value; when absent, the caller's value is left unchanged |
| ExtendibleHashing.ExtendibleHash.Remove | project1/src/include/hash/extendible_hash.h:52 | true exactly when the key was present; the map loses that key only; the depth and the bucket count are unchanged |
| ExtendibleHashing.ExtendibleHash.DropAt | project1/src/include/hash/extendible_hash.h:52 | removing from one bucket changes only that bucket's map in the layout |
| ExtendibleHashing.ExtendibleHash.Insert | project1/src/include/hash/extendible_hash.h:53 | succeeds exactly when the key is present or fewer than BUCKET_MAX keys share its full hash, and then binds the key to the value; otherwise the map is unchanged; depth and bucket count never decrease; the loop terminates |
| ExtendibleHashing.ExtendibleHash.InsertIntoBucket | project1/src/include/hash/extendible_hash.h:53 | one attempt: stores the key exactly when its bucket has room or holds it; a failure leaves a full bucket without the key |
| ExtendibleHashing.ExtendibleHash.Put | project1/src/include/hash/extendible_hash.h:53 | binding the key in its bucket moves the layout by PutAt and the map by one update |
| ExtendibleHashing.ExtendibleHash.StoreAt | project1/src/include/hash/extendible_hash.h:29 | inserting into one bucket changes only that bucket's map in the layout |
| ExtendibleHashing.ExtendibleHash.SplitAndRetry | project1/src/include/hash/extendible_hash.h:53 | one round of the insert loop: after a split, the key's bucket is one bit deeper and one bucket is added; then the key is stored (and is present or has fewer than BUCKET_MAX same-hash keys), or the map is unchanged and the bucket is still full without the key |
| ExtendibleHashing.ExtendibleHash.SplitHome | project1/src/include/hash/extendible_hash.h:53 | one round of the split loop: the layout becomes Split, at the key's handle, of the old layout (Doubled first exactly when that bucket's local depth equals the global depth), so no other bucket or slot changes; the key's bucket becomes one bit deeper, one bucket is added, and the map is unchanged |
| ExtendibleHashing.ExtendibleHash.Deepen | project1/src/include/hash/extendible_hash.h:58 | doubles the directory (the layout becomes Doubled) exactly when the key's bucket uses every directory bit, and otherwise changes nothing; the key's bucket can then be split |
| ExtendibleHashing.ExtendibleHash.Double | project1/src/include/hash/extendible_hash.h:58 | the layout becomes Doubled: slot s + 2^depth copies slot s and depth grows by one; buckets and map unchanged |
| ExtendibleHashing.ExtendibleHash.Twice | project1/src/include/hash/extendible_hash.h:57 | a fresh directory holding two copies of the old one |
| ExtendibleHashing.ExtendibleHash.Extract | project1/src/include/hash/extendible_hash.h:36 | a fresh bucket, one bit deeper, holding exactly the entries whose hash has the given bit |
| ExtendibleHashing.ExtendibleHash.Repoint | project1/src/include/hash/extendible_hash.h:57 | every slot of the split bucket with the split bit set now refers to the new handle; the other slots are unchanged |
| ExtendibleHashing.ExtendibleHash.SplitBucket | project1/src/include/hash/extendible_hash.h:53 | the layout becomes Split: two fresh successor buckets replace the old one; the map and the depth are unchanged; one more bucket |
| ExtendibleHashing.ExtendibleHash.Install | project1/src/include/hash/extendible_hash.h:57-59 | putting the two halves in place moves the layout by Split and adds one bucket |
| ExtendibleHashing.ExtendibleHash.Adopt | project1/src/include/hash/extendible_hash.h:57-59 | the low half takes over the handle and the high half gets a new one; the per-handle state matches the split layout |
| ExtendibleHashing.ExtendibleHash.Replace | project1/src/include/hash/extendible_hash.h:57 | a new bucket takes over one handle, and every other handle keeps its bucket |
| ExtendibleHashing.ExtendibleHash.Append | project1/src/include/hash/extendible_hash.h:57-59 | a new bucket gets the next handle and the bucket count grows by one |

## Left out

- The header declares the operations but gives no bodies. Their behaviour follows the algorithm the header names and its doc comment (lines 5-7).
- Concurrency and locking are not modelled. The header has none.
- The concrete hash function behind `HashKey` is not modelled. It is the constructor parameter `hasher`, truncated to 64 bits.
- The `HashTable` base class (`hash/hash_table.h`) is not part of this model. Only the overriding operations are modelled.
- Buckets.Bucket.constructor: takes the local depth as an argument, and `depth` is `const` where the header's `int depth` (line 36) is mutable. A split creates new buckets instead of deepening one in place.
- ExtendibleHashing.ExtendibleHash.constructor: the `size` argument is dropped. Bucket capacity is the `BUCKET_MAX` macro, and nothing else uses `size`.
- The header's two bucket arrays, both named `keys` (lines 33-34), become one array of (key, value) pairs.
- `std::vector<Bucket&>` (line 57) cannot hold shared references. It becomes a directory array of integer handles into an arena of buckets.
- A split makes two new bucket objects. The low half takes over the old bucket's handle and the high half gets the next handle, so every handle stays referenced and `bNum` equals the number of buckets.
- Buckets.Bucket.Find: the header returns only a boolean. The model also returns the value found, which the table's `Find` needs.
- Buckets.Bucket.Insert: the header returns `void`. The model returns whether the pair was stored, and a full bucket that lacks the key is left unchanged.
- ExtendibleHashing.ExtendibleHash.Insert: the header returns `void`. The model returns `false` for the one failure, when the hash bits are exhausted, instead of raising a fatal error.
- `int` results (depths, bucket count) and the `int index` counter are modelled as unbounded naturals. They stay at most 64, `BUCKET_MAX`, or the number of buckets.
- Bucket merging and directory shrinking on removal are not modelled. Nothing in the source provides for them.
- The buffer pool manager that uses this table is not part of this model.
