/** The extendible hash table the buffer pool manager uses as its page table:
    a directory of 2^depth slots, each holding the handle of a bucket, where
    slot s serves every key whose hash has s as its low `depth` bits. Several
    slots may share one bucket. An insert into a full bucket splits that
    bucket on the next hash bit, doubling the directory first when the bucket
    already uses every directory bit, and retries until the key fits or the
    hash has no bits left.

    The class keeps a ghost `Layout` (global depth, directory, and each
    bucket's local depth, prefix and map) in step with its real state; every
    mutator is proved to move that layout by one of the steps of
    DirectoryModel, whose lemmas carry the invariant. */
module ExtendibleHashing {
  import opened Bits
  import opened Entries
  import opened Buckets
  import opened DirectoryModel

  /** A sequence without repetitions has as many distinct elements as it is long. */
  lemma {:induction false} DistinctCard<T>(q: seq<T>)
    requires forall i, j :: 0 <= i < |q| && 0 <= j < |q| && i != j ==> q[i] != q[j]
    ensures |set i | 0 <= i < |q| :: q[i]| == |q|
  {
    if q != [] {
      var t := q[..|q| - 1];
      var last := q[|q| - 1];
      DistinctCard(t);
      var st := set i | 0 <= i < |t| :: t[i];
      var sq := set i | 0 <= i < |q| :: q[i];
      assert sq == st + {last} by {
        forall x | x in sq ensures x in st + {last} {
          var i :| 0 <= i < |q| && q[i] == x;
          if i < |t| { assert t[i] == x; }
        }
        forall x | x in st ensures x in sq {
          var i :| 0 <= i < |t| && t[i] == x;
          assert q[i] == x;
        }
      }
      assert last !in st;
    }
  }

  /** Bucket `b` and its storage are in `repr` and both belong to handle `h`. */
  ghost predicate Owns<K(0), V(0)>(repr: set<object>, owner: map<object, nat>, b: Bucket<K, V>, h: nat)
  {
    && b in repr && b.entries in repr
    && b in owner && owner[b] == h
    && b.entries in owner && owner[b.entries] == h
  }

  /** Taking one more entry of a bucket's entry sequence into a half: the
      entry joins the half when its hash has `bit` at position d, and the
      half so far is smaller than a full bucket. */
  lemma HalfStep<K, V>(hasher: K -> nat, s: seq<(K, V)>, i: nat, d: nat, bit: nat)
    requires DistinctKeys(s) && i < |s| <= BUCKET_MAX
    ensures Half(hasher, MapOf(s[..i + 1]), d, bit) ==
            if Bit(Hash(hasher, s[i].0), d) == bit then Half(hasher, MapOf(s[..i]), d, bit)[s[i].0 := s[i].1]
            else Half(hasher, MapOf(s[..i]), d, bit)
    ensures |Half(hasher, MapOf(s[..i]), d, bit)| < BUCKET_MAX
  {
    var (k, v) := s[i];
    var m := MapOf(s[..i]);
    assert s[..i + 1] == s[..i] + [(k, v)];
    assert DistinctKeys(s[..i]);
    MapOfAppend(s[..i], k, v);
    MapOfDomain(s[..i], k);
    HalfPut(hasher, m, d, bit, k, v);
    MapOfSize(s[..i]);
    SubsetCard(Half(hasher, m, d, bit).Keys, m.Keys);
  }

  class ExtendibleHash<K(==, 0), V(0)> {
    /** The hash function behind HashKey, fixed at construction. */
    const hasher: K -> nat
    /** Slot s holds the handle (an index into `arena`) of the bucket that
        serves the hashes whose low `depth` bits are s. */
    var directory: array<nat>
    /** The buckets, addressed by handle. */
    var arena: seq<Bucket<K, V>>
    /** Global depth: the number of hash bits the directory uses. */
    var depth: nat
    /** Number of buckets. */
    var bNum: nat

    /** The key/value map the table holds. */
    ghost var Contents: map<K, V>
    /** The table as a value: global depth, directory, and per handle the
        bucket's local depth, the low-bit pattern it serves and its map. */
    ghost var layout: Layout<K, V>
    /** Every object the table uses. */
    ghost var Repr: set<object>
    /** The handle each bucket and each bucket's storage belongs to; that it
        is a function is what keeps two handles from sharing either. */
    ghost var owner: map<object, nat>

    /** The table owns its directory and its buckets, the directory array
        is the layout's directory, every handle's bucket agrees with the
        layout, and the layout is a well-formed table holding `Contents`. */
    ghost predicate Valid()
      reads this, Repr
    {
      && this in Repr && directory in Repr
      && Synced()
      && Stocked()
      && Inv(hasher, layout, Contents)
    }

    /** The directory array and the global depth are those of the layout. */
    ghost predicate Synced()
      reads this, directory
    {
      && directory.Length == |layout.dir|
      && (forall s :: 0 <= s < directory.Length ==> directory[s] == layout.dir[s])
      && depth == layout.depth
    }

    /** One bucket per handle: no two handles share a bucket or a bucket's
        storage, and each bucket is well formed and agrees with the layout's
        local depth and map for its handle. */
    ghost predicate Stocked()
      reads this, Repr - {directory}
    {
      && |arena| == |layout.maps| == |layout.locals| == bNum
      && (forall h {:trigger Owns(Repr, owner, arena[h], h)} | 0 <= h < |arena| ::
            Owns(Repr, owner, arena[h], h))
      && (forall h {:trigger arena[h].Holds(layout.locals[h], layout.maps[h])} | 0 <= h < |arena| ::
            Owns(Repr, owner, arena[h], h) ==> arena[h].Holds(layout.locals[h], layout.maps[h]))
    }

    /** The bucket at handle h is well formed and agrees with the layout. */
    lemma BucketAt(h: nat)
      requires Valid() && h < |arena|
      ensures arena[h].Valid()
      ensures arena[h].depth == layout.locals[h] && arena[h].Content == layout.maps[h]
    {
      assert Owns(Repr, owner, arena[h], h);
      assert arena[h].Holds(layout.locals[h], layout.maps[h]);
    }

    /** The bucket at handle h, and its storage, are owned by h alone. */
    lemma OwnedAt(h: nat)
      requires Valid() && h < |arena|
      ensures arena[h] in Repr && arena[h].entries in Repr
      ensures forall h' :: 0 <= h' < |arena| && h' != h ==>
                arena[h'] != arena[h] && arena[h'].entries != arena[h].entries
    {
      assert Owns(Repr, owner, arena[h], h);
      forall h' | 0 <= h' < |arena| && h' != h
        ensures arena[h'] != arena[h] && arena[h'].entries != arena[h].entries
      {
        assert Owns(Repr, owner, arena[h'], h');
      }
    }

    /** The distinct buckets the directory refers to. */
    ghost function ReferencedBuckets(): set<Bucket<K, V>>
      reads this, directory
      requires forall s :: 0 <= s < directory.Length ==> directory[s] < |arena|
    {
      set s | 0 <= s < directory.Length :: arena[directory[s]]
    }

    /** An empty table: one slot, one empty bucket, global depth 0. */
    constructor (hasher: K -> nat)
      ensures Valid() && fresh(Repr)
      ensures this.hasher == hasher
      ensures layout == Empty() && Contents == map[]
    {
      this.hasher := hasher;
      var b := new Bucket<K, V>(0);
      directory := new nat[1](_ => 0);
      arena := [b];
      depth := 0;
      bNum := 1;
      Contents := map[];
      layout := Empty();
      Repr := {this, directory, b, b.entries};
      owner := map[b := 0, b.entries := 0];
      new;
      EmptyInv<K, V>(hasher);
      assert Owns(Repr, owner, arena[0], 0);
      assert arena[0].Holds(layout.locals[0], layout.maps[0]);
    }

    /** The hash of `key`, truncated to the width of `size_t`. */
    function HashKey(key: K): (h: nat)
      ensures h < Pow2(HASH_BITS)
    {
      Hash(hasher, key)
    }

    /** The global depth; the directory has 2^depth slots and no bucket is
        deeper. */
    function GetGlobalDepth(): (d: nat)
      reads this, Repr
      requires Valid()
      ensures d <= HASH_BITS && directory.Length == Pow2(d)
      ensures forall h :: 0 <= h < |arena| ==> arena[h].depth <= d
    {
      AllBuckets();
      depth
    }

    /** Every bucket agrees with the layout (all handles at once). */
    lemma AllBuckets()
      requires Valid()
      ensures forall h :: 0 <= h < |arena| ==>
                arena[h].Valid() && arena[h].depth == layout.locals[h] && arena[h].Content == layout.maps[h]
    {
      forall h | 0 <= h < |arena|
        ensures arena[h].Valid() && arena[h].depth == layout.locals[h] && arena[h].Content == layout.maps[h]
      {
        BucketAt(h);
      }
    }

    /** The local depth of the bucket behind directory slot `bucketId`: the
        slots sharing that bucket are exactly those agreeing with `bucketId`
        on that many low bits, and so are the hashes of its keys. */
    function GetLocalDepth(bucketId: nat): (d: nat)
      reads this, Repr
      requires Valid()
      requires bucketId < directory.Length
      ensures d <= depth && d == layout.locals[layout.dir[bucketId]]
      ensures forall s :: 0 <= s < directory.Length ==>
                (directory[s] == directory[bucketId] <==> Low(s, d) == Low(bucketId, d))
      ensures forall k :: k in arena[directory[bucketId]].Content ==>
                Low(HashKey(k), d) == Low(bucketId, d)
    {
      SharedSlots(hasher, layout, Contents, bucketId);
      BucketAt(directory[bucketId]);
      OwnedAt(directory[bucketId]);
      arena[directory[bucketId]].GetLocalDepth()
    }

    /** Every handle is referenced from the directory (by the slot equal to
        its prefix), so the referenced buckets are the whole arena. */
    lemma ReferencedIsArena()
      requires Valid()
      ensures ReferencedBuckets() == set h | 0 <= h < |arena| :: arena[h]
    {
      forall h | 0 <= h < |arena|
        ensures arena[h] in ReferencedBuckets()
      {
        EveryHandleReferenced(hasher, layout, Contents, h);
        assert directory[layout.prefix[h]] == h;
      }
    }

    /** The number of buckets: as many as the directory refers to. */
    function GetNumBuckets(): (n: nat)
      reads this, Repr
      requires Valid()
      ensures n == |ReferencedBuckets()|
    {
      ReferencedIsArena();
      ArenaDistinct();
      DistinctCard(arena);
      bNum
    }

    /** No two handles share a bucket. */
    lemma ArenaDistinct()
      requires Valid()
      ensures forall i, j :: 0 <= i < |arena| && 0 <= j < |arena| && i != j ==> arena[i] != arena[j]
    {
      forall i, j | 0 <= i < |arena| && 0 <= j < |arena| && i != j
        ensures arena[i] != arena[j]
      {
        OwnedAt(i);
      }
    }

    /** Looks `key` up. When it is absent the answer is false and `result`
        is `value` unchanged: the page is not buffered. */
    method Find(key: K, value: V) returns (found: bool, result: V)
      requires Valid()
      ensures found <==> key in Contents
      ensures found ==> result == Contents[key]
      ensures !found ==> result == value
    {
      LookupCorrect(hasher, layout, Contents, key);
      var h := directory[Low(HashKey(key), depth)];
      BucketAt(h);
      found, result := arena[h].Find(key, value);
    }

    /** Removes `key`, reporting whether it was present. Buckets are never
        merged and the directory never shrinks. */
    method Remove(key: K) returns (removed: bool)
      requires Valid()
      modifies Repr
      ensures Valid() && Repr == old(Repr)
      ensures removed <==> key in old(Contents)
      ensures Contents == old(Contents) - {key}
      ensures layout == RemoveAt(old(layout), old(layout).dir[Slot(hasher, old(layout), key)], key)
      ensures depth == old(depth) && bNum == old(bNum)
    {
      RemovePreserves(hasher, layout, Contents, key);
      LookupCorrect(hasher, layout, Contents, key);
      var h := directory[Low(HashKey(key), depth)];
      BucketAt(h);
      OwnedAt(h);
      removed := DropAt(h, key);
    }

    /** Removes `key` from the bucket at handle h and records that in the
        layout and in `Contents`. */
    method DropAt(h: nat, key: K) returns (removed: bool)
      requires Stocked() && h < |arena|
      requires arena[h] in Repr && arena[h].entries in Repr
      modifies this, arena[h], arena[h].entries
      ensures Stocked() && Repr == old(Repr)
      ensures removed <==> key in old(layout).maps[h]
      ensures layout == RemoveAt(old(layout), h, key)
      ensures Contents == old(Contents) - {key}
      ensures directory == old(directory) && depth == old(depth) && bNum == old(bNum)
    {
      assert Owns(Repr, owner, arena[h], h);
      var b := arena[h];
      assert b.Holds(layout.locals[h], layout.maps[h]);
      removed := b.Remove(key);
      layout, Contents := RemoveAt(layout, h, key), Contents - {key};
      forall h' | 0 <= h' < |arena|
        ensures arena[h'].Holds(layout.locals[h'], layout.maps[h'])
      {
        if h' != h {
          assert old(Owns(Repr, owner, arena[h'], h'));
          assert old(arena[h'].Holds(layout.locals[h'], layout.maps[h']));
        }
      }
    }

    /** Stores `key` in the bucket its slot refers to, when that bucket has
        room or already holds the key; otherwise nothing changes. */
    method InsertIntoBucket(key: K, value: V) returns (ok: bool)
      requires Valid()
      modifies Repr
      ensures Valid() && Repr == old(Repr)
      ensures var h := old(layout).dir[Slot(hasher, old(layout), key)];
              ok <==> |old(layout).maps[h]| < BUCKET_MAX || key in old(layout).maps[h]
      ensures layout == if ok then PutAt(old(layout), old(layout).dir[Slot(hasher, old(layout), key)], key, value)
                        else old(layout)
      ensures Contents == if ok then old(Contents)[key := value] else old(Contents)
      ensures layout.dir == old(layout).dir && layout.locals == old(layout).locals && layout.depth == old(layout).depth
      ensures depth == old(depth) && bNum == old(bNum)
      ensures ok ==> key in old(Contents) || |SameHash(hasher, old(Contents), key)| < BUCKET_MAX
      ensures !ok ==> var h := layout.dir[Slot(hasher, layout, key)];
                      |layout.maps[h]| == BUCKET_MAX && key !in layout.maps[h]
    {
      RoomMeansInsertable(hasher, layout, Contents, key);
      var h := directory[Low(HashKey(key), depth)];
      BucketAt(h);
      var b := arena[h];
      if b.IsFull() {
        var present, _ := b.Find(key, value);
        if !present {
          return false;
        }
      }
      ok := true;
      Put(h, key, value);
    }

    /** Binds `key` to `value` in bucket h, the bucket its slot refers to,
        which has room for it or already holds it. */
    method Put(h: nat, key: K, value: V)
      requires Valid()
      requires h == layout.dir[Slot(hasher, layout, key)]
      requires |layout.maps[h]| < BUCKET_MAX || key in layout.maps[h]
      modifies Repr
      ensures Valid() && Repr == old(Repr)
      ensures layout == PutAt(old(layout), h, key, value)
      ensures Contents == old(Contents)[key := value]
      ensures depth == old(depth) && bNum == old(bNum)
    {
      PutPreserves(hasher, layout, Contents, key, value);
      BucketAt(h);
      OwnedAt(h);
      StoreAt(h, key, value);
    }

    /** Binds `key` to `value` in the bucket at handle h, which has room for
        it or already holds it, and records that in the layout and in
        `Contents`. */
    method StoreAt(h: nat, key: K, value: V)
      requires Stocked() && h < |arena|
      requires arena[h] in Repr && arena[h].entries in Repr
      requires |layout.maps[h]| < BUCKET_MAX || key in layout.maps[h]
      modifies this, arena[h], arena[h].entries
      ensures Stocked() && Repr == old(Repr)
      ensures layout == PutAt(old(layout), h, key, value)
      ensures Contents == old(Contents)[key := value]
      ensures directory == old(directory) && depth == old(depth) && bNum == old(bNum)
    {
      assert Owns(Repr, owner, arena[h], h);
      var b := arena[h];
      assert b.Holds(layout.locals[h], layout.maps[h]);
      var _ := b.Insert(key, value);
      layout, Contents := PutAt(layout, h, key, value), Contents[key := value];
      forall h' | 0 <= h' < |arena|
        ensures arena[h'].Holds(layout.locals[h'], layout.maps[h'])
      {
        if h' != h {
          assert old(Owns(Repr, owner, arena[h'], h'));
          assert old(arena[h'].Holds(layout.locals[h'], layout.maps[h']));
        }
      }
    }

    /** Inserts `key` with `value`, overwriting the value of a key already
        present. While the key's bucket is full the bucket is split (after
        doubling the directory when the bucket uses every directory bit).
        The insert fails, leaving the map unchanged, exactly when the key is
        new and BUCKET_MAX keys already share its full hash: no number of
        splits can then make room. Depth and bucket count never decrease. */
    method Insert(key: K, value: V) returns (ok: bool)
      requires Valid()
      modifies Repr
      ensures Valid() && fresh(Repr - old(Repr))
      ensures ok <==> key in old(Contents) || |SameHash(hasher, old(Contents), key)| < BUCKET_MAX
      ensures Contents == if ok then old(Contents)[key := value] else old(Contents)
      ensures depth >= old(depth) && bNum >= old(bNum)
    {
      ghost var c := Contents;
      ok := InsertIntoBucket(key, value);
      while !ok && GetLocalDepth(Low(HashKey(key), depth)) < HASH_BITS
        invariant Valid()
        invariant fresh(Repr - old(Repr))
        invariant depth >= old(depth) && bNum >= old(bNum)
        invariant ok ==> Contents == c[key := value] && (key in c || |SameHash(hasher, c, key)| < BUCKET_MAX)
        invariant !ok ==> Contents == c && var h := layout.dir[Slot(hasher, layout, key)];
                    |layout.maps[h]| == BUCKET_MAX && key !in layout.maps[h]
        decreases HASH_BITS - layout.locals[layout.dir[Slot(hasher, layout, key)]]
      {
        ok := SplitAndRetry(key, value);
      }
      if !ok {
        DeepBucketStuck(hasher, layout, Contents, key);
      }
    }

    /** One round of the insert's loop: splits the bucket `key`'s slot
        refers to and tries to store the key again. The bucket serving the
        key ends one bit deeper; a failure leaves it full without the key. */
    method SplitAndRetry(key: K, value: V) returns (ok: bool)
      requires Valid()
      requires layout.locals[layout.dir[Slot(hasher, layout, key)]] < HASH_BITS
      modifies Repr
      ensures Valid() && fresh(Repr - old(Repr))
      ensures depth >= old(depth) && bNum == old(bNum) + 1
      ensures layout.locals[layout.dir[Slot(hasher, layout, key)]] ==
              old(layout).locals[old(layout).dir[Slot(hasher, old(layout), key)]] + 1
      ensures ok ==> Contents == old(Contents)[key := value] &&
                     (key in old(Contents) || |SameHash(hasher, old(Contents), key)| < BUCKET_MAX)
      ensures !ok ==> Contents == old(Contents) && var h := layout.dir[Slot(hasher, layout, key)];
                      |layout.maps[h]| == BUCKET_MAX && key !in layout.maps[h]
    {
      SplitHome(key);
      ok := InsertIntoBucket(key, value);
    }

    /** Splits the bucket `key`'s slot refers to, doubling the directory
        first when that bucket uses every directory bit; the bucket serving
        `key` afterwards is one bit deeper. */
    method SplitHome(key: K)
      requires Valid()
      requires layout.locals[layout.dir[Slot(hasher, layout, key)]] < HASH_BITS
      modifies Repr
      ensures Valid()
      ensures fresh(Repr - old(Repr))
      ensures Contents == old(Contents) && bNum == old(bNum) + 1
      ensures var d := old(layout).locals[old(layout).dir[Slot(hasher, old(layout), key)]];
              && layout.locals[layout.dir[Slot(hasher, layout, key)]] == d + 1
              && depth == old(depth) + if d == old(depth) then 1 else 0
      ensures SplitRound(hasher, old(layout), layout, key)
    {
      ghost var R := Repr;
      ghost var L0 := layout;
      var h := Deepen(key);
      if layout != L0 {
        DoubleHome(hasher, L0);
      }
      ghost var R' := Repr;
      ghost var L := layout;
      SplitBucket(h);
      SplitPreserves(hasher, L, Contents, h);
      assert fresh(Repr - R') && fresh(R' - R);
    }

    /** Doubles the directory when the bucket `key`'s slot refers to uses
        every directory bit, so that the bucket h returned (still the one
        serving `key`, with the same local depth) can be split. */
    method Deepen(key: K) returns (h: nat)
      requires Valid()
      requires layout.locals[layout.dir[Slot(hasher, layout, key)]] < HASH_BITS
      modifies this
      ensures Valid() && fresh(Repr - old(Repr))
      ensures Contents == old(Contents) && bNum == old(bNum)
      ensures h < |arena| && arena[h].depth < depth
      ensures h < |layout.maps| && layout.locals[h] < layout.depth
      ensures h == layout.dir[Slot(hasher, layout, key)]
      ensures layout.locals[h] == old(layout).locals[old(layout).dir[Slot(hasher, old(layout), key)]]
      ensures depth == old(depth) + if layout.locals[h] == old(depth) then 1 else 0
      ensures layout == if layout.locals[h] == old(depth) then Doubled(old(layout)) else old(layout)
    {
      h := directory[Low(HashKey(key), depth)];
      BucketAt(h);
      if arena[h].depth == depth {
        DoublePreserves(hasher, layout, Contents);
        Double();
      }
    }

    /** Doubles the directory: slot s + 2^depth becomes a copy of slot s and
        the global depth grows by one. */
    method Double()
      requires Valid() && depth < HASH_BITS
      modifies this
      ensures Valid() && fresh(Repr - old(Repr))
      ensures layout == Doubled(old(layout))
      ensures Contents == old(Contents) && arena == old(arena) && bNum == old(bNum)
    {
      DoublePreserves(hasher, layout, Contents);
      var n := directory.Length;
      var grown := Twice(directory);
      directory := grown;
      depth := depth + 1;
      Repr := Repr + {grown};
      layout := Doubled(layout);
      forall s | 0 <= s < directory.Length
        ensures directory[s] == layout.dir[s]
      {
        if s >= n {
          assert directory[s] == old(directory[s - n]);
        }
      }
      forall h | 0 <= h < |arena|
        ensures Owns(Repr, owner, arena[h], h)
      {
        assert old(Owns(Repr, owner, arena[h], h));
      }
      forall h | 0 <= h < |arena|
        ensures arena[h].Holds(layout.locals[h], layout.maps[h])
      {
        assert old(Owns(Repr, owner, arena[h], h));
        assert old(arena[h].Holds(layout.locals[h], layout.maps[h]));
      }
    }

    /** A fresh array holding two copies of `dir`, one after the other. */
    static method Twice(dir: array<nat>) returns (grown: array<nat>)
      ensures fresh(grown) && grown.Length == 2 * dir.Length
      ensures forall j :: 0 <= j < dir.Length ==> grown[j] == dir[j] && grown[dir.Length + j] == dir[j]
    {
      var n := dir.Length;
      grown := new nat[2 * n];
      var i := 0;
      while i < n
        invariant 0 <= i <= n
        invariant forall j :: 0 <= j < i ==> grown[j] == dir[j] && grown[n + j] == dir[j]
      {
        grown[i] := dir[i];
        grown[n + i] := dir[i];
        i := i + 1;
      }
    }

    /** A fresh bucket of depth d + 1 holding the entries of `b` whose hash
        has `bit` at position d. */
    method Extract(b: Bucket<K, V>, d: nat, bit: nat) returns (nb: Bucket<K, V>)
      requires b.Valid()
      ensures fresh(nb) && fresh(nb.entries)
      ensures nb.Holds(d + 1, Half(hasher, b.Content, d, bit))
    {
      nb := new Bucket<K, V>(d + 1);
      var s := b.entries[..b.index];
      var i := 0;
      while i < |s|
        invariant 0 <= i <= |s|
        invariant fresh(nb) && fresh(nb.entries)
        invariant nb.Valid() && nb.depth == d + 1
        invariant nb.Content == Half(hasher, MapOf(s[..i]), d, bit)
      {
        var (k, v) := s[i];
        HalfStep(hasher, s, i, d, bit);
        if Bit(HashKey(k), d) == bit {
          var _ := nb.Insert(k, v);
        }
        i := i + 1;
      }
      assert s[..i] == s;
    }

    /** Re-points to handle n every slot that refers to h and has bit d set. */
    method Repoint(h: nat, d: nat, n: nat)
      modifies directory
      ensures forall s :: 0 <= s < directory.Length ==>
                directory[s] == if old(directory[s]) == h && Bit(s, d) == 1 then n else old(directory[s])
    {
      var s := 0;
      while s < directory.Length
        invariant 0 <= s <= directory.Length
        invariant forall j :: 0 <= j < s ==>
                    directory[j] == if old(directory[j]) == h && Bit(j, d) == 1 then n else old(directory[j])
        invariant forall j :: s <= j < directory.Length ==> directory[j] == old(directory[j])
      {
        if directory[s] == h && Bit(s, d) == 1 {
          directory[s] := n;
        }
        s := s + 1;
      }
    }

    /** Splits bucket h, shallower than the directory, on hash bit
        `arena[h].depth`: the entries with that bit clear go to a fresh
        bucket that takes over handle h, the others to a fresh bucket at a
        new handle, and the slots of h with that bit set are re-pointed. */
    method SplitBucket(h: nat)
      requires Valid() && h < |arena| && arena[h].depth < depth
      modifies this, directory
      ensures Valid()
      ensures fresh(Repr - old(Repr))
      ensures layout == Split(hasher, old(layout), h)
      ensures Contents == old(Contents) && depth == old(depth) && bNum == old(bNum) + 1
    {
      BucketAt(h);
      var b := arena[h];
      var zero := Extract(b, b.depth, 0);
      var one := Extract(b, b.depth, 1);
      ghost var added := {zero, zero.entries, one, one.entries};
      assert fresh(added);
      Install(h, zero, one);
    }

    /** Puts the two halves of bucket h in place: `zero` takes over handle
        h, `one` gets a new handle, and the slots of h whose bit d is set
        are re-pointed to it. */
    method Install(h: nat, zero: Bucket<K, V>, one: Bucket<K, V>)
      requires Valid() && h < |arena| && layout.locals[h] < depth
      requires zero !in Repr && zero.entries !in Repr && one !in Repr && one.entries !in Repr
      requires zero != one && zero.entries != one.entries
      requires var d := layout.locals[h];
        && zero.Holds(d + 1, Half(hasher, layout.maps[h], d, 0))
        && one.Holds(d + 1, Half(hasher, layout.maps[h], d, 1))
      modifies this, directory
      ensures Valid() && Repr == old(Repr) + {zero, zero.entries, one, one.entries}
      ensures layout == Split(hasher, old(layout), h)
      ensures Contents == old(Contents) && depth == old(depth) && bNum == old(bNum) + 1
    {
      ghost var L := layout;
      BucketAt(h);
      var d := arena[h].depth;
      var n := |arena|;
      SplitPreserves(hasher, L, Contents, h);
      Adopt(h, zero, one);
      Repoint(h, d, n);
    }

    /** The bookkeeping half of a split: `zero` takes over handle h, `one`
        is appended, and the layout becomes the split one; the directory
        array is left to Repoint. */
    method Adopt(h: nat, zero: Bucket<K, V>, one: Bucket<K, V>)
      requires Stocked() && Shape(layout) && h < |arena|
      requires zero !in Repr && zero.entries !in Repr && one !in Repr && one.entries !in Repr
      requires zero != one && zero.entries != one.entries
      requires var d := layout.locals[h];
        && zero.Holds(d + 1, Half(hasher, layout.maps[h], d, 0))
        && one.Holds(d + 1, Half(hasher, layout.maps[h], d, 1))
      modifies this
      ensures Stocked()
      ensures Repr == old(Repr) + {zero, zero.entries, one, one.entries}
      ensures layout == Split(hasher, old(layout), h)
      ensures directory == old(directory) && depth == old(depth)
      ensures Contents == old(Contents) && bNum == old(bNum) + 1
    {
      ghost var L := layout;
      ghost var d := L.locals[h];
      Replace(h, zero, d + 1, Half(hasher, L.maps[h], d, 0));
      Append(one, d + 1, Half(hasher, L.maps[h], d, 1));
      layout := Split(hasher, L, h);
    }

    /** Bucket `b`, new to the table, takes over handle h with local depth
        d and map m in the layout. */
    method Replace(h: nat, b: Bucket<K, V>, ghost d: nat, ghost m: map<K, V>)
      requires Stocked() && h < |arena|
      requires b !in Repr && b.entries !in Repr && b.Holds(d, m)
      modifies this
      ensures Stocked()
      ensures arena == old(arena)[h := b] && bNum == old(bNum)
      ensures layout == old(layout).(locals := old(layout).locals[h := d], maps := old(layout).maps[h := m])
      ensures Repr == old(Repr) + {b, b.entries}
      ensures directory == old(directory) && depth == old(depth) && Contents == old(Contents)
    {
      arena, layout, Repr, owner :=
        arena[h := b], layout.(locals := layout.locals[h := d], maps := layout.maps[h := m]),
        Repr + {b, b.entries}, owner[b := h][b.entries := h];
      forall h' | 0 <= h' < |arena|
        ensures Owns(Repr, owner, arena[h'], h')
      {
        if h' != h {
          assert old(Owns(Repr, owner, arena[h'], h'));
        }
      }
      forall h' | 0 <= h' < |arena|
        ensures arena[h'].Holds(layout.locals[h'], layout.maps[h'])
      {
        if h' != h {
          assert old(Owns(Repr, owner, arena[h'], h'));
          assert old(arena[h'].Holds(layout.locals[h'], layout.maps[h']));
        }
      }
    }

    /** Bucket `b`, new to the table, gets the next handle, with local depth
        d and map m in the layout. */
    method Append(b: Bucket<K, V>, ghost d: nat, ghost m: map<K, V>)
      requires Stocked()
      requires b !in Repr && b.entries !in Repr && b.Holds(d, m)
      modifies this
      ensures Stocked()
      ensures arena == old(arena) + [b] && bNum == old(bNum) + 1
      ensures layout == old(layout).(locals := old(layout).locals + [d], maps := old(layout).maps + [m])
      ensures Repr == old(Repr) + {b, b.entries}
      ensures directory == old(directory) && depth == old(depth) && Contents == old(Contents)
    {
      var n := |arena|;
      arena, bNum, layout, Repr, owner :=
        arena + [b], bNum + 1, layout.(locals := layout.locals + [d], maps := layout.maps + [m]),
        Repr + {b, b.entries}, owner[b := n][b.entries := n];
      forall h' | 0 <= h' < |arena|
        ensures Owns(Repr, owner, arena[h'], h')
      {
        if h' != n {
          assert old(Owns(Repr, owner, arena[h'], h'));
        }
      }
      forall h' | 0 <= h' < |arena|
        ensures arena[h'].Holds(layout.locals[h'], layout.maps[h'])
      {
        if h' != n {
          assert old(Owns(Repr, owner, arena[h'], h'));
          assert old(arena[h'].Holds(layout.locals[h'], layout.maps[h']));
        }
      }
    }
  }
}
