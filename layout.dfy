/** The extendible hash table as a value: the global depth, the directory
    (slot -> bucket handle), and for each handle the bucket's local depth,
    the low-bit pattern ("prefix") it serves and the map it holds.

    `Wf` is the structural invariant of the table; the functions below are
    the steps the table takes (drop a key, put a key, double the directory,
    split a bucket) and each comes with a lemma that it keeps `Wf` and
    changes the table's key/value map as intended. */
module DirectoryModel {
  import opened Bits
  import Buckets

  /** The hash of a key as the table uses it: truncated to `size_t`. */
  function Hash<K>(hasher: K -> nat, k: K): (h: nat)
    ensures h < Pow2(HASH_BITS)
  {
    hasher(k) % Pow2(HASH_BITS)
  }

  datatype Layout<K(==), V> = Layout(
    depth: nat,               // global depth
    dir: seq<nat>,            // slot -> bucket handle
    locals: seq<nat>,         // handle -> local depth
    prefix: seq<nat>,         // handle -> low bits served
    maps: seq<map<K, V>>)     // handle -> bucket content

  /** The slot serving `k`: the low `depth` bits of its hash. */
  function Slot<K, V>(hasher: K -> nat, L: Layout<K, V>, k: K): nat
  {
    Low(Hash(hasher, k), L.depth)
  }

  /** Sizes and ranges: 2^depth slots, every handle in range, every local
      depth at most the global depth, every bucket within capacity. */
  ghost predicate Shape<K, V>(L: Layout<K, V>)
  {
    && L.depth <= HASH_BITS
    && |L.dir| == Pow2(L.depth)
    && |L.locals| == |L.prefix| == |L.maps|
    && (forall s :: 0 <= s < |L.dir| ==> L.dir[s] < |L.maps|)
    && (forall h :: 0 <= h < |L.maps| ==>
          L.locals[h] <= L.depth && L.prefix[h] < Pow2(L.locals[h]) && |L.maps[h]| <= Buckets.BUCKET_MAX)
  }

  /** Slot s refers to bucket h exactly when s agrees with h's prefix on
      h's local depth; so h is shared by 2^(depth - local) evenly spaced slots. */
  ghost predicate DirShape<K, V>(L: Layout<K, V>)
    requires Shape(L)
  {
    forall s, h :: 0 <= s < |L.dir| && 0 <= h < |L.maps| ==>
      (L.dir[s] == h <==> Low(s, L.locals[h]) == L.prefix[h])
  }

  /** Every entry of a bucket belongs to the map `c` with the same value,
      and its hash agrees with the bucket's prefix on the local depth. */
  ghost predicate Placement<K, V>(hasher: K -> nat, L: Layout<K, V>, c: map<K, V>)
    requires Shape(L)
  {
    forall h, k :: 0 <= h < |L.maps| && k in L.maps[h] ==>
      && k in c
      && L.maps[h][k] == c[k]
      && Low(Hash(hasher, k), L.locals[h]) == L.prefix[h]
  }

  /** Every key of `c` is in the bucket its slot refers to. */
  ghost predicate Stored<K, V>(hasher: K -> nat, L: Layout<K, V>, c: map<K, V>)
    requires Shape(L)
  {
    forall k :: k in c ==> k in L.maps[L.dir[Slot(hasher, L, k)]]
  }

  /** The table invariant: `L` is a well-formed layout holding exactly `c`.
      This is the readable statement of the invariant; the table keeps the
      equivalent form `Inv` below, whose quantifiers only fire where a proof
      names a slot or key, and InvIsWf proves the two agree. */
  ghost predicate Wf<K, V>(hasher: K -> nat, L: Layout<K, V>, c: map<K, V>)
  {
    && Shape(L)
    && DirShape(L)
    && Placement(hasher, L, c)
    && Stored(hasher, L, c)
  }

  /** DirShape for one slot and one handle. */
  ghost predicate SlotServes<K, V>(L: Layout<K, V>, s: nat, h: nat)
    requires Shape(L)
  {
    s < |L.dir| && h < |L.maps| ==> (L.dir[s] == h <==> Low(s, L.locals[h]) == L.prefix[h])
  }

  /** Placement for one handle and one key. */
  ghost predicate EntryPlaced<K, V>(hasher: K -> nat, L: Layout<K, V>, c: map<K, V>, h: nat, k: K)
    requires Shape(L)
  {
    h < |L.maps| && k in L.maps[h] ==>
      && k in c
      && L.maps[h][k] == c[k]
      && Low(Hash(hasher, k), L.locals[h]) == L.prefix[h]
  }

  /** Stored for one key. */
  ghost predicate KeyStored<K, V>(hasher: K -> nat, L: Layout<K, V>, c: map<K, V>, k: K)
    requires Shape(L)
  {
    k in c ==> k in L.maps[L.dir[Slot(hasher, L, k)]]
  }

  /** `Wf` stated slot by slot and key by key, so that its quantifiers are
      only instantiated where a proof names the slot or key it needs (see
      InvIsWf); this is the form the table object keeps. */
  ghost predicate Inv<K, V>(hasher: K -> nat, L: Layout<K, V>, c: map<K, V>)
  {
    && Shape(L)
    && (forall s: nat, h: nat :: SlotServes(L, s, h))
    && (forall h: nat, k {:trigger EntryPlaced(hasher, L, c, h, k)} | h < |L.maps| && k in L.maps[h] ::
          EntryPlaced(hasher, L, c, h, k))
    && (forall k {:trigger KeyStored(hasher, L, c, k)} | k in c :: KeyStored(hasher, L, c, k))
  }

  /** The two forms of the table invariant agree. */
  lemma InvIsWf<K, V>(hasher: K -> nat, L: Layout<K, V>, c: map<K, V>)
    ensures Inv(hasher, L, c) <==> Wf(hasher, L, c)
  {
    if Inv(hasher, L, c) {
      InvToWf(hasher, L, c);
    }
    if Wf(hasher, L, c) {
      WfToInv(hasher, L, c);
    }
  }

  lemma InvToWf<K, V>(hasher: K -> nat, L: Layout<K, V>, c: map<K, V>)
    requires Inv(hasher, L, c)
    ensures Wf(hasher, L, c)
  {
    forall s, h | 0 <= s < |L.dir| && 0 <= h < |L.maps|
      ensures L.dir[s] == h <==> Low(s, L.locals[h]) == L.prefix[h]
    {
      assert SlotServes(L, s, h);
    }
    forall h, k | 0 <= h < |L.maps| && k in L.maps[h]
      ensures k in c && L.maps[h][k] == c[k] && Low(Hash(hasher, k), L.locals[h]) == L.prefix[h]
    {
      assert EntryPlaced(hasher, L, c, h, k);
    }
    forall k | k in c
      ensures k in L.maps[L.dir[Slot(hasher, L, k)]]
    {
      assert KeyStored(hasher, L, c, k);
    }
  }

  lemma WfToInv<K, V>(hasher: K -> nat, L: Layout<K, V>, c: map<K, V>)
    requires Wf(hasher, L, c)
    ensures Inv(hasher, L, c)
  {
  }

  /** The table right after construction: one slot, one empty bucket. */
  function Empty<K, V>(): Layout<K, V>
  {
    Layout(0, [0], [0], [0], [map[]])
  }

  /** The table right after construction is well formed and empty. */
  lemma EmptyInv<K, V>(hasher: K -> nat)
    ensures Inv(hasher, Empty<K, V>(), map[])
  {
    var L := Empty<K, V>();
    forall s: nat, h: nat
      ensures SlotServes(L, s, h)
    {
    }
  }

  /** The keys of `c` whose hash equals that of `key` in every bit. */
  ghost function SameHash<K, V>(hasher: K -> nat, c: map<K, V>, key: K): set<K>
  {
    set k | k in c && Hash(hasher, k) == Hash(hasher, key)
  }

  /** The bucket at `h` with `key` dropped. */
  function RemoveAt<K, V>(L: Layout<K, V>, h: nat, key: K): Layout<K, V>
    requires h < |L.maps|
  {
    L.(maps := L.maps[h := L.maps[h] - {key}])
  }

  /** The bucket at `h` with `key` bound to `value`. */
  function PutAt<K, V>(L: Layout<K, V>, h: nat, key: K, value: V): Layout<K, V>
    requires h < |L.maps|
  {
    L.(maps := L.maps[h := L.maps[h][key := value]])
  }

  /** The directory doubled: slot s + 2^depth is a copy of slot s. */
  function Doubled<K, V>(L: Layout<K, V>): Layout<K, V>
  {
    L.(depth := L.depth + 1, dir := L.dir + L.dir)
  }

  /** The entries of `m` whose hash has `bit` at position `d`. */
  ghost function Half<K, V>(hasher: K -> nat, m: map<K, V>, d: nat, bit: nat): map<K, V>
  {
    map k | k in m && Bit(Hash(hasher, k), d) == bit :: m[k]
  }

  /** The directory after splitting bucket h of local depth d into h (bit d
      clear) and a new handle n (bit d set). */
  function SplitDir(dir: seq<nat>, h: nat, d: nat, n: nat): (r: seq<nat>)
    ensures |r| == |dir|
    ensures forall s :: 0 <= s < |dir| ==>
              r[s] == if dir[s] == h && Bit(s, d) == 1 then n else dir[s]
  {
    seq(|dir|, s requires 0 <= s < |dir| => if dir[s] == h && Bit(s, d) == 1 then n else dir[s])
  }

  /** Bucket h split on bit `locals[h]` of the hash: the entries with the bit
      clear stay at h, those with it set go to a new handle; both successors
      are one bit deeper, and the slots of h with that bit set move to the new
      handle. */
  ghost function Split<K, V>(hasher: K -> nat, L: Layout<K, V>, h: nat): Layout<K, V>
    requires Shape(L) && h < |L.maps|
  {
    var d := L.locals[h];
    var n := |L.maps|;
    Layout(
      L.depth,
      SplitDir(L.dir, h, d, n),
      L.locals[h := d + 1] + [d + 1],
      L.prefix + [L.prefix[h] + Pow2(d)],
      L.maps[h := Half(hasher, L.maps[h], d, 0)] + [Half(hasher, L.maps[h], d, 1)])
  }

  /** One round of the insert's split loop for `key`: L' is L split at the
      bucket `key`'s slot refers to, after doubling the directory when that
      bucket uses every directory bit. */
  ghost predicate SplitRound<K, V>(hasher: K -> nat, L: Layout<K, V>, L': Layout<K, V>, key: K)
  {
    && Shape(L) && Slot(hasher, L, key) < |L.dir|
    && var h := L.dir[Slot(hasher, L, key)];
       var D := if L.locals[h] == L.depth then Doubled(L) else L;
       && Shape(D) && h < |D.maps|
       && L' == Split(hasher, D, h)
  }

  /** Adding an entry to a map adds it to the half its hash bit selects. */
  lemma HalfPut<K, V>(hasher: K -> nat, m: map<K, V>, d: nat, bit: nat, k: K, v: V)
    ensures Half(hasher, m[k := v], d, bit) ==
            if Bit(Hash(hasher, k), d) == bit then Half(hasher, m, d, bit)[k := v]
            else Half(hasher, m, d, bit) - {k}
  {
  }

  /** A subset is no larger than its superset. */
  lemma {:induction false} SubsetCard<T>(a: set<T>, b: set<T>)
    requires a <= b
    ensures |a| <= |b|
    decreases |b|
  {
    if a != {} {
      var x :| x in a;
      SubsetCard(a - {x}, b - {x});
    }
  }

  /** A key stored in bucket h is in the bucket its slot refers to, and so
      in no other bucket. */
  lemma KeyInItsSlotBucket<K, V>(hasher: K -> nat, L: Layout<K, V>, c: map<K, V>, h: nat, k: K)
    requires Shape(L) && DirShape(L) && Placement(hasher, L, c)
    requires h < |L.maps| && k in L.maps[h]
    ensures L.dir[Slot(hasher, L, k)] == h
  {
    LowLow(Hash(hasher, k), L.locals[h], L.depth);
  }

  /** Find: a key is in the table exactly when it is in the bucket its slot
      refers to, with the same value. */
  lemma LookupCorrect<K, V>(hasher: K -> nat, L: Layout<K, V>, c: map<K, V>, k: K)
    requires Inv(hasher, L, c)
    ensures k in c <==> k in L.maps[L.dir[Slot(hasher, L, k)]]
    ensures k in c ==> c[k] == L.maps[L.dir[Slot(hasher, L, k)]][k]
  {
    var h := L.dir[Slot(hasher, L, k)];
    assert KeyStored(hasher, L, c, k);
    assert EntryPlaced(hasher, L, c, h, k);
  }

  /** Every handle is referenced by the directory, at least from the slot
      equal to its prefix. */
  lemma {:induction false} EveryHandleReferenced<K, V>(hasher: K -> nat, L: Layout<K, V>, c: map<K, V>, h: nat)
    requires Inv(hasher, L, c)
    requires h < |L.maps|
    ensures L.prefix[h] < |L.dir| && L.dir[L.prefix[h]] == h
  {
    Pow2Mono(L.locals[h], L.depth);
    LowOfSmall(L.prefix[h], L.locals[h]);
    assert SlotServes(L, L.prefix[h], h);
  }

  /** The slots sharing slot b's bucket are those agreeing with b on that
      bucket's local depth, and so are the hashes of the keys it holds. */
  lemma SharedSlots<K, V>(hasher: K -> nat, L: Layout<K, V>, c: map<K, V>, b: nat)
    requires Inv(hasher, L, c) && b < |L.dir|
    ensures forall s :: 0 <= s < |L.dir| ==>
              (L.dir[s] == L.dir[b] <==> Low(s, L.locals[L.dir[b]]) == Low(b, L.locals[L.dir[b]]))
    ensures forall k :: k in L.maps[L.dir[b]] ==>
              Low(Hash(hasher, k), L.locals[L.dir[b]]) == Low(b, L.locals[L.dir[b]])
  {
    var h := L.dir[b];
    assert SlotServes(L, b, h);
    forall s | 0 <= s < |L.dir|
      ensures L.dir[s] == h <==> Low(s, L.locals[h]) == Low(b, L.locals[h])
    {
      assert SlotServes(L, s, h);
    }
    forall k | k in L.maps[h]
      ensures Low(Hash(hasher, k), L.locals[h]) == Low(b, L.locals[h])
    {
      assert EntryPlaced(hasher, L, c, h, k);
    }
  }

  /** Dropping a key from the bucket its slot refers to keeps the invariant
      and drops it from the map. */
  lemma RemovePreserves<K, V>(hasher: K -> nat, L: Layout<K, V>, c: map<K, V>, key: K)
    requires Inv(hasher, L, c)
    ensures key in c <==> key in L.maps[L.dir[Slot(hasher, L, key)]]
    ensures Inv(hasher, RemoveAt(L, L.dir[Slot(hasher, L, key)], key), c - {key})
  {
    LookupCorrect(hasher, L, c, key);
    InvToWf(hasher, L, c);
    var h := L.dir[Slot(hasher, L, key)];
    SubsetCard((L.maps[h] - {key}).Keys, L.maps[h].Keys);
    assert Shape(RemoveAt(L, h, key));
    RemovePlacement(hasher, L, c, key);
    RemoveStored(hasher, L, c, key);
    WfToInv(hasher, RemoveAt(L, h, key), c - {key});
  }

  lemma RemovePlacement<K, V>(hasher: K -> nat, L: Layout<K, V>, c: map<K, V>, key: K)
    requires Shape(L) && DirShape(L) && Placement(hasher, L, c)
    requires Shape(RemoveAt(L, L.dir[Slot(hasher, L, key)], key))
    ensures Placement(hasher, RemoveAt(L, L.dir[Slot(hasher, L, key)], key), c - {key})
  {
    var h := L.dir[Slot(hasher, L, key)];
    var L' := RemoveAt(L, h, key);
    var c' := c - {key};
    forall h', k | 0 <= h' < |L'.maps| && k in L'.maps[h']
      ensures k in c' && L'.maps[h'][k] == c'[k]
      ensures Low(Hash(hasher, k), L'.locals[h']) == L'.prefix[h']
    {
      assert k in L.maps[h'];
      if h' != h && k == key {
        KeyInItsSlotBucket(hasher, L, c, h', k);
      }
    }
  }

  lemma RemoveStored<K, V>(hasher: K -> nat, L: Layout<K, V>, c: map<K, V>, key: K)
    requires Shape(L) && Stored(hasher, L, c)
    requires Shape(RemoveAt(L, L.dir[Slot(hasher, L, key)], key))
    ensures Stored(hasher, RemoveAt(L, L.dir[Slot(hasher, L, key)], key), c - {key})
  {
    var h := L.dir[Slot(hasher, L, key)];
    var L' := RemoveAt(L, h, key);
    forall k | k in c - {key}
      ensures k in L'.maps[L'.dir[Slot(hasher, L', k)]]
    {
      assert k in L.maps[L.dir[Slot(hasher, L, k)]];
    }
  }

  /** Binding `key` in the bucket its slot refers to, when that bucket has
      room or already holds the key, keeps the invariant and binds it in the map. */
  lemma PutPreserves<K, V>(hasher: K -> nat, L: Layout<K, V>, c: map<K, V>, key: K, value: V)
    requires Inv(hasher, L, c)
    requires var h := L.dir[Slot(hasher, L, key)];
      |L.maps[h]| < Buckets.BUCKET_MAX || key in L.maps[h]
    ensures Inv(hasher, PutAt(L, L.dir[Slot(hasher, L, key)], key, value), c[key := value])
  {
    InvToWf(hasher, L, c);
    var h := L.dir[Slot(hasher, L, key)];
    assert Shape(PutAt(L, h, key, value));
    PutPlacement(hasher, L, c, key, value);
    PutStored(hasher, L, c, key, value);
    WfToInv(hasher, PutAt(L, h, key, value), c[key := value]);
  }

  lemma PutPlacement<K, V>(hasher: K -> nat, L: Layout<K, V>, c: map<K, V>, key: K, value: V)
    requires Shape(L) && DirShape(L) && Placement(hasher, L, c)
    requires Shape(PutAt(L, L.dir[Slot(hasher, L, key)], key, value))
    ensures Placement(hasher, PutAt(L, L.dir[Slot(hasher, L, key)], key, value), c[key := value])
  {
    var h := L.dir[Slot(hasher, L, key)];
    var L' := PutAt(L, h, key, value);
    var c' := c[key := value];
    LowLow(Hash(hasher, key), L.locals[h], L.depth);
    forall h', k | 0 <= h' < |L'.maps| && k in L'.maps[h']
      ensures k in c' && L'.maps[h'][k] == c'[k]
      ensures Low(Hash(hasher, k), L'.locals[h']) == L'.prefix[h']
    {
      if k != key {
        assert k in L.maps[h'];
      } else if h' != h {
        KeyInItsSlotBucket(hasher, L, c, h', k);
      }
    }
  }

  lemma PutStored<K, V>(hasher: K -> nat, L: Layout<K, V>, c: map<K, V>, key: K, value: V)
    requires Shape(L) && Stored(hasher, L, c)
    requires Shape(PutAt(L, L.dir[Slot(hasher, L, key)], key, value))
    ensures Stored(hasher, PutAt(L, L.dir[Slot(hasher, L, key)], key, value), c[key := value])
  {
    var h := L.dir[Slot(hasher, L, key)];
    var L' := PutAt(L, h, key, value);
    forall k | k in c[key := value]
      ensures k in L'.maps[L'.dir[Slot(hasher, L', k)]]
    {
      if k != key {
        assert k in L.maps[L.dir[Slot(hasher, L, k)]];
      }
    }
  }

  /** Doubling the directory keeps the invariant, the map, and the bucket
      every key is served by. */
  lemma DoublePreserves<K, V>(hasher: K -> nat, L: Layout<K, V>, c: map<K, V>)
    requires Inv(hasher, L, c)
    requires L.depth < HASH_BITS
    ensures Inv(hasher, Doubled(L), c)
    ensures forall k :: Doubled(L).dir[Slot(hasher, Doubled(L), k)] == L.dir[Slot(hasher, L, k)]
  {
    InvToWf(hasher, L, c);
    DoubleHome(hasher, L);
    DoubleDirShape(L);
    DoubleStored(hasher, L, c);
    DoublePlacement(hasher, L, c);
    WfToInv(hasher, Doubled(L), c);
  }

  /** Slot s of the doubled directory is a copy of slot s mod 2^depth. */
  lemma DoubleSlots<K, V>(L: Layout<K, V>)
    requires Shape(L) && L.depth < HASH_BITS
    ensures Shape(Doubled(L))
    ensures forall s :: 0 <= s < |Doubled(L).dir| ==> Doubled(L).dir[s] == L.dir[Low(s, L.depth)]
  {
    var L' := Doubled(L);
    forall s | 0 <= s < |L'.dir|
      ensures L'.dir[s] == L.dir[Low(s, L.depth)]
    {
      LowOfDoubled(s, L.depth);
    }
  }

  /** Doubling keeps the bucket each key is served by. */
  lemma DoubleHome<K, V>(hasher: K -> nat, L: Layout<K, V>)
    requires Shape(L) && L.depth < HASH_BITS
    ensures forall k :: Doubled(L).dir[Slot(hasher, Doubled(L), k)] == L.dir[Slot(hasher, L, k)]
  {
    var L' := Doubled(L);
    DoubleSlots(L);
    forall k
      ensures L'.dir[Slot(hasher, L', k)] == L.dir[Slot(hasher, L, k)]
    {
      LowLow(Hash(hasher, k), L.depth, L.depth + 1);
    }
  }

  lemma DoubleDirShape<K, V>(L: Layout<K, V>)
    requires Shape(L) && DirShape(L) && L.depth < HASH_BITS
    ensures Shape(Doubled(L)) && DirShape(Doubled(L))
  {
    var L' := Doubled(L);
    DoubleSlots(L);
    forall s, h | 0 <= s < |L'.dir| && 0 <= h < |L'.maps|
      ensures L'.dir[s] == h <==> Low(s, L'.locals[h]) == L'.prefix[h]
    {
      LowLow(s, L.locals[h], L.depth);
    }
  }

  lemma DoubleStored<K, V>(hasher: K -> nat, L: Layout<K, V>, c: map<K, V>)
    requires Shape(L) && Stored(hasher, L, c) && L.depth < HASH_BITS
    ensures Shape(Doubled(L)) && Stored(hasher, Doubled(L), c)
  {
    DoubleSlots(L);
    DoubleHome(hasher, L);
  }

  lemma DoublePlacement<K, V>(hasher: K -> nat, L: Layout<K, V>, c: map<K, V>)
    requires Shape(L) && Placement(hasher, L, c) && L.depth < HASH_BITS
    ensures Shape(Doubled(L)) && Placement(hasher, Doubled(L), c)
  {
    DoubleSlots(L);
    assert Doubled(L).maps == L.maps && Doubled(L).locals == L.locals && Doubled(L).prefix == L.prefix;
  }

  /** Splitting a bucket shallower than the directory keeps the invariant and
      the map, adds one bucket, and makes the bucket serving each of the
      split bucket's keys one bit deeper. */
  lemma SplitPreserves<K, V>(hasher: K -> nat, L: Layout<K, V>, c: map<K, V>, h: nat)
    requires Inv(hasher, L, c)
    requires h < |L.maps| && L.locals[h] < L.depth
    ensures Inv(hasher, Split(hasher, L, h), c)
    ensures |Split(hasher, L, h).maps| == |L.maps| + 1
    ensures forall k :: L.dir[Slot(hasher, L, k)] == h ==>
              var L' := Split(hasher, L, h);
              L'.locals[L'.dir[Slot(hasher, L', k)]] == L.locals[h] + 1
  {
    InvToWf(hasher, L, c);
    SplitShape(hasher, L, c, h);
    SplitDirShape(hasher, L, c, h);
    SplitPlacement(hasher, L, c, h);
    SplitStored(hasher, L, c, h);
    WfToInv(hasher, Split(hasher, L, h), c);
  }

  lemma SplitShape<K, V>(hasher: K -> nat, L: Layout<K, V>, c: map<K, V>, h: nat)
    requires Shape(L)
    requires h < |L.maps| && L.locals[h] < L.depth
    ensures Shape(Split(hasher, L, h))
  {
    var d := L.locals[h];
    var m := L.maps[h];
    SubsetCard(Half(hasher, m, d, 0).Keys, m.Keys);
    SubsetCard(Half(hasher, m, d, 1).Keys, m.Keys);
    assert Pow2(d + 1) == 2 * Pow2(d);
  }

  lemma SplitDirShape<K, V>(hasher: K -> nat, L: Layout<K, V>, c: map<K, V>, h: nat)
    requires Shape(L) && DirShape(L)
    requires h < |L.maps| && L.locals[h] < L.depth
    requires Shape(Split(hasher, L, h))
    ensures DirShape(Split(hasher, L, h))
  {
    var L' := Split(hasher, L, h);
    forall s, h' | 0 <= s < |L'.dir| && 0 <= h' < |L'.maps|
      ensures L'.dir[s] == h' <==> Low(s, L'.locals[h']) == L'.prefix[h']
    {
      SplitDirShapeAt(hasher, L, h, s, h');
    }
  }

  /** SplitDirShape for one slot and one handle: on the split bucket's bit,
      a slot of h stays with h or moves to the new handle. */
  lemma SplitDirShapeAt<K, V>(hasher: K -> nat, L: Layout<K, V>, h: nat, s: nat, h': nat)
    requires Shape(L) && DirShape(L)
    requires h < |L.maps| && L.locals[h] < L.depth
    requires s < |L.dir| && h' <= |L.maps|
    ensures var L' := Split(hasher, L, h);
            L'.dir[s] == h' <==> Low(s, L'.locals[h']) == L'.prefix[h']
  {
    var L' := Split(hasher, L, h);
    var d := L.locals[h];
    assert L'.dir[s] == if L.dir[s] == h && Bit(s, d) == 1 then |L.maps| else L.dir[s];
    assert L.dir[s] == h <==> Low(s, d) == L.prefix[h];
    if h' == h || h' == |L.maps| {
      SplitBit(s, d, L.prefix[h]);
    } else {
      assert L'.locals[h'] == L.locals[h'] && L'.prefix[h'] == L.prefix[h'];
    }
  }

  /** One more low bit separates the slots that agree on the first d bits
      with prefix p into those with bit d clear and those with it set. */
  lemma SplitBit(s: nat, d: nat, p: nat)
    requires p < Pow2(d)
    ensures Low(s, d + 1) == p <==> Low(s, d) == p && Bit(s, d) == 0
    ensures Low(s, d + 1) == p + Pow2(d) <==> Low(s, d) == p && Bit(s, d) == 1
  {
    LowSucc(s, d);
  }

  lemma SplitPlacement<K, V>(hasher: K -> nat, L: Layout<K, V>, c: map<K, V>, h: nat)
    requires Shape(L) && Placement(hasher, L, c)
    requires h < |L.maps| && L.locals[h] < L.depth
    requires Shape(Split(hasher, L, h))
    ensures Placement(hasher, Split(hasher, L, h), c)
  {
    var L' := Split(hasher, L, h);
    forall h', k | 0 <= h' < |L'.maps| && k in L'.maps[h']
      ensures k in c && L'.maps[h'][k] == c[k]
      ensures Low(Hash(hasher, k), L'.locals[h']) == L'.prefix[h']
    {
      SplitPlacementAt(hasher, L, c, h, h', k);
    }
  }

  lemma SplitPlacementAt<K, V>(hasher: K -> nat, L: Layout<K, V>, c: map<K, V>, h: nat, h': nat, k: K)
    requires Shape(L) && Placement(hasher, L, c)
    requires h < |L.maps| && L.locals[h] < L.depth
    requires h' <= |L.maps| && k in Split(hasher, L, h).maps[h']
    ensures k in c && Split(hasher, L, h).maps[h'][k] == c[k]
    ensures Low(Hash(hasher, k), Split(hasher, L, h).locals[h']) == Split(hasher, L, h).prefix[h']
  {
    if h' == h {
      SplitPlacementStay(hasher, L, c, h, k);
    } else if h' == |L.maps| {
      SplitPlacementMove(hasher, L, c, h, k);
    } else {
      assert k in L.maps[h'];
      assert Split(hasher, L, h).locals[h'] == L.locals[h'] && Split(hasher, L, h).prefix[h'] == L.prefix[h'];
    }
  }

  /** The entries left at h (bit clear) match h's prefix on one more bit. */
  lemma SplitPlacementStay<K, V>(hasher: K -> nat, L: Layout<K, V>, c: map<K, V>, h: nat, k: K)
    requires Shape(L) && Placement(hasher, L, c)
    requires h < |L.maps| && k in Split(hasher, L, h).maps[h]
    ensures k in c && Split(hasher, L, h).maps[h][k] == c[k]
    ensures Low(Hash(hasher, k), Split(hasher, L, h).locals[h]) == Split(hasher, L, h).prefix[h]
  {
    var d := L.locals[h];
    var x := Hash(hasher, k);
    assert k in Half(hasher, L.maps[h], d, 0);
    assert Bit(x, d) == 0 && Low(x, d) == L.prefix[h];
    LowSucc(x, d);
    assert Split(hasher, L, h).locals[h] == d + 1 && Split(hasher, L, h).prefix[h] == L.prefix[h];
  }

  /** The entries moved to the new handle (bit set) match its prefix. */
  lemma SplitPlacementMove<K, V>(hasher: K -> nat, L: Layout<K, V>, c: map<K, V>, h: nat, k: K)
    requires Shape(L) && Placement(hasher, L, c)
    requires h < |L.maps| && k in Split(hasher, L, h).maps[|L.maps|]
    ensures k in c && Split(hasher, L, h).maps[|L.maps|][k] == c[k]
    ensures Low(Hash(hasher, k), Split(hasher, L, h).locals[|L.maps|]) == Split(hasher, L, h).prefix[|L.maps|]
  {
    var d := L.locals[h];
    var x := Hash(hasher, k);
    assert k in Half(hasher, L.maps[h], d, 1);
    assert Bit(x, d) == 1 && Low(x, d) == L.prefix[h];
    LowSucc(x, d);
    assert Split(hasher, L, h).locals[|L.maps|] == d + 1;
    assert Split(hasher, L, h).prefix[|L.maps|] == L.prefix[h] + Pow2(d);
  }

  lemma SplitStored<K, V>(hasher: K -> nat, L: Layout<K, V>, c: map<K, V>, h: nat)
    requires Shape(L) && Stored(hasher, L, c)
    requires h < |L.maps| && L.locals[h] < L.depth
    requires Shape(Split(hasher, L, h))
    ensures Stored(hasher, Split(hasher, L, h), c)
  {
    var L' := Split(hasher, L, h);
    var d := L.locals[h];
    forall k | k in c
      ensures k in L'.maps[L'.dir[Slot(hasher, L', k)]]
    {
      var s := Slot(hasher, L, k);
      assert k in L.maps[L.dir[s]];
      if L.dir[s] == h {
        BitLow(Hash(hasher, k), d, L.depth);
      }
    }
  }

  /** All keys sharing `key`'s full hash are in the bucket `key`'s slot
      refers to, so there are no more of them than that bucket holds. */
  lemma SameHashInSlotBucket<K, V>(hasher: K -> nat, L: Layout<K, V>, c: map<K, V>, key: K)
    requires Inv(hasher, L, c)
    ensures SameHash(hasher, c, key) <= L.maps[L.dir[Slot(hasher, L, key)]].Keys
    ensures |SameHash(hasher, c, key)| <= |L.maps[L.dir[Slot(hasher, L, key)]]|
  {
    InvToWf(hasher, L, c);
    SubsetCard(SameHash(hasher, c, key), L.maps[L.dir[Slot(hasher, L, key)]].Keys);
  }

  /** A bucket that already uses every hash bit holds exactly the keys that
      share `key`'s full hash: splitting it further cannot separate them. */
  lemma DeepBucketIsSameHash<K, V>(hasher: K -> nat, L: Layout<K, V>, c: map<K, V>, key: K)
    requires Inv(hasher, L, c)
    requires L.locals[L.dir[Slot(hasher, L, key)]] == HASH_BITS
    ensures L.maps[L.dir[Slot(hasher, L, key)]].Keys == SameHash(hasher, c, key)
  {
    var slot := Slot(hasher, L, key);
    var h := L.dir[slot];
    assert SlotServes(L, slot, h);
    assert L.depth == HASH_BITS;
    LowOfSmall(Hash(hasher, key), HASH_BITS);
    LowLow(Hash(hasher, key), HASH_BITS, L.depth);
    forall k | k in L.maps[h]
      ensures k in SameHash(hasher, c, key)
    {
      assert EntryPlaced(hasher, L, c, h, k);
      LowOfSmall(Hash(hasher, k), HASH_BITS);
    }
    SameHashInSlotBucket(hasher, L, c, key);
  }

  /** A bucket with room for `key` (or already holding it) means the key is
      already present or fewer than BUCKET_MAX keys share its full hash. */
  lemma RoomMeansInsertable<K, V>(hasher: K -> nat, L: Layout<K, V>, c: map<K, V>, key: K)
    requires Inv(hasher, L, c)
    ensures var m := L.maps[L.dir[Slot(hasher, L, key)]];
            |m| < Buckets.BUCKET_MAX || key in m ==>
              key in c || |SameHash(hasher, c, key)| < Buckets.BUCKET_MAX
  {
    LookupCorrect(hasher, L, c, key);
    SameHashInSlotBucket(hasher, L, c, key);
  }

  /** A full bucket that already uses every hash bit and lacks `key` means
      the key is new and BUCKET_MAX keys already share its full hash. */
  lemma DeepBucketStuck<K, V>(hasher: K -> nat, L: Layout<K, V>, c: map<K, V>, key: K)
    requires Inv(hasher, L, c)
    requires var h := L.dir[Slot(hasher, L, key)];
      L.locals[h] == HASH_BITS && |L.maps[h]| == Buckets.BUCKET_MAX && key !in L.maps[h]
    ensures key !in c && |SameHash(hasher, c, key)| == Buckets.BUCKET_MAX
  {
    LookupCorrect(hasher, L, c, key);
    DeepBucketIsSameHash(hasher, L, c, key);
  }
}
