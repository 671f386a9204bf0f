/** A bucket of the extendible hash table: at most BUCKET_MAX key/value
    pairs kept in a fixed array with a fill counter, plus the bucket's local
    depth. The header's two arrays (both declared as `keys`) become one array
    of pairs. */
module Buckets {
  import opened Entries

  /** Capacity of every bucket. */
  const BUCKET_MAX: nat := 10

  class Bucket<K(==, 0), V(0)> {
    /** The slots; the first `index` of them are in use. */
    const entries: array<(K, V)>
    /** Number of slots in use. */
    var index: nat
    /** Local depth: all keys stored here agree on this many low hash bits. */
    const depth: nat
    /** The key/value map the bucket holds. */
    ghost var Content: map<K, V>

    /** Object invariant: a fixed capacity of BUCKET_MAX, a fill counter
        within it, no key stored twice, and `Content` is what the filled
        slots hold. */
    ghost predicate Valid()
      reads this, entries
    {
      && entries.Length == BUCKET_MAX
      && index <= BUCKET_MAX
      && DistinctKeys(entries[..index])
      && Content == MapOf(entries[..index])
    }

    /** The bucket is well formed, of local depth `d`, and holds `m`. */
    ghost predicate Holds(d: nat, m: map<K, V>)
      reads this, entries
    {
      Valid() && depth == d && Content == m
    }

    /** An empty bucket of the given local depth. */
    constructor (depth: nat)
      ensures Valid() && fresh(entries)
      ensures this.depth == depth && Content == map[]
    {
      entries := new (K, V)[BUCKET_MAX];
      index := 0;
      this.depth := depth;
      Content := map[];
    }

    /** Full exactly when BUCKET_MAX distinct keys are stored. */
    function IsFull(): (full: bool)
      reads this, entries
      requires Valid()
      ensures full <==> |Content| == BUCKET_MAX
    {
      MapOfSize(entries[..index]);
      index == BUCKET_MAX
    }

    /** The local depth of the bucket: every key it holds agrees with the
        slots referring to it on this many low hash bits. */
    function GetLocalDepth(): (d: nat)
      reads this
      ensures d == depth
    {
      depth
    }

    /** The slot holding `key`, or `index` when no slot does. */
    method Locate(key: K) returns (i: nat)
      requires Valid()
      ensures i <= index
      ensures i < index ==> entries[i].0 == key
      ensures i == index <==> key !in Content
    {
      i := 0;
      while i < index
        invariant i <= index
        invariant forall j :: 0 <= j < i ==> entries[j].0 != key
      {
        if entries[i].0 == key {
          MapOfAt(entries[..index], i);
          return;
        }
        i := i + 1;
      }
      MapOfDomain(entries[..index], key);
    }

    /** Looks `key` up; when it is absent, `result` is `value` unchanged. */
    method Find(key: K, value: V) returns (found: bool, result: V)
      requires Valid()
      ensures found <==> key in Content
      ensures found ==> result == Content[key]
      ensures !found ==> result == value
    {
      var i := Locate(key);
      found := i < index;
      if found {
        MapOfAt(entries[..index], i);
        result := entries[i].1;
      } else {
        result := value;
      }
    }

    /** Removes `key`, moving the last entry into its slot; reports whether
        the key was present. */
    method Remove(key: K) returns (removed: bool)
      requires Valid()
      modifies this, entries
      ensures Valid()
      ensures removed <==> key in old(Content)
      ensures Content == old(Content) - {key}
    {
      var i := Locate(key);
      removed := i < index;
      if removed {
        ghost var s := entries[..index];
        var last := index - 1;
        entries[i] := entries[last];
        index := last;
        Content := Content - {key};
        assert entries[..index] == s[i := s[last]][..last];
        MapOfRemove(s, i);
      } else {
        assert Content - {key} == Content;
      }
    }

    /** Stores `value` under `key`, overwriting the value of a key already
        present. A full bucket has no slot for a new key: then nothing
        changes and the answer is false. */
    method Insert(key: K, value: V) returns (ok: bool)
      requires Valid()
      modifies this, entries
      ensures Valid()
      ensures ok <==> |old(Content)| < BUCKET_MAX || key in old(Content)
      ensures Content == if ok then old(Content)[key := value] else old(Content)
    {
      var i := Locate(key);
      ghost var s := entries[..index];
      MapOfSize(s);
      if i < index {
        entries[i] := (key, value);
        Content := Content[key := value];
        assert entries[..index] == s[i := (s[i].0, value)];
        MapOfOverwrite(s, i, value);
        ok := true;
      } else if index < BUCKET_MAX {
        entries[i] := (key, value);
        index := index + 1;
        Content := Content[key := value];
        assert entries[..index] == s + [(key, value)];
        MapOfDomain(s, key);
        MapOfAppend(s, key, value);
        ok := true;
      } else {
        ok := false;
      }
    }
  }
}
