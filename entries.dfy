/** The abstract content of a bucket.

    A bucket keeps its (key, value) pairs in the filled prefix of a fixed
    array. `MapOf` gives the map such a sequence of pairs stands for, and the
    lemmas below say how the in-place edits a bucket performs (append,
    overwrite in place, remove by moving the last entry into the hole) change
    that map. */
module Entries {

  /** The map denoted by a sequence of entries (a later entry would win, but
      the buckets keep their keys distinct). */
  ghost function MapOf<K, V>(s: seq<(K, V)>): map<K, V>
  {
    if s == [] then map[] else MapOf(s[..|s| - 1])[s[|s| - 1].0 := s[|s| - 1].1]
  }

  /** No key occurs twice. */
  ghost predicate DistinctKeys<K, V>(s: seq<(K, V)>)
  {
    forall i, j :: 0 <= i < j < |s| ==> s[i].0 != s[j].0
  }

  /** A key is in the map exactly when some entry carries it. */
  lemma {:induction false} MapOfDomain<K, V>(s: seq<(K, V)>, k: K)
    ensures k in MapOf(s) <==> exists i :: 0 <= i < |s| && s[i].0 == k
  {
    if s != [] {
      var t := s[..|s| - 1];
      MapOfDomain(t, k);
      if k in MapOf(t) {
        var i :| 0 <= i < |t| && t[i].0 == k;
        assert s[i].0 == k;
      }
      if exists i :: 0 <= i < |s| && s[i].0 == k {
        var i :| 0 <= i < |s| && s[i].0 == k;
        if i < |t| {
          assert t[i].0 == k;
        }
      }
    }
  }

  /** With distinct keys, every entry's value is the one the map gives. */
  lemma {:induction false} MapOfAt<K, V>(s: seq<(K, V)>, i: nat)
    requires DistinctKeys(s)
    requires i < |s|
    ensures s[i].0 in MapOf(s) && MapOf(s)[s[i].0] == s[i].1
  {
    var t := s[..|s| - 1];
    if i < |t| {
      assert DistinctKeys(t);
      assert t[i] == s[i];
      MapOfAt(t, i);
    }
  }

  /** With distinct keys, the map has one key per entry. */
  lemma {:induction false} MapOfSize<K, V>(s: seq<(K, V)>)
    requires DistinctKeys(s)
    ensures |MapOf(s)| == |s|
  {
    if s != [] {
      var t := s[..|s| - 1];
      assert DistinctKeys(t);
      MapOfSize(t);
      MapOfDomain(t, s[|s| - 1].0);
    }
  }

  /** With distinct keys, the map holds exactly the entries of the sequence. */
  lemma MapOfEntries<K, V>(s: seq<(K, V)>, k: K, v: V)
    requires DistinctKeys(s)
    ensures (k in MapOf(s) && MapOf(s)[k] == v) <==> (k, v) in s
  {
    MapOfDomain(s, k);
    if (k, v) in s {
      var j :| 0 <= j < |s| && s[j] == (k, v);
      MapOfAt(s, j);
    }
    if k in MapOf(s) {
      var j :| 0 <= j < |s| && s[j].0 == k;
      MapOfAt(s, j);
    }
  }

  /** Appending an entry with a new key adds that key. */
  lemma MapOfAppend<K, V>(s: seq<(K, V)>, k: K, v: V)
    ensures MapOf(s + [(k, v)]) == MapOf(s)[k := v]
  {
    assert (s + [(k, v)])[..|s|] == s;
  }

  /** Overwriting an entry's value in place updates the map at its key. */
  lemma {:induction false} MapOfOverwrite<K, V>(s: seq<(K, V)>, i: nat, v: V)
    requires DistinctKeys(s)
    requires i < |s|
    ensures DistinctKeys(s[i := (s[i].0, v)])
    ensures MapOf(s[i := (s[i].0, v)]) == MapOf(s)[s[i].0 := v]
  {
    var k := s[i].0;
    var s' := s[i := (k, v)];
    var n := |s| - 1;
    if i == n {
      assert s'[..n] == s[..n];
    } else {
      assert s'[..n] == s[..n][i := (k, v)];
      assert DistinctKeys(s[..n]);
      MapOfOverwrite(s[..n], i, v);
    }
  }

  /** Moving the last entry into the hole left by entry i drops exactly
      entry i. */
  lemma RemoveEntries<K, V>(s: seq<(K, V)>, i: nat, k: K, v: V)
    requires DistinctKeys(s)
    requires i < |s|
    ensures (k, v) in s[i := s[|s| - 1]][..|s| - 1] <==> (k, v) in s && k != s[i].0
  {
    var n := |s| - 1;
    var t := s[i := s[n]][..n];
    if (k, v) in t {
      var j :| 0 <= j < n && t[j] == (k, v);
      if j == i {
        assert s[n] == (k, v);
      } else {
        assert s[j] == (k, v);
      }
    }
    if (k, v) in s && k != s[i].0 {
      var j :| 0 <= j < |s| && s[j] == (k, v);
      if j == n {
        assert t[i] == (k, v);
      } else {
        assert t[j] == (k, v);
      }
    }
  }

  /** Moving the last entry into the hole left by entry i keeps the keys distinct. */
  lemma RemoveDistinct<K, V>(s: seq<(K, V)>, i: nat)
    requires DistinctKeys(s)
    requires i < |s|
    ensures DistinctKeys(s[i := s[|s| - 1]][..|s| - 1])
  {
    var n := |s| - 1;
    var t := s[i := s[n]][..n];
    forall a, b | 0 <= a < b < n
      ensures t[a].0 != t[b].0
    {
      assert t[a] == (if a == i then s[n] else s[a]);
      assert t[b] == (if b == i then s[n] else s[b]);
    }
  }

  /** Moving the last entry into the hole left by entry i removes i's key. */
  lemma MapOfRemove<K, V>(s: seq<(K, V)>, i: nat)
    requires DistinctKeys(s)
    requires i < |s|
    ensures DistinctKeys(s[i := s[|s| - 1]][..|s| - 1])
    ensures MapOf(s[i := s[|s| - 1]][..|s| - 1]) == MapOf(s) - {s[i].0}
  {
    var t := s[i := s[|s| - 1]][..|s| - 1];
    var gone := s[i].0;
    RemoveDistinct(s, i);
    var m1 := MapOf(t);
    var m2 := MapOf(s) - {gone};
    forall k | k in m1
      ensures k in m2 && m2[k] == m1[k]
    {
      MapOfEntries(t, k, m1[k]);
      RemoveEntries(s, i, k, m1[k]);
      MapOfEntries(s, k, m1[k]);
    }
    forall k | k in m2
      ensures k in m1
    {
      MapOfEntries(s, k, m2[k]);
      RemoveEntries(s, i, k, m2[k]);
      MapOfEntries(t, k, m2[k]);
    }
  }
}
