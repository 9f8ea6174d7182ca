/** The table's storage as a value: one chain per bucket, bucket `b` at
    position `b`. This module states what it means for a storage to hold a
    key-to-value map (`WellFormed`, `Represents`), gives the effect of
    `insert`, `remove` and `resize` on a storage as functions, and proves that
    each of them keeps the storage well formed and changes the map it holds
    exactly as intended. */
module Buckets {
  import opened Optional
  import opened Hashing
  import opened Chains

  type Table<V> = seq<Chain<V>>

  /** What `retrieve` observes: the chain walk in the key's bucket. */
  function Lookup<V>(t: Table<V>, k: string): Option<V>
    requires |t| > 0
  {
    Find(t[BucketIndex(k, |t|)], k)
  }

  /** Every entry sits in bucket `djb2(key) % capacity` for the current capacity. */
  ghost predicate Placed<V>(t: Table<V>)
  {
    forall b, k :: 0 <= b < |t| && k in Keys(t[b]) ==> BucketIndex(k, |t|) == b
  }

  /** The storage invariant: at least one bucket, no key twice in a chain,
      every entry in its own bucket (so no key twice in the whole table). */
  ghost predicate WellFormed<V>(t: Table<V>)
  {
    && |t| > 0
    && (forall b :: 0 <= b < |t| ==> Distinct(t[b]))
    && Placed(t)
  }

  /** The storage holds exactly the map `m`, as `retrieve` sees it. */
  ghost predicate Represents<V>(t: Table<V>, m: map<string, V>)
  {
    |t| > 0 && forall k :: Lookup(t, k) == Get(m, k)
  }

  /** Every entry of the storage, bucket by bucket and in chain order: the
      order in which `resize` visits them. */
  function Flatten<V>(t: Table<V>): Chain<V>
  {
    if t == [] then [] else Flatten(t[..|t| - 1]) + t[|t| - 1]
  }

  /** A fresh storage of `n` empty buckets (`[None] * capacity`). */
  function EmptyTable<V>(n: nat): (t: Table<V>)
    ensures |t| == n && forall b :: 0 <= b < n ==> t[b] == []
  {
    seq(n, _ => [])
  }

  /** The storage after the chain part of `insert`. */
  function TablePut<V>(t: Table<V>, k: string, v: V): (r: Table<V>)
    requires |t| > 0
    ensures |r| == |t|
  {
    var b := BucketIndex(k, |t|);
    t[b := Upsert(t[b], k, v)]
  }

  /** The storage after the chain part of `remove`. */
  function TableDelete<V>(t: Table<V>, k: string): (r: Table<V>)
    requires |t| > 0
    ensures |r| == |t|
  {
    var b := BucketIndex(k, |t|);
    t[b := Delete(t[b], k)]
  }

  /** Insert every entry of `es`, in order, without resizing. */
  function PutAll<V>(t: Table<V>, es: Chain<V>): (r: Table<V>)
    requires |t| > 0
    ensures |r| == |t|
  {
    if es == [] then t
    else
      var e := es[|es| - 1];
      TablePut(PutAll(t, es[..|es| - 1]), e.key, e.value)
  }

  /** The map that inserting every entry of `es`, in order, into `m` yields. */
  function MapPutAll<V>(m: map<string, V>, es: Chain<V>): map<string, V>
  {
    if es == [] then m
    else
      var e := es[|es| - 1];
      MapPutAll(m, es[..|es| - 1])[e.key := e.value]
  }

  /** The storage after `resize` to `n` buckets: a fresh storage into which
      every old entry is inserted again, bucket by bucket, in chain order. */
  function Rehash<V>(t: Table<V>, n: nat): Table<V>
    requires n > 0
  {
    PutAll(EmptyTable(n), Flatten(t))
  }

  /** The entries of the first `i + 1` buckets and of the first `i`. */
  lemma FlattenSnoc<V>(t: Table<V>, i: nat)
    requires i < |t|
    ensures Flatten(t[..i + 1]) == Flatten(t[..i]) + t[i]
  {
    assert t[..i + 1][..i] == t[..i];
  }

  /** Inserting one more entry after a list of them. */
  lemma PutAllSnoc<V>(t: Table<V>, m: map<string, V>, es: Chain<V>, e: Entry<V>)
    requires |t| > 0
    ensures PutAll(t, es + [e]) == TablePut(PutAll(t, es), e.key, e.value)
    ensures MapPutAll(m, es + [e]) == MapPutAll(m, es)[e.key := e.value]
  {
    assert (es + [e])[..|es|] == es;
  }

  /** A storage whose buckets are all empty holds nothing. */
  lemma {:induction false} FlattenEmpty<V>(t: Table<V>)
    requires forall b :: 0 <= b < |t| ==> t[b] == []
    ensures Flatten(t) == []
  {
    if t != [] {
      FlattenEmpty(t[..|t| - 1]);
    }
  }

  /** A fresh storage is well formed and holds the empty map. */
  lemma EmptyTableCorrect<V>(n: nat)
    requires n > 0
    ensures WellFormed(EmptyTable<V>(n))
    ensures Represents(EmptyTable<V>(n), map[])
    ensures |Flatten(EmptyTable<V>(n))| == 0
  {
    FlattenEmpty(EmptyTable<V>(n));
  }

  /** Replacing one chain changes the entry count by the difference in length. */
  lemma {:induction false} FlattenUpdate<V>(t: Table<V>, b: nat, c: Chain<V>)
    requires b < |t|
    ensures |Flatten(t[b := c])| == |Flatten(t)| - |t[b]| + |c|
  {
    var n := |t|;
    var u := t[b := c];
    if b == n - 1 {
      assert u[..n - 1] == t[..n - 1];
    } else {
      assert u[..n - 1] == t[..n - 1][b := c];
      FlattenUpdate(t[..n - 1], b, c);
    }
  }

  /** The chain part of `insert` keeps the storage well formed, makes `k` map
      to `v` while every other key keeps its value, and adds one entry exactly
      when `k` was absent. */
  lemma TablePutCorrect<V>(t: Table<V>, m: map<string, V>, k: string, v: V)
    requires WellFormed(t) && Represents(t, m)
    ensures WellFormed(TablePut(t, k, v))
    ensures Represents(TablePut(t, k, v), m[k := v])
    ensures |Flatten(TablePut(t, k, v))| == if k in m then |Flatten(t)| else |Flatten(t)| + 1
  {
    var b := BucketIndex(k, |t|);
    var r := TablePut(t, k, v);
    UpsertDistinct(t[b], k, v);
    forall k' ensures Lookup(r, k') == Get(m[k := v], k') {
      FindUpsert(t[b], k, v, k');
      assert Lookup(t, k') == Get(m, k');
    }
    assert Lookup(t, k) == Get(m, k);
    FlattenUpdate(t, b, Upsert(t[b], k, v));
  }

  /** The chain part of `remove` keeps the storage well formed, makes `k`
      absent while every other key keeps its value, and removes one entry
      exactly when `k` was present. */
  lemma TableDeleteCorrect<V>(t: Table<V>, m: map<string, V>, k: string)
    requires WellFormed(t) && Represents(t, m)
    ensures WellFormed(TableDelete(t, k))
    ensures Represents(TableDelete(t, k), m - {k})
    ensures |Flatten(TableDelete(t, k))| == if k in m then |Flatten(t)| - 1 else |Flatten(t)|
  {
    var b := BucketIndex(k, |t|);
    var r := TableDelete(t, k);
    FindDelete(t[b], k, k);
    forall k' ensures Lookup(r, k') == Get(m - {k}, k') {
      FindDelete(t[b], k, k');
      assert Lookup(t, k') == Get(m, k');
    }
    assert Lookup(t, k) == Get(m, k);
    FlattenUpdate(t, b, Delete(t[b], k));
  }

  /** The entries of the first `i` buckets have distinct keys, all of them
      placed below bucket `i`, and walking them finds exactly what `retrieve`
      finds for the keys those buckets own. */
  lemma {:induction false} FlattenPrefix<V>(t: Table<V>, i: nat)
    requires WellFormed(t) && i <= |t|
    ensures Distinct(Flatten(t[..i]))
    ensures forall k :: k in Keys(Flatten(t[..i])) ==> BucketIndex(k, |t|) < i
    ensures forall k :: Find(Flatten(t[..i]), k) == if BucketIndex(k, |t|) < i then Lookup(t, k) else None
  {
    if i > 0 {
      FlattenPrefix(t, i - 1);
      var a := Flatten(t[..i - 1]);
      var c := t[i - 1];
      assert t[..i][..i - 1] == t[..i - 1];
      assert Flatten(t[..i]) == a + c;
      KeysConcat(a, c);
      assert Keys(a) !! Keys(c);
      DistinctConcat(a, c);
      forall k ensures Find(a + c, k) == if BucketIndex(k, |t|) < i then Lookup(t, k) else None {
        FindConcat(a, c, k);
        if BucketIndex(k, |t|) != i - 1 {
          assert k !in Keys(c);
        }
      }
    } else {
      assert t[..0] == [];
    }
  }

  /** Keys are unique across all chains, and walking all entries finds what
      `retrieve` finds. */
  lemma KeysUniqueAcrossChains<V>(t: Table<V>)
    requires WellFormed(t)
    ensures Distinct(Flatten(t))
    ensures forall k :: Find(Flatten(t), k) == Lookup(t, k)
  {
    FlattenPrefix(t, |t|);
    assert t[..|t|] == t;
  }

  /** Inserting a list of entries with distinct keys: each of its keys gets
      its value, every other key keeps the value it had. */
  lemma {:induction false} MapPutAllFind<V>(m: map<string, V>, es: Chain<V>, k: string)
    requires Distinct(es)
    ensures Get(MapPutAll(m, es), k) == if Find(es, k).Some? then Find(es, k) else Get(m, k)
  {
    if es != [] {
      var n := |es|;
      var e := es[n - 1];
      assert es == es[..n - 1] + [e];
      DistinctConcat(es[..n - 1], [e]);
      MapPutAllFind(m, es[..n - 1], k);
      FindConcat(es[..n - 1], [e], k);
      if e.key == k {
        assert k in Keys([e]);
      }
    }
  }

  /** Inserting a list of entries without resizing keeps the storage well
      formed and holds the map built by the same insertions. */
  lemma {:induction false} PutAllCorrect<V>(t: Table<V>, m: map<string, V>, es: Chain<V>)
    requires WellFormed(t) && Represents(t, m) && |Flatten(t)| == |m|
    ensures WellFormed(PutAll(t, es))
    ensures Represents(PutAll(t, es), MapPutAll(m, es))
    ensures |Flatten(PutAll(t, es))| == |MapPutAll(m, es)|
  {
    if es != [] {
      var e := es[|es| - 1];
      PutAllCorrect(t, m, es[..|es| - 1]);
      TablePutCorrect(PutAll(t, es[..|es| - 1]), MapPutAll(m, es[..|es| - 1]), e.key, e.value);
    }
  }

  /** Reinserting every entry of a storage, in the order `resize` visits
      them, into an empty map rebuilds the map that the storage holds. */
  lemma RehashMap<V>(t: Table<V>, m: map<string, V>)
    requires WellFormed(t) && Represents(t, m)
    ensures MapPutAll(map[], Flatten(t)) == m
  {
    KeysUniqueAcrossChains(t);
    forall k ensures Get(MapPutAll(map[], Flatten(t)), k) == Get(m, k) {
      MapPutAllFind(map[], Flatten(t), k);
      assert Lookup(t, k) == Get(m, k);
    }
    GetExtensional(MapPutAll(map[], Flatten(t)), m);
  }

  /** `resize` to any positive number of buckets keeps the storage well
      formed, with every entry in its bucket for the new capacity, and keeps
      the key-to-value map; the entry count is the number of keys. */
  lemma RehashCorrect<V>(t: Table<V>, m: map<string, V>, n: nat)
    requires WellFormed(t) && Represents(t, m) && n > 0
    ensures |Rehash(t, n)| == n
    ensures WellFormed(Rehash(t, n))
    ensures Represents(Rehash(t, n), m)
    ensures |Flatten(Rehash(t, n))| == |m|
  {
    EmptyTableCorrect<V>(n);
    PutAllCorrect(EmptyTable<V>(n), map[], Flatten(t));
    RehashMap(t, m);
  }
}
