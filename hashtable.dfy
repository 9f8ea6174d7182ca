/** `HashTable` of src/hashtable.py: a string-keyed hash table with separate
    chaining and a DJB2 bucket index, which grows when the load factor
    exceeds 0.7 and shrinks when it falls below 0.2. */
module HashTables {
  import opened Optional
  import opened Hashing
  import opened Chains
  import opened Buckets

  /** The two rates `resize` is called with: 2 (the default) and 0.5. */
  datatype Rate = Double | Halve

  /** Comparing a quotient of reals with a positive denominator is comparing
      the numerator with the scaled bound. */
  lemma QuotientCompare(x: real, y: real, a: real)
    requires y > 0.0
    ensures x / y > a <==> x > a * y
    ensures x / y < a <==> x < a * y
  {
    var q := x / y;
    assert q * y == x;
    if q > a {
      assert q * y > a * y;
    }
    if q < a {
      assert q * y < a * y;
    }
    if q <= a {
      assert q * y <= a * y;
    }
    if q >= a {
      assert q * y >= a * y;
    }
  }

  /** `size / capacity > 0.7`, the growth test of `insert`. */
  predicate ShouldGrow(size: nat, capacity: nat)
    requires capacity > 0
    ensures ShouldGrow(size, capacity) <==> size as real / capacity as real > 0.7
  {
    QuotientCompare(size as real, capacity as real, 0.7);
    10 * size > 7 * capacity
  }

  /** `size / capacity < 0.2 and capacity > initial_capacity`, the shrink
      test of `remove`. */
  predicate ShouldShrink(size: nat, capacity: nat, initialCapacity: nat)
    requires capacity > 0
    ensures ShouldShrink(size, capacity, initialCapacity) <==>
              size as real / capacity as real < 0.2 && capacity > initialCapacity
  {
    QuotientCompare(size as real, capacity as real, 0.2);
    5 * size < capacity && capacity > initialCapacity
  }

  /** The capacity that `resize` ends with when it starts from `c` buckets
      and reinserts `n` keys through `insert`: every reinsertion that pushes
      the load factor above 0.7 doubles the capacity once more. The result
      is the first of `c`, `2c`, `4c`, ... whose load factor is at most 0.7. */
  function Grown(c: nat, n: nat): (g: nat)
    requires c > 0
    ensures g >= c && !ShouldGrow(n, g)
    ensures g == c || (g % 2 == 0 && ShouldGrow(n, g / 2))
    decreases 10 * n - 7 * c
  {
    if ShouldGrow(n, c) then Grown(2 * c, n) else c
  }

  /** One more key: the capacity doubles once more exactly when that key
      pushes the load factor above 0.7, and never twice, because after a
      doubling the load factor is at most 0.7 again. */
  lemma {:induction false} GrownStep(c: nat, n: nat)
    requires c > 0
    ensures Grown(c, n + 1) == if ShouldGrow(n + 1, Grown(c, n)) then 2 * Grown(c, n) else Grown(c, n)
    decreases 10 * n - 7 * c
  {
    if ShouldGrow(n, c) {
      GrownStep(2 * c, n);
    } else if ShouldGrow(n + 1, c) {
      assert !ShouldGrow(n + 1, 2 * c);
    }
  }

  /** `GrownStep` for a map that gains the pair `k := v`. */
  lemma GrownPut<V>(c: nat, m: map<string, V>, k: string, v: V)
    requires c > 0
    ensures Grown(c, |m[k := v]|) ==
              if k !in m && ShouldGrow(|m[k := v]|, Grown(c, |m|)) then 2 * Grown(c, |m|) else Grown(c, |m|)
  {
    if k in m {
      assert |m[k := v]| == |m|;
    } else {
      assert |m[k := v]| == |m| + 1;
      GrownStep(c, |m|);
    }
  }

  /** `c` is the initial capacity `b` doubled zero or more times. */
  predicate Doubling(c: nat, b: nat)
    decreases c
  {
    if c <= b then c == b else c % 2 == 0 && Doubling(c / 2, b)
  }

  /** Halving a doubled capacity above `b` gives a doubled capacity, so
      never one below `b`. */
  lemma DoublingHalve(c: nat, b: nat)
    requires Doubling(c, b) && c > b
    ensures Doubling(c / 2, b) && c / 2 >= b
  {
  }

  /** The capacities a growing `resize` passes through stay doublings of `b`. */
  lemma {:induction false} GrownDoubling(c: nat, n: nat, b: nat)
    requires c > 0 && Doubling(c, b)
    ensures Doubling(Grown(c, n), b) && Grown(c, n) >= b
    decreases 10 * n - 7 * c
  {
    if ShouldGrow(n, c) {
      assert Doubling(2 * c, b);
      GrownDoubling(2 * c, n, b);
    }
  }

  /** `int(rate * capacity)` for the two rates. */
  function ResizedCapacity(rate: Rate, c: nat): nat
  {
    if rate == Double then 2 * c else c / 2
  }

  /** A growth resize, or a shrink resize from above `b`, of a doubling of
      `b` ends at a doubling of `b` again. */
  lemma ResizeDoubling(rate: Rate, c: nat, n: nat, b: nat)
    requires Doubling(c, b) && c > 0
    requires rate == Double || c > b
    requires rate == Halve ==> c >= 2
    ensures Doubling(Grown(ResizedCapacity(rate, c), n), b)
  {
    if rate == Double {
      assert Doubling(2 * c, b);
    } else {
      DoublingHalve(c, b);
    }
    GrownDoubling(ResizedCapacity(rate, c), n, b);
  }

  /** The storage after `resize` reinserts one pair through `insert`: the
      chain part, then, when the pair is new and pushes the load factor above
      0.7, the nested growth resize. The nested resize starts below that
      bound and so never nests again (see `Rebuild`). */
  function RefillPut<V>(t: Table<V>, k: string, v: V): (r: Table<V>)
    requires |t| > 0
    ensures |r| > 0
  {
    var u := TablePut(t, k, v);
    if Lookup(t, k).None? && ShouldGrow(|Flatten(u)|, |t|) then Rehash(u, 2 * |t|) else u
  }

  /** The storage after `resize` has reinserted every pair of `es`, in
      order, through `insert`, starting from the storage `t`. */
  function Refill<V>(t: Table<V>, es: Chain<V>): (r: Table<V>)
    requires |t| > 0
    ensures |r| > 0
  {
    if es == [] then t
    else
      var e := es[|es| - 1];
      RefillPut(Refill(t, es[..|es| - 1]), e.key, e.value)
  }

  /** Reinserting one more pair after a list of them. */
  lemma RefillSnoc<V>(t: Table<V>, m: map<string, V>, es: Chain<V>, e: Entry<V>)
    requires |t| > 0
    ensures Refill(t, es + [e]) == RefillPut(Refill(t, es), e.key, e.value)
    ensures MapPutAll(m, es + [e]) == MapPutAll(m, es)[e.key := e.value]
  {
    assert (es + [e])[..|es|] == es;
  }

  /** When even all of `es` as new keys would keep the load factor at most
      0.7, no reinsertion grows the table and `Refill` is plain `PutAll`. */
  lemma {:induction false} RefillNoGrowth<V>(t: Table<V>, es: Chain<V>)
    requires |t| > 0 && 10 * (|Flatten(t)| + |es|) <= 7 * |t|
    ensures Refill(t, es) == PutAll(t, es)
    ensures |Flatten(PutAll(t, es))| <= |Flatten(t)| + |es|
  {
    if es != [] {
      var e := es[|es| - 1];
      RefillNoGrowth(t, es[..|es| - 1]);
      var s := PutAll(t, es[..|es| - 1]);
      var b := BucketIndex(e.key, |s|);
      FlattenUpdate(s, b, Upsert(s[b], e.key, e.value));
    }
  }

  /** A `resize` to `n` buckets of a storage whose entries fit under the 0.7
      bound of `n` buckets reinserts without nesting: it is `Rehash`. */
  lemma RehashWithoutNesting<V>(t: Table<V>, n: nat)
    requires n > 0 && 10 * |Flatten(t)| <= 7 * n
    ensures Refill(EmptyTable(n), Flatten(t)) == Rehash(t, n)
  {
    FlattenEmpty(EmptyTable<V>(n));
    RefillNoGrowth(EmptyTable(n), Flatten(t));
  }

  /** One reinsertion through `insert` keeps the storage well formed, sets
      the pair in the map it holds, and doubles the capacity exactly when a
      new key pushes the load factor above 0.7. */
  lemma RefillPutCorrect<V>(t: Table<V>, m: map<string, V>, k: string, v: V)
    requires WellFormed(t) && Represents(t, m) && |Flatten(t)| == |m|
    ensures WellFormed(RefillPut(t, k, v))
    ensures Represents(RefillPut(t, k, v), m[k := v])
    ensures |Flatten(RefillPut(t, k, v))| == |m[k := v]|
    ensures |RefillPut(t, k, v)| == if k !in m && ShouldGrow(|m[k := v]|, |t|) then 2 * |t| else |t|
  {
    TablePutCorrect(t, m, k, v);
    assert Lookup(t, k) == Get(m, k);
    var u := TablePut(t, k, v);
    if Lookup(t, k).None? && ShouldGrow(|Flatten(u)|, |t|) {
      RehashCorrect(u, m[k := v], 2 * |t|);
    }
  }

  /** Reinserting through `insert`, nested growth included, keeps the storage
      well formed and holds the map built by the same insertions; the
      capacity it ends with is `Grown` of the capacity it started with. */
  lemma {:induction false} RefillCorrect<V>(t: Table<V>, m: map<string, V>, es: Chain<V>)
    requires WellFormed(t) && Represents(t, m) && |Flatten(t)| == |m|
    requires !ShouldGrow(|m|, |t|)
    ensures WellFormed(Refill(t, es))
    ensures Represents(Refill(t, es), MapPutAll(m, es))
    ensures |Flatten(Refill(t, es))| == |MapPutAll(m, es)|
    ensures |Refill(t, es)| == Grown(|t|, |MapPutAll(m, es)|)
  {
    if es != [] {
      var e := es[|es| - 1];
      var p := es[..|es| - 1];
      RefillCorrect(t, m, p);
      var mp := MapPutAll(m, p);
      RefillPutCorrect(Refill(t, p), mp, e.key, e.value);
      assert MapPutAll(m, es) == mp[e.key := e.value];
      GrownPut(|t|, mp, e.key, e.value);
    }
  }

  class HashTable<V> {
    var capacity: nat
    var initialCapacity: nat
    var size: nat
    var storage: array<Chain<V>>

    /** The key-to-value map the table holds. */
    ghost var Contents: map<string, V>

    /** `capacity == len(storage)`, keys unique across all chains, every entry
        in bucket `djb2(key) % capacity`, `Contents` exactly what `retrieve`
        observes, and `size` both the number of keys and the number of
        entries reachable from the storage. */
    ghost predicate Valid()
      reads this, storage
    {
      && 0 < initialCapacity
      && capacity == storage.Length
      && WellFormed(storage[..])
      && Represents(storage[..], Contents)
      && size == |Contents|
      && size == |Flatten(storage[..])|
    }

    /** `HashTable(capacity)`: `capacity` empty buckets, which is also the
        floor for shrinking. */
    constructor (capacity: nat)
      requires capacity > 0
      ensures Valid() && fresh(storage)
      ensures this.capacity == capacity && initialCapacity == capacity
      ensures size == 0 && Contents == map[]
      ensures storage[..] == EmptyTable(capacity)
      ensures 10 * size <= 7 * this.capacity
      ensures Doubling(this.capacity, initialCapacity)
    {
      this.capacity := capacity;
      initialCapacity := capacity;
      storage := new Chain<V>[capacity](_ => []);
      size := 0;
      Contents := map[];
      new;
      assert storage[..] == EmptyTable(capacity);
      EmptyTableCorrect<V>(capacity);
    }

    /** `_hash_mod`: the key's bucket, an index into the storage. */
    method HashMod(key: string) returns (index: nat)
      requires Valid()
      ensures index == BucketIndex(key, capacity) && index < storage.Length
    {
      var h := HashDjb2(key);
      index := h % capacity;
    }

    /** `retrieve`: walks the key's chain from the head and returns the first
        matching value, or `None` once the chain is exhausted. */
    method Retrieve(key: string) returns (r: Option<V>)
      requires Valid()
      ensures r == Get(Contents, key)
      ensures r == Lookup(storage[..], key)
    {
      var index := HashMod(key);
      var node := storage[index];
      var i := 0;
      while i < |node|
        invariant 0 <= i <= |node|
        invariant forall j :: 0 <= j < i ==> node[j].key != key
      {
        if node[i].key == key {
          FindFirst(node, i, key);
          return Some(node[i].value);
        }
        i := i + 1;
      }
      NotFound(node, key);
      return None;
    }

    /** The chain part of `insert` (everything before the load check): the
        value of an existing key is overwritten in place, a new key is
        appended to its chain and counted. `resize` reinserts through this. */
    method Put(key: string, value: V) returns (added: bool)
      requires Valid()
      modifies this, storage
      ensures Valid()
      ensures storage == old(storage) && capacity == old(capacity)
      ensures initialCapacity == old(initialCapacity)
      ensures added == (key !in old(Contents))
      ensures Contents == old(Contents)[key := value]
      ensures size == if added then old(size) + 1 else old(size)
      ensures storage[..] == TablePut(old(storage[..]), key, value)
    {
      ghost var t := storage[..];
      ghost var m := Contents;
      var index := HashMod(key);
      var node := storage[index];
      added := true;
      if |node| == 0 {
        storage[index] := [Entry(key, value)];
      } else {
        var i := 0;
        while i < |node|
          invariant 0 <= i <= |node|
          invariant forall j :: 0 <= j < i ==> node[j].key != key
          invariant storage[..] == t
        {
          if node[i].key == key {
            // node.value = value, and no size change
            storage[index] := node[i := Entry(key, value)];
            UpsertAt(node, i, key, value);
            added := false;
            break;
          }
          i := i + 1;
        }
        if added {
          // prev.next = LinkedPair(key, value)
          storage[index] := node + [Entry(key, value)];
        }
      }
      if added {
        UpsertMissing(node, key, value);
        NotFound(node, key);
        size := size + 1;
      }
      assert storage[..] == t[index := storage[index]];
      assert Lookup(t, key) == Get(m, key);
      TablePutCorrect(t, m, key, value);
      Contents := m[key := value];
    }

    /** `insert`: the chain part, then, only when a new key was added and the
        load factor now exceeds 0.7, a growth resize. */
    method Insert(key: string, value: V)
      requires Valid()
      modifies this, storage
      ensures Valid()
      ensures Contents == old(Contents)[key := value]
      ensures initialCapacity == old(initialCapacity)
      ensures size == if key in old(Contents) then old(size) else old(size) + 1
      ensures capacity == if key !in old(Contents) && ShouldGrow(size, old(capacity))
                          then Grown(2 * old(capacity), size) else old(capacity)
      ensures capacity == old(capacity) ==>
                storage == old(storage) && storage[..] == TablePut(old(storage[..]), key, value)
      ensures capacity != old(capacity) ==>
                fresh(storage) &&
                storage[..] == Refill(EmptyTable(2 * old(capacity)), Flatten(TablePut(old(storage[..]), key, value)))
      ensures key !in old(Contents) || old(10 * size <= 7 * capacity) ==> 10 * size <= 7 * capacity
      ensures old(10 * size <= 7 * capacity) && capacity != old(capacity) ==>
                capacity == 2 * old(capacity) &&
                storage[..] == Rehash(TablePut(old(storage[..]), key, value), capacity)
      ensures old(Doubling(capacity, initialCapacity)) ==>
                Doubling(capacity, initialCapacity) && capacity >= initialCapacity
    {
      var added := Put(key, value);
      if added && ShouldGrow(size, capacity) {
        ghost var u := storage[..];
        ghost var c := capacity;
        Resize(Double);
        if old(10 * size <= 7 * capacity) {
          assert !ShouldGrow(size, 2 * c);
          RehashWithoutNesting(u, 2 * c);
        }
      }
    }

    /** The chain part of `remove` (everything before the load check): walks
        the key's chain tracking the previous node and unlinks the first
        match. The result is whether a node was removed. */
    method Unlink(key: string) returns (removed: bool)
      requires Valid()
      modifies this, storage
      ensures Valid()
      ensures storage == old(storage) && capacity == old(capacity)
      ensures initialCapacity == old(initialCapacity)
      ensures removed == (key in old(Contents))
      ensures Contents == old(Contents) - {key}
      ensures size == if removed then old(size) - 1 else old(size)
      ensures storage[..] == TableDelete(old(storage[..]), key)
      ensures !removed ==> storage[..] == old(storage[..])
    {
      ghost var t := storage[..];
      ghost var m := Contents;
      removed := false;
      var index := HashMod(key);
      var node := storage[index];
      var i := 0;
      while i < |node|
        invariant 0 <= i <= |node|
        invariant forall j :: 0 <= j < i ==> node[j].key != key
        invariant !removed && storage[..] == t && size == old(size)
      {
        if node[i].key == key {
          if i > 0 {
            // prev.next = node.next
            storage[index] := node[..i] + node[i + 1..];
          } else {
            // the head moves on to node.next
            storage[index] := node[1..];
          }
          FindFirst(node, i, key);
          assert Lookup(t, key) == Get(m, key);
          removed := true;
          size := size - 1;
          break;
        }
        i := i + 1;
      }
      if removed {
        DeleteAt(node, i, key);
      } else {
        DeleteMissing(node, key);
        NotFound(node, key);
        assert t[index := node] == t;
      }
      assert storage[..] == t[index := storage[index]];
      assert Lookup(t, key) == Get(m, key);
      TableDeleteCorrect(t, m, key);
      Contents := m - {key};
    }

    /** `remove`: the chain part, then, only after a successful removal that
        leaves the load factor below 0.2 with the capacity above the initial
        one, a shrink resize. The result is whether a node was removed; the
        source prints a warning when none was. */
    method Remove(key: string) returns (removed: bool)
      requires Valid()
      modifies this, storage
      ensures Valid()
      ensures removed == (key in old(Contents))
      ensures Contents == old(Contents) - {key}
      ensures initialCapacity == old(initialCapacity)
      ensures size == if removed then old(size) - 1 else old(size)
      ensures capacity == if removed && ShouldShrink(size, old(capacity), initialCapacity)
                          then old(capacity) / 2 else old(capacity)
      ensures !removed ==> storage == old(storage) && storage[..] == old(storage[..])
      ensures capacity == old(capacity) ==>
                storage == old(storage) && storage[..] == TableDelete(old(storage[..]), key)
      ensures capacity != old(capacity) ==>
                fresh(storage) && storage[..] == Rehash(TableDelete(old(storage[..]), key), capacity)
      ensures old(10 * size <= 7 * capacity) ==> 10 * size <= 7 * capacity
      ensures old(Doubling(capacity, initialCapacity)) ==>
                Doubling(capacity, initialCapacity) && capacity >= initialCapacity
    {
      removed := Unlink(key);
      if removed && ShouldShrink(size, capacity, initialCapacity) {
        ghost var u := storage[..];
        ghost var c := capacity;
        Resize(Halve);
        assert !ShouldGrow(size, c / 2);
        RehashWithoutNesting(u, c / 2);
      }
    }

    /** The inner loop of the nested resize `Rebuild`: walks one old chain
        from its head and inserts each of its pairs, in order, through the
        chain part of `insert` (its load check cannot fire there). `seen` is the
        list of pairs reinserted before, into an initially empty storage. */
    method Reinsert(node: Chain<V>, ghost base: Table<V>, ghost seen: Chain<V>)
      requires Valid() && |base| > 0
      requires storage[..] == PutAll(base, seen)
      requires Contents == MapPutAll(map[], seen)
      modifies this, storage
      ensures Valid()
      ensures storage == old(storage) && capacity == old(capacity)
      ensures initialCapacity == old(initialCapacity)
      ensures storage[..] == PutAll(base, seen + node)
      ensures Contents == MapPutAll(map[], seen + node)
    {
      ghost var done := seen;
      for j := 0 to |node|
        invariant storage == old(storage) && capacity == old(capacity)
        invariant initialCapacity == old(initialCapacity)
        invariant Valid()
        invariant done == seen + node[..j]
        invariant storage[..] == PutAll(base, done)
        invariant Contents == MapPutAll(map[], done)
      {
        SliceSnoc(seen, node, j);
        PutAllSnoc(base, map[], done, node[j]);
        done := done + [node[j]];
        var _ := Put(node[j].key, node[j].value);
      }
      assert node[..|node|] == node;
    }

    /** The two loops of the nested resize `Rebuild`: visits the old buckets
        in order and reinserts each chain, into a storage that started out as
        `base`. */
    method ReinsertAll(chains: Table<V>, ghost base: Table<V>)
      requires Valid() && |base| > 0
      requires storage[..] == base && Contents == map[]
      modifies this, storage
      ensures Valid()
      ensures storage == old(storage) && capacity == old(capacity)
      ensures initialCapacity == old(initialCapacity)
      ensures storage[..] == PutAll(base, Flatten(chains))
      ensures Contents == MapPutAll(map[], Flatten(chains))
    {
      ghost var done: Chain<V> := [];
      for i := 0 to |chains|
        invariant storage == old(storage) && capacity == old(capacity)
        invariant initialCapacity == old(initialCapacity)
        invariant Valid()
        invariant done == Flatten(chains[..i])
        invariant storage[..] == PutAll(base, done)
        invariant Contents == MapPutAll(map[], done)
      {
        FlattenSnoc(chains, i);
        Reinsert(chains[i], base, done);
        done := done + chains[i];
      }
      assert chains[..|chains|] == chains;
    }

    /** The growth `resize()` that a reinsertion of `resize` sets off. Its
        `newCapacity` buckets leave the load factor at or below 0.7 even with
        every entry reinserted (`10 * size <= 7 * newCapacity`), so the load
        check of each of its own reinsertions fails and each of them is the
        chain part of `insert` alone: it rehashes without nesting. */
    method Rebuild(newCapacity: nat)
      requires Valid() && newCapacity > 0
      requires 10 * size <= 7 * newCapacity
      modifies this
      ensures Valid() && fresh(storage)
      ensures capacity == newCapacity
      ensures Contents == old(Contents) && size == old(size)
      ensures initialCapacity == old(initialCapacity)
      ensures storage[..] == Rehash(old(storage[..]), capacity)
      ensures storage[..] == Refill(EmptyTable(capacity), Flatten(old(storage[..])))
    {
      var oldStorage := storage[..];
      ghost var m := Contents;
      capacity := newCapacity;
      size := 0;
      storage := new Chain<V>[newCapacity](_ => []);
      Contents := map[];
      ghost var empty := EmptyTable(newCapacity);
      assert storage[..] == empty;
      EmptyTableCorrect<V>(newCapacity);
      ReinsertAll(oldStorage, empty);
      RehashMap(oldStorage, m);
      RehashWithoutNesting(oldStorage, newCapacity);
    }

    /** `insert` as `resize` calls it: the chain part, then, when a new key
        pushes the load factor above 0.7, the nested growth resize. The table
        is at or below that bound when the pair arrives. */
    method InsertDuringResize(key: string, value: V)
      requires Valid() && !ShouldGrow(size, capacity)
      modifies this, storage
      ensures Valid()
      ensures storage == old(storage) || fresh(storage)
      ensures initialCapacity == old(initialCapacity)
      ensures Contents == old(Contents)[key := value]
      ensures size == if key in old(Contents) then old(size) else old(size) + 1
      ensures capacity == if key !in old(Contents) && ShouldGrow(size, old(capacity))
                          then 2 * old(capacity) else old(capacity)
      ensures storage[..] == RefillPut(old(storage[..]), key, value)
    {
      assert Lookup(storage[..], key) == Get(Contents, key);
      var added := Put(key, value);
      if added && ShouldGrow(size, capacity) {
        Rebuild(2 * capacity);
      }
    }

    /** One step of the inner loop of `resize`: `done` is the list of pairs
        reinserted before, into a storage that started out as `base`. */
    method RefillInsert(e: Entry<V>, ghost base: Table<V>, ghost done: Chain<V>)
      requires Valid() && |base| > 0
      requires storage[..] == Refill(base, done)
      requires Contents == MapPutAll(map[], done)
      requires capacity == Grown(|base|, size)
      modifies this, storage
      ensures Valid()
      ensures storage == old(storage) || fresh(storage)
      ensures initialCapacity == old(initialCapacity)
      ensures storage[..] == Refill(base, done + [e])
      ensures Contents == MapPutAll(map[], done + [e])
      ensures capacity == Grown(|base|, size)
    {
      RefillSnoc(base, map[], done, e);
      GrownStep(|base|, size);
      InsertDuringResize(e.key, e.value);
    }

    /** The inner loop of `resize`: walks one old chain from its head and
        reinserts each pair through `insert`. `seen` is the list of pairs
        reinserted before, into a storage that started out as `base`. */
    method RefillChain(node: Chain<V>, ghost base: Table<V>, ghost seen: Chain<V>)
      requires Valid() && |base| > 0
      requires storage[..] == Refill(base, seen)
      requires Contents == MapPutAll(map[], seen)
      requires capacity == Grown(|base|, size)
      modifies this, storage
      ensures Valid()
      ensures storage == old(storage) || fresh(storage)
      ensures initialCapacity == old(initialCapacity)
      ensures storage[..] == Refill(base, seen + node)
      ensures Contents == MapPutAll(map[], seen + node)
      ensures capacity == Grown(|base|, size)
    {
      ghost var done := seen;
      for j := 0 to |node|
        invariant Valid()
        invariant storage == old(storage) || fresh(storage)
        invariant initialCapacity == old(initialCapacity)
        invariant done == seen + node[..j]
        invariant storage[..] == Refill(base, done)
        invariant Contents == MapPutAll(map[], done)
        invariant capacity == Grown(|base|, size)
      {
        SliceSnoc(seen, node, j);
        RefillInsert(node[j], base, done);
        done := done + [node[j]];
      }
      assert node[..|node|] == node;
    }

    /** The two loops of `resize`: visits the old buckets in order and
        reinserts each chain, into a storage that started out as `base`. */
    method RefillAll(chains: Table<V>, ghost base: Table<V>)
      requires Valid() && |base| > 0
      requires storage[..] == base && Contents == map[]
      modifies this, storage
      ensures Valid()
      ensures storage == old(storage) || fresh(storage)
      ensures initialCapacity == old(initialCapacity)
      ensures storage[..] == Refill(base, Flatten(chains))
      ensures Contents == MapPutAll(map[], Flatten(chains))
      ensures capacity == Grown(|base|, size)
    {
      ghost var done: Chain<V> := [];
      for i := 0 to |chains|
        invariant Valid()
        invariant storage == old(storage) || fresh(storage)
        invariant initialCapacity == old(initialCapacity)
        invariant done == Flatten(chains[..i])
        invariant storage[..] == Refill(base, done)
        invariant Contents == MapPutAll(map[], done)
        invariant capacity == Grown(|base|, size)
      {
        FlattenSnoc(chains, i);
        RefillChain(chains[i], base, done);
        done := done + chains[i];
      }
      assert chains[..|chains|] == chains;
    }

    /** `resize(rate)`: a fresh storage of `int(rate * capacity)` buckets into
        which every old entry is inserted again through `insert`, visiting the
        old buckets in order and each chain from its head. Size restarts at 0
        and is counted back up by the reinsertions, whose load checks grow the
        new storage again whenever it fills beyond 0.7. */
    method Resize(rate: Rate)
      requires Valid()
      requires rate == Halve ==> capacity >= 2
      modifies this
      ensures Valid() && fresh(storage)
      ensures Contents == old(Contents) && size == old(size)
      ensures initialCapacity == old(initialCapacity)
      ensures capacity == Grown(ResizedCapacity(rate, old(capacity)), size)
      ensures storage[..] == Refill(EmptyTable(ResizedCapacity(rate, old(capacity))), Flatten(old(storage[..])))
      ensures 10 * size <= 7 * capacity
      ensures old(Doubling(capacity, initialCapacity)) && (rate == Double || old(capacity) > initialCapacity) ==>
                Doubling(capacity, initialCapacity)
    {
      var oldStorage := storage[..];
      ghost var m := Contents;
      ghost var c := capacity;
      var newCapacity := ResizedCapacity(rate, capacity);
      capacity := newCapacity;
      size := 0;
      storage := new Chain<V>[newCapacity](_ => []);
      Contents := map[];
      ghost var empty := EmptyTable(newCapacity);
      assert storage[..] == empty;
      EmptyTableCorrect<V>(newCapacity);
      RefillAll(oldStorage, empty);
      RehashMap(oldStorage, m);
      if Doubling(c, initialCapacity) && (rate == Double || c > initialCapacity) {
        ResizeDoubling(rate, c, size, initialCapacity);
      }
    }
  }
}
