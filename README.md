# A verified model of a chained, self-resizing string hash table

This project models `HashTable` in `src/hashtable.py` and proves properties of the model. `HashTable` is a hash table with string keys and separate chaining:

- Each of its `capacity` buckets holds a singly linked chain of `LinkedPair` nodes.
- A key's bucket is `djb2(key) % capacity`.
- `insert` overwrites the value of a key that is already present, or appends a new node at the tail of the chain.
- `retrieve` walks the chain.
- `remove` unlinks the first match.
- The table doubles when the load factor `size / capacity` exceeds 0.7 after an insertion. It halves when the load factor falls below 0.2 after a removal, provided the capacity is above the initial capacity.
- A resize rehashes every pair into a fresh storage array through `insert`, whose own load check can grow the array again in the middle of the rehash.

The files:

- `hashing.dfy` (module `Hashing`):
  - DJB2 as a left fold over the key (`Djb2`).
  - The accumulator loop `HashDjb2`, proved to compute it.
  - The bucket index `BucketIndex`.
- `chains.dfy` (module `Chains`):
  - A `LinkedPair` chain is modelled as the sequence of its key/value pairs in chain order. The head is element 0, and a node's `next` is the element after it.
  - `Find`, `Upsert` and `Delete` specify the three chain walks of the source.
  - Lemmas relate these walks to positions in the chain.
- `buckets.dfy` (module `Buckets`):
  - The storage as a value: one chain per bucket.
  - `WellFormed` is the storage invariant: keys are distinct, and every entry sits in bucket `djb2(key) % capacity`.
  - `Represents(t, m)` says that what `retrieve` observes is exactly the map `m`.
  - `TablePut`, `TableDelete` and `Rehash` give the effect of the operations on a storage value. The lemmas prove that each keeps the invariant and changes the map as intended.
- `hashtable.dfy` (module `HashTables`):
  - The class `HashTable<V>` with the source's fields `capacity`, `initialCapacity`, `size` and `storage` (an `array` of chains), plus a ghost `Contents` map.
  - `Valid()` ties these together:
    - `capacity == storage.Length`;
    - the storage is well formed and represents `Contents`;
    - `size` is both `|Contents|` and the number of reachable entries.
  - Every method is proved against that abstraction and against the storage functions of `Buckets`.
  - `Refill` is the effect on the storage of reinserting through `insert`, nested growth included, and `Grown` is the capacity that reinsertion ends with.
  - `Doubling(c, b)` says that `c` is `b` doubled zero or more times. It is how "shrinking never goes below the initial capacity" is carried.
- `demo.dfy` (module `Demo`): the `__main__` driver's scenario as a verified client.
- `option.dfy` (module `Optional`): `Option` and the map lookup `Get`.

Arithmetic and messages as the source has them:

- DJB2 is computed on unbounded Python integers, so there is no fixed-width wrap-around.
- `resize` sizes the new storage as `int(rate * capacity)`. That is truncation with no minimum, and the model writes it as `ResizedCapacity`.
- `remove` prints a warning when the key is absent and returns nothing. The model returns `removed` instead.
- `resize` reinserts through `insert`, so a reinsertion that pushes the load factor above 0.7 starts a nested growth resize part-way through the rehash. The model does the same: `InsertDuringResize` and `Rebuild`. A resize therefore ends at `Grown` of the capacity it asked for. That is the first of `c`, `2c`, `4c`, ... whose load factor is at most 0.7.

## Model

| member | source | states |
|---|---|---|
| `Hashing.Djb2Snoc` | src/hashtable.py:38-41 | The hash of the empty key is 5381. Each further character turns hash `h` into `33*h + ord(c)`, from left to right. `(h << 5) + h` is `33*h`. |
| `Hashing.HashDjb2` | src/hashtable.py:32-41 | The accumulator loop of `_hash_djb2` returns exactly the DJB2 hash of the key, a function of the key alone. |
| `Hashing.BucketIndex` | src/hashtable.py:44-49 | For capacity > 0 the bucket index lies in `[0, capacity)`. It is the remainder of the hash divided by the capacity. |
| `HashTables.HashTable.HashMod` | src/hashtable.py:44-49 | `_hash_mod` on a valid table returns the key's bucket, which is a valid index into `storage`. This makes every storage access in insert, remove and retrieve in bounds. |
| `Chains.Find` | src/hashtable.py:111-116 | The chain walk finds a value exactly when some node of the chain carries the key. |
| `Chains.FindFirst` | src/hashtable.py:112-114 | The walk returns the value of the first node whose key matches. |
| `Chains.NotFound` | src/hashtable.py:112-116 | A walk that meets no matching node reports not found, and the key is not in the chain. |
| `Chains.Upsert` | src/hashtable.py:58-71 | After insert the chain's keys are the old keys plus the new one. Its length grows by one exactly when the key was absent. |
| `Chains.FindUpsert` | src/hashtable.py:60-71 | After insert, the chain maps the key to the new value and every other key to its old value. |
| `Chains.UpsertDistinct` | src/hashtable.py:64-71 | Insert never creates a second node for a key. |
| `Chains.UpsertAt` | src/hashtable.py:64-67 | An existing key's node has its value overwritten in place. No other node moves. |
| `Chains.UpsertMissing` | src/hashtable.py:60-70 | An absent key gets a new node at the tail of the chain, or as the head of an empty chain. |
| `Chains.Delete` | src/hashtable.py:83-97 | After remove the chain's keys are a subset of the old ones. Its length drops by one exactly when the key was present. |
| `Chains.FindDelete` | src/hashtable.py:87-95 | In a chain without repeated keys, remove makes the key absent, keeps every other key's value and keeps the keys distinct. |
| `Chains.DeleteAt` | src/hashtable.py:87-95 | The first matching node is unlinked, through `prev.next` or by moving the head on. All other nodes keep their order. |
| `Chains.DeleteMissing` | src/hashtable.py:87-97 | Removing a key that no node carries leaves the chain unchanged. |
| `Buckets.EmptyTableCorrect` | src/hashtable.py:18 | A fresh storage of empty buckets is well formed, holds the empty map and has no entries. |
| `Buckets.TablePutCorrect` | src/hashtable.py:58-71 | The storage stays well formed after the chain part of insert. The key maps to the value and every other key is unchanged. The entry count grows by one exactly when the key was new. |
| `Buckets.TableDeleteCorrect` | src/hashtable.py:83-97 | The storage stays well formed after the chain part of remove. The key becomes absent and every other key is unchanged. The entry count drops by one exactly when the key was present. |
| `Buckets.KeysUniqueAcrossChains` | src/hashtable.py:129-132 | In a well-formed storage no key occurs in two nodes anywhere. Walking all chains in resize's order finds exactly what `retrieve` finds. |
| `Buckets.PutAllCorrect` | src/hashtable.py:129-132 | Inserting a list of pairs without resizing keeps the storage well formed. The storage then holds the map built by the same insertions, and its entry count is that map's size. |
| `Buckets.RehashMap` | src/hashtable.py:124-132 | Reinserting every pair of a well-formed storage, in resize's order, rebuilds exactly the map the storage held. |
| `Buckets.RehashCorrect` | src/hashtable.py:124-132 | A rehash into any positive number of buckets has that many buckets. Every entry sits in its bucket for the new capacity, the key-to-value map is unchanged, and the entry count is the number of keys. |
| `HashTables.ShouldGrow` | src/hashtable.py:73 | The integer growth test `10*size > 7*capacity` is exactly `size / capacity > 0.7` on exact rationals. |
| `HashTables.ShouldShrink` | src/hashtable.py:99 | The integer shrink test `5*size < capacity` together with `capacity > initial_capacity` is exactly the source's `size / capacity < 0.2 and capacity > initial_capacity` on exact rationals. |
| `HashTables.Grown` | src/hashtable.py:73 | The capacity a resize ends with is at least the one it started from, and leaves the load factor at or below 0.7. It is the first doubling that does: either the start capacity, or twice a capacity whose load factor exceeds 0.7. |
| `HashTables.GrownStep` | src/hashtable.py:73-74 | One more key doubles the capacity a resize ends with exactly when that key pushes the load factor above 0.7, and never doubles it twice. |
| `HashTables.GrownDoubling` | src/hashtable.py:124 | The capacities a growing resize passes through stay doublings of the initial capacity, and never fall below it. |
| `HashTables.DoublingHalve` | src/hashtable.py:99-100 | Halving a doubling of the initial capacity that lies above the initial capacity gives a doubling again, never below the initial capacity. |
| `HashTables.ResizeDoubling` | src/hashtable.py:124 | A growth resize, or a shrink resize from above the initial capacity, of a doubling of the initial capacity ends at a doubling of it. |
| `HashTables.RefillPutCorrect` | src/hashtable.py:52-74 | One reinsertion through `insert` keeps the storage well formed and holds the map with the pair set. The entry count is the map size. The capacity doubles exactly when a new key pushes the load factor above 0.7. |
| `HashTables.RefillCorrect` | src/hashtable.py:124-132 | Reinsertion through `insert`, nested growth included, keeps the storage well formed and holds the map built by the same insertions. The entry count is that map's size, and the capacity is `Grown` of the start capacity for that size. |
| `HashTables.RefillNoGrowth` | src/hashtable.py:73 | When all the reinserted pairs fit under the 0.7 bound, no reinsertion grows the table. Reinsertion through `insert` is then the plain chain part, `PutAll`. |
| `HashTables.RehashWithoutNesting` | src/hashtable.py:124-132 | A resize to `n` buckets of a storage whose entries fit under the 0.7 bound of `n` buckets is the plain `Rehash`. |
| `HashTables.HashTable.constructor` | src/hashtable.py:15-19 | A new table has `capacity` empty buckets, size 0 and the empty map. It records its initial capacity, and that capacity is trivially a doubling of itself. |
| `HashTables.HashTable.Retrieve` | src/hashtable.py:105-116 | `retrieve` changes nothing. It returns the key's value in the abstract map, or `None` when the key is absent. |
| `HashTables.HashTable.Put` | src/hashtable.py:58-71 | The chain part of insert sets the key's value and leaves every other key unchanged. `size` grows by one exactly when the key was new. The storage becomes `TablePut` of the old one, so an existing key's node is updated in place and a new key is appended. Capacity and all invariants are kept. |
| `HashTables.HashTable.Insert` | src/hashtable.py:52-74 | After insert, the key maps to the value and every other key is unchanged. Overwriting an existing key leaves size, capacity and storage array untouched, with no resize. A new key adds one to size. Growth happens exactly when the new key pushes `10*size` above `7*capacity`. The capacity then becomes `Grown(2*capacity, size)`, and the storage becomes the reinsertion through `insert` of the updated one. From a table within the load bound, this is exactly a doubling and a plain rehash. The load bound and, from a doubling of the initial capacity, "a doubling of the initial capacity and never below it" are preserved. |
| `HashTables.HashTable.Unlink` | src/hashtable.py:83-97 | The chain part of remove reports whether the key was present and makes it absent. Every other key is unchanged, and `size` drops by one exactly on removal. The storage becomes `TableDelete` of the old one. An absent key changes nothing. |
| `HashTables.HashTable.Remove` | src/hashtable.py:77-102 | Remove reports presence, removes the key and decrements size. An absent key leaves storage and size unchanged. Capacity halves (floor) exactly after a removal with `5*size < capacity` and `capacity > initial_capacity`. The storage is then the plain rehash, because the halved table is within the load bound and no reinsertion grows it again. The load bound is preserved. From a doubling of the initial capacity, the capacity stays a doubling of it and never below it. |
| `HashTables.HashTable.Reinsert` | src/hashtable.py:130-132 | The inner loop of the nested resize reinserts one old chain from its head, in order, and gives `PutAll` of it. |
| `HashTables.HashTable.ReinsertAll` | src/hashtable.py:129-132 | The loops of the nested resize reinsert every old chain in bucket order, giving `PutAll` of the flattened old storage. |
| `HashTables.HashTable.Resize` | src/hashtable.py:119-132 | The storage is a fresh array. It equals `Refill` of the flattened old storage into `int(rate * capacity)` empty buckets, which is reinsertion through `insert` with its nested growth. The capacity is `Grown` of `int(rate * capacity)`. The map and size are unchanged, the load factor ends at or below 0.7, and every invariant holds. A doubling, or a halving from above the initial capacity, keeps the capacity a doubling of the initial one. |
| `HashTables.HashTable.Rebuild` | src/hashtable.py:119-132 | The nested growth `resize()` set off by a reinsertion runs on a storage whose entries fit under the 0.7 bound of the new capacity. Its own reinsertions never grow it again. It yields the plain `Rehash` with the same map and size, and that equals what reinsertion through `insert` would give. |
| `HashTables.HashTable.InsertDuringResize` | src/hashtable.py:52-74 | `insert` as `resize` calls it sets the pair and adds one to size for a new key. It doubles the capacity exactly when a new key pushes `10*size` above `7*capacity`. The storage becomes `RefillPut` of the old one. |
| `HashTables.HashTable.RefillInsert` | src/hashtable.py:131 | One reinsertion of `resize` extends the reinserted list by one pair. The storage stays `Refill` of it, the map stays `MapPutAll` of it, and the capacity stays `Grown` of the start capacity for the current size. |
| `HashTables.HashTable.RefillChain` | src/hashtable.py:130-132 | The inner loop of `resize` reinserts one old chain from its head, in order, through `insert`. The storage becomes `Refill` of the pairs seen so far, and the capacity becomes `Grown` for the size reached. |
| `HashTables.HashTable.RefillAll` | src/hashtable.py:129-132 | The two loops of `resize` reinsert every old chain in bucket order through `insert`. This gives `Refill` and `MapPutAll` of the flattened old storage and capacity `Grown`. |
| `Demo.FillTwo` | src/hashtable.py:136-139 | Starting from capacity 2, two inserts of distinct keys double the capacity to 4 and hold exactly the two pairs. |
| `Demo.FillBeyondCapacity` | src/hashtable.py:136-140 | Starting from capacity 2, three inserts of distinct keys end at capacity 8, with size 3, holding exactly the three pairs. |

## Left out

- `_hash` (src/hashtable.py:23-29) wraps Python's salted built-in `hash()`, a foreign call, and bucket placement never uses it.
- The warning that `remove` prints when the key is absent is I/O. `Remove` returns `removed` instead.
- The `__main__` driver's printing is I/O. Its scenario is restated in `demo.dfy`, with the three keys as parameters so that the proof does not depend on their hash values. `DemoScenario` passes the driver's literal keys.
- Floating point: the load tests are integer comparisons, shown equal to the comparisons on exact rationals. Rounding of Python floats is not modelled. It could only matter for sizes near 2^53. `int(rate * capacity)` is modelled for the two rates the source uses, 2 and 0.5 (`Rate.Double`, `Rate.Halve`). Other rates are not modelled.
- HashTables.HashTable.Resize: requires `capacity >= 2` for `Halve`. On capacity 1 the source would produce a table of zero buckets, and any later hash would divide by zero. The shrink that `remove` triggers always meets this, because it needs `capacity > initial_capacity >= 1`.
- HashTables.HashTable.constructor: requires `capacity > 0`. The source accepts any integer. With a capacity of 0, the first `insert`, `remove` or `retrieve` raises `ZeroDivisionError` at `% self.capacity`. With a negative capacity, `[None] * capacity` is the empty list, Python's `%` by a negative number returns a non-positive index without raising, and the first `self.storage[index]` raises `IndexError`.
- HashTables.HashTable.Insert: the capacity is `Doubling` of the initial capacity, so never below it, for every table built by the constructor and changed only through `Insert` and `Remove`. A caller's explicit `Resize(Halve)` at the initial capacity can break this, as it can in the source. The ensures therefore states it as preserved, not as part of `Valid()`.
- HashTables.HashTable.Remove: the same conditional form of "never below the initial capacity" as for `Insert`.
- Keys are Dafny strings, whose characters are Unicode scalar values. A Python `str` can also hold lone surrogates (code points 0xD800-0xDFFF), which `ord` hashes like any other character. Keys holding them are not modelled.
- Node identity: a `LinkedPair` node and its `next` pointer are modelled by a place in a sequence. Overwriting `node.value` or relinking `prev.next` is modelled as storing the updated chain back into the node's bucket. Node aliasing is not observable, because the source never hands nodes out.
- `retrieve` returning `None` for both "absent" and "stored `None`" is modelled as `Option<V>`, which distinguishes the two.
