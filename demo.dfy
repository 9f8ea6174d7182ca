/** The scenario of the `__main__` driver of src/hashtable.py, restated as a
    client of the verified interface: a table of two buckets grows while three
    keys are inserted, keeps every value, and keeps them again across an
    explicit doubling resize. The keys are parameters so that the proof does
    not depend on their hash values; `DemoScenario` passes the driver's keys. */
module Demo {
  import opened Optional
  import opened HashTables

  /** The three pairs the driver stores. */
  function Lines(k1: string, k2: string, k3: string): map<string, string>
  {
    map[k1 := "Tiny hash table", k2 := "Filled beyond capacity", k3 := "Linked list saves the day!"]
  }

  /** Capacity 2, two inserts of distinct keys: the second one pushes the
      load factor to 1.0 and doubles the capacity. */
  method FillTwo(k1: string, k2: string) returns (ht: HashTable<string>)
    requires k1 != k2
    ensures fresh(ht) && fresh(ht.storage) && ht.Valid()
    ensures ht.capacity == 4 && ht.initialCapacity == 2 && ht.size == 2
    ensures ht.Contents == map[k1 := "Tiny hash table", k2 := "Filled beyond capacity"]
  {
    ht := new HashTable<string>(2);
    ht.Insert(k1, "Tiny hash table");
    assert ht.size == 1 && ht.capacity == 2;
    ht.Insert(k2, "Filled beyond capacity");
  }

  /** Capacity 2, three inserts of distinct keys: the second and the third
      insert each double the capacity. */
  method FillBeyondCapacity(k1: string, k2: string, k3: string) returns (ht: HashTable<string>)
    requires k1 != k2 && k1 != k3 && k2 != k3
    ensures fresh(ht) && ht.Valid()
    ensures ht.capacity == 8 && ht.initialCapacity == 2 && ht.Contents == Lines(k1, k2, k3)
    ensures ht.size == 3
  {
    ht := FillTwo(k1, k2);
    ht.Insert(k3, "Linked list saves the day!");
  }

  /** The three retrievals of the driver each return the stored value. */
  method RetrieveLines(ht: HashTable<string>, k1: string, k2: string, k3: string)
    requires k1 != k2 && k1 != k3 && k2 != k3
    requires ht.Valid() && ht.Contents == Lines(k1, k2, k3)
  {
    var r1 := ht.Retrieve(k1);
    var r2 := ht.Retrieve(k2);
    var r3 := ht.Retrieve(k3);
    assert r1 == Some("Tiny hash table");
    assert r2 == Some("Filled beyond capacity");
    assert r3 == Some("Linked list saves the day!");
  }

  method DemoScenario()
  {
    var ht := FillBeyondCapacity("line_1", "line_2", "line_3");
    RetrieveLines(ht, "line_1", "line_2", "line_3");
    var oldCapacity := ht.storage.Length;
    ht.Resize(Double);
    assert !ShouldGrow(ht.size, 16);
    var newCapacity := ht.storage.Length;
    assert oldCapacity == 8 && newCapacity == 16;
    RetrieveLines(ht, "line_1", "line_2", "line_3");
  }
}
