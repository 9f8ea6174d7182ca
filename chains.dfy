/** One bucket's chain of `LinkedPair` nodes (src/hashtable.py:4-8), modelled
    as the sequence of its key/value pairs in chain order: the head is
    element 0 and a node's `next` is the element after it. The functions
    below are the specifications of the three chain walks of the source:
    `Find` (retrieve), `Upsert` (insert) and `Delete` (remove). */
module Chains {
  import opened Optional

  /** A `LinkedPair` without its link. */
  datatype Entry<V> = Entry(key: string, value: V)

  type Chain<V> = seq<Entry<V>>

  /** The keys stored in a chain. */
  function Keys<V>(c: Chain<V>): set<string>
  {
    if c == [] then {} else {c[0].key} + Keys(c[1..])
  }

  /** No key occurs twice in the chain. */
  predicate Distinct<V>(c: Chain<V>)
  {
    c == [] || (c[0].key !in Keys(c[1..]) && Distinct(c[1..]))
  }

  /** The value of the first node whose key is `k`, walking from the head. */
  function Find<V>(c: Chain<V>, k: string): (r: Option<V>)
    ensures r.Some? <==> k in Keys(c)
  {
    if c == [] then None
    else if c[0].key == k then Some(c[0].value)
    else Find(c[1..], k)
  }

  /** The chain after `insert`: the first node with key `k` gets value `v` in
      place; without such a node a new one is appended at the tail (or becomes
      the head of an empty chain). */
  function Upsert<V>(c: Chain<V>, k: string, v: V): (r: Chain<V>)
    ensures Keys(r) == Keys(c) + {k}
    ensures |r| == if k in Keys(c) then |c| else |c| + 1
  {
    if c == [] then [Entry(k, v)]
    else if c[0].key == k then [Entry(k, v)] + c[1..]
    else [c[0]] + Upsert(c[1..], k, v)
  }

  /** The chain after `remove`: the first node with key `k` is unlinked and
      every other node keeps its place. */
  function Delete<V>(c: Chain<V>, k: string): (r: Chain<V>)
    ensures Keys(r) <= Keys(c)
    ensures |r| == if k in Keys(c) then |c| - 1 else |c|
  {
    if c == [] then []
    else if c[0].key == k then c[1..]
    else [c[0]] + Delete(c[1..], k)
  }

  /** Taking one more node of `c` after the ones taken so far. */
  lemma SliceSnoc<V>(prefix: Chain<V>, c: Chain<V>, j: nat)
    requires j < |c|
    ensures prefix + c[..j + 1] == (prefix + c[..j]) + [c[j]]
  {
    assert c[..j + 1] == c[..j] + [c[j]];
  }

  /** A key is in a chain exactly when some node carries it. */
  lemma {:induction false} KeysAt<V>(c: Chain<V>, k: string)
    ensures k in Keys(c) <==> exists j :: 0 <= j < |c| && c[j].key == k
  {
    if c != [] {
      KeysAt(c[1..], k);
      if k in Keys(c[1..]) {
        var j :| 0 <= j < |c[1..]| && c[1..][j].key == k;
        assert c[j + 1].key == k;
      }
      if exists j :: 0 <= j < |c| && c[j].key == k {
        var j :| 0 <= j < |c| && c[j].key == k;
        if j > 0 {
          assert c[1..][j - 1].key == k;
        }
      }
    }
  }

  /** The walk stops at the first node carrying `k`. */
  lemma {:induction false} FindFirst<V>(c: Chain<V>, i: nat, k: string)
    requires i < |c| && c[i].key == k
    requires forall j :: 0 <= j < i ==> c[j].key != k
    ensures Find(c, k) == Some(c[i].value)
  {
    if i > 0 {
      FindFirst(c[1..], i - 1, k);
    }
  }

  /** A walk that meets no node carrying `k` reports not found. */
  lemma NotFound<V>(c: Chain<V>, k: string)
    requires forall j :: 0 <= j < |c| ==> c[j].key != k
    ensures Find(c, k) == None && k !in Keys(c)
  {
    KeysAt(c, k);
  }

  /** After `Upsert`, `k` maps to `v` and every other key to what it did before. */
  lemma {:induction false} FindUpsert<V>(c: Chain<V>, k: string, v: V, k': string)
    ensures Find(Upsert(c, k, v), k') == if k' == k then Some(v) else Find(c, k')
  {
    if c != [] && c[0].key != k {
      FindUpsert(c[1..], k, v, k');
      assert Upsert(c, k, v)[1..] == Upsert(c[1..], k, v);
    } else if c != [] {
      assert Upsert(c, k, v)[1..] == c[1..];
    }
  }

  /** `Upsert` keeps the keys distinct. */
  lemma {:induction false} UpsertDistinct<V>(c: Chain<V>, k: string, v: V)
    requires Distinct(c)
    ensures Distinct(Upsert(c, k, v))
  {
    if c != [] && c[0].key != k {
      UpsertDistinct(c[1..], k, v);
      assert Upsert(c, k, v)[1..] == Upsert(c[1..], k, v);
    } else if c != [] {
      assert Upsert(c, k, v)[1..] == c[1..];
    }
  }

  /** `Upsert` seen by position when `k` first occurs at `i`: the value is
      overwritten in place. */
  lemma {:induction false} UpsertAt<V>(c: Chain<V>, i: nat, k: string, v: V)
    requires i < |c| && c[i].key == k
    requires forall j :: 0 <= j < i ==> c[j].key != k
    ensures Upsert(c, k, v) == c[i := Entry(k, v)]
  {
    if i == 0 {
      assert c[0 := Entry(k, v)] == [Entry(k, v)] + c[1..];
    } else {
      UpsertAt(c[1..], i - 1, k, v);
      assert c[i := Entry(k, v)] == [c[0]] + c[1..][i - 1 := Entry(k, v)];
    }
  }

  /** `Upsert` seen by position when `k` does not occur: a new node is
      appended at the tail, or becomes the head of an empty chain. */
  lemma {:induction false} UpsertMissing<V>(c: Chain<V>, k: string, v: V)
    requires forall j :: 0 <= j < |c| ==> c[j].key != k
    ensures Upsert(c, k, v) == c + [Entry(k, v)]
  {
    if c != [] {
      UpsertMissing(c[1..], k, v);
      assert c + [Entry(k, v)] == [c[0]] + (c[1..] + [Entry(k, v)]);
    }
  }

  /** After `Delete` on a chain without repeated keys, `k` is gone and every
      other key maps to what it did before; the keys stay distinct. */
  lemma {:induction false} FindDelete<V>(c: Chain<V>, k: string, k': string)
    requires Distinct(c)
    ensures Distinct(Delete(c, k)) && Keys(Delete(c, k)) == Keys(c) - {k}
    ensures Find(Delete(c, k), k') == if k' == k then None else Find(c, k')
  {
    if c != [] && c[0].key != k {
      FindDelete(c[1..], k, k');
      assert Delete(c, k)[1..] == Delete(c[1..], k);
    }
  }

  /** `Delete` seen by position when `k` first occurs at `i`: the node is
      unlinked, by `prev.next = node.next` or, when `i` is 0, by moving the
      head on to `node.next`. */
  lemma {:induction false} DeleteAt<V>(c: Chain<V>, i: nat, k: string)
    requires i < |c| && c[i].key == k
    requires forall j :: 0 <= j < i ==> c[j].key != k
    ensures Delete(c, k) == c[..i] + c[i + 1..]
  {
    if i > 0 {
      DeleteAt(c[1..], i - 1, k);
      assert c[..i] + c[i + 1..] == [c[0]] + (c[1..][..i - 1] + c[1..][i..]);
    }
  }

  /** `Delete` when `k` does not occur leaves the chain as it is. */
  lemma {:induction false} DeleteMissing<V>(c: Chain<V>, k: string)
    requires forall j :: 0 <= j < |c| ==> c[j].key != k
    ensures Delete(c, k) == c
  {
    if c != [] {
      DeleteMissing(c[1..], k);
    }
  }

  /** The keys of a concatenation. */
  lemma {:induction false} KeysConcat<V>(a: Chain<V>, b: Chain<V>)
    ensures Keys(a + b) == Keys(a) + Keys(b)
  {
    if a == [] {
      assert a + b == b;
    } else {
      assert (a + b)[1..] == a[1..] + b;
      KeysConcat(a[1..], b);
    }
  }

  /** A concatenation has distinct keys exactly when both parts do and they
      share no key. */
  lemma {:induction false} DistinctConcat<V>(a: Chain<V>, b: Chain<V>)
    ensures Distinct(a + b) <==> Distinct(a) && Distinct(b) && Keys(a) !! Keys(b)
  {
    if a == [] {
      assert a + b == b;
    } else {
      assert (a + b)[1..] == a[1..] + b;
      KeysConcat(a[1..], b);
      DistinctConcat(a[1..], b);
    }
  }

  /** Walking a concatenation walks the first part, then the second. */
  lemma {:induction false} FindConcat<V>(a: Chain<V>, b: Chain<V>, k: string)
    ensures Find(a + b, k) == if Find(a, k).Some? then Find(a, k) else Find(b, k)
  {
    if a == [] {
      assert a + b == b;
    } else {
      assert (a + b)[1..] == a[1..] + b;
      FindConcat(a[1..], b, k);
    }
  }
}
