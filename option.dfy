/** The "value or not found" result that `retrieve` reports (the source signals
    absence with `None`, which a stored `None` value would make ambiguous). */
module Optional {

  datatype Option<+T> = None | Some(value: T)

  /** The entry of `m` under `k`, as an Option. */
  function Get<K, T>(m: map<K, T>, k: K): Option<T>
  {
    if k in m then Some(m[k]) else None
  }

  /** Two maps that answer every lookup alike are the same map. */
  lemma GetExtensional<K, T>(a: map<K, T>, b: map<K, T>)
    requires forall k :: Get(a, k) == Get(b, k)
    ensures a == b
  {
    assert a.Keys == b.Keys by {
      forall k ensures k in a <==> k in b {
        assert Get(a, k) == Get(b, k);
      }
    }
    forall k | k in a ensures a[k] == b[k] {
      assert Get(a, k) == Get(b, k);
    }
  }
}
