/** The DJB2 string hash and the bucket index derived from it
    (`_hash_djb2` and `_hash_mod` of src/hashtable.py). The source runs on
    unbounded Python integers, so no wrap-around is modelled. */
module Hashing {

  /** The DJB2 seed. */
  const Seed: nat := 5381

  /** One round of the rolling hash: `((h << 5) + h) + ord(c)`; a left shift by
      five on an unbounded integer is a multiplication by 32. */
  function Step(h: nat, c: char): nat
  {
    h * 32 + h + c as nat
  }

  /** The loop of `_hash_djb2` started from accumulator `h`, folding the
      characters of `s` from left to right. */
  function Djb2From(h: nat, s: string): nat
    decreases |s|
  {
    if s == [] then h else Djb2From(Step(h, s[0]), s[1..])
  }

  /** The DJB2 hash of a key: a pure function of the key alone. */
  function Djb2(key: string): nat
  {
    Djb2From(Seed, key)
  }

  /** Folding a concatenation is folding the second part from where the first ended. */
  lemma {:induction false} Djb2FromConcat(h: nat, s: string, t: string)
    ensures Djb2From(h, s + t) == Djb2From(Djb2From(h, s), t)
    decreases |s|
  {
    if s == [] {
      assert s + t == t;
    } else {
      assert (s + t)[1..] == s[1..] + t;
      Djb2FromConcat(Step(h, s[0]), s[1..], t);
    }
  }

  /** The hash of the empty key is the seed, and each further character
      multiplies the hash so far by 33 and adds the character's code point. */
  lemma {:induction false} Djb2Snoc(s: string, c: char)
    ensures Djb2([]) == Seed
    ensures Djb2(s + [c]) == 33 * Djb2(s) + c as nat
  {
    Djb2FromConcat(Seed, s, [c]);
    assert [c][1..] == [];
  }

  /** `_hash_djb2`: the accumulator loop, proved to compute `Djb2`. */
  method HashDjb2(key: string) returns (h: nat)
    ensures h == Djb2(key)
  {
    h := Seed;
    for i := 0 to |key|
      invariant h == Djb2(key[..i])
    {
      assert key[..i + 1] == key[..i] + [key[i]];
      Djb2Snoc(key[..i], key[i]);
      h := h * 32 + h + key[i] as nat;
    }
    assert key[..|key|] == key;
  }

  /** `_hash_mod`: the bucket of `key` in a table of `capacity` buckets always
      lies in `[0, capacity)`, and it is the hash reduced modulo the capacity. */
  function BucketIndex(key: string, capacity: nat): (i: nat)
    requires capacity > 0
    ensures i < capacity
    ensures Djb2(key) == Djb2(key) / capacity * capacity + i
  {
    Djb2(key) % capacity
  }
}
