/** The two sum types the other modules share. */
module Wrappers {

  datatype Option<+T> = None | Some(value: T)

  datatype Result<+R, +E> = Success(value: R) | Failure(error: E)

  /** The value stored under a key, if any. */
  function Lookup<K, V>(m: map<K, V>, k: K): Option<V> {
    if k in m then Some(m[k]) else None
  }

  /** The number of elements a page of at most `n` takes from a list of length `len`. */
  function Min(n: int, len: int): int {
    if n <= len then n else len
  }

  function Max(a: nat, b: nat): nat { if a < b then b else a }

  lemma TakeSnoc<T>(s: seq<T>, i: nat)
    ensures i < |s| ==> s[..i + 1] == s[..i] + [s[i]]
    ensures s[..|s|] == s
  {
  }

  /** Maps that agree on every lookup are equal. */
  lemma SameByLookup<K(!new), V(!new)>(a: map<K, V>, b: map<K, V>)
    requires forall k :: Lookup(a, k) == Lookup(b, k)
    ensures a == b
  {
    forall k ensures k in a <==> k in b { assert Lookup(a, k) == Lookup(b, k); }
    forall k | k in a ensures a[k] == b[k] { assert Lookup(a, k) == Lookup(b, k); }
  }
}
