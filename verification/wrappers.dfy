/** Optional values and fallible results, used where the comps parser
    either yields a value or aborts with an assertion failure. */
module Wrappers {

  /** A value that may be missing; the Python `None`. */
  datatype Option<+T> = None | Some(value: T)

  /** The outcome of a computation that may abort with an error. */
  datatype Result<+R, +E> = Success(value: R) | Failure(error: E)

  /** Looks a key up, reading a missing key as `None` (Python's `dict.get`). */
  function Get<K, V>(m: map<K, Option<V>>, k: K): Option<V>
  {
    if k in m then m[k] else None
  }

  /** The list stored under `k`, empty when there is none yet (reading a
      Python `defaultdict(list)`). */
  function ListAt<K, V>(d: map<K, seq<V>>, k: K): seq<V>
  {
    if k in d then d[k] else []
  }

  /** Two maps that agree on every key of either are equal. */
  lemma SameMaps<K, V>(a: map<K, V>, b: map<K, V>)
    requires forall k :: k in b ==> k in a && a[k] == b[k]
    requires forall k :: k in a ==> k in b
    ensures a == b
  {
  }
}
