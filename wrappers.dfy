/** The optional value of the TypeScript code: `T | undefined`. */
module Wrappers {

  datatype Option<+T> = None | Some(value: T)

  /** A map lookup that yields `None` for a missing key, like reading an absent property. */
  function Get<K, V>(m: map<K, V>, k: K): (r: Option<V>)
    ensures r.Some? <==> k in m
    ensures r.Some? ==> r.value == m[k]
  {
    if k in m then Some(m[k]) else None
  }
}
