/** The optional value used wherever the handlers may find nothing. */
module Options {

  datatype Option<+T> = None | Some(value: T)

  /** A property lookup on a plain object: a missing key yields `None` (JavaScript's `undefined`). */
  function Lookup<K, V>(m: map<K, V>, key: K): (r: Option<V>)
    ensures r.Some? <==> key in m
    ensures r.Some? ==> r.value == m[key]
  {
    if key in m then Some(m[key]) else None
  }
}
