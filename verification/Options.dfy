/** Optional values, and lookups that yield them.
    A lookup in a hash map of the analyzer yields an option too,
    so a missing key is a value and not an error. */
module Options {
  datatype Option<+T> = None | Some(value: T)

  function Lookup<K, V>(m: map<K, V>, k: K): Option<V> {
    if k in m then Some(m[k]) else None
  }
}
