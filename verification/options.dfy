module Options {
  datatype Option<+T> = None | Some(value: T)

  /** What a map holds for a key, if anything. */
  function At<K(==), V>(m: map<K, V>, key: K): Option<V> {
    if key in m then Some(m[key]) else None
  }
}
