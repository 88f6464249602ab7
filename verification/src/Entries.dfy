/** Stored pairs and optional results. */
module Entries {
  datatype Entry<K, V> = Entry(key: K, value: V)

  datatype Option<+T> = None | Some(value: T)
}
