/** Finite maps. */
module Maps {
  function Without<K, V>(m: map<K, V>, key: K): map<K, V> {
    map k | k in m && k != key :: m[k]
  }
}
