/** Maps that are built entry by entry. */
module Maps {

  ghost function Tabulate<K, V>(keys: set<K>, f: K -> V): (m: map<K, V>)
    ensures m.Keys == keys && forall k | k in keys :: m[k] == f(k)
    decreases keys
  {
    if k :| k in keys then Tabulate(keys - {k}, f)[k := f(k)] else map[]
  }
}
