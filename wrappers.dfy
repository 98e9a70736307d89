/** The optional value that Python expresses with `None`. */
module Wrappers {

  datatype Option<+T> = None | Some(value: T)

  /** `m.get(k)`: the value stored under `k`, or `None` when `k` is absent. */
  function MapGet<K, V>(m: map<K, V>, k: K): Option<V>
  {
    if k in m then Some(m[k]) else None
  }

  /** Two maps that answer every lookup alike are equal. */
  lemma MapGetExtensional<K, V>(m1: map<K, V>, m2: map<K, V>)
    requires forall k :: MapGet(m1, k) == MapGet(m2, k)
    ensures m1 == m2
  {
    forall k
      ensures k in m1 <==> k in m2
      ensures k in m1 ==> m1[k] == m2[k]
    {
      assert MapGet(m1, k) == MapGet(m2, k);
    }
  }
}
