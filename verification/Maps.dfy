/**
 Facts about maps that the vector index uses.
 */
module Maps {

  function Restrict<K, V>(m: map<K, V>, keys: set<K>): (r: map<K, V>)
    ensures r.Keys == m.Keys * keys
    ensures forall k :: k in r ==> r[k] == m[k]
  {
    map k | k in m && k in keys :: m[k]
  }

  lemma RestrictLess<K, V>(m: map<K, V>, keys: set<K>, k: K)
    requires keys <= m.Keys
    ensures Restrict(m, keys) - {k} == Restrict(m, keys - {k})
    ensures Restrict(m, m.Keys) == m
  {
  }

  lemma PutTwice<K, V>(m: map<K, V>, k: K, v: V, w: V)
    ensures m[k := v][k := w] == m[k := w]
    ensures (m - {k})[k := v] == m[k := v]
  {
  }

  lemma {:induction false} SubsetSize<T>(a: set<T>, b: set<T>)
    requires a <= b
    ensures |a| <= |b|
    ensures |a| == |b| ==> a == b
  {
    if a != {} {
      var x :| x in a;
      SubsetSize(a - {x}, b - {x});
    }
  }
}
