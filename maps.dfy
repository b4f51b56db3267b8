/** Map helpers shared by the components that merge string maps key by key. */
module Maps {

  /**
   * Go's `for k, v := range delta { m[k] = v }`: every key of `delta` is
   * written over `m`, every other key of `m` keeps its value.
   */
  method MergeInto<K, V>(m: map<K, V>, delta: map<K, V>) returns (r: map<K, V>)
    ensures r.Keys == m.Keys + delta.Keys
    ensures forall k :: k in delta ==> r[k] == delta[k]
    ensures forall k :: k in m && k !in delta ==> r[k] == m[k]
  {
    r := m;
    var todo := delta.Keys;
    while todo != {}
      invariant todo <= delta.Keys
      invariant r.Keys == m.Keys + (delta.Keys - todo)
      invariant forall k :: k in delta && k !in todo ==> r[k] == delta[k]
      invariant forall k :: k in m && k !in delta ==> r[k] == m[k]
      decreases todo
    {
      var k :| k in todo;
      r := r[k := delta[k]];
      todo := todo - {k};
    }
  }

  /** Writing one key over a union is writing it over the right-hand side. */
  lemma UpdateUnion<K, V>(a: map<K, V>, b: map<K, V>, k: K, v: V)
    ensures (a + b)[k := v] == a + b[k := v]
  {
  }
}
