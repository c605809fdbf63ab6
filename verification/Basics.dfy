// What several parts of the model share.
module Basics {
  datatype Option<+T> = None | Some(value: T)

  // `keys` is an order in which the map may be walked: each of its keys once.
  ghost predicate Walks<K(!new), V>(keys: seq<K>, m: map<K, V>) {
    && (forall k :: k in keys <==> k in m)
    && (forall i, j :: 0 <= i < j < |keys| ==> keys[i] != keys[j])
  }

  // Every map has such an order.
  lemma {:induction false} WalkExists<K(!new), V>(m: map<K, V>) returns (keys: seq<K>)
    ensures Walks(keys, m)
    decreases |m|
  {
    keys := [];
    if m != map[] {
      var k :| k in m;
      var rest := WalkExists(m - {k});
      keys := [k] + rest;
    }
  }
}
