/** `ORDER BY created_at DESC`: the order in which both list handlers return
    their rows. The database does not fix the relative order of rows with the
    same timestamp, so neither does this model. */
module Recency {

  /** `order` lists every key of `keys` exactly once and nothing else. */
  ghost predicate Enumerates(order: seq<nat>, keys: set<nat>) {
    && (forall i :: 0 <= i < |order| ==> order[i] in keys)
    && (forall k :: k in keys ==> k in order)
    && (forall i, j :: 0 <= i < j < |order| ==> order[i] != order[j])
  }

  /** The rows named by `order` have non-increasing timestamps. */
  ghost predicate NewestFirst<V>(order: seq<nat>, m: map<nat, V>, at: V -> int) {
    forall i, j :: 0 <= i < j < |order| && order[i] in m && order[j] in m ==>
      at(m[order[i]]) >= at(m[order[j]])
  }

  /** Every non-empty set of rows has a newest one. */
  lemma {:induction false} NewestExists<V>(keys: set<nat>, m: map<nat, V>, at: V -> int)
    requires keys != {} && keys <= m.Keys
    ensures exists k :: k in keys && forall k' :: k' in keys ==> at(m[k']) <= at(m[k])
  {
    var x :| x in keys;
    if keys == {x} {
      assert forall k' :: k' in keys ==> k' == x;
    } else {
      var rest := keys - {x};
      NewestExists(rest, m, at);
      var y :| y in rest && forall k' :: k' in rest ==> at(m[k']) <= at(m[y]);
      if at(m[x]) <= at(m[y]) {
        assert forall k' :: k' in keys ==> k' == x || k' in rest;
      } else {
        assert forall k' :: k' in keys ==> k' == x || k' in rest;
        assert forall k' :: k' in keys ==> at(m[k']) <= at(m[x]);
      }
    }
  }

  /** Orders the rows `keys` of `m` newest first, by repeatedly taking the
      newest remaining row. */
  method SortNewestFirst<V>(m: map<nat, V>, keys: set<nat>, at: V -> int) returns (order: seq<nat>)
    requires keys <= m.Keys
    ensures Enumerates(order, keys)
    ensures NewestFirst(order, m, at)
  {
    order := [];
    var remaining := keys;
    while remaining != {}
      invariant remaining <= keys
      invariant forall i :: 0 <= i < |order| ==> order[i] in keys && order[i] !in remaining
      invariant forall k :: k in keys && k !in remaining ==> k in order
      invariant forall i, j :: 0 <= i < j < |order| ==> order[i] != order[j]
      invariant NewestFirst(order, m, at)
      invariant forall i, k :: 0 <= i < |order| && k in remaining ==> at(m[order[i]]) >= at(m[k])
      decreases remaining
    {
      NewestExists(remaining, m, at);
      var k :| k in remaining && forall k' :: k' in remaining ==> at(m[k']) <= at(m[k]);
      order := order + [k];
      remaining := remaining - {k};
    }
  }
}
