/** Sums of real weights over the terms of a list or the values of a map, with the weight of
    a term given by `w`. */
module Sums {

  /** A product of two weights at least 0 is at least 0. */
  lemma ProductNonNegative(a: real, b: real)
    requires a >= 0.0 && b >= 0.0
    ensures a * b >= 0.0
  {
  }

  /** Sum of the weights of a list. */
  function Sum<V>(vs: seq<V>, w: V -> real): real
  {
    if vs == [] then 0.0 else Sum(vs[..|vs| - 1], w) + w(vs[|vs| - 1])
  }

  lemma SumAppend<V>(vs: seq<V>, v: V, w: V -> real)
    ensures Sum(vs + [v], w) == Sum(vs, w) + w(v)
  {
    assert (vs + [v])[..|vs|] == vs;
  }

  /** Sum of the weights of the values of a map. */
  ghost function MapSum<K, V>(m: map<K, V>, w: V -> real): real
    decreases |m|
  {
    if m == map[] then 0.0
    else
      var k :| k in m;
      assert (m - {k}).Keys + {k} == m.Keys;
      w(m[k]) + MapSum(m - {k}, w)
  }

  /** The sum over a map does not depend on which key is taken out first. */
  lemma {:induction false} MapSumPick<K, V>(m: map<K, V>, k: K, w: V -> real)
    requires k in m
    ensures MapSum(m, w) == w(m[k]) + MapSum(m - {k}, w)
    decreases |m|
  {
    var j :| j in m && MapSum(m, w) == w(m[j]) + MapSum(m - {j}, w);
    if j != k {
      assert (m - {j}).Keys + {j} == m.Keys;
      assert (m - {k}).Keys + {k} == m.Keys;
      assert (m - {j}) - {k} == (m - {k}) - {j};
      MapSumPick(m - {j}, k, w);
      MapSumPick(m - {k}, j, w);
    }
  }

  /** Setting one value changes the sum by the difference of the weights. */
  lemma MapSumUpdate<K, V>(m: map<K, V>, k: K, v: V, w: V -> real)
    ensures MapSum(m[k := v], w) == MapSum(m, w) - (if k in m then w(m[k]) else 0.0) + w(v)
  {
    MapSumPick(m[k := v], k, w);
    assert m[k := v] - {k} == m - {k};
    if k in m {
      MapSumPick(m, k, w);
    } else {
      assert m - {k} == m;
    }
  }

  /** The loop that copies the values of a hash map into a list in the map's iteration
      order (returned as the ghost `order`, unspecified here), adding up their weights as
      it goes. */
  method CollectValues<K, V>(m: map<K, V>, w: V -> real) returns (vs: seq<V>, total: real, ghost order: seq<K>)
    ensures |order| == |vs| == |m|
    ensures forall k :: k in m <==> k in order
    ensures forall i, j :: 0 <= i < j < |order| ==> order[i] != order[j]
    ensures forall i :: 0 <= i < |order| ==> order[i] in m && vs[i] == m[order[i]]
    ensures total == Sum(vs, w) == MapSum(m, w)
  {
    vs := [];
    total := 0.0;
    var rest := m;
    order := [];
    while rest != map[]
      invariant forall k :: k in rest <==> k in m && k !in order
      invariant forall k :: k in rest ==> rest[k] == m[k]
      invariant |order| == |vs| && |order| + |rest| == |m|
      invariant forall i :: 0 <= i < |order| ==> order[i] in m && vs[i] == m[order[i]]
      invariant forall i, j :: 0 <= i < j < |order| ==> order[i] != order[j]
      invariant total == Sum(vs, w)
      invariant Sum(vs, w) + MapSum(rest, w) == MapSum(m, w)
      decreases |rest|
    {
      var k :| k in rest;
      total := total + w(rest[k]);
      SumAppend(vs, rest[k], w);
      MapSumPick(rest, k, w);
      vs := vs + [rest[k]];
      order := order + [k];
      assert (rest - {k}).Keys + {k} == rest.Keys;
      rest := rest - {k};
    }
  }
}
