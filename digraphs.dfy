/** The directed graph underneath `Graph`: arcs identified by id, each with a source, a
    target and a weight (the probability that the edge is present). */
module Digraphs {
  import opened Reach
  import opened Sums

  datatype Arc = Arc(src: nat, tgt: nat, w: real)

  /** Arc id to arc: the digraph's arcs together with the weight map. */
  type ArcMap = map<nat, Arc>

  /** What the solvers keep per edge: its weight and its terminals. */
  datatype EdgeInfo = EdgeInfo(p: real, ends: Terminals)

  /** Targets of the arcs leaving the nodes of `s`. */
  function Succ(arcs: ArcMap, s: set<nat>): set<nat>
  {
    set id | id in arcs && arcs[id].src in s :: arcs[id].tgt
  }

  /** Ids of the arcs leaving the nodes of `s`. */
  function ArcsFrom(arcs: ArcMap, s: set<nat>): set<nat>
  {
    set id | id in arcs && arcs[id].src in s
  }

  /** Ids of the arcs leaving `s` for a node outside `right`. */
  function ArcsFromOutside(arcs: ArcMap, s: set<nat>, right: set<nat>): set<nat>
  {
    set id | id in arcs && arcs[id].src in s && arcs[id].tgt !in right
  }

  /** Ids of the arcs entering `n`. */
  function InArcs(arcs: ArcMap, n: nat): set<nat>
  {
    set id | id in arcs && arcs[id].tgt == n
  }

  /** Ids of the arcs leaving `n`. */
  function OutArcs(arcs: ArcMap, n: nat): set<nat>
  {
    set id | id in arcs && arcs[id].src == n
  }

  /** Ids of the arcs from `a` to `b`. */
  function ArcsBetween(arcs: ArcMap, a: nat, b: nat): set<nat>
  {
    set id | id in arcs && arcs[id].src == a && arcs[id].tgt == b
  }

  /** No two arcs join the same ordered pair of nodes. */
  predicate Simple(arcs: ArcMap)
  {
    forall j, k :: j in arcs && k in arcs && arcs[j].src == arcs[k].src && arcs[j].tgt == arcs[k].tgt ==> j == k
  }

  /** Keeping only some of the arcs, unchanged, keeps the weights probabilities and no two
      arcs joining one pair. */
  lemma SubArcs(a: ArcMap, r: ArcMap)
    requires forall id :: id in r ==> id in a && r[id] == a[id]
    ensures Probabilities(a) ==> Probabilities(r)
    ensures Simple(a) ==> Simple(r)
  {
  }

  /** In a simple digraph at most one arc joins a pair. */
  lemma SimpleBetween(arcs: ArcMap, x: nat, y: nat)
    requires Simple(arcs)
    ensures |ArcsBetween(arcs, x, y)| <= 1
  {
    var b := ArcsBetween(arcs, x, y);
    if b != {} {
      var j :| j in b;
      assert b == {j};
    }
  }

  /** Sources of the arcs entering `s`: the nodes with a successor in `s`. */
  function Preds(arcs: ArcMap, s: set<nat>): set<nat>
  {
    set id | id in arcs && arcs[id].tgt in s :: arcs[id].src
  }

  /** Nodes of `s` with an arc leaving `s`. */
  function Leavers(arcs: ArcMap, s: set<nat>): (r: set<nat>)
    ensures r <= s
  {
    set id | id in arcs && arcs[id].src in s && arcs[id].tgt !in s :: arcs[id].src
  }

  /** No arc leaves `s`. */
  predicate SuccClosed(arcs: ArcMap, s: set<nat>)
  {
    forall id :: id in arcs && arcs[id].src in s ==> arcs[id].tgt in s
  }

  /** Every arc has an endpoint other than its start. */
  predicate LoopFree(arcs: ArcMap)
  {
    forall id :: id in arcs ==> arcs[id].src != arcs[id].tgt
  }

  /** Every weight is a probability. */
  predicate Probabilities(arcs: ArcMap)
  {
    forall id :: id in arcs ==> 0.0 <= arcs[id].w <= 1.0
  }

  /** Every arc ends in `nodes`. */
  predicate ArcsWithin(arcs: ArcMap, nodes: set<nat>)
  {
    forall id :: id in arcs ==> arcs[id].src in nodes && arcs[id].tgt in nodes
  }

  /** The terminal table of the arcs. */
  function EdgeTable(arcs: ArcMap): (t: TerminalMap)
    ensures t.Keys == arcs.Keys
    ensures forall id :: id in arcs ==> Ends(t, id) == Terminals(arcs[id].src, arcs[id].tgt)
  {
    map id | id in arcs :: Terminals(arcs[id].src, arcs[id].tgt)
  }

  /** The nodes a breadth-first search from `s` reaches. */
  function Reached(arcs: ArcMap, s: set<nat>): set<nat>
  {
    Closure(s, arcs.Keys, EdgeTable(arcs))
  }

  /** Closedness under the arcs is closedness in the terminal table. */
  lemma SuccClosedIsClosed(arcs: ArcMap, s: set<nat>)
    ensures SuccClosed(arcs, s) <==> Closed(s, arcs.Keys, EdgeTable(arcs))
  {
    var t := EdgeTable(arcs);
    if Closed(s, arcs.Keys, t) {
      forall id | id in arcs && arcs[id].src in s
        ensures arcs[id].tgt in s
      {
        assert Ends(t, id).src in s;
      }
    }
  }

  /** What a search reaches contains the start, is closed, and lies within any closed
      superset of the start; it stays among the start and the arc targets. */
  lemma ReachedIsLeastClosed(arcs: ArcMap, s: set<nat>, c: set<nat>)
    ensures s <= Reached(arcs, s) && SuccClosed(arcs, Reached(arcs, s))
    ensures forall n :: n in Reached(arcs, s) && n !in s ==> exists id :: id in arcs && arcs[id].tgt == n
    ensures s <= c && SuccClosed(arcs, c) ==> Reached(arcs, s) <= c
  {
    var t := EdgeTable(arcs);
    SuccClosedIsClosed(arcs, Reached(arcs, s));
    forall n | n in Reached(arcs, s) && n !in s
      ensures exists id :: id in arcs && arcs[id].tgt == n
    {
      assert n in Targets(arcs.Keys, t);
      var id :| id in arcs.Keys && Ends(t, id).tgt == n;
    }
    if s <= c && SuccClosed(arcs, c) {
      SuccClosedIsClosed(arcs, c);
      ClosureLeast(s, arcs.Keys, t, c);
    }
  }

  /** Searching from a reached node reaches nothing new. */
  lemma ReachedTransitive(arcs: ArcMap, s: set<nat>, m: nat)
    requires m in Reached(arcs, s)
    ensures Reached(arcs, {m}) <= Reached(arcs, s)
  {
    ReachedIsLeastClosed(arcs, s, {});
    ReachedIsLeastClosed(arcs, {m}, Reached(arcs, s));
  }

  /** Every arc turned around. */
  function Reversed(arcs: ArcMap): ArcMap
  {
    map id | id in arcs :: Arc(arcs[id].tgt, arcs[id].src, arcs[id].w)
  }

  /** Reversing twice restores the arcs. */
  lemma ReversedTwice(arcs: ArcMap)
    ensures Reversed(Reversed(arcs)) == arcs
  {
    assert forall id :: id in arcs ==> Reversed(Reversed(arcs))[id] == arcs[id];
  }

  /** The arcs with no endpoint in `dead`: what erasing those nodes leaves. */
  function WithoutNodes(arcs: ArcMap, dead: set<nat>): (r: ArcMap)
    ensures forall id :: id in r <==> id in arcs && arcs[id].src !in dead && arcs[id].tgt !in dead
    ensures forall id :: id in r ==> r[id] == arcs[id]
  {
    map id | id in arcs && arcs[id].src !in dead && arcs[id].tgt !in dead :: arcs[id]
  }

  /** Erasing two node sets one after the other is erasing their union. */
  lemma WithoutNodesUnion(arcs: ArcMap, a: set<nat>, b: set<nat>)
    ensures WithoutNodes(WithoutNodes(arcs, a), b) == WithoutNodes(arcs, a + b)
  {
    assert WithoutNodes(WithoutNodes(arcs, a), b).Keys == WithoutNodes(arcs, a + b).Keys;
  }

  /** Every arc of `a0` is in `a1` with the same endpoints (its weight may differ). */
  predicate EndpointsKept(a0: ArcMap, a1: ArcMap)
  {
    forall id :: id in a0 ==> id in a1 && a1[id].src == a0[id].src && a1[id].tgt == a0[id].tgt
  }

  /** Keeping endpoints keeps every arc between two nodes. */
  lemma BetweenKept(a0: ArcMap, a1: ArcMap, x: nat, y: nat)
    requires EndpointsKept(a0, a1)
    ensures ArcsBetween(a0, x, y) <= ArcsBetween(a1, x, y)
  {
  }

  /** Some arc runs from `x` to `y`. */
  predicate Linked(arcs: ArcMap, x: nat, y: nat)
  {
    ArcsBetween(arcs, x, y) != {}
  }

  lemma LinkedKept(a0: ArcMap, a1: ArcMap, x: nat, y: nat)
    requires EndpointsKept(a0, a1) && Linked(a0, x, y)
    ensures Linked(a1, x, y)
  {
    var id :| id in ArcsBetween(a0, x, y);
    assert id in ArcsBetween(a1, x, y);
  }

  /** Erasing nodes other than `x` and `y` keeps the arcs between them. */
  lemma LinkedWithout(arcs: ArcMap, dead: set<nat>, x: nat, y: nat)
    requires Linked(arcs, x, y) && x !in dead && y !in dead
    ensures Linked(WithoutNodes(arcs, dead), x, y)
  {
    var id :| id in ArcsBetween(arcs, x, y);
    assert id in ArcsBetween(WithoutNodes(arcs, dead), x, y);
  }

  /** The series rule: the probability that two independent edges are both present. */
  function Series(p: real, q: real): real
  {
    p * q
  }

  /** The series rule gives a probability no larger than either operand. */
  lemma SeriesIsProbability(p: real, q: real)
    requires 0.0 <= p <= 1.0 && 0.0 <= q <= 1.0
    ensures 0.0 <= Series(p, q) <= q && Series(p, q) <= p
  {
    ProductNonNegative(p, q);
    ProductNonNegative(p, 1.0 - q);
    ProductNonNegative(q, 1.0 - p);
    assert p - p * q == p * (1.0 - q);
    assert q - p * q == q * (1.0 - p);
  }

  /** The parallel rule: the probability that at least one of two independent edges,
      present with probabilities `w` and `v`, is present. */
  function Parallel(w: real, v: real): real
  {
    1.0 - (1.0 - w) * (1.0 - v)
  }

  /** The parallel rule gives a probability no smaller than either operand. */
  lemma ParallelIsProbability(w: real, v: real)
    requires 0.0 <= w <= 1.0 && 0.0 <= v <= 1.0
    ensures w <= Parallel(w, v) <= 1.0 && v <= Parallel(w, v)
  {
    SeriesIsProbability(1.0 - w, 1.0 - v);
  }
}
