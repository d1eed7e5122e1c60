/** Node and edge sets (the program's bitsets) and reachability over a set of edges.
    An edge set is a `set<nat>` of edge ids, a node set a `set<nat>` of node ids;
    the bitset widths of the program bound them. */
module Reach {

  /** Width of the edge bitset `Edges`. */
  const NUM_EDGES: nat := 1024
  /** Width of the node bitset `Nodes`. */
  const NUM_NODES: nat := 512

  /** Every id in `s` fits a bitset of `width` bits. */
  predicate Fits(s: set<nat>, width: nat)
  {
    forall i :: i in s ==> i < width
  }

  /** The ids below `n`: a bitset of width `n` with every bit set. */
  function Below(n: nat): (r: set<nat>)
    ensures forall i: nat :: i in r <==> i < n
  {
    if n == 0 then {} else Below(n - 1) + {n - 1}
  }

  /** The edge set with every bit set (`Edges::set()`). */
  function AllEdges(): (r: set<nat>)
    ensures Fits(r, NUM_EDGES)
    ensures forall e: nat :: e < NUM_EDGES ==> e in r
  {
    Below(NUM_EDGES)
  }

  /** Ids in strictly increasing order, as a walk over a bitset visits them. */
  predicate Ascending(s: seq<nat>)
  {
    forall i, j :: 0 <= i < j < |s| ==> s[i] < s[j]
  }

  /** No id occurs twice. */
  predicate Distinct(s: seq<nat>)
  {
    forall i, j :: 0 <= i < j < |s| ==> s[i] != s[j]
  }

  /** Appending ids in increasing order, none of them already present, keeps a list
      free of repeats. */
  lemma DistinctAppend(a: seq<nat>, b: seq<nat>)
    requires Distinct(a) && Ascending(b) && forall x :: x in b ==> x !in a
    ensures Distinct(a + b)
  {
    forall i, j | 0 <= i < j < |a + b|
      ensures (a + b)[i] != (a + b)[j]
    {
      if i < |a| && j >= |a| {
        assert (a + b)[j] in b && (a + b)[i] in a;
      }
    }
  }

  /** Appending an id above every id of an increasing list keeps it increasing. */
  lemma AscendingAppend(s: seq<nat>, e: nat)
    requires Ascending(s) && forall k :: 0 <= k < |s| ==> s[k] < e
    ensures Ascending(s + [e]) && forall k :: 0 <= k < |s + [e]| ==> (s + [e])[k] <= e
    ensures forall d :: d in s + [e] <==> d in s || d == e
  {
  }

  /** A proper subset has fewer elements. */
  lemma ProperSubsetCard<T>(a: set<T>, b: set<T>)
    requires a < b
    ensures |a| < |b|
  {
    var d := b - a;
    assert b == a + d && a * d == {};
    var x :| x in d;
    assert |d| > 0;
  }

  /** A subset has at most as many elements. */
  lemma SubsetCard<T>(a: set<T>, b: set<T>)
    requires a <= b
    ensures |a| <= |b|
  {
    if a != b {
      ProperSubsetCard(a, b);
    }
  }

  /** Source and target node ids of one edge. */
  datatype Terminals = Terminals(src: nat, tgt: nat)

  /** Edge id to terminals, as handed to the collapse step. */
  type TerminalMap = map<nat, Terminals>

  /** Terminals of edge `e`; reading a missing key of the program's hash map
      default-constructs the pair (0, 0), a self-loop on node 0. */
  function Ends(t: TerminalMap, e: nat): Terminals
  {
    if e in t then t[e] else Terminals(0, 0)
  }

  /** Targets of the edges of `es` whose source lies in `s`. */
  function Successors(s: set<nat>, es: set<nat>, t: TerminalMap): set<nat>
  {
    set e | e in es && Ends(t, e).src in s :: Ends(t, e).tgt
  }

  /** Targets of all edges of `es`. */
  function Targets(es: set<nat>, t: TerminalMap): set<nat>
  {
    set e | e in es :: Ends(t, e).tgt
  }

  /** `s` is closed under the edges of `es`: no edge of `es` leaves it. */
  predicate Closed(s: set<nat>, es: set<nat>, t: TerminalMap)
  {
    forall e :: e in es && Ends(t, e).src in s ==> Ends(t, e).tgt in s
  }

  /** The nodes reachable from `s` over the edges of `es`. */
  function Closure(s: set<nat>, es: set<nat>, t: TerminalMap): (r: set<nat>)
    ensures s <= r <= s + Targets(es, t)
    ensures Closed(r, es, t)
    decreases |Targets(es, t) - s|
  {
    var next := s + Successors(s, es, t);
    if next == s then
      assert forall e :: e in es && Ends(t, e).src in s ==> Ends(t, e).tgt in Successors(s, es, t);
      s
    else
      var n :| n in next && n !in s;
      assert n in Targets(es, t) - s && n !in Targets(es, t) - next;
      ProperSubsetCard(Targets(es, t) - next, Targets(es, t) - s);
      Closure(next, es, t)
  }

  /** The closure is the least closed superset of its start. */
  lemma {:induction false} ClosureLeast(s: set<nat>, es: set<nat>, t: TerminalMap, c: set<nat>)
    requires s <= c && Closed(c, es, t)
    ensures Closure(s, es, t) <= c
    decreases |Targets(es, t) - s|
  {
    var next := s + Successors(s, es, t);
    if next != s {
      assert next <= c;
      var n :| n in next && n !in s;
      assert n in Targets(es, t) - s && n !in Targets(es, t) - next;
      ProperSubsetCard(Targets(es, t) - next, Targets(es, t) - s);
      ClosureLeast(next, es, t, c);
    }
  }

  /** More start nodes or more edges never reach fewer nodes. */
  lemma ClosureMonotone(s1: set<nat>, s2: set<nat>, es1: set<nat>, es2: set<nat>, t: TerminalMap)
    requires s1 <= s2 && es1 <= es2
    ensures Closure(s1, es1, t) <= Closure(s2, es2, t)
  {
    var c := Closure(s2, es2, t);
    assert Closed(c, es1, t);
    ClosureLeast(s1, es1, t, c);
  }

  /** Closing a closed set again changes nothing, and the closure of a closure is itself. */
  lemma ClosureOfClosed(s: set<nat>, es: set<nat>, t: TerminalMap)
    requires Closed(s, es, t)
    ensures Closure(s, es, t) == s
  {
    ClosureLeast(s, es, t, s);
  }

  /** One pass of the `edge_visitor` loop: the edges of `es` in increasing id order, each
      marking its target when its source is marked. A pass that marks nothing new
      proves the marked set closed. */
  method Pass(copy: set<nat>, es: set<nat>, t: TerminalMap, width: nat, ghost bound: set<nat>)
    returns (visited: set<nat>)
    requires Fits(es, width) && copy <= bound && Closed(bound, es, t)
    ensures copy <= visited <= bound
    ensures visited == copy ==> Closed(copy, es, t)
  {
    visited := copy;
    for e := 0 to width
      invariant copy <= visited <= bound
      invariant forall d :: 0 <= d < e && d in es && Ends(t, d).src in copy ==> Ends(t, d).tgt in visited
    {
      var ends := Ends(t, e);
      if e in es && ends.src in visited {
        visited := visited + {ends.tgt};
      }
    }
  }

  /** The `edge_visitor` fixpoint of the collapse step: starting from `start`, pass over the
      edges of `es` until a whole pass marks nothing new. */
  method Propagate(start: set<nat>, es: set<nat>, t: TerminalMap, width: nat) returns (visited: set<nat>)
    requires Fits(es, width)
    ensures visited == Closure(start, es, t)
  {
    ghost var goal := Closure(start, es, t);
    visited := start;
    while true
      invariant start <= visited <= goal
      decreases |goal - visited|
    {
      var copy := visited;
      visited := Pass(copy, es, t, width, goal);
      if copy == visited {
        ClosureLeast(start, es, t, visited);
        break;
      }
      FewerLeft(goal, copy, visited);
    }
  }

  /** Growing a subset of `goal` leaves fewer of its elements outside. */
  lemma FewerLeft(goal: set<nat>, small: set<nat>, big: set<nat>)
    requires small <= big <= goal && small != big
    ensures |goal - big| < |goal - small|
  {
    var n :| n in big && n !in small;
    assert n in goal - small && n !in goal - big;
    ProperSubsetCard(goal - big, goal - small);
  }
}
