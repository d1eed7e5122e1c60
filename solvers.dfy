/** The exact solvers: the common set-up of `Solver`, the sausage solver, which adds the
    edges sausage by sausage between consecutive cuts, and the random solver, which adds
    them all in a shuffled order. */
module Solvers {
  import opened Wrappers
  import opened Sums
  import opened Reach
  import opened Digraphs
  import opened Cuts
  import Graphs
  import opened TermAlgebra
  import opened Poly

  /** The ids of a list, as a set. */
  function Elements(s: seq<nat>): set<nat>
  {
    set i | 0 <= i < |s| :: s[i]
  }

  /** A list free of repeats has as many distinct elements as entries. */
  lemma {:induction false} DistinctCard(s: seq<nat>)
    requires Distinct(s)
    ensures |Elements(s)| == |s|
  {
    if s != [] {
      var init := s[..|s| - 1];
      DistinctCard(init);
      assert Elements(s) == Elements(init) + {s[|s| - 1]};
      assert s[|s| - 1] !in Elements(init);
    }
  }

  /** One more entry of a list free of repeats adds a new element. */
  lemma PrefixElements(s: seq<nat>, i: nat)
    requires Distinct(s) && i < |s|
    ensures s[i] !in Elements(s[..i]) && Elements(s[..i + 1]) == Elements(s[..i]) + {s[i]}
  {
    assert s[..i + 1] == s[..i] + [s[i]];
  }

  /** `BelowCard(n)`: the ids below `n` are `n` many. */
  lemma BelowCard(n: nat)
    ensures |Below(n)| == n
  {
    var ids: seq<nat> := seq(n, i => i);
    assert forall j :: j in Below(n) ==> ids[j] == j;
    assert Elements(ids) == Below(n);
    DistinctCard(ids);
  }

  /** A permutation of the positions `0 .. n-1`, the order a shuffle draws. */
  predicate Permutation(perm: seq<nat>, n: nat)
  {
    |perm| == n && (forall i :: 0 <= i < n ==> perm[i] < n) && Distinct(perm)
  }

  /** Every position occurs in a permutation: its entries are `n` distinct values
      below `n`, so they are all of them. */
  lemma PermutationOnto(perm: seq<nat>, n: nat)
    requires Permutation(perm, n)
    ensures Elements(perm) == Below(n)
  {
    DistinctCard(perm);
    BelowCard(n);
    if Elements(perm) != Below(n) {
      ProperSubsetCard(Elements(perm), Below(n));
    }
  }

  /** `list` rearranged by `perm`: entry `i` is the entry at position `perm[i]`. */
  function Permuted(list: seq<nat>, perm: seq<nat>): seq<nat>
    requires Permutation(perm, |list|)
  {
    seq(|list|, i requires 0 <= i < |list| => list[perm[i]])
  }

  /** A permuted list has the same elements, and no repeats when the list had none. */
  lemma PermutedElements(list: seq<nat>, perm: seq<nat>)
    requires Permutation(perm, |list|)
    ensures |Permuted(list, perm)| == |list| && Elements(Permuted(list, perm)) == Elements(list)
    ensures Distinct(list) ==> Distinct(Permuted(list, perm))
  {
    var r := Permuted(list, perm);
    PermutationOnto(perm, |list|);
    forall e | e in Elements(list)
      ensures e in Elements(r)
    {
      var j :| 0 <= j < |list| && list[j] == e;
      assert j in Below(|list|);
      var i :| 0 <= i < |perm| && perm[i] == j;
      assert r[i] == e;
    }
  }

  /** Every term has decided no edge yet: no present edge and no surely absent one. */
  ghost predicate NothingDecided(ts: seq<TermValue>)
  {
    forall i :: 0 <= i < |ts| ==> ts[i].x == {} && ts[i].y == AllEdges()
  }

  /** The polynomial between two sausages: valid, no end term, and no live term has
      decided an edge. */
  ghost predicate StageStart(P: Polynomial)
    reads P
  {
    P.Valid() && P.endTerms == map[] && NothingDecided(P.terms)
  }

  /** The live terms after a stage: each keyed by a distinct set of end nodes. */
  ghost predicate Settled(ts: seq<TermValue>, end: set<nat>)
  {
    (forall i :: 0 <= i < |ts| ==> ts[i].reachable <= end)
    && (forall i, j :: 0 <= i < j < |ts| ==> ts[i].reachable != ts[j].reachable)
  }

  /** Within a stage that has added the edges of `done`: live terms valid and having
      decided exactly `done`, with present edges among them, and end terms valid and
      keyed by sets of end nodes. */
  ghost predicate Stage(ts: seq<TermValue>, m: EndTerms, done: set<nat>, end: set<nat>)
  {
    TermsValid(ts) && EndTermsValid(m)
    && (forall i :: 0 <= i < |ts| ==> Decided(ts[i]) == done && ts[i].x <= done)
    && (forall k :: k in m ==> k <= end)
  }

  /** Adding an edge not yet added and collapsing: every live term had left the edge
      undecided, the stage moves on to `done + {e}`, no coefficient is lost, and once
      every edge of `mid` is added no live term is left. An empty term list stays empty. */
  lemma StageStep(ts: seq<TermValue>, m: EndTerms, done: set<nat>, end: set<nat>, mid: set<nat>,
                  t: TerminalMap, e: nat, p: real)
    requires Stage(ts, m, done, end) && e < NUM_EDGES && e !in done && 0.0 <= p <= 1.0
    ensures forall i :: 0 <= i < |ts| ==> Undecided(ts[i], e)
    ensures Stage(CollapseTerms(Split(ts, e, p), m, mid, end, t).0, CollapseTerms(Split(ts, e, p), m, mid, end, t).1, done + {e}, end)
    ensures Total(CollapseTerms(Split(ts, e, p), m, mid, end, t).0) + EndTotal(CollapseTerms(Split(ts, e, p), m, mid, end, t).1)
         == Total(ts) + EndTotal(m)
    ensures done + {e} == mid && Fits(mid, NUM_EDGES) ==> CollapseTerms(Split(ts, e, p), m, mid, end, t).0 == []
    ensures ts == [] ==> CollapseTerms(Split(ts, e, p), m, mid, end, t) == ([], m)
  {
    forall i | 0 <= i < |ts|
      ensures Undecided(ts[i], e)
    {
      assert e !in Decided(ts[i]);
    }
    var s := Split(ts, e, p);
    SplitValid(ts, e, p);
    SplitDecides(ts, e, p, done);
    SplitConserves(ts, e, p);
    forall j | 0 <= j < |s|
      ensures s[j].x <= done + {e}
    {
      var i := j / 2;
      assert j == 2 * i || j == 2 * i + 1;
    }
    CollapseValid(s, m, mid, end, t);
    CollapseKeepsDecided(s, m, mid, end, t, done + {e}, done + {e});
    CollapseEndKeys(s, m, mid, end, t);
    CollapseConserves(s, m, mid, end, t);
    if done + {e} == mid && Fits(mid, NUM_EDGES) {
      CollapseAllDecided(s, m, mid, end, t);
    }
  }

  /** The loop body both solvers share: `AddEdge(e, p)` followed by `Collapse(mid, end, t)`. */
  method AddAndCollapse(P: Polynomial, e: nat, p: real, mid: set<nat>, end: set<nat>, t: TerminalMap,
                        ghost done: set<nat>)
    requires P.Valid() && Stage(P.terms, P.endTerms, done, end)
    requires e < NUM_EDGES && e !in done && 0.0 <= p <= 1.0
    modifies P
    ensures P.Valid() && Stage(P.terms, P.endTerms, done + {e}, end)
    ensures Total(P.terms) + EndTotal(P.endTerms) == old(Total(P.terms) + EndTotal(P.endTerms))
    ensures done + {e} == mid && Fits(mid, NUM_EDGES) ==> P.terms == []
    ensures old(P.terms) == [] ==> P.terms == [] && P.endTerms == old(P.endTerms)
  {
    StageStep(P.terms, P.endTerms, done, end, mid, t, e, p);
    P.AddEdge(e, p);
    P.Collapse(mid, end, t);
  }

  /** One pass of the loop of `RandomSolver.Solve`: the `i`-th edge of `order` added and
      collapsed, so the stage grows to the first `i + 1` edges of the order. */
  method AddNext(P: Polynomial, order: seq<nat>, i: nat, info: map<nat, EdgeInfo>, mid: set<nat>, end: set<nat>,
                 t: TerminalMap, ghost done: set<nat>)
    requires P.Valid() && Stage(P.terms, P.endTerms, done, end) && i < |order| && done == Elements(order[..i])
    requires Distinct(order) && Elements(order) == mid && Fits(mid, NUM_EDGES) && mid <= info.Keys
    requires forall id :: id in info ==> 0.0 <= info[id].p <= 1.0
    modifies P
    ensures P.Valid() && Stage(P.terms, P.endTerms, Elements(order[..i + 1]), end)
    ensures Total(P.terms) + EndTotal(P.endTerms) == old(Total(P.terms) + EndTotal(P.endTerms))
    ensures i + 1 == |order| ==> P.terms == []
  {
    var e := order[i];
    assert e in Elements(order);
    PrefixElements(order, i);
    if i + 1 == |order| {
      assert order[..i + 1] == order;
    }
    AddAndCollapse(P, e, info[e].p, mid, end, t, done);
  }

  /** The loop of `RandomSolver.Solve`: the edges of `order`, each added with its weight
      and followed by a collapse onto `end` over `mid`, the edges of the whole order. After
      the last one no live term is left, and no coefficient is lost. */
  method AddInOrder(P: Polynomial, order: seq<nat>, info: map<nat, EdgeInfo>, mid: set<nat>, end: set<nat>,
                    t: TerminalMap)
    requires P.Valid() && Stage(P.terms, P.endTerms, {}, end) && P.endTerms == map[]
    requires Distinct(order) && Elements(order) == mid && Fits(mid, NUM_EDGES) && mid <= info.Keys
    requires forall id :: id in info ==> 0.0 <= info[id].p <= 1.0
    modifies P
    ensures P.Valid() && Stage(P.terms, P.endTerms, mid, end)
    ensures Total(P.terms) + EndTotal(P.endTerms) == old(Total(P.terms))
    ensures order != [] ==> P.terms == []
    ensures order == [] ==> P.endTerms == map[]
  {
    ghost var done: set<nat> := {};
    ghost var total := Total(P.terms);
    for i := 0 to |order|
      invariant P.Valid() && Stage(P.terms, P.endTerms, done, end)
      invariant Total(P.terms) + EndTotal(P.endTerms) == total
      invariant done == Elements(order[..i])
      invariant i == |order| && i > 0 ==> P.terms == []
      invariant i == 0 ==> P.endTerms == map[]
    {
      AddNext(P, order, i, info, mid, end, t, done);
      done := Elements(order[..i + 1]);
    }
    assert order[..|order|] == order;
    assert done == mid;
  }

  /** Coefficients at least 0 add up to at least 0. */
  lemma {:induction false} TotalNonNegative(ts: seq<TermValue>)
    requires TermsValid(ts)
    ensures Total(ts) >= 0.0
  {
    if ts != [] {
      TotalNonNegative(ts[..|ts| - 1]);
    }
  }

  /** With coefficients at least 0, no single coefficient exceeds the total. */
  lemma {:induction false} CoefBelowTotal(ts: seq<TermValue>, i: nat)
    requires TermsValid(ts) && i < |ts|
    ensures ts[i].coef <= Total(ts)
  {
    var init := ts[..|ts| - 1];
    if i == |ts| - 1 {
      TotalNonNegative(init);
    } else {
      CoefBelowTotal(init, i);
    }
  }

  /** A result read from terms whose coefficients are at least 0 and add up to 1 is a
      probability. */
  lemma ResultBounded(ts: seq<TermValue>)
    requires TermsValid(ts) && Total(ts) == 1.0
    ensures ResultOf(ts).Some? && 0.0 <= ResultOf(ts).value <= 1.0
  {
    CoefBelowTotal(ts, 0);
    CoefBelowTotal(ts, |ts| - 1);
  }

  /** When the last stage's end node is the sink and no term reached it, the one term left
      carries the whole coefficient and the result is 1, not 0. */
  lemma ResultUnreached(ts: seq<TermValue>, sink: nat)
    requires TermsValid(ts) && Total(ts) == 1.0 && Settled(ts, {sink})
    requires forall i :: 0 <= i < |ts| ==> ts[i].reachable != {sink}
    ensures ResultOf(ts) == Some(1.0)
  {
    forall i | 0 <= i < |ts|
      ensures ts[i].reachable == {}
    {
      assert ts[i].reachable <= {sink};
    }
    ResultWithoutSinkTerm(ts);
    assert ts[..0] == [];
    assert Total(ts) == Total(ts[..0]) + ts[0].coef;
  }

  /** The terms of an advanced polynomial are its old end terms, one per key. */
  lemma AdvancedSettled(m: EndTerms, order: seq<set<nat>>, ts: seq<TermValue>, end: set<nat>)
    requires EndTermsValid(m) && forall k :: k in m ==> k <= end
    requires |order| == |ts|
    requires forall i, j :: 0 <= i < j < |order| ==> order[i] != order[j]
    requires forall i :: 0 <= i < |order| ==> order[i] in m && ts[i] == m[order[i]]
    ensures NothingDecided(ts) && Settled(ts, end)
  {
    assert forall i :: 0 <= i < |ts| ==> IsEndTerm(order[i], ts[i]);
  }

  /** The result of the last stage, whose only end node is the sink: the coefficients add
      up to 1 unless no term is left. There is a result exactly when a term is left; it is
      a probability, the coefficient of the term that reached the sink, or 1 when no term
      reached it. */
  lemma SettledResult(ts: seq<TermValue>, sink: nat)
    requires TermsValid(ts) && Settled(ts, {sink}) && (ts != [] ==> Total(ts) == 1.0)
    ensures ResultOf(ts).Some? <==> ts != []
    ensures ResultOf(ts).Some? ==> 0.0 <= ResultOf(ts).value <= 1.0
    ensures forall i :: 0 <= i < |ts| && ts[i].reachable == {sink} ==> ResultOf(ts) == Some(ts[i].coef)
    ensures ts != [] && (forall i :: 0 <= i < |ts| ==> ts[i].reachable != {sink}) ==> ResultOf(ts) == Some(1.0)
  {
    if ts != [] {
      ResultBounded(ts);
      if forall i :: 0 <= i < |ts| ==> ts[i].reachable != {sink} {
        ResultUnreached(ts, sink);
      }
    }
    forall i | 0 <= i < |ts| && ts[i].reachable == {sink}
      ensures ResultOf(ts) == Some(ts[i].coef)
    {
      ResultIsSinkTerm(ts, sink, i);
    }
  }

  /** What the sausage solver's loop keeps: the sausages consumed so far are pairwise
      disjoint and within the covered edges, every covered edge was added exactly once,
      live terms are left exactly while no sausage was empty, and then their coefficients
      add up to 1. */
  ghost predicate Consumed(ts: seq<TermValue>, covered: set<nat>, sausages: seq<set<nat>>, added: seq<nat>)
  {
    (forall i, j :: 0 <= i < j < |sausages| ==> sausages[i] * sausages[j] == {})
    && (forall i :: 0 <= i < |sausages| ==> sausages[i] <= covered)
    && Distinct(added) && (forall id :: id in added <==> id in covered)
    && (ts != [] <==> forall i :: 0 <= i < |sausages| ==> sausages[i] != {})
    && (ts != [] ==> Total(ts) == 1.0)
  }

  /** Consuming a sausage of edges not yet covered, in increasing id order, keeps what
      the loop keeps, with the sausage now covered. */
  lemma ConsumedStep(before: seq<TermValue>, after: seq<TermValue>, covered: set<nat>, sausage: set<nat>,
                     sausages: seq<set<nat>>, added: seq<nat>, more: seq<nat>)
    requires Consumed(before, covered, sausages, added) && sausage * covered == {}
    requires Ascending(more) && forall e :: e in more <==> e in sausage
    requires sausage != {} ==> Total(after) == Total(before)
    requires sausage == {} || before == [] ==> after == []
    ensures Consumed(after, covered + sausage, sausages + [sausage], added + more)
  {
    forall x | x in more
      ensures x !in added
    {
      assert x in sausage && x !in sausage * covered;
    }
    DistinctAppend(added, more);
    var ss := sausages + [sausage];
    assert ss[|sausages|] == sausage;
    assert forall i :: 0 <= i < |sausages| ==> ss[i] == sausages[i];
    if before != [] && sausage != {} {
      assert Total(after) == 1.0;
    }
  }

  /** The end of the last stage, whose only end node is the sink: the polynomial advances
      and the result is read. When some edge was added no live term was left, so the end
      terms carry the whole coefficient 1 and there is a result: the coefficient of the
      term that reached the sink, or 1 when no term reached it. When no edge was added no
      end term exists, no term is left and there is no result. */
  method AdvanceAndRead(P: Polynomial, ghost mid: set<nat>, ghost sink: nat) returns (r: Option<real>)
    requires P.Valid() && Stage(P.terms, P.endTerms, mid, {sink})
    requires Total(P.terms) + EndTotal(P.endTerms) == 1.0
    requires mid != {} ==> P.terms == []
    requires mid == {} ==> P.endTerms == map[]
    modifies P
    ensures r == ResultOf(P.terms) && StageStart(P) && Settled(P.terms, {sink})
    ensures r.Some? <==> mid != {}
    ensures r.Some? ==> Total(P.terms) == 1.0 && 0.0 <= r.value <= 1.0
    ensures forall i :: 0 <= i < |P.terms| && P.terms[i].reachable == {sink} ==> r == Some(P.terms[i].coef)
    ensures r.Some? && (forall i :: 0 <= i < |P.terms| ==> P.terms[i].reachable != {sink}) ==> r == Some(1.0)
  {
    ghost var m := P.endTerms;
    ghost var order := P.Advance();
    AdvancedSettled(m, order, P.terms, {sink});
    assert P.terms != [] <==> mid != {} by {
      if mid != {} {
        assert Total(P.terms) == 1.0;
      }
    }
    r := P.GetResult();
    SettledResult(P.terms, sink);
  }

  /** What every solver keeps from `Solver(graph)`: a valid polynomial, the target as the
      singleton of the sink, the ids of all arcs as edge ids, and their weights, which are
      probabilities. */
  ghost predicate BaseValid(P: Polynomial, target: set<nat>, sink: nat, info: map<nat, EdgeInfo>, all: set<nat>)
    reads P
  {
    P.Valid() && target == {sink} && Fits(all, NUM_EDGES) && info.Keys == all
    && forall id :: id in info ==> 0.0 <= info[id].p <= 1.0
  }

  /** `Solver(graph)` without the polynomial: the node bitsets of SOURCE and SINK, the
      weight and terminals of every arc, and the bitset of all arc ids. */
  method Setup(g: Graphs.Graph) returns (source: set<nat>, target: set<nat>, info: map<nat, EdgeInfo>, all: set<nat>)
    requires g.Valid() && Graphs.SOURCE in g.nodeOf && Graphs.SINK in g.nodeOf
    requires g.nextNode <= NUM_NODES && g.nextArc <= NUM_EDGES
    ensures source == {g.nodeOf[Graphs.SOURCE]} && target == {g.nodeOf[Graphs.SINK]}
    ensures info.Keys == g.arcs.Keys && forall id :: id in g.arcs ==> info[id] == Graphs.InfoOf(g.arcs, id)
    ensures all == g.arcs.Keys && Fits(all, NUM_EDGES)
  {
    source := g.GetNodeBitset(Graphs.SOURCE);
    target := g.GetNodeBitset(Graphs.SINK);
    info := g.GetEdgeInfo(map[]);
    all := g.EdgesAsBitset();
  }

  /** The terminal table handed to `Collapse`: the terminals of every edge of `ids`, read
      from the edge information. */
  method TerminalTable(info: map<nat, EdgeInfo>, ids: set<nat>) returns (t: TerminalMap)
    requires ids <= info.Keys
    ensures t.Keys == ids && forall id :: id in ids ==> t[id] == info[id].ends
  {
    t := map[];
    var todo := ids;
    while todo != {}
      invariant todo <= ids
      invariant forall id :: id in t <==> id in ids && id !in todo
      invariant forall id :: id in t ==> t[id] == info[id].ends
      decreases |todo|
    {
      var id :| id in todo;
      t := t[id := info[id].ends];
      todo := todo - {id};
    }
  }

  /** The sausage solver: cuts found on the graph, consumed front first. */
  class SausageSolver {
    const source: set<nat>
    const target: set<nat>
    ghost const sink: nat
    const edgeInfo: map<nat, EdgeInfo>
    const P: Polynomial
    const allEdges: set<nat>
    var cuts: seq<Cut>

    /** The solver's fields as set up, and cuts that cover only arcs. */
    ghost predicate Valid()
      reads this, P
    {
      BaseValid(P, target, sink, edgeInfo, allEdges)
      && forall k :: 0 <= k < |cuts| ==> cuts[k].covered <= allEdges
    }

    /** `SausageSolver(graph)`: the common set-up, a polynomial of one term that has
        reached the SOURCE node, then the graph's good cuts. */
    constructor (g: Graphs.Graph)
      requires g.Valid() && Graphs.SOURCE in g.nodeOf && Graphs.SINK in g.nodeOf
      requires g.nextNode <= NUM_NODES && g.nextArc <= NUM_EDGES && Probabilities(g.arcs)
      requires forall c :: c in g.cuts ==> c.covered <= g.arcs.Keys
      modifies g
      ensures g.nodes == old(g.nodes) && g.arcs == old(g.arcs) && g.nodeOf == old(g.nodeOf)
      ensures Valid() && fresh(P) && StageStart(P)
      ensures P.terms == [FreshValue().(reachable := {g.nodeOf[Graphs.SOURCE]})] && Total(P.terms) == 1.0
      ensures target == {g.nodeOf[Graphs.SINK]} && allEdges == g.arcs.Keys
      ensures forall id :: id in g.arcs ==> edgeInfo[id] == Graphs.InfoOf(g.arcs, id)
    {
      var s, t, info, all := Setup(g);
      source, target, edgeInfo, allEdges := s, t, info, all;
      sink := g.nodeOf[Graphs.SINK];
      P := new Polynomial(s);
      var found;
      ghost var swept, mid, idx1, idx2;
      found, swept, mid, idx1, idx2 := g.FindSomeGoodCuts();
      cuts := found;
      new;
      assert forall k :: 0 <= k < |cuts| ==> cuts[k] in cuts;
    }

    /** `ConsumeSausage(sausage, end_nodes)`: the edges of the sausage, in increasing id
        order, each added with its weight and followed by a collapse onto the end nodes;
        then the polynomial advances. A non-empty sausage leaves no live term behind, so
        the new live terms are the end terms: one per set of end nodes reached, with the
        same total coefficient. An empty sausage collapses nothing and the advance leaves
        no term at all. `added` lists the edges added. */
    method ConsumeSausage(sausage: set<nat>, endNodes: set<nat>) returns (ghost added: seq<nat>)
      requires Valid() && StageStart(P) && sausage <= allEdges
      modifies P
      ensures Valid() && StageStart(P) && Settled(P.terms, endNodes)
      ensures sausage != {} ==> Total(P.terms) == old(Total(P.terms))
      ensures sausage == {} || old(P.terms) == [] ==> P.terms == []
      ensures Ascending(added) && forall e :: e in added <==> e in sausage
    {
      var t := TerminalTable(edgeInfo, sausage);
      added := AddSausage(sausage, endNodes, t);
      ghost var m := P.endTerms;
      ghost var order := P.Advance();
      AdvancedSettled(m, order, P.terms, endNodes);
    }

    /** The loop of `ConsumeSausage`. */
    method AddSausage(sausage: set<nat>, endNodes: set<nat>, t: TerminalMap) returns (ghost added: seq<nat>)
      requires Valid() && StageStart(P) && sausage <= allEdges
      modifies P
      ensures Valid() && Stage(P.terms, P.endTerms, sausage, endNodes)
      ensures Total(P.terms) + EndTotal(P.endTerms) == old(Total(P.terms))
      ensures sausage != {} ==> P.terms == []
      ensures sausage == {} ==> P.endTerms == map[]
      ensures old(P.terms) == [] ==> P.endTerms == map[]
      ensures Ascending(added) && forall e :: e in added <==> e in sausage
    {
      ghost var done: set<nat> := {};
      ghost var total := Total(P.terms);
      ghost var wasEmpty := P.terms == [];
      added := [];
      for e: nat := 0 to NUM_EDGES
        invariant Valid() && Stage(P.terms, P.endTerms, done, endNodes)
        invariant Total(P.terms) + EndTotal(P.endTerms) == total
        invariant forall d :: d in done <==> d in sausage && d < e
        invariant done == sausage && sausage != {} ==> P.terms == []
        invariant done == {} ==> P.endTerms == map[]
        invariant wasEmpty ==> P.terms == [] && P.endTerms == map[]
        invariant Ascending(added) && (forall d :: d in added <==> d in done)
        invariant forall k :: 0 <= k < |added| ==> added[k] < e
      {
        if e in sausage {
          AddAndCollapse(P, e, edgeInfo[e].p, sausage, endNodes, t, done);
          AscendingAppend(added, e);
          done := done + {e};
          added := added + [e];
        }
      }
      assert done == sausage;
    }

    /** `Solve()`: while cuts are left, the front cut is taken off; its covered edges not
        yet covered form the sausage, consumed onto its middle; the cuts whose middle meets
        its left side are dropped. Last, the edges still not covered are consumed onto the
        sink. The sausages are pairwise disjoint and together every edge is added exactly
        once. While every sausage is non-empty the coefficients of the live terms add up
        to 1, and the result is a probability: the coefficient of the term that reached
        the sink, or 1 when no term reached it. After an empty sausage no term is left and
        the program reads past an empty list; the result is then `None`. */
    method Solve() returns (r: Option<real>, ghost sausages: seq<set<nat>>, ghost added: seq<nat>)
      requires Valid() && StageStart(P) && Total(P.terms) == 1.0
      modifies this, P
      ensures Valid() && cuts == []
      ensures forall i, j :: 0 <= i < j < |sausages| ==> sausages[i] * sausages[j] == {}
      ensures forall i :: 0 <= i < |sausages| ==> sausages[i] <= allEdges
      ensures Distinct(added) && forall id :: id in added <==> id in allEdges
      ensures r.Some? <==> forall i :: 0 <= i < |sausages| ==> sausages[i] != {}
      ensures r == ResultOf(P.terms) && Settled(P.terms, target)
      ensures r.Some? ==> Total(P.terms) == 1.0 && 0.0 <= r.value <= 1.0
      ensures forall i :: 0 <= i < |P.terms| && P.terms[i].reachable == target ==> r == Some(P.terms[i].coef)
      ensures r.Some? && (forall i :: 0 <= i < |P.terms| ==> P.terms[i].reachable != target) ==> r == Some(1.0)
    {
      var covered: set<nat> := {};
      sausages := [];
      added := [];
      while |cuts| > 0
        invariant Valid() && StageStart(P) && covered <= allEdges
        invariant Consumed(P.terms, covered, sausages, added)
        decreases |cuts|
      {
        var next := cuts[0];
        cuts := cuts[1..];
        var sausage := next.covered - covered;
        ghost var before := P.terms;
        var more := ConsumeSausage(sausage, next.middle);
        ConsumedStep(before, P.terms, covered, sausage, sausages, added, more);
        sausages := sausages + [sausage];
        covered := covered + sausage;
        added := added + more;
        UnobsoletedMembers(cuts, next.left);
        cuts := RemoveObsolete(cuts, next);
        assert forall k :: 0 <= k < |cuts| ==> cuts[k] in cuts;
      }
      var sausage := allEdges - covered;
      ghost var before := P.terms;
      var more := ConsumeSausage(sausage, target);
      ConsumedStep(before, P.terms, covered, sausage, sausages, added, more);
      sausages := sausages + [sausage];
      added := added + more;
      r := P.GetResult();
      SettledResult(P.terms, sink);
    }
  }

  /** The random solver: every edge added in one shuffled order, collapsing onto the sink
      after each. */
  class RandomSolver {
    const source: set<nat>
    const target: set<nat>
    ghost const sink: nat
    const edgeInfo: map<nat, EdgeInfo>
    const P: Polynomial
    const allEdges: set<nat>
    var shuffledEdges: seq<nat>

    ghost predicate Valid()
      reads this, P
    {
      BaseValid(P, target, sink, edgeInfo, allEdges)
    }

    /** `RandomSolver(graph)`: the common set-up and a polynomial of one term that has
        reached the SOURCE node; no shuffled order yet. */
    constructor (g: Graphs.Graph)
      requires g.Valid() && Graphs.SOURCE in g.nodeOf && Graphs.SINK in g.nodeOf
      requires g.nextNode <= NUM_NODES && g.nextArc <= NUM_EDGES && Probabilities(g.arcs)
      ensures Valid() && fresh(P) && StageStart(P) && shuffledEdges == []
      ensures P.terms == [FreshValue().(reachable := {g.nodeOf[Graphs.SOURCE]})] && Total(P.terms) == 1.0
      ensures target == {g.nodeOf[Graphs.SINK]} && allEdges == g.arcs.Keys
      ensures forall id :: id in g.arcs ==> edgeInfo[id] == Graphs.InfoOf(g.arcs, id)
    {
      var s, t, info, all := Setup(g);
      source, target, edgeInfo, allEdges := s, t, info, all;
      sink := g.nodeOf[Graphs.SINK];
      P := new Polynomial(s);
      shuffledEdges := [];
    }

    /** `Shuffle()`: every edge id is appended in increasing order, then the whole list is
        rearranged by the permutation `perm` the random shuffle draws. On the first call the
        list holds every edge exactly once. */
    method Shuffle(perm: seq<nat>) returns (ghost pushed: seq<nat>)
      requires Valid() && Permutation(perm, |shuffledEdges| + |allEdges|)
      modifies this
      ensures Valid() && unchanged(P)
      ensures |pushed| == |old(shuffledEdges)| + |allEdges| && pushed[..|old(shuffledEdges)|] == old(shuffledEdges)
      ensures Ascending(pushed[|old(shuffledEdges)|..]) && Elements(pushed[|old(shuffledEdges)|..]) == allEdges
      ensures shuffledEdges == Permuted(pushed, perm)
      ensures old(shuffledEdges) == [] ==> Distinct(shuffledEdges) && Elements(shuffledEdges) == allEdges
    {
      var ids := AscendingIds(allEdges);
      DistinctCard(ids);
      var list := shuffledEdges + ids;
      pushed := list;
      assert pushed[|shuffledEdges|..] == ids;
      shuffledEdges := Permuted(list, perm);
      if old(shuffledEdges) == [] {
        assert list == ids;
        PermutedElements(list, perm);
      }
    }

    /** The pushes of `Shuffle`: the ids of `all` in increasing order, as a walk over the
        bitset visits them. */
    static method AscendingIds(all: set<nat>) returns (ids: seq<nat>)
      requires Fits(all, NUM_EDGES)
      ensures Ascending(ids) && Distinct(ids) && Elements(ids) == all
    {
      ids := [];
      for e: nat := 0 to NUM_EDGES
        invariant Ascending(ids) && forall d :: d in ids <==> d in all && d < e
        invariant forall k :: 0 <= k < |ids| ==> ids[k] < e
      {
        if e in all {
          ids := ids + [e];
        }
      }
    }

    /** `Solve()`: the edges shuffled by `perm`, each added with its weight and followed by
        a collapse of the terms onto the sink over all edges; then the polynomial advances
        and the result is read. After the last edge every term has decided every edge, so
        none is left live and the end terms carry the whole coefficient 1: the result is
        the coefficient of the term that reached the sink, or 1 when no term reached it.
        A graph without edges collapses nothing, leaves no term, and the program reads
        past an empty list; the result is then `None`. */
    method Solve(perm: seq<nat>) returns (r: Option<real>)
      requires Valid() && StageStart(P) && Total(P.terms) == 1.0
      requires shuffledEdges == [] && Permutation(perm, |allEdges|)
      modifies this, P
      ensures Valid() && Distinct(shuffledEdges) && Elements(shuffledEdges) == allEdges
      ensures r == ResultOf(P.terms) && StageStart(P) && Settled(P.terms, target)
      ensures r.Some? <==> allEdges != {}
      ensures r.Some? ==> Total(P.terms) == 1.0 && 0.0 <= r.value <= 1.0
      ensures forall i :: 0 <= i < |P.terms| && P.terms[i].reachable == target ==> r == Some(P.terms[i].coef)
      ensures r.Some? && (forall i :: 0 <= i < |P.terms| ==> P.terms[i].reachable != target) ==> r == Some(1.0)
    {
      ghost var pushed := Shuffle(perm);
      var t := TerminalTable(edgeInfo, edgeInfo.Keys);
      AddInOrder(P, shuffledEdges, edgeInfo, allEdges, target, t);
      r := AdvanceAndRead(P, allEdges, sink);
    }
  }
}
