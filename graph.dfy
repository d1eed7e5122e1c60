/** The preprocessing graph: a digraph whose nodes carry names, with the arc weights, the
    name-to-node index, the set of `source + target` name keys of the arcs added so far, and
    the cuts found on it. */
module Graphs {
  import opened Reach
  import opened Digraphs
  import opened Cuts
  import opened CutFinding

  const SOURCE: string := "SOURCE"
  const SINK: string := "SINK"
  const ISOLATOR: string := "ISOLATOR"
  /** The `pre` argument that asks for minimisation. */
  const PRE_YES: string := "pre"

  /** The name a node map gives `n`; an unnamed node reads as the empty string. */
  function NameOf(names: map<nat, string>, n: nat): string
  {
    if n in names then names[n] else ""
  }

  /** The arcs without self-loops. */
  function WithoutLoops(a: ArcMap): (r: ArcMap)
    ensures LoopFree(r)
    ensures forall id :: id in r <==> id in a && a[id].src != a[id].tgt
    ensures forall id :: id in r ==> r[id] == a[id]
  {
    map id | id in a && a[id].src != a[id].tgt :: a[id]
  }

  /** Dropping self-loops keeps a loop-free arc map as it is, so doing it twice is doing it
      once. */
  lemma WithoutLoopsIdempotent(a: ArcMap)
    ensures LoopFree(a) ==> WithoutLoops(a) == a
    ensures WithoutLoops(WithoutLoops(a)) == WithoutLoops(a)
  {
  }

  /** An arc that `UpdateWeights` acts on: it has a draw and neither leaves a node named
      SOURCE nor enters a node named SINK. */
  predicate Sampled(a: ArcMap, names: map<nat, string>, draws: map<nat, real>, id: nat)
  {
    id in a && id in draws && NameOf(names, a[id].src) != SOURCE && NameOf(names, a[id].tgt) != SINK
  }

  /** The arcs after `UpdateWeights`: a sampled arc whose draw exceeds its weight becomes
      certain, any other sampled arc fails and is erased, and the rest stay as they are. */
  function WeightsUpdated(a: ArcMap, names: map<nat, string>, draws: map<nat, real>): (r: ArcMap)
    ensures forall id :: id in r <==> id in a && !(Sampled(a, names, draws, id) && draws[id] <= a[id].w)
    ensures forall id :: id in r ==> r[id] == if Sampled(a, names, draws, id) then a[id].(w := 1.0) else a[id]
  {
    map id | id in a && !(Sampled(a, names, draws, id) && draws[id] <= a[id].w) ::
      if Sampled(a, names, draws, id) then a[id].(w := 1.0) else a[id]
  }

  /** After `UpdateWeights` every sampled arc is decided: gone, or present with weight 1.
      The endpoints never change, so weights stay probabilities and arcs stay within the
      nodes. */
  lemma WeightsUpdatedDecides(a: ArcMap, names: map<nat, string>, draws: map<nat, real>, nodes: set<nat>)
    ensures forall id :: Sampled(a, names, draws, id) ==>
              id !in WeightsUpdated(a, names, draws) || WeightsUpdated(a, names, draws)[id].w == 1.0
    ensures Probabilities(a) ==> Probabilities(WeightsUpdated(a, names, draws))
    ensures ArcsWithin(a, nodes) ==> ArcsWithin(WeightsUpdated(a, names, draws), nodes)
  {
  }

  /** The information the solvers keep about arc `id`. */
  function InfoOf(a: ArcMap, id: nat): EdgeInfo
    requires id in a
  {
    EdgeInfo(a[id].w, Terminals(a[id].src, a[id].tgt))
  }

  /** The nodes on some path from `s` to `t`: reached from `s`, and reaching `t`. */
  ghost function OnPath(a: ArcMap, s: nat, t: nat): set<nat>
  {
    Reached(a, {s}) * Reached(Reversed(a), {t})
  }

  /** The nodes of the names in `ks`, other than SOURCE and SINK, that lie outside `on`. */
  ghost function IsolatedAmong(nodeOf: map<string, nat>, ks: set<string>, on: set<nat>): set<nat>
  {
    set k | k in ks && k in nodeOf && k != SOURCE && k != SINK && nodeOf[k] !in on :: nodeOf[k]
  }

  /** The nodes `RemoveIsolatedNodes` erases: the named nodes, other than SOURCE and SINK,
      on no path from SOURCE to SINK. */
  ghost function Isolated(a: ArcMap, nodeOf: map<string, nat>): set<nat>
    requires SOURCE in nodeOf && SINK in nodeOf
  {
    IsolatedAmong(nodeOf, nodeOf.Keys, OnPath(a, nodeOf[SOURCE], nodeOf[SINK]))
  }

  /** Arcs join live nodes; ids stay below the next ids; every live node is named; the
      name index points at allocated nodes whose name it is. */
  ghost predicate Wellformed(nodes: set<nat>, arcs: ArcMap, names: map<nat, string>, nodeOf: map<string, nat>,
                             nextNode: nat, nextArc: nat)
  {
    ArcsWithin(arcs, nodes)
    && (forall id :: id in arcs ==> id < nextArc)
    && (forall n :: n in nodes ==> n in names)
    && (forall n :: n in names ==> n < nextNode)
    && (forall k :: k in nodeOf ==> nodeOf[k] < nextNode && nodeOf[k] in names && names[nodeOf[k]] == k)
  }

  /** Every arc's `source + target` name key is among `keys`, as `AddEdge` records it. */
  ghost predicate Keyed(a: ArcMap, names: map<nat, string>, keys: set<string>)
  {
    forall id :: id in a ==> NameOf(names, a[id].src) + NameOf(names, a[id].tgt) in keys
  }

  /** Adding an arc whose name key is new to a keyed simple digraph, with the old nodes'
      names kept, gives a keyed simple digraph: an arc joining the same pair would carry
      the same key. */
  lemma KeyedAdd(a0: ArcMap, nm0: map<nat, string>, k0: set<string>, names: map<nat, string>,
                 s: nat, t: nat, w: real, nid: nat, key: string)
    requires nid !in a0 && (forall id :: id in a0 ==> a0[id].src in nm0 && a0[id].tgt in nm0)
    requires forall n :: n in nm0 ==> n in names && names[n] == nm0[n]
    requires key !in k0 && NameOf(names, s) + NameOf(names, t) == key
    ensures Simple(a0) && Keyed(a0, nm0, k0) ==>
              Simple(a0[nid := Arc(s, t, w)]) && Keyed(a0[nid := Arc(s, t, w)], names, k0 + {key})
  {
    if Keyed(a0, nm0, k0) {
      assert forall id :: id in a0 ==> !(a0[id].src == s && a0[id].tgt == t) by {
        forall id | id in a0
          ensures NameOf(names, a0[id].src) + NameOf(names, a0[id].tgt) in k0
        {
          assert NameOf(names, a0[id].src) == NameOf(nm0, a0[id].src);
          assert NameOf(names, a0[id].tgt) == NameOf(nm0, a0[id].tgt);
        }
      }
    }
  }

  /** The digraph and its maps at one moment. */
  datatype Snapshot = Snapshot(nodes: set<nat>, arcs: ArcMap, names: map<nat, string>, nodeOf: map<string, nat>,
                               nextNode: nat, nextArc: nat)

  /** A non-terminal node with exactly one arc in and one arc out. */
  predicate Elementary(a: ArcMap, names: map<nat, string>, n: nat)
  {
    NameOf(names, n) != SOURCE && NameOf(names, n) != SINK
    && |InArcs(a, n)| == 1 && |OutArcs(a, n)| == 1
  }

  /** No live node is elementary. */
  predicate NoElementary(a: ArcMap, nodes: set<nat>, names: map<nat, string>)
  {
    forall n :: n in nodes ==> !Elementary(a, names, n)
  }

  /** The sources of the arcs `ids`. */
  function Sources(a: ArcMap, ids: set<nat>): set<nat>
  {
    set i | i in ids && i in a :: a[i].src
  }

  /** The link step of `CollapseELementaryPaths`: searches the arcs leaving `x` for one
      into `y`; one found has its weight `w'` merged in parallel to `1 - (1 - w')(1 - p)`,
      otherwise a new arc from `x` to `y` with weight `p` takes the next arc id. */
  method Link(a: ArcMap, next: nat, x: nat, y: nat, p: real) returns (r: ArcMap, next': nat, id: nat)
    requires forall k :: k in a ==> k < next
    ensures forall k :: k in r ==> k < next'
    ensures !Linked(a, x, y) ==> id == next && next' == next + 1 && r == a[id := Arc(x, y, p)]
    ensures Linked(a, x, y) ==>
              id in ArcsBetween(a, x, y) && next' == next
              && r == a[id := a[id].(w := Parallel(a[id].w, p))]
  {
    var outs := OutArcs(a, x);
    var found := false;
    id := 0;
    while outs != {} && !found
      invariant outs <= OutArcs(a, x)
      invariant found ==> id in ArcsBetween(a, x, y)
      invariant !found ==> forall k :: k in OutArcs(a, x) - outs ==> a[k].tgt != y
      decreases |outs|, !found
    {
      var k :| k in outs;
      if a[k].tgt == y {
        id, found := k, true;
      } else {
        outs := outs - {k};
      }
    }
    if found {
      assert Linked(a, x, y);
      r, next' := a[id := a[id].(w := Parallel(a[id].w, p))], next;
    } else {
      assert forall k :: k in ArcsBetween(a, x, y) ==> k in OutArcs(a, x);
      assert ArcsBetween(a, x, y) == {};
      id := next;
      r, next' := a[next := Arc(x, y, p)], next + 1;
      assert !Linked(a, x, y);
    }
  }

  /** Linking keeps every arc's endpoints, adds an arc only between an unjoined pair (so a
      simple digraph stays simple), keeps arcs among `nodes` when both ends are there, and
      keeps weights probabilities when `p` is one. */
  lemma LinkKeeps(a: ArcMap, r: ArcMap, nodes: set<nat>, next: nat, x: nat, y: nat, p: real, id: nat)
    requires forall k :: k in a ==> k < next
    requires !Linked(a, x, y) ==> id == next && r == a[id := Arc(x, y, p)]
    requires Linked(a, x, y) ==> id in ArcsBetween(a, x, y) && r == a[id := a[id].(w := Parallel(a[id].w, p))]
    ensures EndpointsKept(a, r) && Linked(r, x, y)
    ensures Simple(a) ==> Simple(r)
    ensures ArcsWithin(a, nodes) && x in nodes && y in nodes ==> ArcsWithin(r, nodes)
    ensures Probabilities(a) && 0.0 <= p <= 1.0 ==> Probabilities(r)
  {
    assert id in ArcsBetween(r, x, y);
    if Probabilities(a) && 0.0 <= p <= 1.0 && Linked(a, x, y) {
      ParallelIsProbability(a[id].w, p);
      assert r[id] == a[id].(w := Parallel(a[id].w, p));
      assert r[id].w == Parallel(a[id].w, p);
      assert 0.0 <= a[id].w;
      assert a[id].w <= Parallel(a[id].w, p) <= 1.0;
      assert 0.0 <= r[id].w <= 1.0;
      assert forall k :: k in r && k != id ==> r[k] == a[k];
    }
    if Simple(a) && !Linked(a, x, y) {
      assert forall k :: k in r && k != id ==> k in a && r[k] == a[k] && k !in ArcsBetween(a, x, y);
    }
  }

  /** The one element of a set with one element. */
  ghost function Only(s: set<nat>): (x: nat)
    requires |s| == 1
    ensures s == {x}
  {
    var x :| x in s;
    assert |s - {x}| == 0;
    x
  }

  /** A node with exactly one arc in and one arc out. */
  predicate OneInOneOut(a: ArcMap, n: nat)
  {
    |InArcs(a, n)| == 1 && |OutArcs(a, n)| == 1
  }

  /** What linking `x` to `y` with weight `p` makes of the arcs `a` and the next arc id: an
      arc from `x` to `y` has its weight `w'` merged in parallel to `1 - (1 - w')(1 - p)`, or,
      when there is none, a new arc of weight `p` takes the id `next`. */
  ghost function Linking(a: ArcMap, next: nat, x: nat, y: nat, p: real): (ArcMap, nat)
  {
    if Linked(a, x, y) then
      var id :| id in ArcsBetween(a, x, y);
      (a[id := a[id].(w := Parallel(a[id].w, p))], next)
    else
      (a[next := Arc(x, y, p)], next + 1)
  }

  /** On a simple digraph the arc `Link` merges into is the only one joining the pair, so
      `Link` computes `Linking`. */
  lemma LinkIsLinking(a: ArcMap, r: ArcMap, next: nat, next': nat, x: nat, y: nat, p: real, id: nat)
    requires Simple(a)
    requires !Linked(a, x, y) ==> next' == next + 1 && r == a[next := Arc(x, y, p)]
    requires Linked(a, x, y) ==> id in ArcsBetween(a, x, y) && next' == next
                                 && r == a[id := a[id].(w := Parallel(a[id].w, p))]
    ensures (r, next') == Linking(a, next, x, y, p)
  {
    if Linked(a, x, y) {
      SimpleBetween(a, x, y);
      assert ArcsBetween(a, x, y) == {id};
    }
  }

  /** The pair linked when bypassing a node `n` with one arc in and one out: the source of
      the in-arc to the target of the out-arc, with the product of their weights. */
  ghost function Bridged(a: ArcMap, n: nat, next: nat): (ArcMap, nat)
    requires OneInOneOut(a, n)
  {
    var i, o := Only(InArcs(a, n)), Only(OutArcs(a, n));
    Linking(a, next, a[i].src, a[o].tgt, Series(a[i].w, a[o].w))
  }

  /** What bypassing a node `n` with one arc in and one out makes of the arcs `a` and the
      next arc id: the bridging link, then `n` erased with its arcs. When the in-arc is a
      self-loop (and so also the out-arc) only the erasure is left. */
  ghost function Bypassed(a: ArcMap, n: nat, next: nat): (ArcMap, nat)
    requires OneInOneOut(a, n)
  {
    var b := Bridged(a, n, next);
    (WithoutNodes(b.0, {n}), b.1)
  }

  /** Bypassing `n` in a simple digraph keeps it simple and keeps every arc id below the
      next one. */
  lemma BypassedSimple(a: ArcMap, n: nat, next: nat)
    requires Simple(a) && (forall k :: k in a ==> k < next) && OneInOneOut(a, n)
    ensures Simple(Bypassed(a, n, next).0)
    ensures forall k :: k in Bypassed(a, n, next).0 ==> k < Bypassed(a, n, next).1
  {
    var i, o := Only(InArcs(a, n)), Only(OutArcs(a, n));
    var x, y, p := a[i].src, a[o].tgt, Series(a[i].w, a[o].w);
    var b := Bridged(a, n, next);
    var id := next;
    if Linked(a, x, y) {
      SimpleBetween(a, x, y);
      id := Only(ArcsBetween(a, x, y));
    }
    LinkKeeps(a, b.0, {}, next, x, y, p, id);
    SubArcs(b.0, WithoutNodes(b.0, {n}));
  }

  /** Erasing `n` after setting an arc that does not touch `n` is setting it after the
      erasure. */
  lemma WithoutNodesUpdate(a: ArcMap, n: nat, k: nat, arc: Arc)
    requires arc.src != n && arc.tgt != n
    ensures WithoutNodes(a[k := arc], {n}) == WithoutNodes(a, {n})[k := arc]
  {
    var r, w := WithoutNodes(a[k := arc], {n}), WithoutNodes(a, {n})[k := arc];
    forall j | j in r ensures j in w && r[j] == w[j] {
    }
    forall j | j in w ensures j in r {
    }
  }

  /** A node whose one in-arc `i` is not a loop has an out-arc `o` that is not one either,
      and bypassing it is linking the source of `i` to the target of `o` by the product of
      their weights, then erasing the node. */
  lemma BypassedLinks(a: ArcMap, n: nat, next: nat, i: nat, o: nat)
    requires InArcs(a, n) == {i} && OutArcs(a, n) == {o} && a[i].src != n
    ensures OneInOneOut(a, n) && a[o].tgt != n
    ensures var l := Linking(a, next, a[i].src, a[o].tgt, Series(a[i].w, a[o].w));
      Bypassed(a, n, next) == (WithoutNodes(l.0, {n}), l.1)
  {
    assert |InArcs(a, n)| == 1 && |OutArcs(a, n)| == 1;
    assert Only(InArcs(a, n)) == i && Only(OutArcs(a, n)) == o;
    assert a[o].tgt == n ==> o in InArcs(a, n);
  }

  /** The weight rule of a bypass, written out. For a node `n` whose one in-arc `i` from
      `x` and one out-arc `o` into `y` are not loops, erasing `n` leaves every arc not
      touching `n`, and then: when no arc joined `x` to `y`, a new arc from `x` to `y`
      weighing the product `w_i * w_o` takes the id `next`; when one did, that arc keeps its
      id and endpoints and its weight `w` becomes `1 - (1 - w)(1 - w_i * w_o)`. */
  lemma BypassedWeights(a: ArcMap, n: nat, next: nat, i: nat, o: nat)
    requires Simple(a) && (forall k :: k in a ==> k < next)
    requires InArcs(a, n) == {i} && OutArcs(a, n) == {o} && a[i].src != n
    ensures OneInOneOut(a, n) && a[o].tgt != n
    ensures var x, y, r := a[i].src, a[o].tgt, Bypassed(a, n, next).0;
      (!Linked(a, x, y) ==> r == WithoutNodes(a, {n})[next := Arc(x, y, a[i].w * a[o].w)])
      && forall id :: id in ArcsBetween(a, x, y) ==>
           r == WithoutNodes(a, {n})[id := a[id].(w := 1.0 - (1.0 - a[id].w) * (1.0 - a[i].w * a[o].w))]
  {
    BypassedLinks(a, n, next, i, o);
    var x, y, p := a[i].src, a[o].tgt, Series(a[i].w, a[o].w);
    if !Linked(a, x, y) {
      var arc := Arc(x, y, p);
      LinkIsLinking(a, a[next := arc], next, next + 1, x, y, p, next);
      WithoutNodesUpdate(a, n, next, arc);
      assert arc == Arc(x, y, a[i].w * a[o].w);
    }
    forall id | id in ArcsBetween(a, x, y)
      ensures Bypassed(a, n, next).0 == WithoutNodes(a, {n})[id := a[id].(w := 1.0 - (1.0 - a[id].w) * (1.0 - a[i].w * a[o].w))]
    {
      var arc := a[id].(w := Parallel(a[id].w, p));
      LinkIsLinking(a, a[id := arc], next, next, x, y, p, id);
      WithoutNodesUpdate(a, n, id, arc);
      assert arc == a[id].(w := 1.0 - (1.0 - a[id].w) * (1.0 - a[i].w * a[o].w));
    }
  }

  /** Linking keeps every arc's endpoints and adds at most the arc `next`, from `x` to
      `y`, exactly when no arc joined them. */
  lemma LinkingFacts(a: ArcMap, next: nat, x: nat, y: nat, p: real)
    requires forall k :: k in a ==> k < next
    ensures EndpointsKept(a, Linking(a, next, x, y, p).0)
    ensures forall k :: k in Linking(a, next, x, y, p).0 && k !in a ==> k == next && Linking(a, next, x, y, p).0[k] == Arc(x, y, p)
    ensures Linking(a, next, x, y, p).1 == (if Linked(a, x, y) then next else next + 1)
    ensures !Linked(a, x, y) ==> next in Linking(a, next, x, y, p).0
  {
  }

  /** Linking adds the arc `next` into `y` and out of `x` when it adds one, and changes no
      other arc's endpoints. */
  lemma LinkingArcsAt(a: ArcMap, next: nat, x: nat, y: nat, p: real, m: nat)
    requires forall k :: k in a ==> k < next
    ensures var added := Linking(a, next, x, y, p).1 != next;
            InArcs(Linking(a, next, x, y, p).0, m) == InArcs(a, m) + (if added && y == m then {next} else {})
            && OutArcs(Linking(a, next, x, y, p).0, m) == OutArcs(a, m) + (if added && x == m then {next} else {})
    ensures Linked(a, x, y) || y != m ==> InArcs(Linking(a, next, x, y, p).0, m) == InArcs(a, m)
    ensures Linked(a, x, y) || x != m ==> OutArcs(Linking(a, next, x, y, p).0, m) == OutArcs(a, m)
  {
    LinkingFacts(a, next, x, y, p);
  }

  /** Erasing `n` takes from another node `m` exactly its arcs from and to `n`. */
  lemma ErasedArcsAt(l: ArcMap, n: nat, m: nat)
    requires m != n
    ensures InArcs(WithoutNodes(l, {n}), m) == InArcs(l, m) - OutArcs(l, n)
    ensures OutArcs(WithoutNodes(l, {n}), m) == OutArcs(l, m) - InArcs(l, n)
  {
  }

  lemma MinusPlus(s: set<nat>, t: set<nat>, x: nat)
    requires x !in t
    ensures (s + t) - {x} == (s - {x}) + t
  {
  }

  /** Erasing `n` from arcs `l` whose only arc out of `n` is `o` takes just `o` from the
      arcs into another node `m`. */
  lemma ErasedInAfterLink(l: ArcMap, n: nat, m: nat, before: set<nat>, added: set<nat>, o: nat)
    requires m != n && OutArcs(l, n) == {o} && InArcs(l, m) == before + added && o !in added
    ensures InArcs(WithoutNodes(l, {n}), m) == (before - {o}) + added
  {
    ErasedArcsAt(l, n, m);
    MinusPlus(before, added, o);
  }

  /** Erasing `n` from arcs `l` whose only arc into `n` is `i` takes just `i` from the
      arcs out of another node `m`. */
  lemma ErasedOutAfterLink(l: ArcMap, n: nat, m: nat, before: set<nat>, added: set<nat>, i: nat)
    requires m != n && InArcs(l, n) == {i} && OutArcs(l, m) == before + added && i !in added
    ensures OutArcs(WithoutNodes(l, {n}), m) == (before - {i}) + added
  {
    ErasedArcsAt(l, n, m);
    MinusPlus(before, added, i);
  }

  /** At a node `m` other than `n`, bypassing `n` (in-arc `i`, out-arc `o`) leaves the arcs
      into `m` but `o`, with the new arc when one was added into `m`. */
  lemma BypassedInArcsAt(a: ArcMap, n: nat, next: nat, m: nat)
    requires (forall k :: k in a ==> k < next) && OneInOneOut(a, n) && m != n
    ensures var i, o := Only(InArcs(a, n)), Only(OutArcs(a, n));
            var added := Bypassed(a, n, next).1 != next;
            InArcs(Bypassed(a, n, next).0, m) == (InArcs(a, m) - {o}) + (if added && a[o].tgt == m then {next} else {})
  {
    var i, o := Only(InArcs(a, n)), Only(OutArcs(a, n));
    var x, y, p := a[i].src, a[o].tgt, Series(a[i].w, a[o].w);
    if x == n {
      assert i in OutArcs(a, n) && i in ArcsBetween(a, x, y);
    }
    var b := Linking(a, next, x, y, p);
    assert Bypassed(a, n, next) == (WithoutNodes(b.0, {n}), b.1);
    LinkingFacts(a, next, x, y, p);
    LinkingArcsAt(a, next, x, y, p, m);
    LinkingArcsAt(a, next, x, y, p, n);
    var into: set<nat> := if b.1 != next && y == m then {next} else {};
    ErasedInAfterLink(b.0, n, m, InArcs(a, m), into, o);
  }

  /** At a node `m` other than `n`, bypassing `n` (in-arc `i`, out-arc `o`) leaves the arcs
      out of `m` but `i`, with the new arc when one was added out of `m`. */
  lemma BypassedOutArcsAt(a: ArcMap, n: nat, next: nat, m: nat)
    requires (forall k :: k in a ==> k < next) && OneInOneOut(a, n) && m != n
    ensures var i, o := Only(InArcs(a, n)), Only(OutArcs(a, n));
            var added := Bypassed(a, n, next).1 != next;
            OutArcs(Bypassed(a, n, next).0, m) == (OutArcs(a, m) - {i}) + (if added && a[i].src == m then {next} else {})
  {
    var i, o := Only(InArcs(a, n)), Only(OutArcs(a, n));
    var x, y, p := a[i].src, a[o].tgt, Series(a[i].w, a[o].w);
    if y == n {
      assert o in InArcs(a, n) && o in ArcsBetween(a, x, y);
    }
    var b := Linking(a, next, x, y, p);
    assert Bypassed(a, n, next) == (WithoutNodes(b.0, {n}), b.1);
    LinkingFacts(a, next, x, y, p);
    LinkingArcsAt(a, next, x, y, p, m);
    LinkingArcsAt(a, next, x, y, p, n);
    var outOf: set<nat> := if b.1 != next && x == m then {next} else {};
    ErasedOutAfterLink(b.0, n, m, OutArcs(a, m), outOf, i);
  }

  /** When the pair a bypass of `n` links has an end `m` with one arc in and one out, no
      arc joined the pair before: the arc from `n` into `m` (or from `m` into `n`) is `m`'s
      only one. */
  lemma BypassedAddsAtOnes(a: ArcMap, n: nat, m: nat)
    requires OneInOneOut(a, n) && OneInOneOut(a, m) && m != n
    ensures var i, o := Only(InArcs(a, n)), Only(OutArcs(a, n));
            a[o].tgt == m || a[i].src == m ==> !Linked(a, a[i].src, a[o].tgt)
  {
    var i, o := Only(InArcs(a, n)), Only(OutArcs(a, n));
    var x, y := a[i].src, a[o].tgt;
    if x == n {
      assert i in OutArcs(a, n);
    }
    if y == n {
      assert o in InArcs(a, n);
    }
    if Linked(a, x, y) && x != n {
      var e :| e in ArcsBetween(a, x, y);
      assert e in InArcs(a, y) && o in InArcs(a, y);
      SubsetCard({e, o}, InArcs(a, y));
    }
    if Linked(a, x, y) && y != n {
      var e :| e in ArcsBetween(a, x, y);
      assert e in OutArcs(a, x) && i in OutArcs(a, x);
      SubsetCard({e, i}, OutArcs(a, x));
    }
  }

  /** Taking `x` from a one-element set and adding `t`, which is one element exactly when
      `x` was the element and none otherwise, leaves one element. */
  lemma SwapOne(s: set<nat>, x: nat, t: set<nat>)
    requires |s| == 1 && (x in s ==> |t| == 1) && (x !in s ==> t == {})
    ensures |(s - {x}) + t| == 1
  {
    if x in s {
      assert s - {x} == {} by {
        assert |s - {x}| == 0;
      }
    } else {
      assert s - {x} == s;
    }
  }

  /** Bypassing `n` keeps one arc in and one out at every other node that had them: an
      arc added into (out of) such a node replaces the arc from (to) `n` it had. */
  lemma BypassedKeepsOnes(a: ArcMap, n: nat, next: nat, m: nat)
    requires (forall k :: k in a ==> k < next) && OneInOneOut(a, n) && OneInOneOut(a, m) && m != n
    ensures OneInOneOut(Bypassed(a, n, next).0, m)
  {
    var i, o := Only(InArcs(a, n)), Only(OutArcs(a, n));
    var x, y := a[i].src, a[o].tgt;
    BypassedAddsAtOnes(a, n, m);
    LinkingFacts(a, next, x, y, Series(a[i].w, a[o].w));
    var added := Bypassed(a, n, next).1 != next;
    assert y == m || x == m ==> added;
    assert o in InArcs(a, m) <==> y == m;
    assert i in OutArcs(a, m) <==> x == m;
    BypassedInArcsAt(a, n, next, m);
    SwapOne(InArcs(a, m), o, if added && y == m then {next} else {});
    BypassedOutArcsAt(a, n, next, m);
    SwapOne(OutArcs(a, m), i, if added && x == m then {next} else {});
  }

  /** One pass of the inner loop of a bypass: links the source of in-arc `i` with the
      target of out-arc `o`, with the product of their current weights. */
  method LinkStep(a: ArcMap, r: ArcMap, next: nat, nodes: set<nat>, ins: set<nat>, o: nat, i: nat)
    returns (r': ArcMap, next': nat, ghost id: nat)
    requires i in ins && ins <= a.Keys && o in a
    requires forall k :: k in r ==> k < next
    requires EndpointsKept(a, r) && ArcsWithin(r, nodes)
    requires forall k :: k in r && k !in a ==> r[k].src in Sources(a, ins) && r[k].tgt == a[o].tgt
    ensures var x, y, p := r[i].src, r[o].tgt, Series(r[i].w, r[o].w);
            (!Linked(r, x, y) ==> id == next && next' == next + 1 && r' == r[id := Arc(x, y, p)])
            && (Linked(r, x, y) ==>
                  id in ArcsBetween(r, x, y) && next' == next && r' == r[id := r[id].(w := Parallel(r[id].w, p))])
            && (Simple(r) ==> (r', next') == Linking(r, next, x, y, p))
    ensures (forall k :: k in r' ==> k < next') && next' >= next
    ensures EndpointsKept(r, r') && EndpointsKept(a, r') && ArcsWithin(r', nodes)
    ensures Simple(r) ==> Simple(r')
    ensures Probabilities(r) ==> Probabilities(r')
    ensures Linked(r', a[i].src, a[o].tgt)
    ensures forall k :: k in r' && k !in a ==> r'[k].src in Sources(a, ins) && r'[k].tgt == a[o].tgt
  {
    var x, y := r[i].src, r[o].tgt;
    var w := Series(r[i].w, r[o].w);
    if Probabilities(r) {
      SeriesIsProbability(r[i].w, r[o].w);
    }
    r', next', id := Link(r, next, x, y, w);
    LinkKeeps(r, r', nodes, next, x, y, w, id);
    if Simple(r) {
      LinkIsLinking(r, r', next, next', x, y, w, id);
    }
    assert x == a[i].src && x in Sources(a, ins) by {
      assert a[i].src in Sources(a, ins);
    }
    forall k | k in r' && k !in a
      ensures r'[k].src in Sources(a, ins) && r'[k].tgt == a[o].tgt
    {
      if k !in r {
        assert k == id && r'[k] == Arc(x, y, w);
      }
    }
    assert EndpointsKept(a, r');
  }

  /** The inner loop of one bypass: every in-arc of the snapshot `ins` is linked with the
      out-arc `o`, with the product of their current weights. */
  method LinkAll(a: ArcMap, next: nat, nodes: set<nat>, ins: set<nat>, o: nat) returns (r: ArcMap, next': nat)
    requires ins <= a.Keys && o in a && ArcsWithin(a, nodes)
    requires forall k :: k in a ==> k < next
    ensures (forall k :: k in r ==> k < next') && next' >= next
    ensures EndpointsKept(a, r) && ArcsWithin(r, nodes)
    ensures Simple(a) ==> Simple(r)
    ensures Probabilities(a) ==> Probabilities(r)
    ensures forall i :: i in ins ==> Linked(r, a[i].src, a[o].tgt)
    ensures forall k :: k in r && k !in a ==> r[k].src in Sources(a, ins) && r[k].tgt == a[o].tgt
    ensures Simple(a) && |ins| == 1 ==>
              var i := Only(ins); (r, next') == Linking(a, next, a[i].src, a[o].tgt, Series(a[i].w, a[o].w))
  {
    r, next' := a, next;
    var todo := ins;
    while todo != {}
      invariant todo <= ins
      invariant todo == ins ==> r == a && next' == next
      invariant Simple(a) && |ins| == 1 && todo == {} ==>
                  var i := Only(ins); (r, next') == Linking(a, next, a[i].src, a[o].tgt, Series(a[i].w, a[o].w))
      invariant (forall k :: k in r ==> k < next') && next' >= next
      invariant EndpointsKept(a, r) && ArcsWithin(r, nodes)
      invariant Simple(a) ==> Simple(r)
      invariant Probabilities(a) ==> Probabilities(r)
      invariant forall i :: i in ins - todo ==> Linked(r, a[i].src, a[o].tgt)
      invariant forall k :: k in r && k !in a ==> r[k].src in Sources(a, ins) && r[k].tgt == a[o].tgt
      decreases |todo|
    {
      var i :| i in todo;
      ghost var r0 := r;
      ghost var id;
      r, next', id := LinkStep(a, r, next', nodes, ins, o, i);
      if |ins| == 1 {
        assert i == Only(ins);
        assert todo == ins;
      }
      forall j | j in ins - todo
        ensures Linked(r, a[j].src, a[o].tgt)
      {
        LinkedKept(r0, r, a[j].src, a[o].tgt);
      }
      todo := todo - {i};
    }
  }

  /** The arcs of `a` that `r` keeps are those that neither start nor end at `n`, and
      they keep their endpoints. */
  predicate OthersKept(a: ArcMap, r: ArcMap, n: nat)
  {
    forall k :: k in a ==>
      (k in r <==> a[k].src != n && a[k].tgt != n)
      && (k in r ==> r[k].src == a[k].src && r[k].tgt == a[k].tgt)
  }

  /** Arcs of `r` not in `a` run from a predecessor of `n` to a successor of `n`. */
  predicate NewArcsBridge(a: ArcMap, r: ArcMap, n: nat)
  {
    forall k :: k in r && k !in a ==> r[k].src in Preds(a, {n}) && r[k].tgt in Succ(a, {n})
  }

  /** The bypass of node `n` in `CollapseELementaryPaths`: for each arc leaving `n` (a
      snapshot) and each arc entering `n` at that moment, the source of the in-arc is
      linked to the target of the out-arc with the product of their current weights; then
      `n` is erased with its arcs. */
  method Bypass(a: ArcMap, nodes: set<nat>, next: nat, n: nat) returns (r: ArcMap, next': nat)
    requires ArcsWithin(a, nodes) && forall k :: k in a ==> k < next
    ensures (forall k :: k in r ==> k < next') && next' >= next
    ensures ArcsWithin(r, nodes - {n})
    ensures Simple(a) ==> Simple(r)
    ensures Probabilities(a) ==> Probabilities(r)
    ensures BypassOf(a, r, n)
    ensures Simple(a) && OneInOneOut(a, n) ==> (r, next') == Bypassed(a, n, next)
  {
    r, next' := a, next;
    var outs := OutArcs(a, n);
    while outs != {}
      invariant outs <= OutArcs(a, n)
      invariant outs == OutArcs(a, n) ==> r == a && next' == next
      invariant Simple(a) && OneInOneOut(a, n) && outs == {} ==> (r, next') == Bridged(a, n, next)
      invariant (forall k :: k in r ==> k < next') && next' >= next
      invariant EndpointsKept(a, r) && ArcsWithin(r, nodes)
      invariant Simple(a) ==> Simple(r)
      invariant Probabilities(a) ==> Probabilities(r)
      invariant NewArcsBridge(a, r, n)
      invariant forall i, o :: i in InArcs(a, n) && o in OutArcs(a, n) - outs ==> Linked(r, a[i].src, a[o].tgt)
      decreases outs
    {
      var o :| o in outs;
      ghost var r0 := r;
      var ins := InArcs(r, n);
      if Simple(a) && OneInOneOut(a, n) {
        assert o == Only(OutArcs(a, n));
        assert outs == OutArcs(a, n);
      }
      r, next' := LinkAll(r, next', nodes, ins, o);
      BypassStep(a, r0, r, n, ins, o, outs);
      outs := outs - {o};
    }
    BypassFinish(a, r, nodes, n);
    r := WithoutNodes(r, {n});
  }

  /** Erasing `n` once every in-arc is linked with every out-arc completes the bypass. */
  lemma BypassFinish(a: ArcMap, r: ArcMap, nodes: set<nat>, n: nat)
    requires EndpointsKept(a, r) && ArcsWithin(r, nodes) && NewArcsBridge(a, r, n)
    requires forall i, o :: i in InArcs(a, n) && o in OutArcs(a, n) ==> Linked(r, a[i].src, a[o].tgt)
    ensures ArcsWithin(WithoutNodes(r, {n}), nodes - {n})
    ensures Probabilities(r) ==> Probabilities(WithoutNodes(r, {n}))
    ensures BypassOf(a, WithoutNodes(r, {n}), n)
  {
    BridgesWithout(a, r, n);
    OthersWithout(a, r, n);
    var r' := WithoutNodes(r, {n});
    assert NewArcsBridge(a, r', n) by {
      forall k | k in r' && k !in a
        ensures r'[k].src in Preds(a, {n}) && r'[k].tgt in Succ(a, {n})
      {
        assert r'[k] == r[k];
      }
    }
  }

  lemma OthersWithout(a: ArcMap, r: ArcMap, n: nat)
    requires EndpointsKept(a, r)
    ensures OthersKept(a, WithoutNodes(r, {n}), n)
  {
  }

  lemma BridgesWithout(a: ArcMap, r: ArcMap, n: nat)
    requires forall i, o :: i in InArcs(a, n) && o in OutArcs(a, n) ==> Linked(r, a[i].src, a[o].tgt)
    ensures forall i, o :: i in InArcs(a, n) && o in OutArcs(a, n) && a[i].src != n && a[o].tgt != n ==>
              Linked(WithoutNodes(r, {n}), a[i].src, a[o].tgt)
  {
    forall i, o | i in InArcs(a, n) && o in OutArcs(a, n) && a[i].src != n && a[o].tgt != n
      ensures Linked(WithoutNodes(r, {n}), a[i].src, a[o].tgt)
    {
      LinkedWithout(r, {n}, a[i].src, a[o].tgt);
    }
  }

  /** The invariants of `Bypass` survive linking the current in-arcs of `n` with out-arc `o`. */
  lemma BypassStep(a: ArcMap, r0: ArcMap, r: ArcMap, n: nat, ins: set<nat>, o: nat, outs: set<nat>)
    requires o in outs && outs <= OutArcs(a, n) && ins == InArcs(r0, n)
    requires EndpointsKept(a, r0) && NewArcsBridge(a, r0, n)
    requires forall i, o :: i in InArcs(a, n) && o in OutArcs(a, n) - outs ==> Linked(r0, a[i].src, a[o].tgt)
    requires EndpointsKept(r0, r) && forall i :: i in ins ==> Linked(r, r0[i].src, r0[o].tgt)
    requires forall k :: k in r && k !in r0 ==> r[k].src in Sources(r0, ins) && r[k].tgt == r0[o].tgt
    ensures EndpointsKept(a, r) && NewArcsBridge(a, r, n)
    ensures forall i, o' :: i in InArcs(a, n) && o' in OutArcs(a, n) - (outs - {o}) ==> Linked(r, a[i].src, a[o'].tgt)
  {
    assert a[o].src == n;
    assert a[o].tgt in Succ(a, {n});
    forall k | k in r && k !in a
      ensures r[k].src in Preds(a, {n}) && r[k].tgt in Succ(a, {n})
    {
      if k !in r0 {
        var i :| i in ins && i in r0 && r0[i].src == r[k].src;
        if i in a {
          assert a[i].tgt == n;
        }
      }
    }
    forall i, o' | i in InArcs(a, n) && o' in OutArcs(a, n) - (outs - {o})
      ensures Linked(r, a[i].src, a[o'].tgt)
    {
      if o' == o {
        assert i in ins;
      } else {
        LinkedKept(r0, r, a[i].src, a[o'].tgt);
      }
    }
  }

  /** What `Bypass` guarantees about its result `r`, as one predicate. */
  ghost predicate BypassOf(a: ArcMap, r: ArcMap, n: nat)
  {
    OthersKept(a, r, n) && NewArcsBridge(a, r, n)
    && (forall k :: k in r ==> r[k].src != n && r[k].tgt != n)
    && (forall i, o :: i in InArcs(a, n) && o in OutArcs(a, n) && a[i].src != n && a[o].tgt != n ==>
          Linked(r, a[i].src, a[o].tgt))
  }

  /** Bypassing `n` changes no reachability among the other nodes: from any node but `n`,
      a search reaches the same nodes as before, less `n`. */
  lemma BypassKeepsReach(a: ArcMap, r: ArcMap, n: nat, x: nat)
    requires BypassOf(a, r, n) && x != n
    ensures Reached(r, {x}) == Reached(a, {x}) - {n}
  {
    BypassReachesLess(a, r, n, x);
    BypassReachesAll(a, r, n, x);
  }

  lemma BypassReachesLess(a: ArcMap, r: ArcMap, n: nat, x: nat)
    requires BypassOf(a, r, n) && x != n
    ensures Reached(r, {x}) <= Reached(a, {x}) - {n}
  {
    var c := Reached(a, {x});
    ReachedIsLeastClosed(a, {x}, {});
    BypassClosedLess(a, r, n, c);
    ReachedIsLeastClosed(r, {x}, c - {n});
  }

  /** A node set closed before the bypass is closed after it, less `n`. */
  lemma BypassClosedLess(a: ArcMap, r: ArcMap, n: nat, c: set<nat>)
    requires BypassOf(a, r, n) && SuccClosed(a, c)
    ensures SuccClosed(r, c - {n})
  {
    forall k | k in r && r[k].src in c - {n}
      ensures r[k].tgt in c - {n}
    {
      if k !in a {
        var i :| i in a && a[i].tgt in {n} && a[i].src == r[k].src;
        var o :| o in a && a[o].src in {n} && a[o].tgt == r[k].tgt;
      }
    }
  }

  lemma BypassReachesAll(a: ArcMap, r: ArcMap, n: nat, x: nat)
    requires BypassOf(a, r, n) && x != n
    ensures Reached(a, {x}) - {n} <= Reached(r, {x})
  {
    var d := Reached(r, {x});
    ReachedIsLeastClosed(r, {x}, {});
    var d' := if Preds(a, {n}) * d != {} then d + {n} else d;
    forall k | k in a && a[k].src in d'
      ensures a[k].tgt in d'
    {
      if a[k].tgt == n {
        assert a[k].src in Preds(a, {n});
      } else if a[k].src == n {
        var u :| u in Preds(a, {n}) * d;
        var i :| i in a && a[i].tgt == n && a[i].src == u;
        AvoidsBypassed(r, n, x, u);
        assert i in InArcs(a, n) && k in OutArcs(a, n);
        var j :| j in ArcsBetween(r, u, a[k].tgt);
      } else {
        assert k in r;
      }
    }
    ReachedIsLeastClosed(a, {x}, d');
  }

  /** A search over arcs that avoid `n` never reaches `n` from elsewhere. */
  lemma AvoidsBypassed(r: ArcMap, n: nat, x: nat, m: nat)
    requires (forall k :: k in r ==> r[k].src != n && r[k].tgt != n) && x != n
    requires m in Reached(r, {x})
    ensures m != n
  {
    ReachedIsLeastClosed(r, {x}, {});
    if m != x {
      var k :| k in r && r[k].tgt == m;
    }
  }

  /** The nodes of `ns` named SOURCE or SINK. */
  function TerminalNodes(names: map<nat, string>, ns: set<nat>): set<nat>
  {
    set n | n in ns && (NameOf(names, n) == SOURCE || NameOf(names, n) == SINK)
  }

  /** Elementary nodes are never the SOURCE or SINK node. */
  lemma ElementaryNotTerminal(a: ArcMap, names: map<nat, string>, nodes: set<nat>, marked: seq<nat>)
    requires forall n :: n in marked ==> n in nodes && Elementary(a, names, n)
    ensures forall n :: n in marked ==> n in nodes - TerminalNodes(names, nodes)
  {
  }

  /** The nodes a search from `x` reaches. */
  ghost function ReachedFrom(a: ArcMap, x: nat): set<nat>
  {
    Reached(a, {x})
  }

  /** From every node outside `gone`, `r` reaches what `a` reaches, less `gone`. */
  ghost predicate ReachKept(a: ArcMap, r: ArcMap, gone: set<nat>)
  {
    forall x {:trigger ReachedFrom(r, x)} :: x !in gone ==> ReachedFrom(r, x) == ReachedFrom(a, x) - gone
  }

  lemma ReachKeptTrans(a0: ArcMap, a1: ArcMap, a2: ArcMap, g1: set<nat>, g2: set<nat>)
    requires ReachKept(a0, a1, g1) && ReachKept(a1, a2, g2)
    ensures ReachKept(a0, a2, g1 + g2)
  {
    forall x | x !in g1 + g2
      ensures ReachedFrom(a2, x) == ReachedFrom(a0, x) - (g1 + g2)
    {
      assert ReachedFrom(a1, x) == ReachedFrom(a0, x) - g1;
    }
  }

  /** Self-loops never take a search anywhere new. */
  lemma WithoutLoopsKeepsReach(a: ArcMap)
    ensures ReachKept(a, WithoutLoops(a), {})
  {
    var r := WithoutLoops(a);
    forall x
      ensures ReachedFrom(r, x) == ReachedFrom(a, x)
    {
      ReachedIsLeastClosed(a, {x}, {});
      ReachedIsLeastClosed(r, {x}, Reached(a, {x}));
      ReachedIsLeastClosed(r, {x}, {});
      ReachedIsLeastClosed(a, {x}, Reached(r, {x}));
    }
  }

  /** The nodes of the first `i` entries of `s`. */
  function Prefix(s: seq<nat>, i: nat): set<nat>
    requires i <= |s|
  {
    set k | 0 <= k < i :: s[k]
  }

  /** One more entry adds its node to the prefix. */
  lemma PrefixNext(s: seq<nat>, i: nat)
    requires i < |s|
    ensures Prefix(s, i + 1) == Prefix(s, i) + {s[i]}
  {
    forall x | x in Prefix(s, i + 1)
      ensures x in Prefix(s, i) + {s[i]}
    {
      var k :| 0 <= k < i + 1 && s[k] == x;
      if k < i {
        assert s[k] in Prefix(s, i);
      }
    }
    forall x | x in Prefix(s, i) ensures x in Prefix(s, i + 1) {
      var k :| 0 <= k < i && s[k] == x;
      assert s[k] in Prefix(s, i + 1);
    }
    assert s[i] in Prefix(s, i + 1);
  }

  /** One round of the marked-node loop: `n` is bypassed, and what the earlier rounds kept
      of the reachability of `a` stays kept with `n` gone too. */
  method BypassNext(ghost a: ArcMap, r0: ArcMap, nodes: set<nat>, next: nat, n: nat, ghost gone: set<nat>)
    returns (r: ArcMap, next': nat)
    requires ArcsWithin(r0, nodes) && forall k :: k in r0 ==> k < next
    ensures ArcsWithin(r, nodes - {n}) && (forall k :: k in r ==> k < next') && next' >= next
    ensures Simple(r0) ==> Simple(r)
    ensures Probabilities(r0) ==> Probabilities(r)
    ensures ReachKept(a, r0, gone) ==> ReachKept(a, r, gone + {n})
    ensures Simple(r0) && OneInOneOut(r0, n) ==> (r, next') == Bypassed(r0, n, next)
  {
    r, next' := Bypass(r0, nodes, next, n);
    forall x | x !in {n}
      ensures ReachedFrom(r, x) == ReachedFrom(r0, x) - {n}
    {
      BypassKeepsReach(r0, r, n, x);
    }
    if ReachKept(a, r0, gone) {
      ReachKeptTrans(a, r0, r, gone, {n});
    }
  }

  /** `marked` lists nodes with one arc in and one out in `a`, each once. */
  ghost predicate OnesListed(a: ArcMap, marked: seq<nat>)
  {
    Distinct(marked) && forall n :: n in marked ==> OneInOneOut(a, n)
  }

  /** Bypassing the nodes of `marked` in turn. A node without one arc in and one out when
      its turn comes is left as it is; when the list starts out so in a simple digraph,
      this never happens (`BypassedAllKeeps`). */
  ghost function BypassedAll(a: ArcMap, marked: seq<nat>, next: nat): (ArcMap, nat)
    decreases |marked|
  {
    if marked == [] then (a, next)
    else
      var b := BypassedAll(a, marked[..|marked| - 1], next);
      var n := marked[|marked| - 1];
      if OneInOneOut(b.0, n) then Bypassed(b.0, n, b.1) else b
  }

  /** Bypassing the first `k` nodes of a list of distinct nodes with one arc in and one out
      keeps the digraph simple, the arc ids below the next one, and one arc in and one out
      at every node still to come. */
  lemma {:induction false} BypassedAllKeeps(a: ArcMap, marked: seq<nat>, next: nat, k: nat)
    requires Simple(a) && (forall id :: id in a ==> id < next) && OnesListed(a, marked) && k <= |marked|
    ensures Simple(BypassedAll(a, marked[..k], next).0)
    ensures forall id :: id in BypassedAll(a, marked[..k], next).0 ==> id < BypassedAll(a, marked[..k], next).1
    ensures forall j :: k <= j < |marked| ==> OneInOneOut(BypassedAll(a, marked[..k], next).0, marked[j])
    decreases k
  {
    if k == 0 {
      assert marked[..0] == [];
      forall j | 0 <= j < |marked|
        ensures OneInOneOut(a, marked[j])
      {
        assert marked[j] in marked;
      }
    } else {
      BypassedAllKeeps(a, marked, next, k - 1);
      var b := BypassedAll(a, marked[..k - 1], next);
      var n := marked[k - 1];
      assert marked[..k][..k - 1] == marked[..k - 1];
      assert BypassedAll(a, marked[..k], next) == Bypassed(b.0, n, b.1);
      BypassedSimple(b.0, n, b.1);
      forall j | k <= j < |marked|
        ensures OneInOneOut(Bypassed(b.0, n, b.1).0, marked[j])
      {
        BypassedKeepsOnes(b.0, n, b.1, marked[j]);
      }
    }
  }

  /** One more marked node bypassed extends the fold by one step. */
  lemma BypassedAllNext(a: ArcMap, marked: seq<nat>, next: nat, i: nat)
    requires Simple(a) && (forall id :: id in a ==> id < next) && OnesListed(a, marked) && i < |marked|
    ensures OneInOneOut(BypassedAll(a, marked[..i], next).0, marked[i])
    ensures Simple(BypassedAll(a, marked[..i], next).0)
    ensures BypassedAll(a, marked[..i + 1], next)
              == Bypassed(BypassedAll(a, marked[..i], next).0, marked[i], BypassedAll(a, marked[..i], next).1)
  {
    BypassedAllKeeps(a, marked, next, i);
    assert marked[..i + 1][..i] == marked[..i];
  }

  /** The marked-node loop of `CollapseELementaryPaths`: bypasses and erases each marked
      node in turn. Reachability among the surviving nodes does not change; in a simple
      digraph whose marked nodes have one arc in and one out, each once, the arcs are
      `BypassedAll` of the list. */
  method BypassAll(a: ArcMap, nodes: set<nat>, next: nat, marked: seq<nat>)
    returns (r: ArcMap, nodes': set<nat>, next': nat)
    requires ArcsWithin(a, nodes) && forall k :: k in a ==> k < next
    ensures nodes' == nodes - Prefix(marked, |marked|)
    ensures ArcsWithin(r, nodes') && (forall k :: k in r ==> k < next') && next' >= next
    ensures Simple(a) ==> Simple(r)
    ensures Probabilities(a) ==> Probabilities(r)
    ensures ReachKept(a, r, Prefix(marked, |marked|))
    ensures Simple(a) && OnesListed(a, marked) ==> (r, next') == BypassedAll(a, marked, next)
  {
    r, nodes', next' := a, nodes, next;
    ghost var gone: set<nat> := {};
    for i := 0 to |marked|
      invariant gone == Prefix(marked, i)
      invariant nodes' == nodes - gone
      invariant ArcsWithin(r, nodes') && (forall k :: k in r ==> k < next') && next' >= next
      invariant Simple(a) ==> Simple(r)
      invariant Probabilities(a) ==> Probabilities(r)
      invariant ReachKept(a, r, gone)
      invariant Simple(a) && OnesListed(a, marked) ==> (r, next') == BypassedAll(a, marked[..i], next)
    {
      var n := marked[i];
      if Simple(a) && OnesListed(a, marked) {
        BypassedAllNext(a, marked, next, i);
      }
      r, next' := BypassNext(a, r, nodes', next', n, gone);
      nodes' := nodes' - {n};
      PrefixNext(marked, i);
      gone := gone + {n};
    }
    assert marked[..|marked|] == marked;
  }

  /** `marked` lists the elementary nodes of `nodes` in `a`, each once. */
  ghost predicate MarksElementary(a: ArcMap, nodes: set<nat>, names: map<nat, string>, marked: seq<nat>)
  {
    Distinct(marked)
    && (forall n :: n in marked ==> n in nodes && Elementary(a, names, n))
    && forall n {:trigger Elementary(a, names, n)} :: n in nodes && Elementary(a, names, n) ==> n in marked
  }

  /** The passes of `CollapseELementaryPaths` from the arcs `a`, live nodes `ns` and next
      arc id `next`, given the list of nodes each pass marks: a pass drops the self-loops,
      then bypasses its marked nodes in turn and erases them. */
  ghost function Collapsed(a: ArcMap, ns: set<nat>, next: nat, passes: seq<seq<nat>>): (ArcMap, set<nat>, nat)
    decreases |passes|
  {
    if passes == [] then (a, ns, next)
    else
      var b := Collapsed(a, ns, next, passes[..|passes| - 1]);
      var marked := passes[|passes| - 1];
      var c := BypassedAll(WithoutLoops(b.0), marked, b.2);
      (c.0, b.1 - Prefix(marked, |marked|), c.1)
  }

  /** Each pass of `passes` marks exactly the elementary nodes the passes before it left
      (once their self-loops are dropped), and every pass but the last marks some. */
  ghost predicate PassesMark(a: ArcMap, ns: set<nat>, names: map<nat, string>, next: nat, passes: seq<seq<nat>>)
    decreases |passes|
  {
    passes == []
    || var before := passes[..|passes| - 1];
       var b := Collapsed(a, ns, next, before);
       PassesMark(a, ns, names, next, before)
       && (before == [] || before[|before| - 1] != [])
       && MarksElementary(WithoutLoops(b.0), b.1, names, passes[|passes| - 1])
  }

  /** `passes` is a whole run of `CollapseELementaryPaths`: its passes mark as they should and
      the last one marks nothing. */
  ghost predicate CollapseRun(a: ArcMap, ns: set<nat>, names: map<nat, string>, next: nat, passes: seq<seq<nat>>)
  {
    PassesMark(a, ns, names, next, passes) && |passes| > 0 && passes[|passes| - 1] == []
  }

  /** One pass of `CollapseELementaryPaths` from the arcs, live nodes and next arc id `s`
      to `t`: it marks the elementary nodes of `s` once its self-loops are dropped and erases
      them, and in a simple digraph it bypasses them in turn and keeps the digraph simple. */
  ghost predicate PassStep(s: (ArcMap, set<nat>, nat), t: (ArcMap, set<nat>, nat), names: map<nat, string>,
                           marked: seq<nat>)
  {
    MarksElementary(WithoutLoops(s.0), s.1, names, marked)
    && t.1 == s.1 - Prefix(marked, |marked|)
    && (Simple(s.0) ==> Simple(t.0) && (t.0, t.2) == BypassedAll(WithoutLoops(s.0), marked, s.2))
  }

  /** `states` lists the digraph before each pass of `passes` and after the last, each pass
      a `PassStep`, and every pass but the last marks some node. */
  ghost predicate Staged(states: seq<(ArcMap, set<nat>, nat)>, names: map<nat, string>, passes: seq<seq<nat>>)
  {
    |states| == |passes| + 1
    && (forall k :: 0 <= k < |passes| - 1 ==> passes[k] != [])
    && forall k :: 0 <= k < |passes| ==> StepAt(states, names, passes, k)
  }

  /** The `k`-th pass of `passes` leads from the `k`-th of `states` to the next. */
  ghost predicate StepAt(states: seq<(ArcMap, set<nat>, nat)>, names: map<nat, string>, passes: seq<seq<nat>>, k: nat)
  {
    k < |passes| && k + 1 < |states| && PassStep(states[k], states[k + 1], names, passes[k])
  }

  /** A further pass after one that marked some node extends the stages. */
  lemma StagedNext(states: seq<(ArcMap, set<nat>, nat)>, names: map<nat, string>, passes: seq<seq<nat>>,
                   t: (ArcMap, set<nat>, nat), m: seq<nat>)
    requires Staged(states, names, passes) && (passes == [] || passes[|passes| - 1] != [])
    requires PassStep(states[|passes|], t, names, m)
    ensures Staged(states + [t], names, passes + [m])
  {
    var ss, ps := states + [t], passes + [m];
    forall k | 0 <= k < |ps|
      ensures StepAt(ss, names, ps, k)
    {
      if k < |passes| {
        assert StepAt(states, names, passes, k);
        assert ss[k] == states[k] && ss[k + 1] == states[k + 1] && ps[k] == passes[k];
      }
    }
  }

  /** The stages of a simple digraph are the passes of the collapse fold: the digraph after
      the last pass is `Collapsed`'s and the passes mark as a run does. */
  lemma {:induction false} StagedCollapsed(states: seq<(ArcMap, set<nat>, nat)>, names: map<nat, string>,
                                           passes: seq<seq<nat>>)
    requires Staged(states, names, passes) && Simple(states[0].0)
    ensures PassesMark(states[0].0, states[0].1, names, states[0].2, passes)
    ensures states[|passes|] == Collapsed(states[0].0, states[0].1, states[0].2, passes)
    ensures Simple(states[|passes|].0)
    decreases |passes|
  {
    if passes != [] {
      var n := |passes|;
      var ss, ps := states[..n], passes[..n - 1];
      forall k | 0 <= k < |ps|
        ensures StepAt(ss, names, ps, k)
      {
        assert StepAt(states, names, passes, k);
        assert ss[k] == states[k] && ss[k + 1] == states[k + 1] && ps[k] == passes[k];
      }
      assert forall k :: 0 <= k < |ps| - 1 ==> ps[k] == passes[k];
      StagedCollapsed(ss, names, ps);
      assert ss[n - 1] == states[n - 1];
      assert StepAt(states, names, passes, n - 1);
    }
  }

  /** Stages from the simple digraph `a`, `ns`, `next` to `r`, `rs`, `rn` whose last pass
      marks nothing are a whole run of `CollapseELementaryPaths` leading there. */
  lemma StagedRun(states: seq<(ArcMap, set<nat>, nat)>, names: map<nat, string>, passes: seq<seq<nat>>,
                  a: ArcMap, ns: set<nat>, next: nat, r: ArcMap, rs: set<nat>, rn: nat)
    requires Staged(states, names, passes) && states[0] == (a, ns, next) && states[|passes|] == (r, rs, rn)
    requires Simple(a) && passes != [] && passes[|passes| - 1] == []
    ensures CollapseRun(a, ns, names, next, passes) && (r, rs, rn) == Collapsed(a, ns, next, passes)
  {
    StagedCollapsed(states, names, passes);
  }

  /** Linking a probability keeps every weight a probability: a merged weight follows the
      parallel rule. */
  lemma LinkingProbabilities(a: ArcMap, next: nat, x: nat, y: nat, p: real)
    requires Probabilities(a) && 0.0 <= p <= 1.0
    ensures Probabilities(Linking(a, next, x, y, p).0)
  {
    if Linked(a, x, y) {
      forall id | id in a {
        ParallelIsProbability(a[id].w, p);
      }
    }
  }

  /** Bypassing a node keeps every weight a probability: the bridging weight follows the
      series rule. */
  lemma BypassedProbabilities(a: ArcMap, n: nat, next: nat)
    requires OneInOneOut(a, n) && Probabilities(a)
    ensures Probabilities(Bypassed(a, n, next).0)
  {
    var i, o := Only(InArcs(a, n)), Only(OutArcs(a, n));
    SeriesIsProbability(a[i].w, a[o].w);
    LinkingProbabilities(a, next, a[i].src, a[o].tgt, Series(a[i].w, a[o].w));
  }

  /** Bypassing the marked nodes in turn keeps every weight a probability. */
  lemma {:induction false} BypassedAllProbabilities(a: ArcMap, marked: seq<nat>, next: nat)
    requires Probabilities(a)
    ensures Probabilities(BypassedAll(a, marked, next).0)
    decreases |marked|
  {
    if marked != [] {
      var b := BypassedAll(a, marked[..|marked| - 1], next);
      BypassedAllProbabilities(a, marked[..|marked| - 1], next);
      if OneInOneOut(b.0, marked[|marked| - 1]) {
        BypassedProbabilities(b.0, marked[|marked| - 1], b.1);
      }
    }
  }

  /** Every pass of `CollapseELementaryPaths` keeps every weight a probability. */
  lemma {:induction false} CollapsedProbabilities(a: ArcMap, ns: set<nat>, next: nat, passes: seq<seq<nat>>)
    requires Probabilities(a)
    ensures Probabilities(Collapsed(a, ns, next, passes).0)
    decreases |passes|
  {
    if passes != [] {
      var b := Collapsed(a, ns, next, passes[..|passes| - 1]);
      CollapsedProbabilities(a, ns, next, passes[..|passes| - 1]);
      BypassedAllProbabilities(WithoutLoops(b.0), passes[|passes| - 1], b.2);
    }
  }

  class Graph {
    /** The live nodes of the digraph. */
    var nodes: set<nat>
    /** Arc id to endpoints and weight: the digraph's arcs with `weights_`. */
    var arcs: ArcMap
    /** `nodes_`: node to name. */
    var names: map<nat, string>
    /** `name_to_node_`. */
    var nodeOf: map<string, nat>
    /** `edges_`: the `source + target` key of every arc added by name. */
    var keys: set<string>
    /** `cuts_`. */
    var cuts: seq<Cut>
    /** The id the digraph gives its next node. */
    var nextNode: nat
    /** The id the digraph gives its next arc. */
    var nextArc: nat

    /** The digraph and its maps are well formed. */
    ghost predicate Valid()
      reads this
    {
      Wellformed(nodes, arcs, names, nodeOf, nextNode, nextArc)
    }

    /** Every name in the index belongs to a live node. */
    ghost predicate NamesLive()
      reads this
    {
      forall k :: k in nodeOf ==> nodeOf[k] in nodes
    }

    /** Every live node is the one its name indexes. */
    ghost predicate NodesNamed()
      reads this
    {
      forall n :: n in nodes ==> n in names && names[n] in nodeOf && nodeOf[names[n]] == n
    }

    /** `Graph()`: the empty graph. */
    constructor ()
      ensures Valid() && NamesLive()
      ensures nodes == {} && arcs == map[] && names == map[] && nodeOf == map[] && keys == {} && cuts == []
      ensures nextNode == 0 && nextArc == 0
    {
      nodes, arcs, names, nodeOf, keys, cuts := {}, map[], map[], map[], {}, [];
      nextNode, nextArc := 0, 0;
    }

    /** `GetNode(name)`: the node of `name`, created and indexed if the name is new. */
    method GetNode(name: string) returns (n: nat)
      requires Valid()
      modifies this
      ensures Valid()
      ensures name in nodeOf && n == nodeOf[name] && n in names && names[n] == name
      ensures name in old(nodeOf) ==>
                n == old(nodeOf)[name] && nodes == old(nodes) && names == old(names)
                && nodeOf == old(nodeOf) && nextNode == old(nextNode)
      ensures name !in old(nodeOf) ==>
                n == old(nextNode) && nodes == old(nodes) + {n}
                && names == old(names)[n := name] && nodeOf == old(nodeOf)[name := n]
                && nextNode == old(nextNode) + 1
      ensures arcs == old(arcs) && keys == old(keys) && cuts == old(cuts) && nextArc == old(nextArc)
      ensures old(NamesLive()) ==> NamesLive() && nodes == old(nodes) + {n}
      ensures forall k :: k in nodeOf <==> k in old(nodeOf) || k == name
      ensures forall k :: k in old(nodeOf) ==> k in nodeOf && nodeOf[k] == old(nodeOf)[k]
      ensures forall m :: m in old(names) ==> m in names && names[m] == old(names)[m]
    {
      if name in nodeOf {
        return nodeOf[name];
      }
      n := nextNode;
      nextNode := nextNode + 1;
      nodes := nodes + {n};
      names := names[n := name];
      nodeOf := nodeOf[name := n];
    }

    /** `AddEdge(source, target, weight)`: adds an arc between the named nodes, creating
        them as needed, exactly when the key `source + target` is new; otherwise nothing
        changes and the first weight stays. A graph whose every arc's key is recorded and
        which has no two arcs joining the same pair keeps both properties. */
    method AddEdge(source: string, target: string, weight: real)
      requires Valid() && NamesLive()
      modifies this
      ensures Valid() && NamesLive()
      ensures Simple(old(arcs)) && Keyed(old(arcs), old(names), old(keys)) ==> Simple(arcs) && Keyed(arcs, names, keys)
      ensures keys == old(keys) + {source + target} && cuts == old(cuts)
      ensures source + target in old(keys) ==>
                nodes == old(nodes) && arcs == old(arcs) && names == old(names)
                && nodeOf == old(nodeOf) && nextNode == old(nextNode) && nextArc == old(nextArc)
      ensures source + target !in old(keys) ==>
                source in nodeOf && target in nodeOf
                && arcs == old(arcs)[old(nextArc) := Arc(nodeOf[source], nodeOf[target], weight)]
                && nextArc == old(nextArc) + 1
                && nodes == old(nodes) + {nodeOf[source], nodeOf[target]}
                && (forall k :: k in nodeOf <==> k in old(nodeOf) || k == source || k == target)
      ensures forall k :: k in old(nodeOf) ==> k in nodeOf && nodeOf[k] == old(nodeOf)[k]
      ensures forall n :: n in old(names) ==> n in names && names[n] == old(names)[n]
      ensures old(nextNode) <= nextNode <= old(nextNode) + 2 && old(nextArc) <= nextArc <= old(nextArc) + 1
      ensures forall id :: id in old(arcs) ==> id in arcs && arcs[id] == old(arcs)[id]
    {
      if source + target !in keys {
        ghost var a0, nm0, k0 := arcs, names, keys;
        keys := keys + {source + target};
        var s, t := AddNamedArc(source, target, weight);
        KeyedAdd(a0, nm0, k0, names, s, t, weight, old(nextArc), source + target);
      }
    }

    /** The inside of `AddEdge` once its key is recorded: the nodes named `source` and
        `target`, created as needed, and a new arc between them with the next arc id. */
    method AddNamedArc(source: string, target: string, weight: real) returns (s: nat, t: nat)
      requires Valid() && NamesLive()
      modifies this
      ensures Valid() && NamesLive()
      ensures source in nodeOf && target in nodeOf && s == nodeOf[source] && t == nodeOf[target]
      ensures names[s] == source && names[t] == target
      ensures arcs == old(arcs)[old(nextArc) := Arc(s, t, weight)] && nextArc == old(nextArc) + 1
      ensures nodes == old(nodes) + {s, t}
      ensures forall k :: k in nodeOf <==> k in old(nodeOf) || k == source || k == target
      ensures forall k :: k in old(nodeOf) ==> nodeOf[k] == old(nodeOf)[k]
      ensures forall n :: n in old(names) ==> n in names && names[n] == old(names)[n]
      ensures old(nextNode) <= nextNode <= old(nextNode) + 2
      ensures keys == old(keys) && cuts == old(cuts)
    {
      s := GetNode(source);
      ghost var midOf := nodeOf;
      t := GetNode(target);
      assert nodeOf[source] == s by {
        assert source in midOf && midOf[source] == s;
      }
      AddArc(s, t, weight);
    }

    /** `addArc`: a new arc from `s` to `t` with the next arc id. */
    method AddArc(s: nat, t: nat, weight: real)
      requires Valid() && s in nodes && t in nodes
      modifies this
      ensures Valid() && (old(NamesLive()) ==> NamesLive())
      ensures arcs == old(arcs)[old(nextArc) := Arc(s, t, weight)] && nextArc == old(nextArc) + 1
      ensures old(nextArc) !in old(arcs)
      ensures nodes == old(nodes) && names == old(names) && nodeOf == old(nodeOf) && keys == old(keys)
      ensures cuts == old(cuts) && nextNode == old(nextNode)
    {
      arcs := arcs[nextArc := Arc(s, t, weight)];
      nextArc := nextArc + 1;
    }

    /** `Reverse()`: every arc turned around, in place. */
    method Reverse()
      requires Valid()
      modifies this
      ensures Valid()
      ensures arcs == Reversed(old(arcs))
      ensures nodes == old(nodes) && names == old(names) && nodeOf == old(nodeOf) && keys == old(keys)
      ensures cuts == old(cuts) && nextNode == old(nextNode) && nextArc == old(nextArc)
    {
      var a := arcs;
      var todo := a.Keys;
      while todo != {}
        invariant todo <= arcs.Keys && a.Keys == arcs.Keys
        invariant forall id :: id in arcs ==> a[id] == if id in todo then arcs[id] else Reversed(arcs)[id]
        decreases |todo|
      {
        var id :| id in todo;
        a := a[id := Arc(a[id].tgt, a[id].src, a[id].w)];
        todo := todo - {id};
      }
      arcs := a;
    }

    /** `RemoveSelfCycles()`: every self-loop erased, every other arc kept as it is. */
    method RemoveSelfCycles()
      requires Valid()
      modifies this
      ensures Valid()
      ensures arcs == WithoutLoops(old(arcs))
      ensures nodes == old(nodes) && names == old(names) && nodeOf == old(nodeOf) && keys == old(keys)
      ensures cuts == old(cuts) && nextNode == old(nextNode) && nextArc == old(nextArc)
    {
      var a := DropLoops(arcs, nextArc);
      SetDigraph(nodes, a, nextArc);
    }

    /** The loop of `RemoveSelfCycles`, over the arc ids in increasing order, on the arc map. */
    static method DropLoops(arcs: ArcMap, nextArc: nat) returns (a: ArcMap)
      requires forall k :: k in arcs ==> k < nextArc
      ensures a == WithoutLoops(arcs)
    {
      a := arcs;
      for id := 0 to nextArc
        invariant forall k :: k in a <==> k in arcs && !(k < id && arcs[k].src == arcs[k].tgt)
        invariant forall k :: k in a ==> a[k] == arcs[k]
      {
        if id in a && a[id].src == a[id].tgt {
          a := map k | k in a && k != id :: a[k];
        }
      }
      assert a.Keys == WithoutLoops(arcs).Keys;
    }

    /** `getNodeInDegree(node)`: counts the arcs entering `n`. */
    method InDegree(n: nat) returns (count: nat)
      requires Valid()
      ensures count == |InArcs(arcs, n)|
    {
      count := 0;
      ghost var seen: set<nat> := {};
      for id := 0 to nextArc
        invariant seen == set k | k in arcs && k < id && arcs[k].tgt == n
        invariant count == |seen|
      {
        if id in arcs && arcs[id].tgt == n {
          seen := seen + {id};
          count := count + 1;
        }
      }
      assert seen == InArcs(arcs, n);
    }

    /** `getNodeOutDegree(node)`: counts the arcs leaving `n`. */
    method OutDegree(n: nat) returns (count: nat)
      requires Valid()
      ensures count == |OutArcs(arcs, n)|
    {
      count := 0;
      ghost var seen: set<nat> := {};
      for id := 0 to nextArc
        invariant seen == set k | k in arcs && k < id && arcs[k].src == n
        invariant count == |seen|
      {
        if id in arcs && arcs[id].src == n {
          seen := seen + {id};
          count := count + 1;
        }
      }
      assert seen == OutArcs(arcs, n);
    }

    /** `EdgesAsBitset()`: the ids of all arcs; the bitset demands them below `NUM_EDGES`. */
    method EdgesAsBitset() returns (edges: set<nat>)
      requires Valid() && Fits(arcs.Keys, NUM_EDGES)
      ensures forall id :: id in edges <==> id in arcs
      ensures Fits(edges, NUM_EDGES)
    {
      edges := {};
      for id := 0 to nextArc
        invariant forall k :: k in edges <==> k in arcs && k < id
      {
        if id in arcs {
          edges := edges + {id};
        }
      }
    }

    /** `GetNodeBitset(name)`: the singleton of the named node. */
    function GetNodeBitset(name: string): (r: set<nat>)
      requires name in nodeOf && nodeOf[name] < NUM_NODES
      reads this
      ensures Fits(r, NUM_NODES) && |r| == 1 && nodeOf[name] in r
    {
      {nodeOf[name]}
    }

    /** `GetEdgeInfo(edge_info)`: records weight and terminals of every arc, overwriting
        entries of the same id and leaving the others. */
    method GetEdgeInfo(info0: map<nat, EdgeInfo>) returns (info: map<nat, EdgeInfo>)
      ensures forall k :: k in info <==> k in info0 || k in arcs
      ensures forall id :: id in arcs ==> info[id] == InfoOf(arcs, id)
      ensures forall id :: id in info0 && id !in arcs ==> info[id] == info0[id]
    {
      info := info0;
      var todo := arcs.Keys;
      while todo != {}
        invariant todo <= arcs.Keys
        invariant forall k :: k in info <==> k in info0 || (k in arcs && k !in todo)
        invariant forall k :: k in arcs && k !in todo ==> info[k] == InfoOf(arcs, k)
        invariant forall k :: k in info0 && (k !in arcs || k in todo) ==> info[k] == info0[k]
        decreases |todo|
      {
        var id :| id in todo;
        info := info[id := InfoOf(arcs, id)];
        todo := todo - {id};
      }
    }

    /** `UpdateWeights(edge_weights)`: applies the draws to the sampled arcs. */
    method UpdateWeights(draws: map<nat, real>)
      requires Valid()
      modifies this
      ensures Valid()
      ensures arcs == WeightsUpdated(old(arcs), names, draws)
      ensures nodes == old(nodes) && names == old(names) && nodeOf == old(nodeOf) && keys == old(keys)
      ensures cuts == old(cuts) && nextNode == old(nextNode) && nextArc == old(nextArc)
    {
      var a := ApplyDraws(arcs, names, draws, nextArc);
      WeightsUpdatedDecides(arcs, names, draws, nodes);
      SetDigraph(nodes, a, nextArc);
    }

    /** The loop of `UpdateWeights`, over the arc ids in increasing order, on the arc map. */
    static method ApplyDraws(arcs: ArcMap, names: map<nat, string>, draws: map<nat, real>, nextArc: nat)
      returns (a: ArcMap)
      requires forall k :: k in arcs ==> k < nextArc
      ensures a == WeightsUpdated(arcs, names, draws)
    {
      a := arcs;
      for id := 0 to nextArc
        invariant forall k :: k in a <==> k in arcs && !(k < id && Sampled(arcs, names, draws, k) && draws[k] <= arcs[k].w)
        invariant forall k :: k in a ==> a[k] == if k < id && Sampled(arcs, names, draws, k) then arcs[k].(w := 1.0) else arcs[k]
      {
        if id in a {
          var src := NameOf(names, a[id].src);
          var tgt := NameOf(names, a[id].tgt);
          if src != SOURCE && tgt != SINK && id in draws {
            if draws[id] > a[id].w {
              a := a[id := a[id].(w := 1.0)];
            } else {
              a := map k | k in a && k != id :: a[k];
            }
          }
        }
      }
      assert a.Keys == WeightsUpdated(arcs, names, draws).Keys;
    }

    /** One search of `RemoveIsolatedNodes`: the live nodes a search from `start` reaches,
        as a node bitset. */
    method ReachableFrom(start: nat) returns (r: set<nat>)
      requires Valid() && Fits(nodes, NUM_NODES)
      ensures r == nodes * Reached(arcs, {start})
      ensures Fits(r, NUM_NODES)
    {
      var reached := Reached(arcs, {start});
      r := {};
      for n: nat := 0 to nextNode
        invariant forall m :: m in r <==> m in nodes && m in reached && m < n
      {
        if n in nodes && n in reached {
          r := r + {n};
        }
      }
    }

    /** The two searches of `RemoveIsolatedNodes`: forward from SOURCE, then from SINK on the
        reversed graph, which is reversed back; the nodes found by both. */
    method OnPathNodes() returns (live: set<nat>)
      requires Valid() && NamesLive() && SOURCE in nodeOf && SINK in nodeOf && Fits(nodes, NUM_NODES)
      modifies this
      ensures Valid() && NamesLive()
      ensures nodes == old(nodes) && arcs == old(arcs) && names == old(names) && nodeOf == old(nodeOf)
      ensures live == nodes * OnPath(arcs, nodeOf[SOURCE], nodeOf[SINK])
      ensures keys == old(keys) && cuts == old(cuts) && nextNode == old(nextNode) && nextArc == old(nextArc)
    {
      ghost var a0 := arcs;
      var source, sink := nodeOf[SOURCE], nodeOf[SINK];
      var forward := ReachableFrom(source);
      Reverse();
      var backward := ReachableFrom(sink);
      Reverse();
      ReversedTwice(a0);
      live := forward * backward;
    }

    /** `RemoveIsolatedNodes()`: a forward search from SOURCE, a search from SINK on the
        reversed graph, the graph reversed back, and then every name other than SOURCE and
        SINK whose node is not found by both searches loses its node (with its arcs) and its
        index entry. */
    method RemoveIsolatedNodes()
      requires Valid() && NamesLive() && SOURCE in nodeOf && SINK in nodeOf && Fits(nodes, NUM_NODES)
      modifies this
      ensures Valid() && NamesLive()
      ensures nodes == old(nodes) - Isolated(old(arcs), old(nodeOf))
      ensures arcs == WithoutNodes(old(arcs), Isolated(old(arcs), old(nodeOf)))
      ensures forall k :: k in nodeOf <==>
                k in old(nodeOf) && (k == SOURCE || k == SINK
                  || old(nodeOf)[k] in OnPath(old(arcs), old(nodeOf)[SOURCE], old(nodeOf)[SINK]))
      ensures forall k :: k in nodeOf ==> nodeOf[k] == old(nodeOf)[k]
      ensures SOURCE in nodeOf && SINK in nodeOf
      ensures nodeOf[SINK] in Reached(arcs, {nodeOf[SOURCE]}) <==> nodeOf[SINK] in Reached(old(arcs), {nodeOf[SOURCE]})
      ensures old(NodesNamed()) ==> nodes == old(nodes) * (OnPath(old(arcs), old(nodeOf)[SOURCE], old(nodeOf)[SINK])
                                                          + {old(nodeOf)[SOURCE], old(nodeOf)[SINK]})
      ensures names == old(names) && keys == old(keys) && cuts == old(cuts)
      ensures nextNode == old(nextNode) && nextArc == old(nextArc)
    {
      var live := OnPathNodes();
      var of, ns, rs := PruneIsolated(nodeOf, names, nodes, arcs, live, nextNode, nextArc);
      SetPruned(ns, rs, of);
    }

    /** The erasing part of `RemoveIsolatedNodes` on the digraph's values, given the nodes
        both searches found. */
    static method PruneIsolated(of0: map<string, nat>, names: map<nat, string>, ns0: set<nat>, rs0: ArcMap,
                                live: set<nat>, ghost nextNode: nat, ghost nextArc: nat)
      returns (of: map<string, nat>, ns: set<nat>, rs: ArcMap)
      requires Wellformed(ns0, rs0, names, of0, nextNode, nextArc)
      requires forall k :: k in of0 ==> of0[k] in ns0
      requires SOURCE in of0 && SINK in of0 && live == ns0 * OnPath(rs0, of0[SOURCE], of0[SINK])
      ensures Wellformed(ns, rs, names, of, nextNode, nextArc) && forall k :: k in of ==> of[k] in ns
      ensures ns == ns0 - Isolated(rs0, of0)
      ensures rs == WithoutNodes(rs0, Isolated(rs0, of0))
      ensures forall k :: k in of <==>
                k in of0 && (k == SOURCE || k == SINK || of0[k] in OnPath(rs0, of0[SOURCE], of0[SINK]))
      ensures forall k :: k in of ==> of[k] == of0[k]
      ensures of0[SINK] in Reached(rs, {of0[SOURCE]}) <==> of0[SINK] in Reached(rs0, {of0[SOURCE]})
      ensures (forall n :: n in ns0 ==> n in names && names[n] in of0 && of0[names[n]] == n) ==>
                ns == ns0 * (OnPath(rs0, of0[SOURCE], of0[SINK]) + {of0[SOURCE], of0[SINK]})
    {
      IsolatedAvoids(ns0, rs0, names, of0, nextNode, nextArc);
      RemovingOffPathKeepsConnection(rs0, Isolated(rs0, of0), of0[SOURCE], of0[SINK]);
      IsolatedSame(of0, of0.Keys, live, OnPath(rs0, of0[SOURCE], of0[SINK]));
      of, ns, rs := EraseIsolated(of0, names, ns0, rs0, live, nextNode, nextArc);
      if forall n :: n in ns0 ==> n in names && names[n] in of0 && of0[names[n]] == n {
        IsolatedExactly(ns0, rs0, names, of0, nextNode, nextArc);
      }
    }

    /** Replaces the live nodes, the arcs and the name index by well-formed ones. */
    method SetPruned(ns: set<nat>, r: ArcMap, of: map<string, nat>)
      requires Wellformed(ns, r, names, of, nextNode, nextArc) && forall k :: k in of ==> of[k] in ns
      modifies this
      ensures Valid() && NamesLive()
      ensures nodes == ns && arcs == r && nodeOf == of
      ensures names == old(names) && keys == old(keys) && cuts == old(cuts)
      ensures nextNode == old(nextNode) && nextArc == old(nextArc)
    {
      nodes, arcs, nodeOf := ns, r, of;
    }
 
    /** The marking loop of `CollapseELementaryPaths`: every live node other than the
        SOURCE and SINK nodes with in-degree 1 and out-degree 1, each once. */
    method MarkElementary() returns (marked: seq<nat>)
      requires Valid()
      ensures forall n :: n in marked <==> n in nodes && Elementary(arcs, names, n)
      ensures forall i, j :: 0 <= i < j < |marked| ==> marked[i] != marked[j]
    {
      marked := [];
      var todo := nodes;
      while todo != {}
        invariant todo <= nodes
        invariant forall n :: n in marked <==> n in nodes - todo && Elementary(arcs, names, n)
        invariant forall i, j :: 0 <= i < j < |marked| ==> marked[i] != marked[j]
        decreases |todo|
      {
        var n :| n in todo;
        var elementary := IsElementary(n);
        if elementary {
          marked := marked + [n];
        }
        todo := todo - {n};
      }
    }

    /** The test of the marking loop for one live node. */
    method IsElementary(n: nat) returns (b: bool)
      requires Valid() && n in nodes
      ensures b == Elementary(arcs, names, n)
    {
      b := false;
      if names[n] != SOURCE && names[n] != SINK {
        var din := InDegree(n);
        var dout := OutDegree(n);
        b := din == 1 && dout == 1;
      }
    }

    /** `CollapseELementaryPaths`: until a pass finds nothing, drops the self-loops, marks
        the elementary nodes and bypasses each marked node. The result has no self-loop and
        no elementary node, keeps the SOURCE and SINK nodes, and reaches from every surviving
        node what the old graph reached, less the erased nodes. The name maps are left as
        they are, so names of erased nodes still index them. */
    method CollapseElementaryPaths() returns (ghost passes: seq<seq<nat>>)
      requires Valid()
      modifies this
      ensures Valid()
      ensures LoopFree(arcs) && NoElementary(arcs, nodes, names)
      ensures nodes <= old(nodes)
      ensures TerminalNodes(names, old(nodes)) <= nodes
      ensures ReachKept(old(arcs), arcs, old(nodes) - nodes)
      ensures Simple(old(arcs)) ==> Simple(arcs)
      ensures Probabilities(old(arcs)) ==> Probabilities(arcs)
      ensures names == old(names) && nodeOf == old(nodeOf) && keys == old(keys) && cuts == old(cuts)
      ensures nextNode == old(nextNode)
      ensures Simple(old(arcs)) ==>
                CollapseRun(old(arcs), old(nodes), names, old(nextArc), passes)
                && (arcs, nodes, nextArc) == Collapsed(old(arcs), old(nodes), old(nextArc), passes)
    {
      var changing := true;
      passes := [];
      ghost var states := [(arcs, nodes, nextArc)];
      assert ReachKept(arcs, arcs, {});
      while changing
        invariant changing <==> passes == [] || passes[|passes| - 1] != []
        invariant Staged(states, names, passes) && states[0] == (old(arcs), old(nodes), old(nextArc))
        invariant states[|passes|] == (arcs, nodes, nextArc)
        invariant Valid()
        invariant nodes <= old(nodes)
        invariant TerminalNodes(names, old(nodes)) <= nodes
        invariant ReachKept(old(arcs), arcs, old(nodes) - nodes)
        invariant Simple(old(arcs)) ==> Simple(arcs)
        invariant Probabilities(old(arcs)) ==> Probabilities(arcs)
        invariant names == old(names) && nodeOf == old(nodeOf) && keys == old(keys) && cuts == old(cuts)
        invariant nextNode == old(nextNode)
        invariant !changing ==> LoopFree(arcs) && NoElementary(arcs, nodes, names)
        decreases |nodes| + if changing then 1 else 0
      {
        ghost var a0, ns0 := arcs, nodes;
        changing, states, passes := CollapseStage(states, passes);
        ReachKeptTrans(old(arcs), a0, arcs, old(nodes) - ns0, ns0 - nodes);
        assert old(nodes) - ns0 + (ns0 - nodes) == old(nodes) - nodes;
      }
      if Simple(old(arcs)) {
        StagedRun(states, names, passes, old(arcs), old(nodes), old(nextArc), arcs, nodes, nextArc);
      }
    }

    /** One pass of the loop of `CollapseELementaryPaths` with its stages so far: the pass
        is staged as the next one. */
    method CollapseStage(ghost states: seq<(ArcMap, set<nat>, nat)>, ghost passes: seq<seq<nat>>)
      returns (changed: bool, ghost states': seq<(ArcMap, set<nat>, nat)>, ghost passes': seq<seq<nat>>)
      requires Valid() && Staged(states, names, passes) && states[|passes|] == (arcs, nodes, nextArc)
      requires passes == [] || passes[|passes| - 1] != []
      modifies this
      ensures Valid() && Staged(states', names, passes') && states'[|passes'|] == (arcs, nodes, nextArc)
      ensures states'[0] == states[0] && |passes'| == |passes| + 1 && (changed <==> passes'[|passes|] != [])
      ensures nodes <= old(nodes) && (changed ==> |nodes| < |old(nodes)|)
      ensures !changed ==> nodes == old(nodes) && LoopFree(arcs) && NoElementary(arcs, nodes, names)
      ensures TerminalNodes(names, old(nodes)) <= nodes
      ensures ReachKept(old(arcs), arcs, old(nodes) - nodes)
      ensures Simple(old(arcs)) ==> Simple(arcs)
      ensures Probabilities(old(arcs)) ==> Probabilities(arcs)
      ensures names == old(names) && nodeOf == old(nodeOf) && keys == old(keys) && cuts == old(cuts)
      ensures nextNode == old(nextNode)
    {
      ghost var marked;
      changed, marked := CollapsePass();
      StagedNext(states, names, passes, (arcs, nodes, nextArc), marked);
      passes', states' := passes + [marked], states + [(arcs, nodes, nextArc)];
    }

    /** One pass of the loop of `CollapseELementaryPaths`; it reports whether it erased
        anything. */
    method CollapsePass() returns (changed: bool, ghost marked: seq<nat>)
      requires Valid()
      modifies this
      ensures Valid()
      ensures MarksElementary(WithoutLoops(old(arcs)), old(nodes), names, marked)
      ensures changed <==> marked != []
      ensures nodes == old(nodes) - Prefix(marked, |marked|)
      ensures Simple(old(arcs)) ==> (arcs, nextArc) == BypassedAll(WithoutLoops(old(arcs)), marked, old(nextArc))
      ensures nodes <= old(nodes) && (changed ==> |nodes| < |old(nodes)|)
      ensures !changed ==> nodes == old(nodes) && LoopFree(arcs) && NoElementary(arcs, nodes, names)
      ensures TerminalNodes(names, old(nodes)) <= nodes
      ensures ReachKept(old(arcs), arcs, old(nodes) - nodes)
      ensures Simple(old(arcs)) ==> Simple(arcs)
      ensures Probabilities(old(arcs)) ==> Probabilities(arcs)
      ensures names == old(names) && nodeOf == old(nodeOf) && keys == old(keys) && cuts == old(cuts)
      ensures nextNode == old(nextNode)
    {
      RemoveSelfCycles();
      WithoutLoopsKeepsReach(old(arcs));
      assert Probabilities(old(arcs)) ==> Probabilities(arcs);
      SubArcs(old(arcs), arcs);
      ghost var a1 := arcs;
      changed, marked := MarkAndBypass();
      ReachKeptTrans(old(arcs), a1, arcs, {}, old(nodes) - nodes);
      assert {} + (old(nodes) - nodes) == old(nodes) - nodes;
    }

    /** The rest of a pass once the self-loops are dropped: marks the elementary nodes and
        bypasses them. */
    method MarkAndBypass() returns (changed: bool, ghost marked: seq<nat>)
      requires Valid() && LoopFree(arcs)
      modifies this
      ensures Valid()
      ensures MarksElementary(old(arcs), old(nodes), names, marked)
      ensures changed <==> marked != []
      ensures nodes == old(nodes) - Prefix(marked, |marked|)
      ensures Simple(old(arcs)) ==> (arcs, nextArc) == BypassedAll(old(arcs), marked, old(nextArc))
      ensures nodes <= old(nodes) && (changed ==> |nodes| < |old(nodes)|)
      ensures !changed ==> nodes == old(nodes) && LoopFree(arcs) && NoElementary(arcs, nodes, names)
      ensures TerminalNodes(names, old(nodes)) <= nodes
      ensures ReachKept(old(arcs), arcs, old(nodes) - nodes)
      ensures Simple(old(arcs)) ==> Simple(arcs)
      ensures Probabilities(old(arcs)) ==> Probabilities(arcs)
      ensures names == old(names) && nodeOf == old(nodeOf) && keys == old(keys) && cuts == old(cuts)
      ensures nextNode == old(nextNode)
    {
      var found := MarkElementary();
      marked := found;
      if found == [] {
        assert old(nodes) - nodes == {};
        assert Prefix(marked, 0) == {};
        changed := false;
        return;
      }
      ElementaryNotTerminal(arcs, names, nodes, found);
      BypassMarked(found);
      changed := true;
    }

    /** The second half of a pass: bypasses and erases the marked elementary nodes. */
    method BypassMarked(marked: seq<nat>)
      requires Valid() && marked != []
      requires forall n :: n in marked ==> n in nodes - TerminalNodes(names, nodes)
      modifies this
      ensures Valid()
      ensures nodes == old(nodes) - Prefix(marked, |marked|)
      ensures Simple(old(arcs)) && OnesListed(old(arcs), marked) ==>
                (arcs, nextArc) == BypassedAll(old(arcs), marked, old(nextArc))
      ensures nodes <= old(nodes) && |nodes| < |old(nodes)|
      ensures TerminalNodes(names, old(nodes)) <= nodes
      ensures ReachKept(old(arcs), arcs, old(nodes) - nodes)
      ensures Simple(old(arcs)) ==> Simple(arcs)
      ensures Probabilities(old(arcs)) ==> Probabilities(arcs)
      ensures names == old(names) && nodeOf == old(nodeOf) && keys == old(keys) && cuts == old(cuts)
      ensures nextNode == old(nextNode)
    {
      var r, ns, next := CollapseMarked(arcs, nodes, names, nodeOf, nextNode, nextArc, marked);
      SetDigraph(ns, r, next);
    }

    /** `BypassMarked` on the digraph's values. */
    static method CollapseMarked(a: ArcMap, nodes: set<nat>, names: map<nat, string>, nodeOf: map<string, nat>,
                                 nextNode: nat, nextArc: nat, marked: seq<nat>)
      returns (r: ArcMap, ns: set<nat>, next: nat)
      requires Wellformed(nodes, a, names, nodeOf, nextNode, nextArc) && marked != []
      requires forall n :: n in marked ==> n in nodes - TerminalNodes(names, nodes)
      ensures Wellformed(ns, r, names, nodeOf, nextNode, next)
      ensures ns == nodes - Prefix(marked, |marked|)
      ensures Simple(a) && OnesListed(a, marked) ==> (r, next) == BypassedAll(a, marked, nextArc)
      ensures ns <= nodes && |ns| < |nodes|
      ensures TerminalNodes(names, nodes) <= ns
      ensures ReachKept(a, r, nodes - ns)
      ensures Simple(a) ==> Simple(r)
      ensures Probabilities(a) ==> Probabilities(r)
    {
      r, ns, next := BypassAll(a, nodes, nextArc, marked);
      assert Prefix(marked, |marked|) <= nodes by {
        assert forall k :: 0 <= k < |marked| ==> marked[k] in marked;
      }
      assert ns < nodes by {
        assert marked[0] in nodes && marked[0] !in ns;
      }
      ProperSubsetCard(ns, nodes);
      assert Prefix(marked, |marked|) == nodes - ns;
      forall t | t in TerminalNodes(names, nodes)
        ensures t in ns
      {
        assert forall k :: 0 <= k < |marked| ==> marked[k] in marked;
      }
    }

    /** Replaces the live nodes and the arcs by well-formed ones. */
    method SetDigraph(ns: set<nat>, r: ArcMap, next: nat)
      requires Wellformed(ns, r, names, nodeOf, nextNode, next)
      modifies this
      ensures Valid()
      ensures nodes == ns && arcs == r && nextArc == next
      ensures names == old(names) && nodeOf == old(nodeOf) && keys == old(keys) && cuts == old(cuts)
      ensures nextNode == old(nextNode)
    {
      nodes, arcs, nextArc := ns, r, next;
    }

    /** Replaces the whole digraph and its name maps by well-formed ones. */
    method SetState(ns: set<nat>, r: ArcMap, nm: map<nat, string>, of: map<string, nat>, nn: nat, na: nat)
      requires Wellformed(ns, r, nm, of, nn, na)
      modifies this
      ensures Valid()
      ensures nodes == ns && arcs == r && names == nm && nodeOf == of && nextNode == nn && nextArc == na
      ensures keys == old(keys) && cuts == old(cuts)
    {
      nodes, arcs, names, nodeOf, nextNode, nextArc := ns, r, nm, of, nn, na;
    }

    /** The erasing loop of `RemoveIsolatedNodes`, over a snapshot of the name index: each
        name other than SOURCE and SINK whose node is not `live` loses its node, the node's
        arcs and its index entry. */
    static method EraseIsolated(of0: map<string, nat>, names: map<nat, string>, ns0: set<nat>, rs0: ArcMap,
                                live: set<nat>, ghost nextNode: nat, ghost nextArc: nat)
      returns (of: map<string, nat>, ns: set<nat>, rs: ArcMap)
      requires Wellformed(ns0, rs0, names, of0, nextNode, nextArc)
      requires forall k :: k in of0 ==> of0[k] in ns0
      ensures Wellformed(ns, rs, names, of, nextNode, nextArc)
      ensures ns == ns0 - IsolatedAmong(of0, of0.Keys, live)
      ensures rs == WithoutNodes(rs0, IsolatedAmong(of0, of0.Keys, live))
      ensures forall k :: k in of <==> k in of0 && (k == SOURCE || k == SINK || of0[k] in live)
      ensures forall k :: k in of ==> of[k] == of0[k] && of[k] in ns
    {
      of, ns, rs := of0, ns0, rs0;
      var todo := of0.Keys;
      ghost var dead: set<nat> := {};
      while todo != {}
        invariant todo <= of0.Keys
        invariant dead == IsolatedAmong(of0, of0.Keys - todo, live)
        invariant ns == ns0 - dead && rs == WithoutNodes(rs0, dead)
        invariant forall k :: k in of <==> k in of0 && (k in todo || k == SOURCE || k == SINK || of0[k] in live)
        invariant forall k :: k in of ==> of[k] == of0[k]
        decreases |todo|
      {
        var k :| k in todo;
        of, ns, rs, dead := EraseName(of0, ns0, rs0, live, of, ns, rs, dead, todo, k);
        todo := todo - {k};
      }
      assert of0.Keys - todo == of0.Keys;
      ErasedWellformed(of0, names, ns0, rs0, live, nextNode, nextArc, of);
    }

    /** Erasing the isolated names' nodes leaves a well-formed digraph whose remaining
        names index live nodes. */
    static lemma ErasedWellformed(of0: map<string, nat>, names: map<nat, string>, ns0: set<nat>, rs0: ArcMap,
                                  live: set<nat>, nextNode: nat, nextArc: nat, of: map<string, nat>)
      requires Wellformed(ns0, rs0, names, of0, nextNode, nextArc)
      requires forall k :: k in of0 ==> of0[k] in ns0
      requires forall k :: k in of <==> k in of0 && (k == SOURCE || k == SINK || of0[k] in live)
      requires forall k :: k in of ==> of[k] == of0[k]
      ensures Wellformed(ns0 - IsolatedAmong(of0, of0.Keys, live), WithoutNodes(rs0, IsolatedAmong(of0, of0.Keys, live)),
                         names, of, nextNode, nextArc)
      ensures forall k :: k in of ==> of[k] in ns0 - IsolatedAmong(of0, of0.Keys, live)
    {
      var dead := IsolatedAmong(of0, of0.Keys, live);
      forall k | k in of
        ensures of[k] !in dead
      {
        forall j | j in of0 && j != SOURCE && j != SINK && of0[j] !in live
          ensures of0[j] != of0[k]
        {
          assert names[of0[j]] == j && names[of0[k]] == k;
        }
      }
    }

    /** One step of the erasing loop: the name `k`, taken from the names still to visit. */
    static method EraseName(of0: map<string, nat>, ns0: set<nat>, rs0: ArcMap, live: set<nat>,
                            of1: map<string, nat>, ns1: set<nat>, rs1: ArcMap, ghost dead1: set<nat>,
                            todo: set<string>, k: string)
      returns (of: map<string, nat>, ns: set<nat>, rs: ArcMap, ghost dead: set<nat>)
      requires k in todo && todo <= of0.Keys
      requires dead1 == IsolatedAmong(of0, of0.Keys - todo, live)
      requires ns1 == ns0 - dead1 && rs1 == WithoutNodes(rs0, dead1)
      requires forall j :: j in of1 <==> j in of0 && (j in todo || j == SOURCE || j == SINK || of0[j] in live)
      requires forall j :: j in of1 ==> of1[j] == of0[j]
      ensures dead == IsolatedAmong(of0, of0.Keys - (todo - {k}), live)
      ensures ns == ns0 - dead && rs == WithoutNodes(rs0, dead)
      ensures forall j :: j in of <==> j in of0 && (j in todo - {k} || j == SOURCE || j == SINK || of0[j] in live)
      ensures forall j :: j in of ==> of[j] == of0[j]
    {
      of, ns, rs, dead := of1, ns1, rs1, dead1;
      if k != SOURCE && k != SINK && of[k] !in live {
        var n := of[k];
        WithoutNodesUnion(rs0, dead, {n});
        dead := dead + {n};
        ns := ns - {n};
        rs := WithoutNodes(rs, {n});
        of := map j | j in of && j != k :: of[j];
      }
      assert dead == IsolatedAmong(of0, of0.Keys - (todo - {k}), live);
    }
    /** `Minimize()`: erases the nodes on no path from SOURCE to SINK, collapses the
        elementary paths and drops the self-loops. The SOURCE and SINK nodes survive, no
        self-loop and no elementary node is left, and the SINK node is reachable from the
        SOURCE node exactly when it was before. */
    method Minimize() returns (ghost passes: seq<seq<nat>>)
      requires Valid() && NamesLive() && SOURCE in nodeOf && SINK in nodeOf && nextNode <= NUM_NODES
      modifies this
      ensures Valid()
      ensures LoopFree(arcs) && NoElementary(arcs, nodes, names)
      ensures SOURCE in nodeOf && SINK in nodeOf && nodeOf[SOURCE] in nodes && nodeOf[SINK] in nodes
      ensures nodes <= old(nodes) - Isolated(old(arcs), old(nodeOf))
      ensures nodeOf[SINK] in Reached(arcs, {nodeOf[SOURCE]}) <==> nodeOf[SINK] in Reached(old(arcs), {nodeOf[SOURCE]})
      ensures Simple(old(arcs)) ==> Simple(arcs)
      ensures Probabilities(old(arcs)) ==> Probabilities(arcs)
      ensures keys == old(keys) && cuts == old(cuts)
      ensures Simple(old(arcs)) ==>
                var dead := Isolated(old(arcs), old(nodeOf));
                CollapseRun(WithoutNodes(old(arcs), dead), old(nodes) - dead, old(names), old(nextArc), passes)
                && (arcs, nodes, nextArc) == Collapsed(WithoutNodes(old(arcs), dead), old(nodes) - dead, old(nextArc), passes)
    {
      var s, t := nodeOf[SOURCE], nodeOf[SINK];
      RemoveIsolatedNodes();
      SubArcs(old(arcs), arcs);
      ghost var a1, ns1 := arcs, nodes;
      assert s in TerminalNodes(names, nodes) && t in TerminalNodes(names, nodes);
      passes := CollapseElementaryPaths();
      ReachKeptConnection(a1, arcs, ns1 - nodes, s, t);
      WithoutLoopsIdempotent(arcs);
      ghost var a2 := arcs;
      RemoveSelfCycles();
      SubArcs(a2, arcs);
    }

    /** `UnifyTerminals(sources, targets)`: through `AddEdge`, an arc of weight 1.0 from
        SOURCE to every name of `sources`, then one from every name of `targets` to SINK, so
        a key already present adds nothing. Every arc added is of one of these two kinds and
        no other arc changes. SOURCE is indexed unless the first source's key was already
        taken, and SINK unless the first target's key was. */
    method UnifyTerminals(sources: seq<string>, targets: seq<string>)
      requires Valid() && NamesLive()
      modifies this
      ensures Valid() && NamesLive()
      ensures keys == old(keys) + SourceKeys(sources, |sources|) + SinkKeys(targets, |targets|)
      ensures forall id :: id in old(arcs) ==> id in arcs && arcs[id] == old(arcs)[id]
      ensures forall id :: id in arcs && id !in old(arcs) ==>
                arcs[id].w == 1.0
                && ((names[arcs[id].src] == SOURCE && names[arcs[id].tgt] in sources)
                    || (names[arcs[id].src] in targets && names[arcs[id].tgt] == SINK))
      ensures old(nextNode) <= nextNode <= old(nextNode) + 2 * (|sources| + |targets|)
      ensures nextArc <= old(nextArc) + |sources| + |targets|
      ensures forall k :: k in old(nodeOf) ==> k in nodeOf && nodeOf[k] == old(nodeOf)[k]
      ensures |sources| > 0 && SOURCE + sources[0] !in old(keys) ==> SOURCE in nodeOf
      ensures |targets| > 0 && targets[0] + SINK !in old(keys) + SourceKeys(sources, |sources|) ==> SINK in nodeOf
      ensures Simple(old(arcs)) && Keyed(old(arcs), old(names), old(keys)) ==> Simple(arcs) && Keyed(arcs, names, keys)
      ensures cuts == old(cuts)
    {
      LinkSources(sources);
      LinkTargets(targets);
    }

    /** The first loop of `UnifyTerminals`: `AddEdge(SOURCE, s, 1.0)` for each `s` of
        `sources`, in order. */
    method LinkSources(sources: seq<string>)
      requires Valid() && NamesLive()
      modifies this
      ensures Valid() && NamesLive()
      ensures keys == old(keys) + SourceKeys(sources, |sources|)
      ensures forall id :: id in old(arcs) ==> id in arcs && arcs[id] == old(arcs)[id]
      ensures forall id :: id in arcs && id !in old(arcs) ==>
                arcs[id].w == 1.0 && names[arcs[id].src] == SOURCE && names[arcs[id].tgt] in sources
      ensures old(nextNode) <= nextNode <= old(nextNode) + 2 * |sources| && nextArc <= old(nextArc) + |sources|
      ensures forall k :: k in old(nodeOf) ==> k in nodeOf && nodeOf[k] == old(nodeOf)[k]
      ensures forall n :: n in old(names) ==> n in names && names[n] == old(names)[n]
      ensures |sources| > 0 && SOURCE + sources[0] !in old(keys) ==> SOURCE in nodeOf
      ensures Simple(old(arcs)) && Keyed(old(arcs), old(names), old(keys)) ==> Simple(arcs) && Keyed(arcs, names, keys)
      ensures cuts == old(cuts)
    {
      for i := 0 to |sources|
        invariant Valid() && NamesLive()
        invariant keys == old(keys) + SourceKeys(sources, i)
        invariant forall id :: id in old(arcs) ==> id in arcs && arcs[id] == old(arcs)[id]
        invariant forall id :: id in arcs && id !in old(arcs) ==>
                    arcs[id].w == 1.0 && names[arcs[id].src] == SOURCE && names[arcs[id].tgt] in sources
        invariant old(nextNode) <= nextNode <= old(nextNode) + 2 * i && nextArc <= old(nextArc) + i
        invariant forall k :: k in old(nodeOf) ==> k in nodeOf && nodeOf[k] == old(nodeOf)[k]
        invariant forall n :: n in old(names) ==> n in names && names[n] == old(names)[n]
        invariant i > 0 && SOURCE + sources[0] !in old(keys) ==> SOURCE in nodeOf
        invariant Simple(old(arcs)) && Keyed(old(arcs), old(names), old(keys)) ==> Simple(arcs) && Keyed(arcs, names, keys)
        invariant cuts == old(cuts)
      {
        ghost var a1 := arcs;
        AddEdge(SOURCE, sources[i], 1.0);
        forall id | id in arcs && id !in old(arcs)
          ensures arcs[id].w == 1.0 && names[arcs[id].src] == SOURCE && names[arcs[id].tgt] in sources
        {
          if id in a1 { assert arcs[id] == a1[id]; }
        }
        SourceKeysNext(sources, i);
      }
    }

    /** The second loop of `UnifyTerminals`: `AddEdge(t, SINK, 1.0)` for each `t` of
        `targets`, in order. */
    method LinkTargets(targets: seq<string>)
      requires Valid() && NamesLive()
      modifies this
      ensures Valid() && NamesLive()
      ensures keys == old(keys) + SinkKeys(targets, |targets|)
      ensures forall id :: id in old(arcs) ==> id in arcs && arcs[id] == old(arcs)[id]
      ensures forall id :: id in arcs && id !in old(arcs) ==>
                arcs[id].w == 1.0 && names[arcs[id].src] in targets && names[arcs[id].tgt] == SINK
      ensures old(nextNode) <= nextNode <= old(nextNode) + 2 * |targets| && nextArc <= old(nextArc) + |targets|
      ensures forall k :: k in old(nodeOf) ==> k in nodeOf && nodeOf[k] == old(nodeOf)[k]
      ensures forall n :: n in old(names) ==> n in names && names[n] == old(names)[n]
      ensures |targets| > 0 && targets[0] + SINK !in old(keys) ==> SINK in nodeOf
      ensures Simple(old(arcs)) && Keyed(old(arcs), old(names), old(keys)) ==> Simple(arcs) && Keyed(arcs, names, keys)
      ensures cuts == old(cuts)
    {
      for i := 0 to |targets|
        invariant Valid() && NamesLive()
        invariant keys == old(keys) + SinkKeys(targets, i)
        invariant forall id :: id in old(arcs) ==> id in arcs && arcs[id] == old(arcs)[id]
        invariant forall id :: id in arcs && id !in old(arcs) ==>
                    arcs[id].w == 1.0 && names[arcs[id].src] in targets && names[arcs[id].tgt] == SINK
        invariant old(nextNode) <= nextNode <= old(nextNode) + 2 * i && nextArc <= old(nextArc) + i
        invariant forall k :: k in old(nodeOf) ==> k in nodeOf && nodeOf[k] == old(nodeOf)[k]
        invariant forall n :: n in old(names) ==> n in names && names[n] == old(names)[n]
        invariant i > 0 && targets[0] + SINK !in old(keys) ==> SINK in nodeOf
        invariant Simple(old(arcs)) && Keyed(old(arcs), old(names), old(keys)) ==> Simple(arcs) && Keyed(arcs, names, keys)
        invariant cuts == old(cuts)
      {
        ghost var a1 := arcs;
        AddEdge(targets[i], SINK, 1.0);
        forall id | id in arcs && id !in old(arcs)
          ensures arcs[id].w == 1.0 && names[arcs[id].src] in targets && names[arcs[id].tgt] == SINK
        {
          if id in a1 { assert arcs[id] == a1[id]; }
        }
        SinkKeysNext(targets, i);
      }
    }

    /** `Preprocess(sources, targets, pre)`: unifies the terminals (giving the arcs
        `unified`), minimizes when `pre` asks for it (giving the digraph `reduced`), and
        splits a direct SOURCE-to-SINK arc `id` of `reduced` with an ISOLATOR node. The SINK
        node is reachable from the SOURCE node exactly when it was after unification. On a
        graph built by `AddEdge` alone (every arc's key recorded, no two arcs joining the
        same pair) no arc from the SOURCE node to the SINK node is left. The bitsets of the
        minimization bound the number of nodes. */
    method Preprocess(sources: seq<string>, targets: seq<string>, pre: string)
      returns (ghost unified: ArcMap, ghost reduced: Snapshot, ghost id: nat)
      requires Valid() && NamesLive() && |sources| > 0 && |targets| > 0
      requires SOURCE + sources[0] !in keys && targets[0] + SINK !in keys + SourceKeys(sources, |sources|)
      requires pre == PRE_YES ==> nextNode + 2 * (|sources| + |targets|) <= NUM_NODES
      modifies this
      ensures Valid()
      ensures SOURCE in nodeOf && SINK in nodeOf && nodeOf[SOURCE] in nodes && nodeOf[SINK] in nodes
      ensures forall k :: k in old(arcs) ==> k in unified && unified[k] == old(arcs)[k]
      ensures pre != PRE_YES ==> reduced.arcs == unified
      ensures SOURCE in reduced.nodeOf && SINK in reduced.nodeOf
      ensures SplitApplied(reduced.nodes, reduced.arcs, reduced.names, reduced.nodeOf, reduced.nextNode, reduced.nextArc,
                           id, nodes, arcs, names, nodeOf, nextNode, nextArc)
      ensures nodeOf[SINK] in Reached(arcs, {nodeOf[SOURCE]}) <==> nodeOf[SINK] in Reached(unified, {nodeOf[SOURCE]})
      ensures Simple(old(arcs)) && Keyed(old(arcs), old(names), old(keys)) ==>
                ArcsBetween(arcs, nodeOf[SOURCE], nodeOf[SINK]) == {}
      ensures pre == PRE_YES ==>
                LoopFree(arcs) && forall n :: n in nodes && Elementary(arcs, names, n) ==> names[n] == ISOLATOR
      ensures keys == old(keys) + SourceKeys(sources, |sources|) + SinkKeys(targets, |targets|) && cuts == old(cuts)
    {
      ghost var simple := Simple(arcs) && Keyed(arcs, names, keys);
      UnifyTerminals(sources, targets);
      unified := arcs;
      assert simple ==> Simple(arcs);
      if pre == PRE_YES {
        ghost var passes;
        passes := Minimize();
      }
      reduced := Snapshot(nodes, arcs, names, nodeOf, nextNode, nextArc);
      if simple {
        SimpleBetween(arcs, nodeOf[SOURCE], nodeOf[SINK]);
      }
      id := Isolate();
    }

    /** The last step of `Preprocess`: the first arc from the SOURCE node to the SINK node,
        if any, gives way to a new node named ISOLATOR, an arc from it to the SINK node
        with that arc's weight (the head, taking the next arc id) and an arc of weight 1.0
        into it from the SOURCE node (the tail). With at most one direct arc before, none is
        left, and a loop-free graph stays loop-free. The SINK node stays reachable from the
        SOURCE node exactly when it was, and the only node that can become elementary is the
        ISOLATOR node itself. */
    method Isolate() returns (id: nat)
      requires Valid() && SOURCE in nodeOf && SINK in nodeOf && nodeOf[SOURCE] in nodes && nodeOf[SINK] in nodes
      modifies this
      ensures Valid() && keys == old(keys) && cuts == old(cuts)
      ensures SOURCE in nodeOf && SINK in nodeOf && nodeOf[SOURCE] == old(nodeOf)[SOURCE] && nodeOf[SINK] == old(nodeOf)[SINK]
      ensures nodeOf[SOURCE] in nodes && nodeOf[SINK] in nodes
      ensures SplitApplied(old(nodes), old(arcs), old(names), old(nodeOf), old(nextNode), old(nextArc),
                       id, nodes, arcs, names, nodeOf, nextNode, nextArc)
      ensures |ArcsBetween(old(arcs), nodeOf[SOURCE], nodeOf[SINK])| <= 1 ==> ArcsBetween(arcs, nodeOf[SOURCE], nodeOf[SINK]) == {}
      ensures nodeOf[SINK] in Reached(arcs, {nodeOf[SOURCE]}) <==> nodeOf[SINK] in Reached(old(arcs), {nodeOf[SOURCE]})
      ensures LoopFree(old(arcs)) ==> LoopFree(arcs)
      ensures Probabilities(old(arcs)) ==> Probabilities(arcs)
      ensures forall n :: n in old(nodes) ==> (Elementary(arcs, names, n) <==> Elementary(old(arcs), old(names), n))
      ensures forall n :: n in nodes - old(nodes) ==> names[n] == ISOLATOR && Elementary(arcs, names, n)
    {
      var ns, a, nm, of, nn, na;
      id, ns, a, nm, of, nn, na := SplitDirect(nodes, arcs, names, nodeOf, nextNode, nextArc);
      SetState(ns, a, nm, of, nn, na);
    }

    /** `CreateFirstCut()`: the first cut around the SOURCE node, or the sentinel `Cut()`
        when the SINK node is one of its successors. On a loop-free graph holding both
        terminals, any other result is a partition with SOURCE on the left and SINK on the
        right. */
    method CreateFirstCut() returns (c: Cut)
      requires Valid() && SOURCE in nodeOf && SINK in nodeOf && nextNode <= NUM_NODES && nextArc <= NUM_EDGES
      ensures nodeOf[SINK] in Succ(arcs, {nodeOf[SOURCE]}) <==> c == Empty()
      ensures c != Empty() ==> c == FirstCutOf(arcs, nodes, nodeOf[SOURCE])
      ensures c != Empty() && LoopFree(arcs) && nodeOf[SOURCE] in nodes && nodeOf[SINK] in nodes ==>
                Shaped(c, nodes, nodeOf[SOURCE], nodeOf[SINK])
    {
      var s, t := nodeOf[SOURCE], nodeOf[SINK];
      assert names[s] != names[t];
      c := FirstCut(arcs, nodes, s, t);
      assert s in FirstCutOf(arcs, nodes, s).left;
      if c != Empty() && LoopFree(arcs) && s in nodes && t in nodes {
        assert s !in Succ(arcs, {s});
        FirstCutShaped(arcs, nodes, s, t);
      }
    }

    /** `RemoveRedundantCuts()`: `cuts` reduced to a subsequence (at the old positions
        `idx`) in which no middle lies within another's, every old cut keeping a survivor
        inside it; of two old cuts with the same middle the earlier one never survives. */
    method RemoveRedundantCuts() returns (ghost idx: seq<nat>)
      modifies this
      ensures RedundantDropped(old(cuts), cuts, idx)
      ensures forall c :: c in cuts ==> c in old(cuts)
      ensures |cuts| <= |old(cuts)|
      ensures nodes == old(nodes) && arcs == old(arcs) && names == old(names) && nodeOf == old(nodeOf)
      ensures keys == old(keys) && nextNode == old(nextNode) && nextArc == old(nextArc)
    {
      cuts, idx := RemoveRedundant(cuts);
      SubsequenceMembers(cuts, old(cuts), idx);
    }

    /** `RefineCuts()`: redundant cuts dropped (leaving `mid`), every cut grown and shrunk
        into a good cut, and redundant cuts dropped again. When the SINK node has no
        outgoing arc, cuts that partition the nodes with SOURCE on the left and SINK on the
        right stay so. */
    method RefineCuts() returns (ghost mid: seq<Cut>, ghost idx1: seq<nat>, ghost idx2: seq<nat>)
      requires SINK in nodeOf
      modifies this
      ensures RedundantDropped(old(cuts), mid, idx1) && RedundantDropped(GrownShrunk(arcs, mid), cuts, idx2)
      ensures forall c :: c in cuts ==> Refined(arcs, c)
      ensures forall p, q :: 0 <= p < q < |cuts| ==> Incomparable(cuts[p], cuts[q])
      ensures |cuts| <= |old(cuts)|
      ensures nodes == old(nodes) && arcs == old(arcs) && names == old(names) && nodeOf == old(nodeOf)
      ensures SOURCE in nodeOf && OutArcs(arcs, nodeOf[SINK]) == {}
              && (forall c :: c in old(cuts) ==> Shaped(c, nodes, nodeOf[SOURCE], nodeOf[SINK])) ==>
                forall c :: c in cuts ==> Shaped(c, nodes, nodeOf[SOURCE], nodeOf[SINK])
      ensures (forall c :: c in old(cuts) ==> c.covered <= arcs.Keys) ==> forall c :: c in cuts ==> c.covered <= arcs.Keys
      ensures keys == old(keys) && nextNode == old(nextNode) && nextArc == old(nextArc)
    {
      ghost var s := if SOURCE in nodeOf then nodeOf[SOURCE] else 0;
      var t := nodeOf[SINK];
      idx1 := RemoveRedundantCuts();
      mid := cuts;
      var best := GrowShrinkAll(arcs, nodes, s, t, cuts);
      GrowShrinkKeeps(arcs, nodes, s, t, mid, best);
      cuts := best;
      idx2 := RemoveRedundantCuts();
    }

    /** `FindSomeGoodCuts()`: the first cut; when its middle is empty (the sentinel, or a
        SOURCE node without successors) that cut alone is returned and `cuts` is left as it
        is. Otherwise the sweep's cuts, whose right sides strictly shrink, are appended to
        `cuts`, which are then refined and returned: good cuts, no middle within another,
        and on a loop-free graph whose SINK node has no outgoing arc, partitions with SOURCE
        on the left and SINK on the right whenever the old cuts were. In that case `swept`
        is the sweep from the first cut, and the result is what `RefineCuts` makes of the
        old cuts followed by `swept`. */
    method FindSomeGoodCuts()
      returns (r: seq<Cut>, ghost swept: seq<Cut>, ghost mid: seq<Cut>, ghost idx1: seq<nat>, ghost idx2: seq<nat>)
      requires Valid() && SOURCE in nodeOf && SINK in nodeOf && nextNode <= NUM_NODES && nextArc <= NUM_EDGES
      modifies this
      ensures nodes == old(nodes) && arcs == old(arcs) && names == old(names) && nodeOf == old(nodeOf)
      ensures Valid()
      ensures var s, t := nodeOf[SOURCE], nodeOf[SINK];
                (t in Succ(arcs, {s}) ==> r == [Empty()] && cuts == old(cuts))
                && (Succ(arcs, {s}) == {} ==> r == [FirstCutOf(arcs, nodes, s)] && cuts == old(cuts))
                && (t !in Succ(arcs, {s}) && Succ(arcs, {s}) != {} ==>
                      r == cuts && (forall c :: c in r ==> Refined(arcs, c))
                      && (forall p, q :: 0 <= p < q < |r| ==> Incomparable(r[p], r[q]))
                      && SweptFrom(arcs, t, FirstCutOf(arcs, nodes, s), swept)
                      && RedundantDropped(old(cuts) + swept, mid, idx1)
                      && RedundantDropped(GrownShrunk(arcs, mid), r, idx2))
      ensures var s, t := nodeOf[SOURCE], nodeOf[SINK];
                t !in Succ(arcs, {s}) && LoopFree(arcs) && s in nodes && t in nodes && OutArcs(arcs, t) == {}
                && (forall c :: c in old(cuts) ==> Shaped(c, nodes, s, t)) ==>
                  forall c :: c in r ==> Shaped(c, nodes, s, t)
      ensures (forall c :: c in old(cuts) ==> c.covered <= arcs.Keys) ==> forall c :: c in r ==> c.covered <= arcs.Keys
      ensures keys == old(keys) && nextNode == old(nextNode) && nextArc == old(nextArc)
    {
      var s, t := nodeOf[SOURCE], nodeOf[SINK];
      var first := CreateFirstCut();
      if first.middle == {} {
        r, swept, mid, idx1, idx2 := [first], [], [], [], [];
        return;
      }
      swept, mid, idx1, idx2 := SweepAndRefine(first);
      r := cuts;
    }

    /** The part of `FindSomeGoodCuts()` after a first cut with successors of SOURCE in its
        middle: the sweep from it is appended to `cuts`, which are then refined. */
    method SweepAndRefine(first: Cut) returns (ghost swept: seq<Cut>, ghost mid: seq<Cut>, ghost idx1: seq<nat>, ghost idx2: seq<nat>)
      requires Valid() && SOURCE in nodeOf && SINK in nodeOf && nextNode <= NUM_NODES
      requires first == FirstCutOf(arcs, nodes, nodeOf[SOURCE])
      modifies this
      ensures nodes == old(nodes) && arcs == old(arcs) && names == old(names) && nodeOf == old(nodeOf)
      ensures keys == old(keys) && nextNode == old(nextNode) && nextArc == old(nextArc)
      ensures (forall c :: c in cuts ==> Refined(arcs, c)) && forall p, q :: 0 <= p < q < |cuts| ==> Incomparable(cuts[p], cuts[q])
      ensures SweptFrom(arcs, nodeOf[SINK], first, swept)
      ensures RedundantDropped(old(cuts) + swept, mid, idx1) && RedundantDropped(GrownShrunk(arcs, mid), cuts, idx2)
      ensures var s, t := nodeOf[SOURCE], nodeOf[SINK];
                OutArcs(arcs, t) == {} && Shaped(first, nodes, s, t) && (forall c :: c in old(cuts) ==> Shaped(c, nodes, s, t)) ==>
                  forall c :: c in cuts ==> Shaped(c, nodes, s, t)
      ensures (forall c :: c in old(cuts) ==> c.covered <= arcs.Keys) ==> forall c :: c in cuts ==> c.covered <= arcs.Keys
    {
      var s, t := nodeOf[SOURCE], nodeOf[SINK];
      assert first.middle + first.right <= nodes;
      var cs := Sweep(arcs, nodes, s, t, first);
      swept := cs;
      cuts := cuts + cs;
      mid, idx1, idx2 := RefineCuts();
    }

    /** `CopyFrom(other)`: this digraph becomes a copy of `other`'s live nodes and arcs, with
        their names and weights; then every copied node is indexed under its name and the key
        of every copied arc joins `keys`. Index entries of names the copy does not have are
        left as they were, so copying into a graph with an empty index gives a well-formed
        graph whose index holds exactly the copied names. */
    method CopyFrom(other: Graph)
      requires other.Valid() && other != this
      modifies this
      ensures nodes == other.nodes && arcs == other.arcs && names == LiveNames(other.names, other.nodes)
      ensures forall n :: n in nodes ==> names[n] in nodeOf && nodeOf[names[n]] in nodes && names[nodeOf[names[n]]] == names[n]
      ensures forall k :: k in nodeOf <==> k in old(nodeOf) || k in NameSet(names, nodes)
      ensures forall k :: k in old(nodeOf) && k !in NameSet(names, nodes) ==> nodeOf[k] == old(nodeOf)[k]
      ensures keys == old(keys) + ArcKeys(arcs, names)
      ensures cuts == old(cuts) && nextNode == other.nextNode && nextArc == other.nextArc
      ensures old(nodeOf) == map[] ==> Valid() && NamesLive()
    {
      var ns, a, nm := other.nodes, other.arcs, LiveNames(other.names, other.nodes);
      var of := IndexNames(nm, ns, nodeOf);
      var ks := KeysOf(a, nm, keys);
      nodes, arcs, names, nodeOf, keys := ns, a, nm, of, ks;
      nextNode, nextArc := other.nextNode, other.nextArc;
      assert names == nm && nodes == ns && nodeOf == of;
    }

    /** The node loop of `CopyFrom`: each node of `ns`, in any order, indexed under its name. */
    static method IndexNames(nm: map<nat, string>, ns: set<nat>, of0: map<string, nat>) returns (of: map<string, nat>)
      requires ns <= nm.Keys
      ensures forall n :: n in ns ==> nm[n] in of && of[nm[n]] in ns && nm[of[nm[n]]] == nm[n]
      ensures forall k :: k in of <==> k in of0 || k in NameSet(nm, ns)
      ensures forall k :: k in of0 && k !in NameSet(nm, ns) ==> of[k] == of0[k]
    {
      of := of0;
      var todo := ns;
      while todo != {}
        invariant todo <= ns
        invariant forall n :: n in ns - todo ==> nm[n] in of && of[nm[n]] in ns - todo && nm[of[nm[n]]] == nm[n]
        invariant forall k :: k in of <==> k in of0 || k in NameSet(nm, ns - todo)
        invariant forall k :: k in of0 && k !in NameSet(nm, ns - todo) ==> of[k] == of0[k]
        decreases |todo|
      {
        var n :| n in todo;
        of := of[nm[n] := n];
        todo := todo - {n};
      }
    }

    /** The arc loop of `CopyFrom`: the key of each arc of `a` added to `ks0`. */
    static method KeysOf(a: ArcMap, nm: map<nat, string>, ks0: set<string>) returns (ks: set<string>)
      ensures ks == ks0 + ArcKeys(a, nm)
    {
      ks := ks0;
      var todo := a.Keys;
      while todo != {}
        invariant todo <= a.Keys
        invariant ks == ks0 + KeysAmong(a, a.Keys - todo, nm)
        decreases |todo|
      {
        var id :| id in todo;
        KeysAmongAdd(a, todo, nm, id);
        ks := ks + {ArcKey(a, nm, id)};
        todo := todo - {id};
      }
    }
  }

  /** When every live node is the node of its own name, the isolated nodes are exactly the
      live nodes other than the SOURCE and SINK nodes on no path from SOURCE to SINK. */
  lemma IsolatedExactly(nodes: set<nat>, a: ArcMap, names: map<nat, string>, nodeOf: map<string, nat>,
                        nextNode: nat, nextArc: nat)
    requires Wellformed(nodes, a, names, nodeOf, nextNode, nextArc)
    requires SOURCE in nodeOf && SINK in nodeOf
    requires forall n :: n in nodes ==> names[n] in nodeOf && nodeOf[names[n]] == n
    ensures nodes - Isolated(a, nodeOf)
            == nodes * (OnPath(a, nodeOf[SOURCE], nodeOf[SINK]) + {nodeOf[SOURCE], nodeOf[SINK]})
  {
    var on := OnPath(a, nodeOf[SOURCE], nodeOf[SINK]);
    forall n | n in nodes
      ensures n in Isolated(a, nodeOf) <==> n !in on + {nodeOf[SOURCE], nodeOf[SINK]}
    {
      var k := names[n];
      if n !in on + {nodeOf[SOURCE], nodeOf[SINK]} {
        assert k != SOURCE && k != SINK;
        assert n == nodeOf[k];
      }
    }
  }

  /** Which nodes are isolated depends only on which named nodes lie in the live set. */
  lemma IsolatedSame(nodeOf: map<string, nat>, ks: set<string>, on1: set<nat>, on2: set<nat>)
    requires forall k :: k in nodeOf ==> (nodeOf[k] in on1 <==> nodeOf[k] in on2)
    ensures IsolatedAmong(nodeOf, ks, on1) == IsolatedAmong(nodeOf, ks, on2)
  {
  }

  /** The keys `UnifyTerminals` gives the arcs from SOURCE to the first `n` sources. */
  function SourceKeys(sources: seq<string>, n: nat): set<string>
    requires n <= |sources|
  {
    set j | 0 <= j < n :: SOURCE + sources[j]
  }

  /** The keys `UnifyTerminals` gives the arcs from the first `n` targets into SINK. */
  function SinkKeys(targets: seq<string>, n: nat): set<string>
    requires n <= |targets|
  {
    set j | 0 <= j < n :: targets[j] + SINK
  }

  /** One more source adds its one key. */
  lemma SourceKeysNext(sources: seq<string>, n: nat)
    requires n < |sources|
    ensures SourceKeys(sources, n + 1) == SourceKeys(sources, n) + {SOURCE + sources[n]}
  {
    assert forall k :: k in SourceKeys(sources, n + 1) ==> k in SourceKeys(sources, n) + {SOURCE + sources[n]};
  }

  /** One more target adds its one key. */
  lemma SinkKeysNext(targets: seq<string>, n: nat)
    requires n < |targets|
    ensures SinkKeys(targets, n + 1) == SinkKeys(targets, n) + {targets[n] + SINK}
  {
    assert forall k :: k in SinkKeys(targets, n + 1) ==> k in SinkKeys(targets, n) + {targets[n] + SINK};
  }

  /** The names of the live nodes. */
  function LiveNames(names: map<nat, string>, ns: set<nat>): (r: map<nat, string>)
    requires ns <= names.Keys
    ensures r.Keys == ns && forall n :: n in ns ==> r[n] == names[n]
  {
    map n | n in ns :: names[n]
  }

  /** The names the nodes of `ns` carry. */
  function NameSet(names: map<nat, string>, ns: set<nat>): set<string>
    requires ns <= names.Keys
  {
    set n | n in ns :: names[n]
  }

  /** The `source + target` names key of arc `id`. */
  function ArcKey(a: ArcMap, names: map<nat, string>, id: nat): string
    requires id in a
  {
    NameOf(names, a[id].src) + NameOf(names, a[id].tgt)
  }

  /** The keys of the arcs whose id lies in `ids`. */
  function KeysAmong(a: ArcMap, ids: set<nat>, names: map<nat, string>): set<string>
  {
    set id | id in a && id in ids :: ArcKey(a, names, id)
  }

  /** The keys of every arc. */
  function ArcKeys(a: ArcMap, names: map<nat, string>): set<string>
  {
    KeysAmong(a, a.Keys, names)
  }

  /** Visiting arc `id` of the ids still to visit adds its key. */
  lemma KeysAmongAdd(a: ArcMap, todo: set<nat>, names: map<nat, string>, id: nat)
    requires id in todo && todo <= a.Keys
    ensures KeysAmong(a, a.Keys - (todo - {id}), names) == KeysAmong(a, a.Keys - todo, names) + {ArcKey(a, names, id)}
  {
    assert a.Keys - (todo - {id}) == (a.Keys - todo) + {id};
  }

  /** The isolated nodes lie on no path from the SOURCE node to the SINK node and are
      neither of them. */
  lemma IsolatedAvoids(nodes: set<nat>, a: ArcMap, names: map<nat, string>, nodeOf: map<string, nat>,
                       nextNode: nat, nextArc: nat)
    requires Wellformed(nodes, a, names, nodeOf, nextNode, nextArc) && SOURCE in nodeOf && SINK in nodeOf
    ensures nodeOf[SOURCE] !in Isolated(a, nodeOf) && nodeOf[SINK] !in Isolated(a, nodeOf)
    ensures Isolated(a, nodeOf) * OnPath(a, nodeOf[SOURCE], nodeOf[SINK]) == {}
  {
    forall k | k in nodeOf && k != SOURCE && k != SINK
      ensures nodeOf[k] != nodeOf[SOURCE] && nodeOf[k] != nodeOf[SINK]
    {
      assert names[nodeOf[k]] == k;
    }
  }

  /** Erasing nodes on no path from `s` to `t`, other than `s`, leaves `t` reachable from
      `s` exactly when it was. */
  lemma RemovingOffPathKeepsConnection(a: ArcMap, dead: set<nat>, s: nat, t: nat)
    requires s !in dead && dead * OnPath(a, s, t) == {}
    ensures t in Reached(WithoutNodes(a, dead), {s}) <==> t in Reached(a, {s})
  {
    var r := WithoutNodes(a, dead);
    var fwd := Reached(a, {s});
    var back := Reached(Reversed(a), {t});
    var got := Reached(r, {s});
    ReachedIsLeastClosed(a, {s}, {});
    ReachedIsLeastClosed(r, {s}, fwd);
    ReachedIsLeastClosed(Reversed(a), {t}, {});
    var outside := set id | id in a && a[id].tgt !in back :: a[id].tgt;
    var c := got + outside;
    forall k | k in a && a[k].src in c
      ensures a[k].tgt in c
    {
      if a[k].tgt in back {
        assert Reversed(a)[k].src == a[k].tgt;
        assert a[k].src in back;
        assert a[k].src !in outside;
        assert a[k].tgt in fwd;
        assert a[k].tgt !in dead by {
          assert a[k].tgt in OnPath(a, s, t);
        }
        assert a[k].src !in dead;
        assert k in r;
      }
    }
    ReachedIsLeastClosed(a, {s}, c);
    if t in fwd {
      assert t in back && t !in outside;
    }
  }

  /** Arc `id` erased, replaced by an arc from `iso` to its target with its weight, taking
      id `head`, and an arc of weight 1.0 from its source to `iso`, taking id `head + 1`. */
  function Split(a: ArcMap, id: nat, iso: nat, head: nat): ArcMap
    requires id in a
  {
    (map k | k in a && k != id :: a[k])[head := Arc(iso, a[id].tgt, a[id].w)][head + 1 := Arc(a[id].src, iso, 1.0)]
  }

  /** What the last step of `Preprocess` does to the digraph and its maps: without an arc
      from the SOURCE node `s` to the SINK node `t` nothing changes; otherwise such an arc
      `id` is split, the new ISOLATOR node taking the next node id and being indexed, and the
      arcs between `s` and `t` lose `id`. */
  ghost predicate SplitApplied(nodes0: set<nat>, arcs0: ArcMap, names0: map<nat, string>, nodeOf0: map<string, nat>,
                           nextNode0: nat, nextArc0: nat, id: nat,
                           nodes: set<nat>, arcs: ArcMap, names: map<nat, string>, nodeOf: map<string, nat>,
                           nextNode: nat, nextArc: nat)
    requires SOURCE in nodeOf0 && SINK in nodeOf0
  {
    var s, t := nodeOf0[SOURCE], nodeOf0[SINK];
    if ArcsBetween(arcs0, s, t) == {} then
      nodes == nodes0 && arcs == arcs0 && names == names0 && nodeOf == nodeOf0
      && nextNode == nextNode0 && nextArc == nextArc0
    else
      id in ArcsBetween(arcs0, s, t) && arcs == Split(arcs0, id, nextNode0, nextArc0)
      && ArcsBetween(arcs, s, t) == ArcsBetween(arcs0, s, t) - {id}
      && nodes == nodes0 + {nextNode0} && names == names0[nextNode0 := ISOLATOR]
      && nodeOf == nodeOf0[ISOLATOR := nextNode0] && nextNode == nextNode0 + 1 && nextArc == nextArc0 + 2
  }

  /** `Isolate` on the digraph's values. */
  method SplitDirect(nodes0: set<nat>, arcs0: ArcMap, names0: map<nat, string>, nodeOf0: map<string, nat>,
                     nextNode0: nat, nextArc0: nat)
    returns (id: nat, nodes: set<nat>, arcs: ArcMap, names: map<nat, string>, nodeOf: map<string, nat>,
             nextNode: nat, nextArc: nat)
    requires Wellformed(nodes0, arcs0, names0, nodeOf0, nextNode0, nextArc0)
    requires SOURCE in nodeOf0 && SINK in nodeOf0 && nodeOf0[SOURCE] in nodes0 && nodeOf0[SINK] in nodes0
    ensures Wellformed(nodes, arcs, names, nodeOf, nextNode, nextArc)
    ensures SOURCE in nodeOf && SINK in nodeOf && nodeOf[SOURCE] == nodeOf0[SOURCE] && nodeOf[SINK] == nodeOf0[SINK]
    ensures nodeOf[SOURCE] in nodes && nodeOf[SINK] in nodes
    ensures SplitApplied(nodes0, arcs0, names0, nodeOf0, nextNode0, nextArc0, id, nodes, arcs, names, nodeOf, nextNode, nextArc)
    ensures |ArcsBetween(arcs0, nodeOf[SOURCE], nodeOf[SINK])| <= 1 ==> ArcsBetween(arcs, nodeOf[SOURCE], nodeOf[SINK]) == {}
    ensures nodeOf[SINK] in Reached(arcs, {nodeOf[SOURCE]}) <==> nodeOf[SINK] in Reached(arcs0, {nodeOf[SOURCE]})
    ensures LoopFree(arcs0) ==> LoopFree(arcs)
    ensures Probabilities(arcs0) ==> Probabilities(arcs)
    ensures forall n :: n in nodes0 ==> (Elementary(arcs, names, n) <==> Elementary(arcs0, names0, n))
    ensures forall n :: n in nodes - nodes0 ==> names[n] == ISOLATOR && Elementary(arcs, names, n)
  {
    nodes, arcs, names, nodeOf, nextNode, nextArc := nodes0, arcs0, names0, nodeOf0, nextNode0, nextArc0;
    var s, t := nodeOf[SOURCE], nodeOf[SINK];
    var direct := ArcsBetween(arcs, s, t);
    if direct == {} {
      return 0, nodes, arcs, names, nodeOf, nextNode, nextArc;
    }
    id :| id in direct;
    nodes, arcs, names, nodeOf, nextNode, nextArc := SplitAt(nodes0, arcs0, names0, nodeOf0, nextNode0, nextArc0, id);
    SplitElementary(nodes0, arcs0, names0, nextNode0, nextArc0, id, s, t);
    SplitProbabilities(arcs0, id, nextNode0, nextArc0);
    SplitKeepsConnection(arcs0, id, nextNode0, nextArc0, s, t);
  }

  /** The split of `SplitDirect` once a direct arc `id` from SOURCE to SINK is chosen: the
      digraph stays well formed and the terminals keep their nodes. */
  method SplitAt(nodes0: set<nat>, arcs0: ArcMap, names0: map<nat, string>, nodeOf0: map<string, nat>,
                 nextNode0: nat, nextArc0: nat, id: nat)
    returns (nodes: set<nat>, arcs: ArcMap, names: map<nat, string>, nodeOf: map<string, nat>,
             nextNode: nat, nextArc: nat)
    requires Wellformed(nodes0, arcs0, names0, nodeOf0, nextNode0, nextArc0)
    requires SOURCE in nodeOf0 && SINK in nodeOf0 && nodeOf0[SOURCE] in nodes0 && nodeOf0[SINK] in nodes0
    requires id in ArcsBetween(arcs0, nodeOf0[SOURCE], nodeOf0[SINK])
    ensures Wellformed(nodes, arcs, names, nodeOf, nextNode, nextArc)
    ensures SOURCE in nodeOf && SINK in nodeOf && nodeOf[SOURCE] == nodeOf0[SOURCE] && nodeOf[SINK] == nodeOf0[SINK]
    ensures nodeOf[SOURCE] in nodes && nodeOf[SINK] in nodes
    ensures SplitApplied(nodes0, arcs0, names0, nodeOf0, nextNode0, nextArc0, id, nodes, arcs, names, nodeOf, nextNode, nextArc)
    ensures |ArcsBetween(arcs0, nodeOf[SOURCE], nodeOf[SINK])| <= 1 ==> ArcsBetween(arcs, nodeOf[SOURCE], nodeOf[SINK]) == {}
    ensures LoopFree(arcs0) ==> LoopFree(arcs)
  {
    var s, t := nodeOf0[SOURCE], nodeOf0[SINK];
    var iso := nextNode0;
    SplitWellformed(nodes0, arcs0, names0, nodeOf0, nextNode0, nextArc0, id, s, t);
    nodes, names, nodeOf := nodes0 + {iso}, names0[iso := ISOLATOR], nodeOf0[ISOLATOR := iso];
    arcs, nextNode, nextArc := Split(arcs0, id, iso, nextArc0), nextNode0 + 1, nextArc0 + 2;
  }

  /** The ISOLATOR split keeps every weight a probability: the head takes the split arc's
      weight and the tail weighs 1.0. */
  lemma SplitProbabilities(arcs: ArcMap, id: nat, iso: nat, head: nat)
    requires id in arcs
    ensures Probabilities(arcs) ==> Probabilities(Split(arcs, id, iso, head))
  {
  }

  /** The ISOLATOR split keeps `t` reachable from `s`: the arc from `s` to `t` it erases
      gives way to the path from `s` through `iso` to `t`. */
  lemma SplitKeepsConnection(a: ArcMap, id: nat, iso: nat, head: nat, s: nat, t: nat)
    requires id in ArcsBetween(a, s, t)
    ensures t in Reached(a, {s}) && t in Reached(Split(a, id, iso, head), {s})
  {
    var r := Split(a, id, iso, head);
    ReachedIsLeastClosed(a, {s}, {});
    ReachedIsLeastClosed(r, {s}, {});
    assert r[head + 1].src == s && r[head + 1].tgt == iso;
    assert iso in Reached(r, {s});
    assert r[head].src == iso && r[head].tgt == t;
  }

  /** The ISOLATOR split keeps the digraph and its maps well formed; with at most one direct
      arc before, none is left, and a loop-free graph stays loop-free. */
  lemma SplitWellformed(nodes: set<nat>, arcs: ArcMap, names: map<nat, string>, nodeOf: map<string, nat>,
                        nextNode: nat, nextArc: nat, id: nat, s: nat, t: nat)
    requires Wellformed(nodes, arcs, names, nodeOf, nextNode, nextArc)
    requires s in nodes && t in nodes && id in ArcsBetween(arcs, s, t)
    ensures Wellformed(nodes + {nextNode}, Split(arcs, id, nextNode, nextArc), names[nextNode := ISOLATOR],
                       nodeOf[ISOLATOR := nextNode], nextNode + 1, nextArc + 2)
    ensures ArcsBetween(Split(arcs, id, nextNode, nextArc), s, t) == ArcsBetween(arcs, s, t) - {id}
    ensures |ArcsBetween(arcs, s, t)| <= 1 ==> ArcsBetween(Split(arcs, id, nextNode, nextArc), s, t) == {}
    ensures LoopFree(arcs) ==> LoopFree(Split(arcs, id, nextNode, nextArc))
  {
    var direct := ArcsBetween(arcs, s, t);
    var r := Split(arcs, id, nextNode, nextArc);
    assert ArcsBetween(r, s, t) == direct - {id};
    if |direct| <= 1 {
      assert |direct - {id}| == |direct| - 1;
    }
  }

  /** The ISOLATOR split leaves every old node elementary exactly when it was, and makes the
      ISOLATOR node elementary. */
  lemma SplitElementary(nodes: set<nat>, arcs: ArcMap, names: map<nat, string>,
                        nextNode: nat, nextArc: nat, id: nat, s: nat, t: nat)
    requires ArcsWithin(arcs, nodes) && (forall k :: k in arcs ==> k < nextArc)
    requires (forall n :: n in nodes ==> n in names) && (forall n :: n in names ==> n < nextNode)
    requires s in nodes && t in nodes && id in ArcsBetween(arcs, s, t)
    requires NameOf(names, s) == SOURCE && NameOf(names, t) == SINK
    ensures forall n :: n in nodes ==>
              (Elementary(Split(arcs, id, nextNode, nextArc), names[nextNode := ISOLATOR], n) <==> Elementary(arcs, names, n))
    ensures Elementary(Split(arcs, id, nextNode, nextArc), names[nextNode := ISOLATOR], nextNode)
    ensures forall n :: n in (nodes + {nextNode}) - nodes ==>
              names[nextNode := ISOLATOR][n] == ISOLATOR
              && Elementary(Split(arcs, id, nextNode, nextArc), names[nextNode := ISOLATOR], n)
  {
    var r := Split(arcs, id, nextNode, nextArc);
    IsolateDegrees(arcs, r, id, s, t, nextNode, nextArc);
    forall n | n in nodes
      ensures NameOf(names[nextNode := ISOLATOR], n) == NameOf(names, n)
    {
    }
  }

  /** When reachability among the nodes outside `gone` is kept, so is whether `t` is
      reachable from `s`, for `s` and `t` outside `gone`. */
  lemma ReachKeptConnection(a1: ArcMap, a2: ArcMap, gone: set<nat>, s: nat, t: nat)
    requires ReachKept(a1, a2, gone) && s !in gone && t !in gone
    ensures t in Reached(a2, {s}) <==> t in Reached(a1, {s})
  {
    assert ReachedFrom(a2, s) == ReachedFrom(a1, s) - gone;
  }

  /** The arcs after the ISOLATOR split: erasing the direct arc `id` from `s` to `t` and
      adding `iso -> t` and `s -> iso` changes no other node's arcs, and gives `iso` one arc
      in and one arc out. */
  lemma IsolateDegrees(a: ArcMap, r: ArcMap, id: nat, s: nat, t: nat, iso: nat, head: nat)
    requires id in a && a[id].src == s && a[id].tgt == t && head !in a && head + 1 !in a && iso != s && iso != t
    requires forall k :: k in a ==> a[k].src != iso && a[k].tgt != iso
    requires r == Split(a, id, iso, head)
    ensures forall n :: n != s && n != t && n != iso ==> InArcs(r, n) == InArcs(a, n) && OutArcs(r, n) == OutArcs(a, n)
    ensures InArcs(r, iso) == {head + 1} && OutArcs(r, iso) == {head}
    ensures ArcsBetween(r, s, t) == ArcsBetween(a, s, t) - {id}
  {
  }
}
