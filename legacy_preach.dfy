/** The legacy single-file program: free functions over the digraph, its weight map and
    its two name maps, here taken together as a `Graph` whose arc keys it never uses. The
    steps that are written the same way in the newer graph class (dropping self-loops,
    collapsing elementary paths, the ISOLATOR split, the first cut, the sweep and the
    refinement) are that class's members and the cut-finding module's methods. */
module LegacyPreach {
  import opened Wrappers
  import opened Sums
  import opened Reach
  import opened Digraphs
  import opened Cuts
  import opened CutFinding
  import opened Graphs
  import LA = LegacyAlgebra

  /** `EdgeExists(g, source, target)`: searches the arcs leaving `source` for one into
      `target`. */
  method EdgeExists(g: Graph, source: nat, target: nat) returns (b: bool)
    ensures b <==> Linked(g.arcs, source, target)
  {
    var out := OutArcs(g.arcs, source);
    var todo := out;
    while todo != {}
      invariant todo <= out
      invariant forall id :: id in out - todo ==> g.arcs[id].tgt != target
      decreases |todo|
    {
      var id :| id in todo;
      if g.arcs[id].tgt == target {
        assert id in ArcsBetween(g.arcs, source, target);
        return true;
      }
      todo := todo - {id};
    }
    assert forall id :: id in ArcsBetween(g.arcs, source, target) ==> id in out;
    return false;
  }

  /** Adding an arc between two nodes that were not linked makes it the only arc between
      them and leaves every other pair's arcs as they were. */
  lemma BetweenAfterAdd(a: ArcMap, nid: nat, x: nat, y: nat, w: real)
    requires nid !in a && !Linked(a, x, y)
    ensures ArcsBetween(a[nid := Arc(x, y, w)], x, y) == {nid}
    ensures forall c: nat, d: nat :: (c, d) != (x, y) ==> ArcsBetween(a[nid := Arc(x, y, w)], c, d) == ArcsBetween(a, c, d)
  {
  }

  /** Every arc of `a0` is in `a`, unchanged. */
  ghost predicate Kept(a0: ArcMap, a: ArcMap)
  {
    forall id :: id in a0 ==> id in a && a[id] == a0[id]
  }

  lemma KeptTransitive(a: ArcMap, b: ArcMap, c: ArcMap)
    requires Kept(a, b) && Kept(b, c)
    ensures Kept(a, c)
  {
  }

  /** Every arc of `a` that `a0` does not have joins a pair that no arc of `a0` joins, and
      no other arc of `a` joins it. */
  ghost predicate AddedUnlinked(a0: ArcMap, a: ArcMap)
  {
    forall id :: id in a && id !in a0 ==>
      ArcsBetween(a, a[id].src, a[id].tgt) == {id} && !Linked(a0, a[id].src, a[id].tgt)
  }

  /** Adding an arc between a pair no arc joins keeps the added arcs unlinked before. */
  lemma AddKeepsUnlinked(a0: ArcMap, a: ArcMap, nid: nat, x: nat, y: nat, w: real)
    requires Kept(a0, a) && AddedUnlinked(a0, a) && nid !in a && !Linked(a, x, y)
    ensures Kept(a0, a[nid := Arc(x, y, w)]) && AddedUnlinked(a0, a[nid := Arc(x, y, w)])
  {
    var r := a[nid := Arc(x, y, w)];
    BetweenAfterAdd(a, nid, x, y, w);
    forall id | id in r && id !in a0
      ensures ArcsBetween(r, r[id].src, r[id].tgt) == {id} && !Linked(a0, r[id].src, r[id].tgt)
    {
      if id != nid {
        assert id in ArcsBetween(a, a[id].src, a[id].tgt);
      } else if Linked(a0, x, y) {
        LinkedKept(a0, a, x, y);
      }
    }
  }

  /** Two rounds of additions between unlinked pairs are one such round. */
  lemma AddedUnlinkedCompose(a1: ArcMap, a2: ArcMap, a3: ArcMap)
    requires Kept(a1, a2) && Kept(a2, a3) && AddedUnlinked(a1, a2) && AddedUnlinked(a2, a3)
    ensures Kept(a1, a3) && AddedUnlinked(a1, a3)
  {
    forall id | id in a3 && id !in a1
      ensures ArcsBetween(a3, a3[id].src, a3[id].tgt) == {id} && !Linked(a1, a3[id].src, a3[id].tgt)
    {
      var x, y := a3[id].src, a3[id].tgt;
      if id in a2 {
        assert ArcsBetween(a2, x, y) == {id};
        forall j | j in ArcsBetween(a3, x, y)
          ensures j == id
        {
          assert id in ArcsBetween(a3, x, y);
          if j in a2 {
            assert j in ArcsBetween(a2, x, y);
          }
        }
      } else if Linked(a1, x, y) {
        LinkedKept(a1, a2, x, y);
      }
    }
  }

  /** Additions between unlinked pairs keep a digraph simple: no two arcs join the same
      pair. */
  lemma SimpleAdded(a0: ArcMap, a: ArcMap)
    requires Kept(a0, a) && AddedUnlinked(a0, a)
    ensures Simple(a0) ==> Simple(a)
  {
    if Simple(a0) {
      forall j, k | j in a && k in a && a[j].src == a[k].src && a[j].tgt == a[k].tgt
        ensures j == k
      {
        var x, y := a[j].src, a[j].tgt;
        assert j in ArcsBetween(a, x, y) && k in ArcsBetween(a, x, y);
        assert j in a0 ==> j in ArcsBetween(a0, x, y);
        assert k in a0 ==> k in ArcsBetween(a0, x, y);
      }
    }
  }

  /** The arcs `UnifyTerminals` may add: weight 1.0, from the SOURCE node to a node named
      in `sources` or from a node named in `targets` to the SINK node. */
  ghost predicate TerminalArc(g: Graph, sources: seq<string>, targets: seq<string>, id: nat)
    reads g
    requires id in g.arcs && SOURCE in g.nodeOf && SINK in g.nodeOf
  {
    var arc := g.arcs[id];
    arc.w == 1.0
    && ((arc.src == g.nodeOf[SOURCE] && NameOf(g.names, arc.tgt) in sources)
        || (NameOf(g.names, arc.src) in targets && arc.tgt == g.nodeOf[SINK]))
  }

  /** `UnifyTerminals(g, ..., sourcesFile, targetsFile)` on the two lists read: the SOURCE
      and SINK nodes are found or created, then every source is linked from SOURCE and
      every target to SINK by an arc of weight 1.0 unless some arc already joins them.
      Afterwards each such pair is joined, every arc added is the only one joining a pair
      that no arc joined before, and no other arc changes. */
  method UnifyTerminals(g: Graph, sources: seq<string>, targets: seq<string>)
    requires g.Valid() && g.NamesLive()
    modifies g
    ensures g.Valid() && g.NamesLive()
    ensures SOURCE in g.nodeOf && SINK in g.nodeOf
    ensures forall k :: k in old(g.nodeOf) ==> k in g.nodeOf && g.nodeOf[k] == old(g.nodeOf)[k]
    ensures AllLinked(g.arcs, g.nodeOf, g.nodeOf[SOURCE], sources, |sources|, false)
    ensures AllLinked(g.arcs, g.nodeOf, g.nodeOf[SINK], targets, |targets|, true)
    ensures Kept(old(g.arcs), g.arcs) && AddedUnlinked(old(g.arcs), g.arcs)
    ensures forall id :: id in g.arcs && id !in old(g.arcs) ==> TerminalArc(g, sources, targets, id)
    ensures Probabilities(old(g.arcs)) ==> Probabilities(g.arcs)
    ensures g.nextNode <= old(g.nextNode) + 2 + |sources| + |targets|
    ensures g.keys == old(g.keys) && g.cuts == old(g.cuts)
  {
    var source := g.GetNode(SOURCE);
    var sink := g.GetNode(SINK);
    ghost var a1 := g.arcs;
    LinkSources(g, source, sources);
    ghost var a2 := g.arcs;
    LinkTargets(g, sink, targets);
    AddedUnlinkedCompose(a1, a2, g.arcs);
    AllLinkedKept(a2, g.arcs, g.nodeOf, g.nodeOf, source, sources, |sources|, false);
  }

  /** The body of both loops of `UnifyTerminals` once the node is found: an arc of weight
      1.0 from `x` to `y` unless `EdgeExists` finds one. */
  method LinkPair(g: Graph, ghost a0: ArcMap, x: nat, y: nat)
    requires g.Valid() && x in g.nodes && y in g.nodes && Kept(a0, g.arcs) && AddedUnlinked(a0, g.arcs)
    modifies g
    ensures g.Valid() && Linked(g.arcs, x, y)
    ensures Kept(old(g.arcs), g.arcs) && Kept(a0, g.arcs) && AddedUnlinked(a0, g.arcs)
    ensures forall id :: id in g.arcs && id !in old(g.arcs) ==> g.arcs[id] == Arc(x, y, 1.0)
    ensures g.nodes == old(g.nodes) && g.names == old(g.names) && g.nodeOf == old(g.nodeOf)
    ensures g.nextNode == old(g.nextNode) && g.keys == old(g.keys) && g.cuts == old(g.cuts)
  {
    var linked := EdgeExists(g, x, y);
    if !linked {
      ghost var a := g.arcs;
      g.AddArc(x, y, 1.0);
      AddKeepsUnlinked(a0, a, g.nextArc - 1, x, y, 1.0);
      BetweenAfterAdd(a, g.nextArc - 1, x, y, 1.0);
    }
  }

  /** Each of the first `n` names of `ns` is indexed, and an arc joins `x` to its node
      (`toward` false) or its node to `x` (`toward` true). */
  ghost predicate AllLinked(arcs: ArcMap, nodeOf: map<string, nat>, x: nat, ns: seq<string>, n: nat, toward: bool)
    requires n <= |ns|
  {
    forall j :: 0 <= j < n ==>
      ns[j] in nodeOf && (if toward then Linked(arcs, nodeOf[ns[j]], x) else Linked(arcs, x, nodeOf[ns[j]]))
  }

  /** Keeping every link and every index entry keeps `AllLinked`. */
  lemma AllLinkedKept(a: ArcMap, b: ArcMap, of1: map<string, nat>, of2: map<string, nat>, x: nat, ns: seq<string>, n: nat, toward: bool)
    requires n <= |ns| && AllLinked(a, of1, x, ns, n, toward)
    requires Kept(a, b)
    requires forall k :: k in of1 ==> k in of2 && of2[k] == of1[k]
    ensures AllLinked(b, of2, x, ns, n, toward)
  {
    forall j | 0 <= j < n
      ensures ns[j] in of2 && (if toward then Linked(b, of2[ns[j]], x) else Linked(b, x, of2[ns[j]]))
    {
      assert ns[j] in of1 && (if toward then Linked(a, of1[ns[j]], x) else Linked(a, x, of1[ns[j]]));
      if toward {
        LinkedKept(a, b, of1[ns[j]], x);
      } else {
        LinkedKept(a, b, x, of1[ns[j]]);
      }
    }
  }

  /** One more linked name extends `AllLinked`. */
  lemma AllLinkedExtend(a: ArcMap, of: map<string, nat>, x: nat, ns: seq<string>, n: nat, toward: bool)
    requires n < |ns| && AllLinked(a, of, x, ns, n, toward) && ns[n] in of
    requires if toward then Linked(a, of[ns[n]], x) else Linked(a, x, of[ns[n]])
    ensures AllLinked(a, of, x, ns, n + 1, toward)
  {
  }

  /** The first loop of `UnifyTerminals`: every source found or created and linked from
      `source` unless already linked. */
  method LinkSources(g: Graph, source: nat, sources: seq<string>)
    requires g.Valid() && g.NamesLive() && SOURCE in g.nodeOf && g.nodeOf[SOURCE] == source
    modifies g
    ensures g.Valid() && g.NamesLive() && SOURCE in g.nodeOf && g.nodeOf[SOURCE] == source
    ensures forall k :: k in old(g.nodeOf) ==> k in g.nodeOf && g.nodeOf[k] == old(g.nodeOf)[k]
    ensures forall n :: n in old(g.names) ==> n in g.names && g.names[n] == old(g.names)[n]
    ensures AllLinked(g.arcs, g.nodeOf, source, sources, |sources|, false)
    ensures Kept(old(g.arcs), g.arcs) && AddedUnlinked(old(g.arcs), g.arcs)
    ensures forall id :: id in g.arcs && id !in old(g.arcs) ==>
              g.arcs[id].w == 1.0 && g.arcs[id].src == source && NameOf(g.names, g.arcs[id].tgt) in sources
    ensures g.nextNode <= old(g.nextNode) + |sources|
    ensures g.keys == old(g.keys) && g.cuts == old(g.cuts)
  {
    for i := 0 to |sources|
      invariant g.Valid() && g.NamesLive() && SOURCE in g.nodeOf && g.nodeOf[SOURCE] == source
      invariant forall k :: k in old(g.nodeOf) ==> k in g.nodeOf && g.nodeOf[k] == old(g.nodeOf)[k]
      invariant forall n :: n in old(g.names) ==> n in g.names && g.names[n] == old(g.names)[n]
      invariant AllLinked(g.arcs, g.nodeOf, source, sources, i, false)
      invariant Kept(old(g.arcs), g.arcs)
      invariant AddedUnlinked(old(g.arcs), g.arcs)
      invariant forall id :: id in g.arcs && id !in old(g.arcs) ==>
                  g.arcs[id].w == 1.0 && g.arcs[id].src == source && NameOf(g.names, g.arcs[id].tgt) in sources
      invariant g.nextNode <= old(g.nextNode) + i
      invariant g.keys == old(g.keys) && g.cuts == old(g.cuts)
    {
      ghost var a, of := g.arcs, g.nodeOf;
      var node := g.GetNode(sources[i]);
      assert NameOf(g.names, node) in sources by {
        assert NameOf(g.names, node) == sources[i];
      }
      ghost var b := g.arcs;
      LinkPair(g, old(g.arcs), source, node);
      KeptTransitive(old(g.arcs), b, g.arcs);
      assert forall id :: id in g.arcs && id !in old(g.arcs) ==> id in b || g.arcs[id] == Arc(source, node, 1.0);
      AllLinkedKept(a, g.arcs, of, g.nodeOf, source, sources, i, false);
      AllLinkedExtend(g.arcs, g.nodeOf, source, sources, i, false);
    }
  }

  /** The second loop of `UnifyTerminals`: every target found or created and linked to
      `sink` unless already linked. */
  method LinkTargets(g: Graph, sink: nat, targets: seq<string>)
    requires g.Valid() && g.NamesLive() && SINK in g.nodeOf && g.nodeOf[SINK] == sink
    modifies g
    ensures g.Valid() && g.NamesLive() && SINK in g.nodeOf && g.nodeOf[SINK] == sink
    ensures forall k :: k in old(g.nodeOf) ==> k in g.nodeOf && g.nodeOf[k] == old(g.nodeOf)[k]
    ensures forall n :: n in old(g.names) ==> n in g.names && g.names[n] == old(g.names)[n]
    ensures AllLinked(g.arcs, g.nodeOf, sink, targets, |targets|, true)
    ensures Kept(old(g.arcs), g.arcs) && AddedUnlinked(old(g.arcs), g.arcs)
    ensures forall id :: id in g.arcs && id !in old(g.arcs) ==>
              g.arcs[id].w == 1.0 && g.arcs[id].tgt == sink && NameOf(g.names, g.arcs[id].src) in targets
    ensures g.nextNode <= old(g.nextNode) + |targets|
    ensures g.keys == old(g.keys) && g.cuts == old(g.cuts)
  {
    for i := 0 to |targets|
      invariant g.Valid() && g.NamesLive() && SINK in g.nodeOf && g.nodeOf[SINK] == sink
      invariant forall k :: k in old(g.nodeOf) ==> k in g.nodeOf && g.nodeOf[k] == old(g.nodeOf)[k]
      invariant forall n :: n in old(g.names) ==> n in g.names && g.names[n] == old(g.names)[n]
      invariant AllLinked(g.arcs, g.nodeOf, sink, targets, i, true)
      invariant Kept(old(g.arcs), g.arcs)
      invariant AddedUnlinked(old(g.arcs), g.arcs)
      invariant forall id :: id in g.arcs && id !in old(g.arcs) ==>
                  g.arcs[id].w == 1.0 && g.arcs[id].tgt == sink && NameOf(g.names, g.arcs[id].src) in targets
      invariant g.nextNode <= old(g.nextNode) + i
      invariant g.keys == old(g.keys) && g.cuts == old(g.cuts)
    {
      ghost var a, of := g.arcs, g.nodeOf;
      var node := g.GetNode(targets[i]);
      assert NameOf(g.names, node) in targets by {
        assert NameOf(g.names, node) == targets[i];
      }
      ghost var b := g.arcs;
      LinkPair(g, old(g.arcs), node, sink);
      KeptTransitive(old(g.arcs), b, g.arcs);
      assert forall id :: id in g.arcs && id !in old(g.arcs) ==> id in b || g.arcs[id] == Arc(node, sink, 1.0);
      AllLinkedKept(a, g.arcs, of, g.nodeOf, sink, targets, i, true);
      AllLinkedExtend(g.arcs, g.nodeOf, sink, targets, i, true);
    }
  }

  /** The collecting loop of `RemoveIsolatedNodes`: in id order, every live node other
      than `s` and `t` that the two searches did not both find. */
  method CollectBad(nodes: set<nat>, next: nat, live: set<nat>, s: nat, t: nat) returns (bad: seq<nat>)
    ensures forall n :: n in bad <==> n in nodes && n < next && n != s && n != t && n !in live
    ensures forall i, j :: 0 <= i < j < |bad| ==> bad[i] < bad[j]
  {
    bad := [];
    for n: nat := 0 to next
      invariant forall m :: m in bad <==> m in nodes && m < n && m != s && m != t && m !in live
      invariant forall i, j :: 0 <= i < j < |bad| ==> bad[i] < bad[j]
      invariant forall i :: 0 <= i < |bad| ==> bad[i] < n
    {
      if n in nodes && n != s && n != t && n !in live {
        bad := bad + [n];
      }
    }
  }

  /** The erasing loop of `RemoveIsolatedNodes`: every node of `bad` erased, with the arcs
      that touch it. */
  method EraseNodes(ns0: set<nat>, rs0: ArcMap, bad: seq<nat>) returns (ns: set<nat>, rs: ArcMap)
    ensures ns == ns0 - Prefix(bad, |bad|) && rs == WithoutNodes(rs0, Prefix(bad, |bad|))
  {
    ns, rs := ns0, rs0;
    for i := 0 to |bad|
      invariant ns == ns0 - Prefix(bad, i) && rs == WithoutNodes(rs0, Prefix(bad, i))
    {
      WithoutNodesUnion(rs0, Prefix(bad, i), {bad[i]});
      assert Prefix(bad, i + 1) == Prefix(bad, i) + {bad[i]};
      ns := ns - {bad[i]};
      rs := WithoutNodes(rs, {bad[i]});
    }
  }

  /** The two loops of `RemoveIsolatedNodes` on the digraph's values, given the nodes both
      searches found: the live nodes other than `s` and `t` outside `live` erased, with
      their arcs. */
  method PruneOffPath(nodes: set<nat>, arcs: ArcMap, ghost names: map<nat, string>, ghost nodeOf: map<string, nat>,
                      nextNode: nat, ghost nextArc: nat, live: set<nat>, s: nat, t: nat)
    returns (ns: set<nat>, rs: ArcMap)
    requires Wellformed(nodes, arcs, names, nodeOf, nextNode, nextArc)
    requires live == nodes * OnPath(arcs, s, t) && s in nodes
    ensures Wellformed(ns, rs, names, nodeOf, nextNode, nextArc)
    ensures ns == nodes * (OnPath(arcs, s, t) + {s, t}) && rs == WithoutNodes(arcs, nodes - ns)
    ensures t in Reached(rs, {s}) <==> t in Reached(arcs, {s})
  {
    var bad := CollectBad(nodes, nextNode, live, s, t);
    ns, rs := EraseNodes(nodes, arcs, bad);
    ghost var dead := Prefix(bad, |bad|);
    BadIsOffPath(nodes, arcs, nextNode, live, s, t, bad);
    assert ns == nodes * (OnPath(arcs, s, t) + {s, t}) && nodes - ns == dead;
    WithoutWellformed(nodes, arcs, names, nodeOf, nextNode, nextArc, dead);
    assert s !in dead && dead * OnPath(arcs, s, t) == {};
    RemovingOffPathKeepsConnection(arcs, dead, s, t);
  }

  /** The nodes collected are the live nodes, other than `s` and `t`, on no path from `s`
      to `t`. */
  lemma BadIsOffPath(nodes: set<nat>, arcs: ArcMap, nextNode: nat, live: set<nat>, s: nat, t: nat, bad: seq<nat>)
    requires forall n :: n in nodes ==> n < nextNode
    requires live == nodes * OnPath(arcs, s, t)
    requires forall n :: n in bad <==> n in nodes && n < nextNode && n != s && n != t && n !in live
    ensures Prefix(bad, |bad|) == nodes - (OnPath(arcs, s, t) + {s, t})
  {
    forall n | n in Prefix(bad, |bad|) ensures n in bad {
      var k :| 0 <= k < |bad| && bad[k] == n;
    }
    forall n | n in bad ensures n in Prefix(bad, |bad|) {
      var k :| 0 <= k < |bad| && bad[k] == n;
    }
  }

  /** Erasing live nodes with their arcs keeps a digraph well-formed. */
  lemma WithoutWellformed(nodes: set<nat>, arcs: ArcMap, names: map<nat, string>, nodeOf: map<string, nat>,
                          nextNode: nat, nextArc: nat, dead: set<nat>)
    requires Wellformed(nodes, arcs, names, nodeOf, nextNode, nextArc)
    ensures Wellformed(nodes - dead, WithoutNodes(arcs, dead), names, nodeOf, nextNode, nextArc)
  {
  }

  /** `n` and `a` are `n0` and `a0` without the nodes, other than `s` and `t`, on no path
      from `s` to `t`. */
  ghost predicate OffPathErased(n0: set<nat>, a0: ArcMap, n: set<nat>, a: ArcMap, s: nat, t: nat)
  {
    n == n0 * (OnPath(a0, s, t) + {s, t}) && a == WithoutNodes(a0, n0 - n)
  }

  /** `RemoveIsolatedNodes(g, nodeMap)`: a forward search from the SOURCE node, a search
      from the SINK node on the reversed graph, which is then reversed back, and every
      live node other than those two that is not on a path between them erased with its
      arcs. The name maps are left as they are, so erased nodes keep their entries; the
      SINK node stays reachable from the SOURCE node exactly when it was. */
  method RemoveIsolatedNodes(g: Graph)
    requires g.Valid() && g.NamesLive() && SOURCE in g.nodeOf && SINK in g.nodeOf && g.nextNode <= NUM_NODES
    modifies g
    ensures g.Valid() && SOURCE in g.nodeOf && SINK in g.nodeOf
    ensures OffPathErased(old(g.nodes), old(g.arcs), g.nodes, g.arcs, g.nodeOf[SOURCE], g.nodeOf[SINK])
    ensures g.nodeOf[SOURCE] in g.nodes && g.nodeOf[SINK] in g.nodes && g.nodes <= old(g.nodes)
    ensures g.nodeOf[SINK] in Reached(g.arcs, {g.nodeOf[SOURCE]}) <==> g.nodeOf[SINK] in Reached(old(g.arcs), {g.nodeOf[SOURCE]})
    ensures g.names == old(g.names) && g.nodeOf == old(g.nodeOf) && g.keys == old(g.keys) && g.cuts == old(g.cuts)
    ensures g.nextNode == old(g.nextNode) && g.nextArc == old(g.nextArc)
  {
    var s, t := g.nodeOf[SOURCE], g.nodeOf[SINK];
    var live := g.OnPathNodes();
    var ns, rs := PruneOffPath(g.nodes, g.arcs, g.names, g.nodeOf, g.nextNode, g.nextArc, live, s, t);
    g.SetDigraph(ns, rs, g.nextArc);
  }

  /** The `pre` block of `Preprocess`: `RemoveIsolatedNodes`, `CollapseELementaryPaths`,
      `RemoveSelfCycles`. Both terminal nodes survive, no self-loop and no elementary node
      is left, and the SINK node stays reachable from the SOURCE node exactly when it was. */
  method Reduce(g: Graph) returns (ghost passes: seq<seq<nat>>)
    requires g.Valid() && g.NamesLive() && SOURCE in g.nodeOf && SINK in g.nodeOf && g.nextNode <= NUM_NODES
    modifies g
    ensures g.Valid()
    ensures LoopFree(g.arcs) && NoElementary(g.arcs, g.nodes, g.names)
    ensures g.nodeOf == old(g.nodeOf) && g.nodeOf[SOURCE] in g.nodes && g.nodeOf[SINK] in g.nodes
    ensures g.nodes <= old(g.nodes)
    ensures g.nodeOf[SINK] in Reached(g.arcs, {g.nodeOf[SOURCE]}) <==> g.nodeOf[SINK] in Reached(old(g.arcs), {g.nodeOf[SOURCE]})
    ensures Probabilities(old(g.arcs)) ==> Probabilities(g.arcs)
    ensures Simple(old(g.arcs)) ==> Simple(g.arcs)
    ensures g.keys == old(g.keys) && g.cuts == old(g.cuts)
    ensures Simple(old(g.arcs)) ==>
              var s, t := old(g.nodeOf)[SOURCE], old(g.nodeOf)[SINK];
              var live := old(g.nodes) * (OnPath(old(g.arcs), s, t) + {s, t});
              var pruned := WithoutNodes(old(g.arcs), old(g.nodes) - live);
              CollapseRun(pruned, live, old(g.names), old(g.nextArc), passes)
              && (g.arcs, g.nodes, g.nextArc) == Collapsed(pruned, live, old(g.nextArc), passes)
  {
    var s, t := g.nodeOf[SOURCE], g.nodeOf[SINK];
    RemoveIsolatedNodes(g);
    SubArcs(old(g.arcs), g.arcs);
    ghost var a1, ns1 := g.arcs, g.nodes;
    assert s in TerminalNodes(g.names, g.nodes) && t in TerminalNodes(g.names, g.nodes);
    passes := g.CollapseElementaryPaths();
    ReachKeptConnection(a1, g.arcs, ns1 - g.nodes, s, t);
    WithoutLoopsIdempotent(g.arcs);
    ghost var a2 := g.arcs;
    g.RemoveSelfCycles();
    SubArcs(a2, g.arcs);
  }

  /** `Preprocess(g, ..., sourcesFile, targetsFile, pre)` on the two lists read: unifies
      the terminals (giving the arcs `unified`), reduces the graph when `pre` asks for it
      (giving the digraph `reduced`), and splits a direct SOURCE-to-SINK arc `id` of
      `reduced` with an ISOLATOR node. The SINK node is reachable from the SOURCE node
      exactly when it was after unification, and when no two arcs of the input joined the
      same pair no arc from the SOURCE node to the SINK node is left. */
  method Preprocess(g: Graph, sources: seq<string>, targets: seq<string>, pre: string)
    returns (ghost unified: ArcMap, ghost reduced: Snapshot, ghost id: nat)
    requires g.Valid() && g.NamesLive()
    requires pre == PRE_YES ==> g.nextNode + 2 + |sources| + |targets| <= NUM_NODES
    modifies g
    ensures g.Valid()
    ensures SOURCE in g.nodeOf && SINK in g.nodeOf && g.nodeOf[SOURCE] in g.nodes && g.nodeOf[SINK] in g.nodes
    ensures Kept(old(g.arcs), unified) && AddedUnlinked(old(g.arcs), unified)
    ensures pre != PRE_YES ==> reduced.arcs == unified
    ensures SOURCE in reduced.nodeOf && SINK in reduced.nodeOf
    ensures SplitApplied(reduced.nodes, reduced.arcs, reduced.names, reduced.nodeOf, reduced.nextNode, reduced.nextArc,
                         id, g.nodes, g.arcs, g.names, g.nodeOf, g.nextNode, g.nextArc)
    ensures g.nodeOf[SINK] in Reached(g.arcs, {g.nodeOf[SOURCE]}) <==> g.nodeOf[SINK] in Reached(unified, {g.nodeOf[SOURCE]})
    ensures Simple(old(g.arcs)) ==> ArcsBetween(g.arcs, g.nodeOf[SOURCE], g.nodeOf[SINK]) == {}
    ensures pre == PRE_YES ==>
              LoopFree(g.arcs) && forall n :: n in g.nodes && Elementary(g.arcs, g.names, n) ==> g.names[n] == ISOLATOR
    ensures Probabilities(old(g.arcs)) ==> Probabilities(g.arcs)
    ensures g.keys == old(g.keys) && g.cuts == old(g.cuts)
  {
    ghost var simple := Simple(g.arcs);
    UnifyTerminals(g, sources, targets);
    unified := g.arcs;
    SimpleAdded(old(g.arcs), g.arcs);
    if pre == PRE_YES {
      ghost var passes;
      passes := Reduce(g);
    }
    ghost var ns1, a1, nm1 := g.nodes, g.arcs, g.names;
    reduced := Snapshot(g.nodes, g.arcs, g.names, g.nodeOf, g.nextNode, g.nextArc);
    if simple {
      SimpleBetween(g.arcs, g.nodeOf[SOURCE], g.nodeOf[SINK]);
    }
    id := g.Isolate();
    if pre == PRE_YES {
      OnlyIsolatorElementary(ns1, a1, nm1, g.nodes, g.arcs, g.names);
    }
  }

  /** Splitting a direct arc of a graph without elementary nodes leaves the ISOLATOR node
      the only elementary one. */
  lemma OnlyIsolatorElementary(ns1: set<nat>, a1: ArcMap, nm1: map<nat, string>,
                               ns: set<nat>, a: ArcMap, nm: map<nat, string>)
    requires NoElementary(a1, ns1, nm1) && ns <= nm.Keys
    requires forall n :: n in ns1 ==> (Elementary(a, nm, n) <==> Elementary(a1, nm1, n))
    requires forall n :: n in ns - ns1 ==> nm[n] == ISOLATOR
    ensures forall n :: n in ns && Elementary(a, nm, n) ==> nm[n] == ISOLATOR
  {
  }

  /** `FindSomeGoodCuts(g, source, target, cuts)`: the first cut; when its middle is empty
      (the sentinel for an arc from `source` to `target`, or a source without successors)
      `cuts` is returned as it is. Otherwise the first cut and the cuts of the sweep, whose
      right sides strictly shrink, are appended to `cuts`, and the whole list is refined:
      good cuts, no middle within another, no more of them than went in, and on a
      loop-free graph where `target` has no outgoing arc, partitions with `source` on the
      left and `target` on the right whenever the old cuts were. In that case `swept` is
      the sweep from the first cut, and the result is what `Refine` makes of `cuts`
      followed by `swept`. */
  method FindSomeGoodCuts(g: Graph, source: nat, target: nat, cuts: seq<Cut>)
    returns (r: seq<Cut>, ghost swept: seq<Cut>, ghost idx: seq<nat>)
    requires g.Valid() && g.nextNode <= NUM_NODES && source < NUM_NODES
    ensures target in Succ(g.arcs, {source}) || Succ(g.arcs, {source}) == {} ==> r == cuts
    ensures target !in Succ(g.arcs, {source}) && Succ(g.arcs, {source}) != {} ==>
              (forall k :: 0 <= k < |r| ==> Refined(g.arcs, r[k]))
              && (forall p, q :: 0 <= p < q < |r| ==> Incomparable(r[p], r[q]))
              && SweptFrom(g.arcs, target, FirstCutOf(g.arcs, g.nodes, source), swept)
              && RedundantDropped(GrownShrunk(g.arcs, cuts + swept), r, idx)
    ensures target !in Succ(g.arcs, {source}) && LoopFree(g.arcs) && source in g.nodes && target in g.nodes
            && source != target && OutArcs(g.arcs, target) == {}
            && (forall k :: 0 <= k < |cuts| ==> Shaped(cuts[k], g.nodes, source, target)) ==>
              forall k :: 0 <= k < |r| ==> Shaped(r[k], g.nodes, source, target)
    ensures (forall k :: 0 <= k < |cuts| ==> cuts[k].covered <= g.arcs.Keys) ==>
              forall k :: 0 <= k < |r| ==> r[k].covered <= g.arcs.Keys
  {
    var first := FirstCut(g.arcs, g.nodes, source, target);
    if first.middle == {} {
      r, swept, idx := cuts, [], [];
      return;
    }
    assert first == FirstCutOf(g.arcs, g.nodes, source);
    var cs := Sweep(g.arcs, g.nodes, source, target, first);
    swept := cs;
    if LoopFree(g.arcs) && source in g.nodes && target in g.nodes && source != target {
      assert source !in Succ(g.arcs, {source});
      FirstCutShaped(g.arcs, g.nodes, source, target);
    }
    r, idx := Refine(g.arcs, g.nodes, source, target, cuts + cs);
  }

  /** The terminal table `ConsumeSausage` builds: the source and target of every arc of
      the sausage. */
  method SausageTerminals(g: Graph, sausage: set<nat>) returns (t: TerminalMap)
    requires sausage <= g.arcs.Keys && Fits(sausage, LA.MAX_EDGES)
    ensures t.Keys == sausage
    ensures forall e :: e in t ==> t[e] == Terminals(g.arcs[e].src, g.arcs[e].tgt)
  {
    t := map[];
    for e := 0 to LA.MAX_EDGES
      invariant forall d :: d in t <==> d in sausage && d < e
      invariant forall d :: d in t ==> t[d] == Terminals(g.arcs[d].src, g.arcs[d].tgt)
    {
      if e in sausage {
        t := t[e := Terminals(g.arcs[e].src, g.arcs[e].tgt)];
      }
    }
  }

  /** The polynomial at the start of a sausage: no end term, live terms with no edge
      decided and coefficients at least 0 adding up to 1. */
  ghost predicate StageStart(poly: LA.Polynomial)
    reads poly
  {
    poly.Valid() && poly.endTerms == map[] && LA.Staged(poly.terms, {}) && Sum(poly.terms, LA.Coeff) == 1.0
  }

  /** `ConsumeSausage(g, wMap, poly, sausage, endNodes)`: the arcs of the sausage, in id
      order, each added to the polynomial with its weight and followed by a collapse onto
      `endNodes`; then the polynomial advances. Every live term has decided every arc of the
      sausage by the last collapse, so none is left and the advance succeeds, unless the
      sausage is empty, when the old live terms are still there and the advance fails. On
      success the live terms are the new end terms: distinct sets of end nodes, coefficients
      at least 0 adding up to 1. `added` lists the arcs added. */
  method ConsumeSausage(g: Graph, poly: LA.Polynomial, sausage: set<nat>, endNodes: set<nat>)
    returns (ok: bool, ghost added: seq<nat>)
    requires StageStart(poly)
    requires sausage <= g.arcs.Keys && Fits(sausage, LA.MAX_EDGES) && Probabilities(g.arcs)
    modifies poly
    ensures ok <==> sausage != {}
    ensures poly.Valid()
    ensures ok ==> StageStart(poly)
    ensures ok ==> forall i :: 0 <= i < |poly.terms| ==> poly.terms[i].z <= endNodes
    ensures ok ==> forall i, j :: 0 <= i < j < |poly.terms| ==> poly.terms[i].z != poly.terms[j].z
    ensures Ascending(added) && forall e :: e in added <==> e in sausage
  {
    var t := SausageTerminals(g, sausage);
    assert poly.terms != [];
    added := AddSausage(g, poly, sausage, endNodes, t);
    ghost var order;
    ok, order := poly.Advance();
  }

  /** The loop of `ConsumeSausage`: the arcs of the sausage, in id order, each added and
      followed by a collapse. The coefficients keep adding up to 1, and once the last arc
      is added no live term is left. */
  method AddSausage(g: Graph, poly: LA.Polynomial, sausage: set<nat>, endNodes: set<nat>, t: TerminalMap)
    returns (ghost added: seq<nat>)
    requires StageStart(poly) && t.Keys == sausage
    requires sausage <= g.arcs.Keys && Fits(sausage, LA.MAX_EDGES) && Probabilities(g.arcs)
    modifies poly
    ensures poly.Valid() && LA.EndsWithin(poly.endTerms, endNodes)
    ensures Sum(poly.terms, LA.Coeff) + MapSum(poly.endTerms, LA.Coeff) == 1.0
    ensures sausage != {} ==> poly.terms == []
    ensures sausage == {} ==> poly.terms == old(poly.terms) && poly.endTerms == map[]
    ensures Ascending(added) && forall e :: e in added <==> e in sausage
  {
    ghost var done: set<nat> := {};
    added := [];
    for e: nat := 0 to LA.MAX_EDGES
      invariant poly.Valid() && LA.Staged(poly.terms, done) && LA.EndsWithin(poly.endTerms, endNodes)
      invariant Sum(poly.terms, LA.Coeff) + MapSum(poly.endTerms, LA.Coeff) == 1.0
      invariant forall d :: d in done <==> d in sausage && d < e
      invariant done == sausage && sausage != {} ==> poly.terms == []
      invariant sausage == {} ==> poly.terms == old(poly.terms) && poly.endTerms == map[]
      invariant Ascending(added) && (forall d :: d in added <==> d in done)
      invariant forall k :: 0 <= k < |added| ==> added[k] < e
    {
      if e in sausage {
        AddOne(g, poly, e, sausage, endNodes, t, done);
        AscendingAppend(added, e);
        done := done + {e};
        added := added + [e];
      }
    }
    assert done == sausage;
  }

  /** The body of the loop of `ConsumeSausage` for arc `e`: added with its weight, then a
      collapse onto `endNodes`. */
  method AddOne(g: Graph, poly: LA.Polynomial, e: nat, sausage: set<nat>, endNodes: set<nat>, t: TerminalMap,
                ghost done: set<nat>)
    requires poly.Valid() && LA.Staged(poly.terms, done) && LA.EndsWithin(poly.endTerms, endNodes)
    requires Sum(poly.terms, LA.Coeff) + MapSum(poly.endTerms, LA.Coeff) == 1.0
    requires e in sausage && e !in done && done <= sausage && t.Keys == sausage
    requires sausage <= g.arcs.Keys && Fits(sausage, LA.MAX_EDGES) && Probabilities(g.arcs)
    modifies poly
    ensures poly.Valid() && LA.Staged(poly.terms, done + {e}) && LA.EndsWithin(poly.endTerms, endNodes)
    ensures Sum(poly.terms, LA.Coeff) + MapSum(poly.endTerms, LA.Coeff) == 1.0
    ensures done + {e} == sausage ==> poly.terms == []
  {
    LA.SplitStaged(poly.terms, done, e, g.arcs[e].w);
    poly.AddEdge(e, g.arcs[e].w);
    LA.CollapseStaged(poly.terms, poly.endTerms, sausage, endNodes, t, done + {e});
    poly.Collapse(sausage, t, endNodes);
  }

  /** `EdgesAsBitset(g, edges)`: the ids of all arcs, as an edge bitset. */
  method EdgesAsBitset(g: Graph) returns (edges: set<nat>)
    requires g.Valid()
    ensures edges == g.arcs.Keys
  {
    edges := {};
    for id := 0 to g.nextArc
      invariant forall k :: k in edges <==> k in g.arcs && k < id
    {
      if id in g.arcs {
        edges := edges + {id};
      }
    }
  }

  /** One pass of the loop of `Solve`: the arcs `next` covers that are not yet covered
      form the sausage, consumed onto `next`'s middle; `added` grows by the arcs added. */
  method ConsumeCut(g: Graph, poly: LA.Polynomial, next: Cut, covered: set<nat>, ghost added: seq<nat>)
    returns (ok: bool, ghost added': seq<nat>)
    requires g.Valid() && g.nextArc <= LA.MAX_EDGES && Probabilities(g.arcs) && StageStart(poly)
    requires covered <= g.arcs.Keys && next.covered <= g.arcs.Keys
    requires Distinct(added) && forall id :: id in added <==> id in covered
    modifies poly
    ensures ok <==> next.covered - covered != {}
    ensures ok ==> StageStart(poly)
    ensures ok ==> Distinct(added') && forall id :: id in added' <==> id in covered + (next.covered - covered)
  {
    var sausage := next.covered - covered;
    ghost var more;
    ok, more := ConsumeSausage(g, poly, sausage, next.middle);
    added' := added;
    if ok {
      DistinctAppend(added, more);
      added' := added + more;
    }
  }

  /** The end of `Solve`: the arcs not yet covered are consumed onto the SINK node and the
      result is read from the two terms left. */
  method ConsumeRest(g: Graph, poly: LA.Polynomial, covered: set<nat>, ghost added: seq<nat>)
    returns (r: Option<real>, ghost added': seq<nat>, ghost final: seq<LA.TermValue>)
    requires g.Valid() && SINK in g.nodeOf && g.nextArc <= LA.MAX_EDGES && Probabilities(g.arcs)
    requires StageStart(poly) && covered <= g.arcs.Keys
    requires Distinct(added) && forall id :: id in added <==> id in covered
    modifies poly
    ensures r.Some? ==> 0.0 <= r.value <= 1.0
    ensures r.Some? ==> |final| == 2 && exists i :: 0 <= i < 2 && final[i].z == {g.nodeOf[SINK]} && r.value == final[i].coeff
    ensures r.Some? ==> Distinct(added') && forall id :: id in added' <==> id in g.arcs
  {
    var all := EdgesAsBitset(g);
    var ok;
    ghost var more;
    ok, more := ConsumeSausage(g, poly, all - covered, {g.nodeOf[SINK]});
    if !ok {
      return None, added, poly.terms;
    }
    DistinctAppend(added, more);
    added' := added + more;
    final := poly.terms;
    r := poly.GetResult();
    if r.Some? {
      assert Sum(final, LA.Coeff) == final[0].coeff + final[1].coeff by {
        assert final[..1][..0] == [] && final[..1][0] == final[0];
        assert Sum(final[..1], LA.Coeff) == LA.Coeff(final[0]);
        assert Sum(final, LA.Coeff) == Sum(final[..1], LA.Coeff) + LA.Coeff(final[1]);
      }
    }
  }

  /** `Solve(g, wMap, nodeMap, cuts)`: a polynomial started from the SOURCE node with
      coefficient 1; while cuts are left, the first one is taken, its covered arcs not yet
      covered form the sausage consumed onto its middle, and the cuts whose middle meets its
      left side are dropped; last, the arcs still not covered are consumed onto the SINK
      node, and the answer is the polynomial's result. The program aborts on a failed
      assertion (a sausage with no arc, or a result that is not one of two terms); that is
      `None` here. An answer is the coefficient of the one final term that reaches the
      SINK node, between 0 and 1, after every arc was added exactly once. */
  method Solve(g: Graph, cuts: seq<Cut>) returns (r: Option<real>, ghost added: seq<nat>, ghost final: seq<LA.TermValue>)
    requires g.Valid() && SOURCE in g.nodeOf && SINK in g.nodeOf
    requires g.nextArc <= LA.MAX_EDGES && Probabilities(g.arcs)
    requires forall k :: 0 <= k < |cuts| ==> cuts[k].covered <= g.arcs.Keys
    ensures r.Some? ==> 0.0 <= r.value <= 1.0
    ensures r.Some? ==> |final| == 2 && exists i :: 0 <= i < 2 && final[i].z == {g.nodeOf[SINK]} && r.value == final[i].coeff
    ensures r.Some? ==> Distinct(added) && forall id :: id in added <==> id in g.arcs
  {
    var poly := new LA.Polynomial([LA.TermValue({g.nodeOf[SOURCE]}, {}, {}, {}, 1.0)]);
    assert Sum(poly.terms, LA.Coeff) == 1.0 by {
      assert poly.terms[..0] == [];
    }
    var covered: set<nat> := {};
    var rest := cuts;
    added := [];
    final := [];
    while |rest| > 0
      invariant fresh(poly) && StageStart(poly)
      invariant covered <= g.arcs.Keys
      invariant forall k :: 0 <= k < |rest| ==> rest[k].covered <= g.arcs.Keys
      invariant Distinct(added) && forall id :: id in added <==> id in covered
      decreases |rest|
    {
      var next := rest[0];
      rest := rest[1..];
      var ok;
      ghost var added';
      ok, added' := ConsumeCut(g, poly, next, covered, added);
      if !ok {
        return None, added, poly.terms;
      }
      covered := covered + (next.covered - covered);
      added := added';
      UnobsoletedMembers(rest, next.left);
      rest := RemoveObsolete(rest, next);
      assert forall k :: 0 <= k < |rest| ==> rest[k] in rest;
    }
    r, added, final := ConsumeRest(g, poly, covered, added);
  }
}
