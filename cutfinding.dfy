/** Cut discovery over a digraph: the first cut around the source, the sweep that steps from
    one cut to the next, and the refinement that turns cuts into good cuts. Both the
    `Graph` class and the legacy free functions run these steps on their own arcs. */
module CutFinding {
  import opened Reach
  import opened Digraphs
  import opened Cuts

  /** The cut partitions `nodes`, keeps `source` on the left and `sink` on the right. */
  predicate Shaped(c: Cut, nodes: set<nat>, source: nat, sink: nat)
  {
    Partitions(c, nodes) && source in c.left && sink in c.right
  }

  /** A good cut: no arc leaves the right side, and every middle node has a successor on
      the right. */
  predicate Refined(arcs: ArcMap, c: Cut)
  {
    SuccClosed(arcs, c.right) && c.middle <= Preds(arcs, c.right)
  }

  /** The cut `createFirstCut` builds when the sink is not a successor of the source:
      the source on the left, its successors in the middle, the other nodes on the
      right, covering the source's arcs and the middle's arcs that do not enter the right. */
  function FirstCutOf(arcs: ArcMap, nodes: set<nat>, source: nat): Cut
  {
    var middle := Succ(arcs, {source});
    var right := nodes - {source} - middle;
    Cut({source}, middle, right, ArcsFrom(arcs, {source}) + ArcsFromOutside(arcs, middle, right))
  }

  /** Without a self-loop on the source, the first cut is shaped: it partitions the nodes
      with the source on the left and, when the sink is no successor of the source, the
      sink on the right. */
  lemma FirstCutShaped(arcs: ArcMap, nodes: set<nat>, source: nat, sink: nat)
    requires ArcsWithin(arcs, nodes) && source in nodes && sink in nodes && sink != source
    requires source !in Succ(arcs, {source}) && sink !in Succ(arcs, {source})
    ensures Shaped(FirstCutOf(arcs, nodes, source), nodes, source, sink)
  {
  }

  /** `CreateFirstCut`: all nodes start on the right; the source moves to the left and each
      target of a source arc to the middle, the arc being covered. Meeting an arc into the
      sink abandons the cut and returns the sentinel `Cut()`. Finally the middle's arcs that
      do not enter the right are covered. The bitsets demand node ids below `NUM_NODES` and
      arc ids below `NUM_EDGES`. */
  method FirstCut(arcs: ArcMap, nodes: set<nat>, source: nat, sink: nat) returns (c: Cut)
    requires Fits(nodes, NUM_NODES) && source < NUM_NODES
    ensures sink in Succ(arcs, {source}) ==> c == Empty()
    ensures sink !in Succ(arcs, {source}) ==> c == FirstCutOf(arcs, nodes, source)
  {
    var out := ArcsFrom(arcs, {source});
    var left := {source};
    var right := nodes - {source};
    var middle := {};
    var covered := {};
    var pending := out;
    while pending != {}
      invariant pending <= out
      invariant covered == out - pending
      invariant middle == set id | id in out - pending :: arcs[id].tgt
      invariant right == nodes - {source} - middle
      invariant forall id :: id in out - pending ==> arcs[id].tgt != sink
      decreases |pending|
    {
      var id :| id in pending;
      if arcs[id].tgt == sink {
        return Empty();
      }
      covered := covered + {id};
      middle := middle + {arcs[id].tgt};
      right := right - {arcs[id].tgt};
      pending := pending - {id};
    }
    assert middle == Succ(arcs, {source});
    covered := covered + ArcsFromOutside(arcs, middle, right);
    c := Cut(left, middle, right, covered);
  }

  /** One middle node `n` of a sweep pass, on the cut `c` built so far: a node without an
      arc into the sink and with successors still on the right hands those successors over
      to the middle, covers its arcs to them and moves to the left; any other node changes
      nothing. */
  function SweepNode(arcs: ArcMap, sink: nat, c: Cut, n: nat): Cut
  {
    var succ := Succ(arcs, {n});
    var nextNodes := succ * c.right;
    if sink in succ || nextNodes == {} then c
    else
      Cut(c.left + {n}, (c.middle + nextNodes) - {n}, c.right - nextNodes,
          c.covered + (set id | id in arcs && arcs[id].src == n && arcs[id].tgt in c.right))
  }

  /** The cut a sweep pass over `cur` has built once it has visited the middle nodes of
      `cur` below `n`, in increasing id. */
  function SweepPrefix(arcs: ArcMap, sink: nat, cur: Cut, n: nat): Cut
  {
    if n == 0 then cur
    else
      var c := SweepPrefix(arcs, sink, cur, n - 1);
      if n - 1 in cur.middle then SweepNode(arcs, sink, c, n - 1) else c
  }

  /** One whole pass of the `while (added)` loop over `cur`: every middle node below
      `NUM_NODES` visited in turn and, when anything moved, the middle's arcs that do not
      enter the right covered as well. */
  function SweepStep(arcs: ArcMap, sink: nat, cur: Cut): Cut
  {
    var c := SweepPrefix(arcs, sink, cur, NUM_NODES);
    if c.right == cur.right then c
    else c.(covered := c.covered + ArcsFromOutside(arcs, c.middle, c.right))
  }

  /** One sweep over the middle of `cur`, in increasing node id: the loop builds exactly
      `SweepStep(arcs, sink, cur)`, and `added` reports that its right side shrank. The
      right side only shrinks and the left only grows, and a shaped cut stays shaped. */
  method SweepPass(arcs: ArcMap, ghost nodes: set<nat>, ghost source: nat, sink: nat, cur: Cut)
    returns (added: bool, next: Cut)
    requires Fits(cur.middle, NUM_NODES)
    ensures next.right <= cur.right && next.left >= cur.left
    ensures next.middle <= cur.middle + cur.right
    ensures added ==> next.right < cur.right
    ensures next == SweepStep(arcs, sink, cur) && (added <==> next.right != cur.right)
    ensures Shaped(cur, nodes, source, sink) ==> Shaped(next, nodes, source, sink)
    ensures cur.covered <= arcs.Keys ==> next.covered <= arcs.Keys
  {
    var left: set<nat>, middle: set<nat>, right: set<nat>, covered: set<nat> :=
      cur.left, cur.middle, cur.right, cur.covered;
    added := false;
    for n: nat := 0 to NUM_NODES
      invariant right <= cur.right && left >= cur.left
      invariant middle <= cur.middle + cur.right
      invariant added ==> right < cur.right
      invariant Cut(left, middle, right, covered) == SweepPrefix(arcs, sink, cur, n)
      invariant added <==> right != cur.right
      invariant forall m :: m in cur.middle && m >= n ==> m in middle
      invariant Shaped(cur, nodes, source, sink) ==> Shaped(Cut(left, middle, right, covered), nodes, source, sink)
      invariant cur.covered <= arcs.Keys ==> covered <= arcs.Keys
    {
      if n in cur.middle {
        var succ := Succ(arcs, {n});
        if sink !in succ {
          var nextNodes := succ * right;
          if nextNodes != {} {
            added := true;
            var nextArcs := set id | id in arcs && arcs[id].src == n && arcs[id].tgt in right;
            right := right - nextNodes;
            middle := (middle + nextNodes) - {n};
            covered := covered + nextArcs;
            left := left + {n};
          }
        }
      }
    }
    if added {
      covered := covered + ArcsFromOutside(arcs, middle, right);
    }
    next := Cut(left, middle, right, covered);
  }

  /** Appending the next cut of a pass that moved nodes keeps the facts `Sweep` records
      about its list of cuts. */
  lemma SweepAppend(arcs: ArcMap, nodes: set<nat>, source: nat, sink: nat, first: Cut, cs: seq<Cut>, next: Cut)
    requires |cs| >= 1 && cs[0] == first
    requires forall k :: 0 <= k < |cs| - 1 ==> cs[k + 1] == SweepStep(arcs, sink, cs[k])
    requires forall k :: 0 <= k < |cs| - 1 ==> cs[k + 1].right < cs[k].right && cs[k + 1].left >= cs[k].left
    requires Shaped(first, nodes, source, sink) ==> forall k :: 0 <= k < |cs| ==> Shaped(cs[k], nodes, source, sink)
    requires first.covered <= arcs.Keys ==> forall k :: 0 <= k < |cs| ==> cs[k].covered <= arcs.Keys
    requires next == SweepStep(arcs, sink, cs[|cs| - 1])
    requires next.right < cs[|cs| - 1].right && next.left >= cs[|cs| - 1].left
    requires Shaped(cs[|cs| - 1], nodes, source, sink) ==> Shaped(next, nodes, source, sink)
    requires cs[|cs| - 1].covered <= arcs.Keys ==> next.covered <= arcs.Keys
    ensures forall k :: 0 <= k < |cs + [next]| - 1 ==> (cs + [next])[k + 1] == SweepStep(arcs, sink, (cs + [next])[k])
    ensures forall k :: 0 <= k < |cs + [next]| - 1 ==>
              (cs + [next])[k + 1].right < (cs + [next])[k].right && (cs + [next])[k + 1].left >= (cs + [next])[k].left
    ensures Shaped(first, nodes, source, sink) ==> forall k :: 0 <= k < |cs + [next]| ==> Shaped((cs + [next])[k], nodes, source, sink)
    ensures first.covered <= arcs.Keys ==> forall k :: 0 <= k < |cs + [next]| ==> (cs + [next])[k].covered <= arcs.Keys
  {
  }

  /** The `while (added)` sweep of `FindSomeGoodCuts`, starting from `first`: each cut is
      one `SweepStep` from the one before, and the sweep stops at the first cut whose pass
      moves nothing. The right side strictly shrinks from one cut to the
      next, which ends the sweep, and a shaped first cut keeps every cut shaped (so the sink
      never enters a middle). */
  method Sweep(arcs: ArcMap, ghost nodes: set<nat>, ghost source: nat, sink: nat, first: Cut) returns (cs: seq<Cut>)
    requires Fits(nodes, NUM_NODES) && first.middle + first.right <= nodes
    ensures |cs| >= 1 && cs[0] == first
    ensures forall k :: 0 <= k < |cs| - 1 ==> cs[k + 1] == SweepStep(arcs, sink, cs[k])
    ensures SweepStep(arcs, sink, cs[|cs| - 1]).right == cs[|cs| - 1].right
    ensures forall k :: 0 <= k < |cs| - 1 ==> cs[k + 1].right < cs[k].right && cs[k + 1].left >= cs[k].left
    ensures Shaped(first, nodes, source, sink) ==> forall k :: 0 <= k < |cs| ==> Shaped(cs[k], nodes, source, sink)
    ensures first.covered <= arcs.Keys ==> forall k :: 0 <= k < |cs| ==> cs[k].covered <= arcs.Keys
  {
    var current := first;
    cs := [first];
    var added := true;
    while added
      invariant |cs| >= 1 && cs[0] == first && cs[|cs| - 1] == current
      invariant current.middle + current.right <= nodes
      invariant forall k :: 0 <= k < |cs| - 1 ==> cs[k + 1] == SweepStep(arcs, sink, cs[k])
      invariant !added ==> SweepStep(arcs, sink, current).right == current.right
      invariant forall k :: 0 <= k < |cs| - 1 ==> cs[k + 1].right < cs[k].right && cs[k + 1].left >= cs[k].left
      invariant Shaped(first, nodes, source, sink) ==> forall k :: 0 <= k < |cs| ==> Shaped(cs[k], nodes, source, sink)
      invariant first.covered <= arcs.Keys ==> forall k :: 0 <= k < |cs| ==> cs[k].covered <= arcs.Keys
      decreases |current.right|, added
    {
      var next;
      added, next := SweepPass(arcs, nodes, source, sink, current);
      if added {
        ProperSubsetCard(next.right, current.right);
        SweepAppend(arcs, nodes, source, sink, first, cs, next);
        cs := cs + [next];
        current := next;
      }
    }
  }

  /** `cs` is the sweep from `first`: it starts at `first`, each cut is one `SweepStep` from
      the one before with a strictly smaller right side, and the last cut's step moves
      nothing. */
  ghost predicate SweptFrom(arcs: ArcMap, sink: nat, first: Cut, cs: seq<Cut>)
  {
    |cs| >= 1 && cs[0] == first
    && (forall k :: 0 <= k < |cs| - 1 ==> cs[k + 1] == SweepStep(arcs, sink, cs[k]) && cs[k + 1].right < cs[k].right)
    && SweepStep(arcs, sink, cs[|cs| - 1]).right == cs[|cs| - 1].right
  }

  /** A sweep is the first cut alone exactly when that cut's step moves nothing. */
  lemma SweptFromHead(arcs: ArcMap, sink: nat, first: Cut, cs: seq<Cut>)
    requires SweptFrom(arcs, sink, first, cs)
    ensures |cs| == 1 <==> SweepStep(arcs, sink, first).right == first.right
  {
    if |cs| > 1 {
      assert cs[1] == SweepStep(arcs, sink, cs[0]) && cs[1].right < cs[0].right;
    }
  }

  /** The sweep from a cut is unique: two lists that are both sweeps from `first` are
      equal. */
  lemma {:induction false} SweptFromUnique(arcs: ArcMap, sink: nat, first: Cut, cs: seq<Cut>, ds: seq<Cut>)
    requires SweptFrom(arcs, sink, first, cs) && SweptFrom(arcs, sink, first, ds)
    ensures cs == ds
    decreases |cs|
  {
    SweptFromHead(arcs, sink, first, cs);
    SweptFromHead(arcs, sink, first, ds);
    if |cs| > 1 {
      var next := SweepStep(arcs, sink, first);
      assert cs[1] == next && ds[1] == next;
      SweptFromUnique(arcs, sink, next, cs[1..], ds[1..]);
      assert cs == [first] + cs[1..] && ds == [first] + ds[1..];
    } else {
      assert cs == [first] && ds == [first];
    }
  }

  /** A node of `right` that an arc leaves `right` from has a search reaching outside the
      original right side, given that every node already removed has one. */
  lemma EscapeStep(arcs: ArcMap, orig: set<nat>, right: set<nat>, n: nat)
    requires right <= orig
    requires forall m :: m in orig - right ==> !(Reached(arcs, {m}) <= orig)
    requires n in Leavers(arcs, right)
    ensures !(Reached(arcs, {n}) <= orig)
  {
    var id :| id in arcs && arcs[id].src in right && arcs[id].tgt !in right && arcs[id].src == n;
    var m := arcs[id].tgt;
    ReachedIsLeastClosed(arcs, {n}, {});
    assert m in Reached(arcs, {n});
    if m in orig {
      ReachedTransitive(arcs, {n}, m);
    }
  }

  /** Moving every leaver out of `right` keeps every removed node escaping `orig`. */
  lemma EscapeAll(arcs: ArcMap, orig: set<nat>, right: set<nat>)
    requires right <= orig
    requires forall m :: m in orig - right ==> !(Reached(arcs, {m}) <= orig)
    ensures forall m :: m in orig - (right - Leavers(arcs, right)) ==> !(Reached(arcs, {m}) <= orig)
  {
    forall n | n in Leavers(arcs, right)
      ensures !(Reached(arcs, {n}) <= orig)
    {
      EscapeStep(arcs, orig, right, n);
    }
  }

  /** Once no arc leaves `right`, it is closed and holds exactly the nodes of `orig` whose
      searches stay within `orig`. */
  lemma StaysWithin(arcs: ArcMap, right: set<nat>, orig: set<nat>)
    requires right <= orig && Leavers(arcs, right) == {}
    requires forall m :: m in orig - right ==> !(Reached(arcs, {m}) <= orig)
    ensures SuccClosed(arcs, right)
    ensures forall n :: n in right <==> n in orig && Reached(arcs, {n}) <= orig
  {
    forall id | id in arcs && arcs[id].src in right
      ensures arcs[id].tgt in right
    {
      assert arcs[id].src in Leavers(arcs, right) <==> arcs[id].tgt !in right;
    }
    forall n | n in right
      ensures Reached(arcs, {n}) <= orig
    {
      ReachedIsLeastClosed(arcs, {n}, right);
    }
  }

  /** The cut the grow step makes of `c`, stated outright: the nodes of the right side
      from which no search leaves it stay on the right, the rest of the right side joins
      the middle, and the middle's arcs that do not enter the new right side are covered. */
  function Grown(arcs: ArcMap, c: Cut): Cut
  {
    var right := set n | n in c.right && Reached(arcs, {n}) <= c.right;
    var middle := c.middle + (c.right - right);
    Cut(c.left, middle, right, c.covered + ArcsFromOutside(arcs, middle, right))
  }

  /** The grow step of `RefineCuts`: while some node on the right has an arc leaving the
      right, all such nodes move to the middle; then the middle's arcs that do not enter
      the right are covered. The result is `Grown`: the right side that remains is exactly
      the set of nodes of the original right side from which no search leaves it, and no
      arc leaves it. */
  method Grow(arcs: ArcMap, c: Cut) returns (g: Cut)
    ensures g == Grown(arcs, c)
    ensures g.left == c.left && g.right <= c.right && g.middle == c.middle + (c.right - g.right)
    ensures g.covered == c.covered + ArcsFromOutside(arcs, g.middle, g.right)
    ensures SuccClosed(arcs, g.right)
    ensures forall n :: n in g.right <==> n in c.right && Reached(arcs, {n}) <= c.right
  {
    var right, middle := c.right, c.middle;
    while true
      invariant right <= c.right && middle == c.middle + (c.right - right)
      invariant forall m :: m in c.right - right ==> !(Reached(arcs, {m}) <= c.right)
      decreases |right|
    {
      var toAdd := Leavers(arcs, right);
      if toAdd == {} {
        break;
      }
      EscapeAll(arcs, c.right, right);
      var n :| n in toAdd;
      ProperSubsetCard(right - toAdd, right);
      right := right - toAdd;
      middle := middle + toAdd;
    }
    StaysWithin(arcs, right, c.right);
    var covered := c.covered + ArcsFromOutside(arcs, middle, right);
    g := Cut(c.left, middle, right, covered);
    assert right == Grown(arcs, c).right;
  }

  /** The shrink step of `RefineCuts`: middle nodes without a successor on the right move to
      the left. */
  function Shrunk(arcs: ArcMap, c: Cut): (r: Cut)
    ensures r.right == c.right && r.covered == c.covered
    ensures r.middle <= c.middle && r.left == c.left + (c.middle - r.middle)
    ensures forall n :: n in r.middle <==> n in c.middle && n in Preds(arcs, c.right)
  {
    var toMove := c.middle - Preds(arcs, c.right);
    Cut(c.left + toMove, c.middle - toMove, c.right, c.covered)
  }

  /** A grown cut of a partition, shrunk, is a good cut and still a partition with the same
      source side; a sink without outgoing arcs stays on the right. */
  lemma GrownShrunkGood(arcs: ArcMap, c: Cut, g: Cut, nodes: set<nat>, sink: nat)
    requires g.left == c.left && g.right <= c.right && g.middle == c.middle + (c.right - g.right)
    requires SuccClosed(arcs, g.right)
    requires forall n :: n in g.right <==> n in c.right && Reached(arcs, {n}) <= c.right
    ensures Refined(arcs, Shrunk(arcs, g))
    ensures Partitions(c, nodes) ==> Partitions(Shrunk(arcs, g), nodes)
    ensures Shrunk(arcs, g).left >= c.left
    ensures sink in c.right && OutArcs(arcs, sink) == {} ==> sink in Shrunk(arcs, g).right
  {
    GrownPartitions(arcs, c, g, nodes);
    if sink in c.right && OutArcs(arcs, sink) == {} {
      assert SuccClosed(arcs, {sink}) by {
        assert forall id :: id in arcs && arcs[id].src == sink ==> id in OutArcs(arcs, sink);
      }
      ReachedIsLeastClosed(arcs, {sink}, {sink});
    }
  }

  /** Growing then shrinking only moves nodes between the sides of a partition. */
  lemma GrownPartitions(arcs: ArcMap, c: Cut, g: Cut, nodes: set<nat>)
    requires g.left == c.left && g.right <= c.right && g.middle == c.middle + (c.right - g.right)
    ensures Partitions(c, nodes) ==> Partitions(g, nodes) && Partitions(Shrunk(arcs, g), nodes)
  {
    if Partitions(c, nodes) {
      assert Partitions(g, nodes);
      var r := Shrunk(arcs, g);
      assert r.left + r.middle + r.right == nodes;
    }
  }

  /** Every cut of `cs` grown, then shrunk, in order. */
  function GrownShrunk(arcs: ArcMap, cs: seq<Cut>): (r: seq<Cut>)
    ensures |r| == |cs|
  {
    seq(|cs|, k requires 0 <= k < |cs| => Shrunk(arcs, Grown(arcs, cs[k])))
  }

  /** One more cut grown and shrunk extends the prefix of `GrownShrunk` by one. */
  lemma GrownShrunkNext(arcs: ArcMap, cs: seq<Cut>, i: nat, done: seq<Cut>, s: Cut)
    requires i < |cs| && done == GrownShrunk(arcs, cs)[..i] && s == Shrunk(arcs, Grown(arcs, cs[i]))
    ensures done + [s] == GrownShrunk(arcs, cs)[..i + 1]
  {
    var g := GrownShrunk(arcs, cs);
    assert g[i] == s;
    assert g[..i + 1] == g[..i] + [g[i]];
  }

  /** `Grown` moves nodes only from the right side to the middle, and its right side is
      closed: no arc leaves it. */
  lemma GrownFacts(arcs: ArcMap, c: Cut)
    ensures var g := Grown(arcs, c);
      g.left == c.left && g.right <= c.right && g.middle == c.middle + (c.right - g.right)
      && SuccClosed(arcs, g.right)
      && forall n :: n in g.right <==> n in c.right && Reached(arcs, {n}) <= c.right
  {
    var g := Grown(arcs, c);
    forall id | id in arcs && arcs[id].src in g.right
      ensures arcs[id].tgt in g.right
    {
      var n, m := arcs[id].src, arcs[id].tgt;
      ReachedIsLeastClosed(arcs, {n}, {});
      assert m in Reached(arcs, {n});
      ReachedTransitive(arcs, {n}, m);
    }
  }

  /** A cut grown, then shrunk, is good, covers at most the arcs more, and a shaped cut
      stays shaped when no arc leaves the sink. */
  lemma GrownShrunkCut(arcs: ArcMap, nodes: set<nat>, source: nat, sink: nat, c: Cut)
    ensures var s := Shrunk(arcs, Grown(arcs, c));
      Refined(arcs, s) && c.covered <= s.covered <= c.covered + arcs.Keys
      && (OutArcs(arcs, sink) == {} && Shaped(c, nodes, source, sink) ==> Shaped(s, nodes, source, sink))
  {
    GrownFacts(arcs, c);
    GrownShrunkGood(arcs, c, Grown(arcs, c), nodes, sink);
  }

  /** The middle loop of `RefineCuts`: every cut grown, then shrunk. */
  method GrowShrinkAll(arcs: ArcMap, ghost nodes: set<nat>, ghost source: nat, ghost sink: nat, work: seq<Cut>)
    returns (best: seq<Cut>)
    ensures best == GrownShrunk(arcs, work)
    ensures forall k :: 0 <= k < |best| ==> Refined(arcs, best[k])
    ensures forall k :: 0 <= k < |best| ==> best[k].covered <= work[k].covered + arcs.Keys
    ensures OutArcs(arcs, sink) == {} ==>
              forall k :: 0 <= k < |best| && Shaped(work[k], nodes, source, sink) ==>
                Shaped(best[k], nodes, source, sink)
  {
    best := [];
    for i := 0 to |work|
      invariant best == GrownShrunk(arcs, work)[..i]
    {
      var s := GrowShrink(arcs, nodes, source, sink, work[i]);
      GrownShrunkNext(arcs, work, i, best, s);
      best := best + [s];
    }
    assert GrownShrunk(arcs, work)[..|work|] == GrownShrunk(arcs, work);
    forall k | 0 <= k < |best|
      ensures Refined(arcs, best[k]) && best[k].covered <= work[k].covered + arcs.Keys
      ensures OutArcs(arcs, sink) == {} && Shaped(work[k], nodes, source, sink) ==> Shaped(best[k], nodes, source, sink)
    {
      GrownShrunkCut(arcs, nodes, source, sink, work[k]);
    }
  }

  /** What `GrowShrinkAll` promises cut by cut, stated for the whole list: covered arcs stay
      arcs, and with no arc leaving the sink, shaped cuts stay shaped. */
  lemma GrowShrinkKeeps(arcs: ArcMap, nodes: set<nat>, source: nat, sink: nat, work: seq<Cut>, best: seq<Cut>)
    requires |best| == |work|
    requires forall k :: 0 <= k < |best| ==> best[k].covered <= work[k].covered + arcs.Keys
    requires OutArcs(arcs, sink) == {} ==>
               forall k :: 0 <= k < |best| && Shaped(work[k], nodes, source, sink) ==> Shaped(best[k], nodes, source, sink)
    ensures (forall c :: c in work ==> c.covered <= arcs.Keys) ==> forall c :: c in best ==> c.covered <= arcs.Keys
    ensures OutArcs(arcs, sink) == {} && (forall c :: c in work ==> Shaped(c, nodes, source, sink)) ==>
              forall c :: c in best ==> Shaped(c, nodes, source, sink)
  {
    forall c | c in best
      ensures (forall d :: d in work ==> d.covered <= arcs.Keys) ==> c.covered <= arcs.Keys
      ensures OutArcs(arcs, sink) == {} && (forall d :: d in work ==> Shaped(d, nodes, source, sink)) ==>
                Shaped(c, nodes, source, sink)
    {
      var k :| 0 <= k < |best| && best[k] == c;
      assert work[k] in work;
    }
  }

  /** One cut grown, then shrunk. */
  method GrowShrink(arcs: ArcMap, ghost nodes: set<nat>, ghost source: nat, ghost sink: nat, c: Cut) returns (s: Cut)
    ensures s == Shrunk(arcs, Grown(arcs, c))
    ensures Refined(arcs, s)
    ensures c.covered <= s.covered <= c.covered + arcs.Keys
    ensures OutArcs(arcs, sink) == {} && Shaped(c, nodes, source, sink) ==> Shaped(s, nodes, source, sink)
  {
    var g := Grow(arcs, c);
    GrownShrunkGood(arcs, c, g, nodes, sink);
    s := Shrunk(arcs, g);
  }

  /** What holds of every cut of a sequence holds of every cut of a subsequence of it. */
  lemma SubsequenceKeeps(r: seq<Cut>, cs: seq<Cut>, idx: seq<nat>, arcs: ArcMap, nodes: set<nat>, source: nat, sink: nat)
    requires SubsequenceAt(r, cs, idx)
    ensures (forall k :: 0 <= k < |cs| ==> Refined(arcs, cs[k])) ==>
              forall k :: 0 <= k < |r| ==> Refined(arcs, r[k])
    ensures (forall k :: 0 <= k < |cs| ==> Shaped(cs[k], nodes, source, sink)) ==>
              forall k :: 0 <= k < |r| ==> Shaped(r[k], nodes, source, sink)
    ensures (forall k :: 0 <= k < |cs| ==> cs[k].covered <= arcs.Keys) ==>
              forall k :: 0 <= k < |r| ==> r[k].covered <= arcs.Keys
    ensures |r| <= |cs|
  {
    forall k | 0 <= k < |r|
      ensures r[k] == cs[idx[k]] && idx[k] < |cs|
    {
    }
    SubsequenceShorter(r, cs, idx);
  }

  /** The legacy `RefineCuts(cuts, g, target)`, whose first redundancy pass is commented
      out: every cut grown into a good cut and shrunk, then redundant cuts dropped. Every
      result is a good cut and no two middles contain one another; when the sink has no
      outgoing arc, partitions with the source on the left and the sink on the right stay
      so; covered arcs stay arcs. The result is exactly what dropping the redundant cuts
      of the grown and shrunk list leaves. */
  method Refine(arcs: ArcMap, ghost nodes: set<nat>, ghost source: nat, ghost sink: nat, cs: seq<Cut>)
    returns (r: seq<Cut>, ghost idx: seq<nat>)
    ensures RedundantDropped(GrownShrunk(arcs, cs), r, idx)
    ensures forall k :: 0 <= k < |r| ==> Refined(arcs, r[k])
    ensures forall p, q :: 0 <= p < q < |r| ==> Incomparable(r[p], r[q])
    ensures OutArcs(arcs, sink) == {} && (forall k :: 0 <= k < |cs| ==> Shaped(cs[k], nodes, source, sink)) ==>
              forall k :: 0 <= k < |r| ==> Shaped(r[k], nodes, source, sink)
    ensures (forall k :: 0 <= k < |cs| ==> cs[k].covered <= arcs.Keys) ==> forall k :: 0 <= k < |r| ==> r[k].covered <= arcs.Keys
    ensures |r| <= |cs|
  {
    var best := GrowShrinkAll(arcs, nodes, source, sink, cs);
    r, idx := RemoveRedundant(best);
    SubsequenceKeeps(r, best, idx, arcs, nodes, source, sink);
  }

  /** A strictly increasing sequence of naturals has at least `k` at position `k`. */
  lemma {:induction false} IncreasingAtLeast(idx: seq<nat>, k: nat)
    requires forall a, b :: 0 <= a < b < |idx| ==> idx[a] < idx[b]
    requires k < |idx|
    ensures idx[k] >= k
  {
    if k > 0 {
      IncreasingAtLeast(idx, k - 1);
    }
  }

  /** A subsequence is no longer than the sequence it is taken from. */
  lemma SubsequenceShorter(r: seq<Cut>, cs: seq<Cut>, idx: seq<nat>)
    requires SubsequenceAt(r, cs, idx)
    ensures |r| <= |cs|
  {
    if |idx| > 0 {
      IncreasingAtLeast(idx, |idx| - 1);
      assert idx[|idx| - 1] < |cs|;
    }
  }

  /** Every cut of a subsequence occurs in the sequence it is taken from. */
  lemma SubsequenceMembers(r: seq<Cut>, cs: seq<Cut>, idx: seq<nat>)
    requires SubsequenceAt(r, cs, idx)
    ensures forall c :: c in r ==> c in cs
    ensures |r| <= |cs|
  {
    forall c | c in r
      ensures c in cs
    {
      var k :| 0 <= k < |r| && r[k] == c;
      assert idx[k] < |cs| && r[k] == cs[idx[k]];
    }
    SubsequenceShorter(r, cs, idx);
  }
}
