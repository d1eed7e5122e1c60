/** Monte Carlo estimation. The edge subsets of weighted sampling, and the sampling solver,
    which fixes at random which uncertain arcs are certain and which are gone, reduces the
    sampled graph, solves it exactly and averages over the iterations. The random numbers
    and the readings of the processor clock are streams given at construction: the `i`-th
    random number handed out is `draws(i)`, the `i`-th clock reading `clock(i)`. */
module Sampling {
  import opened Wrappers
  import opened Sums
  import opened Reach
  import opened Digraphs
  import opened Cuts
  import Graphs
  import opened Solvers
  import TermAlgebra
  import Poly

  /* ---------------------------------------------------------------- edge subsets */

  /** The ids among `ids` of the edges from a node of `left` to a node of `middle`. */
  function CutEdges(info: map<nat, EdgeInfo>, ids: set<nat>, left: set<nat>, middle: set<nat>): set<nat>
  {
    set id | id in info && id in ids && info[id].ends.src in left && info[id].ends.tgt in middle
  }

  /** The chance that every edge of `order` fails: the product of the `1 - p`. */
  function FailProduct(info: map<nat, EdgeInfo>, order: seq<nat>): real
    requires forall i :: 0 <= i < |order| ==> order[i] in info
  {
    if order == [] then 1.0
    else FailProduct(info, order[..|order| - 1]) * (1.0 - info[order[|order| - 1]].p)
  }

  /** Two numbers in [0, 1] have their product in [0, 1]. */
  lemma ProductInUnit(a: real, b: real)
    requires 0.0 <= a <= 1.0 && 0.0 <= b <= 1.0
    ensures 0.0 <= a * b <= a
  {
    ProductNonNegative(a, b);
    ProductNonNegative(a, 1.0 - b);
    assert a * b == a - a * (1.0 - b);
  }

  /** Appending an id adds it to the elements. */
  lemma ElementsAppend(s: seq<nat>, x: nat)
    ensures Elements(s + [x]) == Elements(s) + {x}
  {
    var t := s + [x];
    assert t[|s|] == x;
    forall y | y in Elements(s)
      ensures y in Elements(t)
    {
      var i :| 0 <= i < |s| && s[i] == y;
      assert t[i] == y;
    }
  }

  /** When every probability is in [0, 1], so is the chance that all the edges fail. */
  lemma {:induction false} FailProductBounds(info: map<nat, EdgeInfo>, order: seq<nat>)
    requires forall i :: 0 <= i < |order| ==> order[i] in info && 0.0 <= info[order[i]].p <= 1.0
    ensures 0.0 <= FailProduct(info, order) <= 1.0
  {
    if order != [] {
      var init := order[..|order| - 1];
      FailProductBounds(info, init);
      ProductInUnit(FailProduct(info, init), 1.0 - info[order[|order| - 1]].p);
    }
  }

  /** What the constructor's loop over the edge table keeps, with the ids `rest` still to
      see: `chosen` holds the ids seen that go from `left` to `middle`, `visited` lists
      them once each in the order met, and `prob` is the product of their failure
      chances. */
  ghost predicate Gathered(info: map<nat, EdgeInfo>, left: set<nat>, middle: set<nat>, rest: set<nat>,
                           chosen: set<nat>, visited: seq<nat>, prob: real)
  {
    rest <= info.Keys
    && chosen == CutEdges(info, info.Keys - rest, left, middle)
    && Distinct(visited) && Elements(visited) == chosen
    && (forall i :: 0 <= i < |visited| ==> visited[i] in info)
    && prob == FailProduct(info, visited)
  }

  /** Seeing one more id `e` keeps `Gathered`: an id from `left` to `middle` is chosen,
      appended and multiplied in; any other id changes nothing but `rest`. */
  lemma GatheredStep(info: map<nat, EdgeInfo>, left: set<nat>, middle: set<nat>, rest: set<nat>,
                     chosen: set<nat>, visited: seq<nat>, prob: real, e: nat)
    requires Gathered(info, left, middle, rest, chosen, visited, prob) && e in rest
    ensures info[e].ends.src in left && info[e].ends.tgt in middle ==>
      Gathered(info, left, middle, rest - {e}, chosen + {e}, visited + [e], prob * (1.0 - info[e].p))
    ensures !(info[e].ends.src in left && info[e].ends.tgt in middle) ==>
      Gathered(info, left, middle, rest - {e}, chosen, visited, prob)
  {
    assert info.Keys - (rest - {e}) == (info.Keys - rest) + {e};
    if info[e].ends.src in left && info[e].ends.tgt in middle {
      assert e !in Elements(visited);
      assert (visited + [e])[..|visited|] == visited;
      ElementsAppend(visited, e);
    }
  }

  /** `EdgeSubset`: the edges from the left of a cut to its middle, with a weight that makes
      the subset likelier to be drawn for sampling. */
  class EdgeSubset {
    /** `id_`. */
    const id: int
    /** `edges_`. */
    const edges: set<nat>
    /** `cut_size_`. */
    const cutSize: nat
    /** `success_prob_`. */
    const successProb: real
    /** The cut and the edge table the subset was built from. */
    ghost const cut: Cut
    ghost const info: map<nat, EdgeInfo>
    /** The order in which the construction met the edges of the subset. */
    ghost const order: seq<nat>

    /** The edges are those from the left to the middle of the cut, each met once; the
        success chance is the product of their failure chances plus 0.001; the size is the
        number of middle nodes. */
    ghost predicate Valid()
      reads this
    {
      edges == CutEdges(info, info.Keys, cut.left, cut.middle)
      && Distinct(order) && Elements(order) == edges
      && (forall i :: 0 <= i < |order| ==> order[i] in info)
      && successProb == FailProduct(info, order) + 0.001
      && cutSize == |cut.middle|
    }

    /** `EdgeSubset(id, cut, edge_info)`: the loop over the edge table, in the table's
        iteration order, takes every edge from the left to the middle and multiplies its
        failure chance into the success chance, which starts at 1.0 and ends 0.001 higher.
        The bitsets demand the node ids it looks up below `NUM_NODES` and the taken edge ids
        below `NUM_EDGES`. */
    constructor (id: int, cut: Cut, info: map<nat, EdgeInfo>)
      requires forall e :: e in info ==> info[e].ends.src < NUM_NODES
      requires forall e :: e in info && info[e].ends.src in cut.left ==> info[e].ends.tgt < NUM_NODES
      requires Fits(CutEdges(info, info.Keys, cut.left, cut.middle), NUM_EDGES)
      ensures Valid() && this.id == id && this.cut == cut && this.info == info
      ensures Fits(edges, NUM_EDGES)
      ensures (forall e :: e in info ==> 0.0 <= info[e].p <= 1.0) ==> 0.001 <= successProb <= 1.001
    {
      var chosen: set<nat> := {};
      var prob := 1.0;
      var rest := info.Keys;
      ghost var visited: seq<nat> := [];
      while rest != {}
        invariant Gathered(info, cut.left, cut.middle, rest, chosen, visited, prob)
        decreases |rest|
      {
        var e :| e in rest;
        GatheredStep(info, cut.left, cut.middle, rest, chosen, visited, prob, e);
        if info[e].ends.src in cut.left && info[e].ends.tgt in cut.middle {
          chosen := chosen + {e};
          prob := prob * (1.0 - info[e].p);
          visited := visited + [e];
        }
        rest := rest - {e};
      }
      assert info.Keys - rest == info.Keys;
      this.id := id;
      edges := chosen;
      successProb := prob + 0.001;
      cutSize := |cut.middle|;
      this.cut := cut;
      this.info := info;
      order := visited;
      new;
      if forall e :: e in info ==> 0.0 <= info[e].p <= 1.0 {
        FailProductBounds(info, visited);
      }
    }

    /** `Weight()`: the success chance times the cut size, shared out over the edges;
        only defined for a subset with edges. */
    function Weight(): (w: real)
      requires edges != {}
      reads this
      ensures w * (|edges| as real) == successProb * (cutSize as real)
      ensures 0.0 <= successProb ==> 0.0 <= w <= successProb * (cutSize as real)
    {
      var n, c := |edges| as real, cutSize as real;
      assert successProb * c / n * n == successProb * c;
      if 0.0 <= successProb then
        assert 0.0 <= successProb * c;
        assert successProb * c / n <= successProb * c / 1.0;
        successProb * c / n
      else
        successProb * c / n
    }

    /** `Id()`. */
    function Id(): int
      reads this
    {
      id
    }

    /** `GetEdges()`: the edges from the left of the cut to its middle. */
    function GetEdges(): (r: set<nat>)
      requires Valid()
      reads this
      ensures forall e :: e in r <==> e in info && info[e].ends.src in cut.left && info[e].ends.tgt in cut.middle
    {
      edges
    }

    /** `CutSize()`: the number of middle nodes of the cut. */
    function CutSize(): (r: nat)
      requires Valid()
      reads this
      ensures r == |cut.middle|
    {
      cutSize
    }
  }

  /* --------------------------------------------------- reliability of tiny graphs */

  /** The chance that `t` is reachable from `s` when each arc of `a` named in `ids` is
      present with its weight, independently, on top of the arcs `kept`: the ids are decided
      one by one, each present arc joining `kept`. */
  function Reliability(a: ArcMap, ids: seq<nat>, kept: ArcMap, s: nat, t: nat): real
    decreases |ids|
  {
    if ids == [] then (if t in Reached(kept, {s}) then 1.0 else 0.0)
    else if ids[0] !in a then Reliability(a, ids[1..], kept, s, t)
    else
      a[ids[0]].w * Reliability(a, ids[1..], kept[ids[0] := a[ids[0]]], s, t)
      + (1.0 - a[ids[0]].w) * Reliability(a, ids[1..], kept, s, t)
  }

  /** With no arc, only the start is reached. */
  lemma ReachedNoArc(s: nat)
    ensures Reached(map[], {s}) == {s}
  {
    ReachedIsLeastClosed(map[], {s}, {s});
  }

  /** With one arc, the start reaches the arc's target exactly when the arc leaves it. */
  lemma ReachedOneArc(id: nat, arc: Arc, s: nat, t: nat)
    requires s != t
    ensures t in Reached(map[id := arc], {s}) <==> arc.src == s && arc.tgt == t
  {
    var a := map[id := arc];
    var c := if arc.src == s then {s, arc.tgt} else {s};
    ReachedIsLeastClosed(a, {s}, c);
    if arc.src == s {
      assert a[id].src in Reached(a, {s});
    }
  }

  /** The contribution of a reduced graph with a single arc, as the estimator intends it:
      the arc's weight when it joins SOURCE to SINK, else nothing. */
  function LoneArc(arc: Arc, s: nat, t: nat): real
  {
    if arc.src == s && arc.tgt == t then arc.w else 0.0
  }

  /** `LoneArc` is the chance that SINK is reachable in a graph with that one arc. */
  lemma LoneArcExact(a: ArcMap, id: nat, s: nat, t: nat)
    requires a.Keys == {id} && s != t
    ensures LoneArc(a[id], s, t) == Reliability(a, [id], map[], s, t)
  {
    ReachedOneArc(id, a[id], s, t);
    ReachedNoArc(s);
    assert [id][1..] == [];
  }

  /** A graph with no arc leaves SINK unreachable. */
  lemma NoArcExact(s: nat, t: nat)
    requires s != t
    ensures Reliability(map[], [], map[], s, t) == 0.0
  {
    ReachedNoArc(s);
  }

  /** What an iteration of `SamplingSolver::Solve` adds to the running result, as written:
      the exact answer when more than one arc is left, 1.0 for a single arc, 0.0 for
      none. */
  function ContributionAsWritten(arcCount: nat, exact: real): (c: real)
    ensures arcCount <= 1 ==> c == arcCount as real
    ensures arcCount > 1 ==> c == exact
  {
    if arcCount > 1 then exact else if arcCount == 1 then 1.0 else 0.0
  }

  /** A single arc of weight 0.5 from SOURCE (node 0) to SINK (node 1) is present half of
      the time, yet the iteration as written counts it as 1.0. */
  lemma LoneArcOvercounted()
    ensures Reliability(map[0 := Arc(0, 1, 0.5)], [0], map[], 0, 1) == 0.5
    ensures ContributionAsWritten(|map[0 := Arc(0, 1, 0.5)]|, 0.0) == 1.0
  {
    LoneArcExact(map[0 := Arc(0, 1, 0.5)], 0, 0, 1);
  }

  /* ---------------------------------------------------------------- averaging */

  /** The running sum of the contributions. */
  function Accumulated(vs: seq<real>): real
  {
    if vs == [] then 0.0 else Accumulated(vs[..|vs| - 1]) + vs[|vs| - 1]
  }

  /** The mean of the contributions. */
  function Mean(vs: seq<real>): real
    requires |vs| > 0
  {
    Accumulated(vs) / (|vs| as real)
  }

  /** Values in [0, 1] add up to at least 0 and at most their number. */
  lemma {:induction false} AccumulatedBounds(vs: seq<real>)
    requires forall i :: 0 <= i < |vs| ==> 0.0 <= vs[i] <= 1.0
    ensures 0.0 <= Accumulated(vs) <= |vs| as real
  {
    if vs != [] {
      AccumulatedBounds(vs[..|vs| - 1]);
    }
  }

  /** The mean of values in [0, 1] lies in [0, 1]. */
  lemma MeanBounded(vs: seq<real>)
    requires |vs| > 0 && forall i :: 0 <= i < |vs| ==> 0.0 <= vs[i] <= 1.0
    ensures 0.0 <= Mean(vs) <= 1.0
  {
    AccumulatedBounds(vs);
    var n := |vs| as real;
    assert Accumulated(vs) / n <= n / n;
  }

  /* ---------------------------------------------------------- weighted sampling */

  /** `(int)ceil(x)`. */
  function Ceil(x: real): (r: int)
    ensures (r - 1) as real < x <= r as real
  {
    -((-x).Floor)
  }

  /** `(int)floor(d * n)`: a draw in [0, 1) scaled by a positive length and rounded
      down is an index below that length. */
  function ScaledIndex(d: real, n: nat): (i: nat)
    requires 0.0 <= d < 1.0 && n > 0
    ensures i < n
  {
    assert d * n as real < 1.0 * n as real;
    (d * n as real).Floor
  }

  /** The ids of `s` from `from` up to `NUM_EDGES`, in increasing order: the walk over a
      bitset. */
  function Walk(s: set<nat>, from: nat): seq<nat>
    decreases NUM_EDGES - from
  {
    if from >= NUM_EDGES then []
    else if from in s then [from] + Walk(s, from + 1)
    else Walk(s, from + 1)
  }

  /** The walk visits exactly the ids of `s` from `from` below `NUM_EDGES`, each once, in
      increasing order. */
  lemma {:induction false} WalkMembers(s: set<nat>, from: nat)
    ensures forall e :: e in Walk(s, from) <==> e in s && from <= e < NUM_EDGES
    ensures Ascending(Walk(s, from)) && Distinct(Walk(s, from))
    decreases NUM_EDGES - from
  {
    if from < NUM_EDGES {
      WalkMembers(s, from + 1);
      var rest := Walk(s, from + 1);
      if from in s {
        var w := [from] + rest;
        assert Walk(s, from) == w;
        forall i, j | 0 <= i < j < |w|
          ensures w[i] < w[j]
        {
          assert w[j] == rest[j - 1] && rest[j - 1] in rest;
          if i > 0 {
            assert w[i] == rest[i - 1];
          }
        }
      } else {
        assert Walk(s, from) == rest;
      }
    }
  }

  /** No id of `s` at or above `from`: the walk is empty. */
  lemma {:induction false} WalkPast(s: set<nat>, from: nat)
    requires forall e :: e in s ==> e < from
    ensures Walk(s, from) == []
    decreases NUM_EDGES - from
  {
    if from < NUM_EDGES {
      WalkPast(s, from + 1);
    }
  }

  /** The ids the walk over one subset records: each id of `order` not yet in `have`, in
      the walk's order, until `budget` of them are recorded. */
  function Recorded(order: seq<nat>, have: set<nat>, budget: nat): seq<nat>
    decreases |order|
  {
    if budget == 0 || order == [] then []
    else if order[0] in have then Recorded(order[1..], have, budget)
    else [order[0]] + Recorded(order[1..], have + {order[0]}, budget - 1)
  }

  /** The walk records no id twice, never more than the budget, only ids of `order` not
      in `have`, and, when it stops short of the budget, every id of `order`. */
  lemma {:induction false} RecordedProps(order: seq<nat>, have: set<nat>, budget: nat)
    ensures |Recorded(order, have, budget)| <= budget && Distinct(Recorded(order, have, budget))
    ensures forall e :: e in Recorded(order, have, budget) ==> e in order && e !in have
    ensures |Recorded(order, have, budget)| < budget ==> forall e :: e in order ==> e in have || e in Recorded(order, have, budget)
    decreases |order|
  {
    if budget > 0 && order != [] {
      if order[0] in have {
        RecordedProps(order[1..], have, budget);
      } else {
        RecordedProps(order[1..], have + {order[0]}, budget - 1);
      }
    }
  }

  /** One step of the recording walk, after the ids `taken`: the id at the head is
      recorded, and costs one unit of budget, exactly when it is not in `have`. */
  lemma RecordedStep(taken: seq<nat>, e: nat, rest: seq<nat>, have: set<nat>, budget: nat)
    requires budget > 0
    ensures taken + Recorded([e] + rest, have, budget) ==
      if e in have then taken + Recorded(rest, have, budget)
      else (taken + [e]) + Recorded(rest, have + {e}, budget - 1)
  {
    assert ([e] + rest)[1..] == rest;
    if e !in have {
      var later := Recorded(rest, have + {e}, budget - 1);
      assert taken + ([e] + later) == (taken + [e]) + later;
    }
  }

  /** One step of the recording walk over the subset `edges` at the id `e`: `e` is
      recorded exactly when it is in the subset and not in `have`. */
  lemma WalkRecordedStep(taken: seq<nat>, edges: set<nat>, e: nat, have: set<nat>, budget: nat)
    requires e < NUM_EDGES && budget > 0
    ensures taken + Recorded(Walk(edges, e), have, budget) ==
      if e in edges && e !in have then (taken + [e]) + Recorded(Walk(edges, e + 1), have + {e}, budget - 1)
      else taken + Recorded(Walk(edges, e + 1), have, budget)
  {
    if e in edges {
      assert Walk(edges, e) == [e] + Walk(edges, e + 1);
      RecordedStep(taken, e, Walk(edges, e + 1), have, budget);
    }
  }

  /** The two scans around `chances[index]`: the run of entries equal to it stretches
      from `start` to `end`, both included, and can be stretched no further. */
  method RunAround(chances: seq<nat>, index: nat) returns (start: nat, end: nat)
    requires index < |chances|
    ensures start <= index <= end < |chances|
    ensures forall k :: start <= k <= end ==> chances[k] == chances[index]
    ensures start == 0 || chances[start - 1] != chances[index]
    ensures end == |chances| - 1 || chances[end + 1] != chances[index]
  {
    var temp: int := index - 1;
    while temp >= 0 && chances[temp] == chances[index]
      invariant -1 <= temp < index
      invariant forall k :: temp < k <= index ==> chances[k] == chances[index]
    {
      temp := temp - 1;
    }
    start := temp + 1;
    temp := index + 1;
    while temp < |chances| && chances[temp] == chances[index]
      invariant index < temp <= |chances|
      invariant forall k :: index <= k < temp ==> chances[k] == chances[index]
    {
      temp := temp + 1;
    }
    end := temp - 1;
  }

  /** `chances.erase(begin + start, begin + end)` as written: the positions `start` to
      `end - 1` go and the last entry of the run stays, so a non-empty chance list never
      becomes empty. */
  function ErasedAsWritten(chances: seq<nat>, start: nat, end: nat): (r: seq<nat>)
    requires start <= end < |chances|
    ensures |r| == |chances| - (end - start) && r != []
    ensures r[start] == chances[end]
  {
    chances[..start] + chances[end..]
  }

  /** With one subset holding edge 0, the chances `[0]` and a budget of 2, the first round
      draws index 0 whatever the draw, records edge 0 and leaves a budget of 1; the erase as
      written leaves `[0]`; from then on every round draws index 0 again, records nothing
      and erases nothing, so `while (budget > 0 && chances.size() > 0)` never ends. */
  lemma ErasedAsWrittenStalls(d: real)
    requires 0.0 <= d < 1.0
    ensures ScaledIndex(d, 1) == 0
    ensures Recorded(Walk({0}, 0), {}, 2) == [0]
    ensures Recorded(Walk({0}, 0), {0}, 1) == []
    ensures ErasedAsWritten([0], 0, 0) == [0]
  {
    WalkPast({0}, 1);
    assert Walk({0}, 0) == [0];
  }

  /** The erase as intended: the whole run from `start` to `end` goes, so the list
      shrinks, and every value outside the run stays. */
  function ErasedRun(chances: seq<nat>, start: nat, end: nat): (r: seq<nat>)
    requires start <= end < |chances|
    requires forall k :: start <= k <= end ==> chances[k] == chances[start]
    ensures |r| == |chances| - (end + 1 - start)
    ensures forall v :: v in chances && v != chances[start] ==> v in r
    ensures forall v :: v in r ==> v in chances
  {
    var r := chances[..start] + chances[end + 1..];
    assert forall k :: 0 <= k < |chances| && chances[k] != chances[start] ==>
      (k < start && r[k] == chances[k]) || (end < k && r[k - (end + 1 - start)] == chances[k]);
    r
  }

  /** The loop of `SampleFixed` over the ids below `NUM_EDGES`, with the generator at
      position `start`: each id of `sampleEdges`, in increasing order, takes the next
      number (`NextRand()`) as its sample. `picked` lists those ids in that order, its
      `j`-th id gets the `j`-th number, and the generator moves on by one per id. */
  method FixedDraws(draws: nat -> real, start: nat, sampleEdges: set<nat>)
    returns (edgeProb: map<nat, real>, next: nat, ghost picked: seq<nat>)
    requires Fits(sampleEdges, NUM_EDGES)
    ensures edgeProb.Keys == sampleEdges && next == start + |picked|
    ensures forall k :: k in sampleEdges <==> k in picked
    ensures Ascending(picked)
    ensures forall j :: 0 <= j < |picked| ==> picked[j] in edgeProb && edgeProb[picked[j]] == draws(start + j)
  {
    edgeProb, next, picked := map[], start, [];
    for id := 0 to NUM_EDGES
      invariant next == start + |picked|
      invariant forall k :: k in edgeProb <==> k in sampleEdges && k < id
      invariant forall k :: k in picked <==> k in edgeProb
      invariant Ascending(picked)
      invariant forall j :: 0 <= j < |picked| ==> picked[j] < id
      invariant forall j :: 0 <= j < |picked| ==> picked[j] in edgeProb && edgeProb[picked[j]] == draws(start + j)
    {
      if id in sampleEdges {
        edgeProb := edgeProb[id := draws(next)];
        picked := picked + [id];
        next := next + 1;
      }
    }
  }

  /** The samples `SampleRandom` holds after walking over the ids of `ids`, in order,
      starting from the samples `taken` with the generator at position `pos`: each id
      takes the number there, and when that is at least `successProb` the next number
      becomes its sample; paired with the position the generator is left at. */
  function RandomSampled(draws: nat -> real, successProb: real, taken: map<nat, real>, pos: nat, ids: seq<nat>)
    : (r: (map<nat, real>, nat))
    decreases |ids|
  {
    if ids == [] then (taken, pos)
    else if draws(pos) >= successProb then
      RandomSampled(draws, successProb, taken[ids[0] := draws(pos + 1)], pos + 2, ids[1..])
    else RandomSampled(draws, successProb, taken, pos + 1, ids[1..])
  }

  /** The walk moves the generator on by one or two numbers per id. */
  lemma {:induction false} RandomSampledAdvance(draws: nat -> real, successProb: real, taken: map<nat, real>, pos: nat, ids: seq<nat>)
    ensures pos + |ids| <= RandomSampled(draws, successProb, taken, pos, ids).1 <= pos + 2 * |ids|
    decreases |ids|
  {
    if ids != [] {
      if draws(pos) >= successProb {
        RandomSampledAdvance(draws, successProb, taken[ids[0] := draws(pos + 1)], pos + 2, ids[1..]);
      } else {
        RandomSampledAdvance(draws, successProb, taken, pos + 1, ids[1..]);
      }
    }
  }

  /** The walk adds samples only for ids of `ids`. */
  lemma {:induction false} RandomSampledKeys(draws: nat -> real, successProb: real, taken: map<nat, real>, pos: nat, ids: seq<nat>)
    ensures forall k :: k in RandomSampled(draws, successProb, taken, pos, ids).0 ==> k in taken || k in ids
    decreases |ids|
  {
    if ids != [] {
      if draws(pos) >= successProb {
        RandomSampledKeys(draws, successProb, taken[ids[0] := draws(pos + 1)], pos + 2, ids[1..]);
      } else {
        RandomSampledKeys(draws, successProb, taken, pos + 1, ids[1..]);
      }
    }
  }

  /** The walk keeps every sample taken for an id not in `ids`. */
  lemma {:induction false} RandomSampledKeeps(draws: nat -> real, successProb: real, taken: map<nat, real>, pos: nat, ids: seq<nat>)
    ensures forall k :: k in taken && k !in ids ==>
      k in RandomSampled(draws, successProb, taken, pos, ids).0 && RandomSampled(draws, successProb, taken, pos, ids).0[k] == taken[k]
    decreases |ids|
  {
    if ids != [] {
      if draws(pos) >= successProb {
        RandomSampledKeeps(draws, successProb, taken[ids[0] := draws(pos + 1)], pos + 2, ids[1..]);
      } else {
        RandomSampledKeeps(draws, successProb, taken, pos + 1, ids[1..]);
      }
    }
  }

  /** Every sample after the walk is a sample taken before it or a number of the
      generator past `pos` and before the position the walk leaves it at. */
  lemma {:induction false} RandomSampledFromStream(draws: nat -> real, successProb: real, taken: map<nat, real>, pos: nat, ids: seq<nat>)
    ensures forall k :: k in RandomSampled(draws, successProb, taken, pos, ids).0 ==>
      (k in taken && RandomSampled(draws, successProb, taken, pos, ids).0[k] == taken[k])
      || exists i: nat :: pos < i < RandomSampled(draws, successProb, taken, pos, ids).1 && RandomSampled(draws, successProb, taken, pos, ids).0[k] == draws(i)
    decreases |ids|
  {
    if ids != [] {
      var r := RandomSampled(draws, successProb, taken, pos, ids);
      if draws(pos) >= successProb {
        var taken' := taken[ids[0] := draws(pos + 1)];
        RandomSampledFromStream(draws, successProb, taken', pos + 2, ids[1..]);
        RandomSampledAdvance(draws, successProb, taken', pos + 2, ids[1..]);
        forall k | k in r.0 && k == ids[0] && k in taken' && r.0[k] == taken'[k]
          ensures exists i: nat :: pos < i < r.1 && r.0[k] == draws(i)
        {
          assert r.0[k] == draws(pos + 1);
        }
      } else {
        RandomSampledFromStream(draws, successProb, taken, pos + 1, ids[1..]);
      }
    }
  }

  /** The first id of a list without repeats, when it has no sample yet, gets one exactly
      when the number at `pos` is at least `successProb`, and then it is the number
      after it. */
  lemma RandomSampledHead(draws: nat -> real, successProb: real, taken: map<nat, real>, pos: nat, ids: seq<nat>)
    requires ids != [] && ids[0] !in ids[1..] && ids[0] !in taken
    ensures ids[0] in RandomSampled(draws, successProb, taken, pos, ids).0 <==> draws(pos) >= successProb
    ensures draws(pos) >= successProb ==> RandomSampled(draws, successProb, taken, pos, ids).0[ids[0]] == draws(pos + 1)
  {
    RandomSampledKeys(draws, successProb, taken, pos + 1, ids[1..]);
    RandomSampledKeeps(draws, successProb, taken[ids[0] := draws(pos + 1)], pos + 2, ids[1..]);
  }

  /** One step of the walk: the id at the head takes the number at `pos`, and the number
      after it when sampled. */
  lemma RandomSampledStep(draws: nat -> real, successProb: real, taken: map<nat, real>, pos: nat, id: nat, rest: seq<nat>)
    ensures RandomSampled(draws, successProb, taken, pos, [id] + rest) ==
      if draws(pos) >= successProb then RandomSampled(draws, successProb, taken[id := draws(pos + 1)], pos + 2, rest)
      else RandomSampled(draws, successProb, taken, pos + 1, rest)
  {
    assert ([id] + rest)[1..] == rest;
  }

  /** The loop of `SampleRandom` over the ids of `all`, in increasing order, with the
      generator at position `start`: each id takes a first number (`NextRand()`), and
      when that is at least `successProb` a second one becomes its sample. It computes
      `RandomSampled` from no samples. */
  method RandomDraws(draws: nat -> real, successProb: real, start: nat, all: set<nat>)
    returns (edgeProb: map<nat, real>, next: nat)
    ensures (edgeProb, next) == RandomSampled(draws, successProb, map[], start, Walk(all, 0))
  {
    ghost var whole := RandomSampled(draws, successProb, map[], start, Walk(all, 0));
    next := start;
    edgeProb := map[];
    for id := 0 to NUM_EDGES
      invariant whole == RandomSampled(draws, successProb, edgeProb, next, Walk(all, id))
    {
      ghost var rest := Walk(all, id + 1);
      if id in all {
        assert Walk(all, id) == [id] + rest;
        RandomSampledStep(draws, successProb, edgeProb, next, id, rest);
        var first := draws(next);
        if first >= successProb {
          edgeProb := edgeProb[id := draws(next + 1)];
          next := next + 2;
        } else {
          next := next + 1;
        }
      } else {
        assert Walk(all, id) == rest;
      }
    }
    assert Walk(all, NUM_EDGES) == [];
  }

  /** The bookkeeping of `RecordDraws` after recording the edges `taken`, from the samples
      `edgeProb0` and sample set `sample0`, with the generator started at `start`: exactly
      the taken edges were added, each with its own number, and the old samples stay. */
  ghost predicate Recording(draws: nat -> real, start: nat, edgeProb0: map<nat, real>, sample0: set<nat>,
                            edgeProb: map<nat, real>, sample: set<nat>, taken: seq<nat>)
  {
    (forall k :: k in edgeProb <==> k in edgeProb0 || k in taken)
    && (forall k :: k in sample <==> k in sample0 || k in taken)
    && (forall k :: k in edgeProb0 ==> edgeProb[k] == edgeProb0[k])
    && (forall j :: 0 <= j < |taken| ==> edgeProb[taken[j]] == draws(start + j))
  }

  /** Recording a new edge `e` with the next number keeps the bookkeeping. */
  lemma RecordOne(draws: nat -> real, start: nat, edgeProb0: map<nat, real>, sample0: set<nat>,
                  edgeProb: map<nat, real>, sample: set<nat>, taken: seq<nat>, e: nat, next: nat)
    requires e !in edgeProb && Recording(draws, start, edgeProb0, sample0, edgeProb, sample, taken)
    requires next == start + |taken|
    ensures edgeProb[e := draws(next)].Keys == edgeProb.Keys + {e}
    ensures Recording(draws, start, edgeProb0, sample0, edgeProb[e := draws(next)], sample + {e}, taken + [e])
  {
    var ep := edgeProb[e := draws(next)];
    forall j | 0 <= j < |taken + [e]|
      ensures ep[(taken + [e])[j]] == draws(start + j)
    {
      if j < |taken| {
        assert (taken + [e])[j] == taken[j] && taken[j] in edgeProb;
      }
    }
  }

  /** The pass of `SampleWeightedRandom` over the edges of one subset, in increasing id
      order, with the generator at position `start`: each edge without a sample takes the
      next number as its sample (`NextRand()`), joins the sampled edges and costs one unit
      of budget, until the budget is spent. The edges recorded are `Recorded`'s, the `j`-th
      of them takes the `j`-th number, and the samples already there stay. */
  method RecordDraws(draws: nat -> real, start: nat, edges: set<nat>, edgeProb0: map<nat, real>, sample0: set<nat>, budget0: nat)
    returns (edgeProb: map<nat, real>, sample: set<nat>, budget: nat, next: nat, ghost taken: seq<nat>)
    ensures taken == Recorded(Walk(edges, 0), edgeProb0.Keys, budget0)
    ensures forall k :: k in edgeProb <==> k in edgeProb0 || k in taken
    ensures forall k :: k in sample <==> k in sample0 || k in taken
    ensures forall k :: k in edgeProb0 ==> edgeProb[k] == edgeProb0[k]
    ensures forall j :: 0 <= j < |taken| ==> edgeProb[taken[j]] == draws(start + j)
    ensures budget == budget0 - |taken| && next == start + |taken|
  {
    edgeProb, sample, budget, next, taken := edgeProb0, sample0, budget0, start, [];
    var e := 0;
    while e < NUM_EDGES && budget > 0
      invariant e <= NUM_EDGES
      invariant taken + Recorded(Walk(edges, e), edgeProb.Keys, budget) == Recorded(Walk(edges, 0), edgeProb0.Keys, budget0)
      invariant Recording(draws, start, edgeProb0, sample0, edgeProb, sample, taken)
      invariant budget == budget0 - |taken| && next == start + |taken|
    {
      WalkRecordedStep(taken, edges, e, edgeProb.Keys, budget);
      if e in edges && e !in edgeProb {
        RecordOne(draws, start, edgeProb0, sample0, edgeProb, sample, taken, e, next);
        edgeProb := edgeProb[e := draws(next)];
        sample := sample + {e};
        budget := budget - 1;
        next := next + 1;
        taken := taken + [e];
      }
      e := e + 1;
    }
    assert Recorded(Walk(edges, e), edgeProb.Keys, budget) == [];
  }

  /** The edges of the subsets the chances name. */
  function ChancedEdges(subsetEdges: seq<set<nat>>, chances: seq<nat>): set<nat>
    requires forall k :: 0 <= k < |chances| ==> chances[k] < |subsetEdges|
    decreases |chances|
  {
    if chances == [] then {} else subsetEdges[chances[0]] + ChancedEdges(subsetEdges, chances[1..])
  }

  /** An edge is among the chanced edges exactly when some chance names a subset that
      holds it. */
  lemma {:induction false} ChancedEdgesMembers(subsetEdges: seq<set<nat>>, chances: seq<nat>)
    requires forall k :: 0 <= k < |chances| ==> chances[k] < |subsetEdges|
    ensures forall e :: e in ChancedEdges(subsetEdges, chances) <==>
      exists k :: 0 <= k < |chances| && e in subsetEdges[chances[k]]
    decreases |chances|
  {
    if chances != [] {
      ChancedEdgesMembers(subsetEdges, chances[1..]);
      forall e | exists k :: 0 <= k < |chances| && e in subsetEdges[chances[k]]
        ensures e in ChancedEdges(subsetEdges, chances)
      {
        var k :| 0 <= k < |chances| && e in subsetEdges[chances[k]];
        if k > 0 {
          assert chances[1..][k - 1] == chances[k];
        }
      }
    }
  }

  /** What the rounds of `SubsetRounds` keep, with budget `budget0` at the start: the
      chances left come from the first chance list; the budget stays between 0 and
      `budget0`, and each unit spent is one edge with a sample; every edge with a sample
      lies in a subset named by a chance; while budget is left, every subset named by a
      chance that is gone has all its edges sampled. */
  ghost predicate RoundsKept(subsetEdges: seq<set<nat>>, chances0: seq<nat>, budget0: int,
                             chances: seq<nat>, edgeProb: map<nat, real>, budget: int)
  {
    (forall k :: 0 <= k < |chances0| ==> chances0[k] < |subsetEdges|)
    && (forall v :: v in chances ==> v in chances0)
    && (budget0 <= 0 ==> budget == budget0 && edgeProb == map[])
    && (budget0 > 0 ==> 0 <= budget <= budget0 && |edgeProb| == budget0 - budget)
    && edgeProb.Keys <= ChancedEdges(subsetEdges, chances0)
    && (budget > 0 ==> forall k :: 0 <= k < |chances0| ==>
          chances0[k] in chances || subsetEdges[chances0[k]] <= edgeProb.Keys)
  }

  /** One round keeps `RoundsKept`: the subset `x` named by a chance records the edges
      `Recorded` gives, which spends exactly as much budget as edges recorded, and then
      its chances, and no other, go. */
  lemma RoundKeeps(subsetEdges: seq<set<nat>>, chances0: seq<nat>, budget0: int,
                   chances: seq<nat>, edgeProb: map<nat, real>, budget: int,
                   x: nat, taken: seq<nat>, chances': seq<nat>, edgeProb': map<nat, real>, budget': int)
    requires RoundsKept(subsetEdges, chances0, budget0, chances, edgeProb, budget)
    requires budget > 0 && x in chances && Fits(subsetEdges[x], NUM_EDGES)
    requires taken == Recorded(Walk(subsetEdges[x], 0), edgeProb.Keys, budget)
    requires forall k :: k in edgeProb' <==> k in edgeProb || k in taken
    requires budget' == budget - |taken|
    requires forall v :: v in chances' ==> v in chances
    requires forall v :: v in chances && v != x ==> v in chances'
    ensures RoundsKept(subsetEdges, chances0, budget0, chances', edgeProb', budget')
  {
    WalkMembers(subsetEdges[x], 0);
    RecordedProps(Walk(subsetEdges[x], 0), edgeProb.Keys, budget);
    assert |edgeProb'| == |edgeProb| + |taken| by {
      assert edgeProb'.Keys == edgeProb.Keys + Elements(taken);
      assert edgeProb.Keys * Elements(taken) == {};
      DistinctCard(taken);
    }
    ChancedEdgesMembers(subsetEdges, chances0);
    var k0 :| 0 <= k0 < |chances0| && chances0[k0] == x;
    assert subsetEdges[chances0[k0]] <= ChancedEdges(subsetEdges, chances0);
    if budget' > 0 {
      forall e | e in subsetEdges[x] ensures e in edgeProb' {
        assert e in Walk(subsetEdges[x], 0);
      }
    }
  }

  /** The subset loop of `SampleWeightedRandom`, with the erase of the whole run of the
      drawn subset's chances, the generator at position `start` and the budget `budget0`:
      a number of the generator picks an entry of the chance list, the subset it names
      records edges while budget lasts (`RecordDraws`), and the subset's run of chances
      goes. The chance list shrinks each round, so the loop ends; the budget never drops
      below 0 and every unit spent records a new edge; every recorded edge lies in a
      subset that had chances; budget left over means every such subset had all its
      edges recorded. */
  method SubsetRounds(draws: nat -> real, start: nat, subsetEdges: seq<set<nat>>, chances0: seq<nat>, budget0: int)
    returns (edgeProb: map<nat, real>, sampleEdges: set<nat>, budget: int, next: nat)
    requires forall i: nat :: 0.0 <= draws(i) < 1.0
    requires forall k :: 0 <= k < |chances0| ==> chances0[k] < |subsetEdges|
    requires forall k :: 0 <= k < |subsetEdges| ==> Fits(subsetEdges[k], NUM_EDGES)
    ensures next >= start
    ensures sampleEdges == edgeProb.Keys
    ensures budget0 <= 0 ==> budget == budget0 && edgeProb == map[]
    ensures budget0 > 0 ==> 0 <= budget <= budget0 && |edgeProb| == budget0 - budget
    ensures edgeProb.Keys <= ChancedEdges(subsetEdges, chances0)
    ensures budget > 0 ==> forall k, e :: 0 <= k < |chances0| && e in subsetEdges[chances0[k]] ==> e in edgeProb
  {
    edgeProb, sampleEdges, budget, next := map[], {}, budget0, start;
    var chances := chances0;
    while budget > 0 && |chances| > 0
      invariant next >= start && sampleEdges == edgeProb.Keys
      invariant RoundsKept(subsetEdges, chances0, budget0, chances, edgeProb, budget)
      decreases |chances|
    {
      var d := draws(next);
      next := next + 1;
      var index := ScaledIndex(d, |chances|);
      var x := chances[index];
      assert x in chances0;
      ghost var before, budgetBefore, chancesBefore := edgeProb, budget, chances;
      ghost var taken;
      edgeProb, sampleEdges, budget, next, taken := RecordDraws(draws, next, subsetEdges[x], edgeProb, sampleEdges, budget);
      var first, last := RunAround(chances, index);
      chances := ErasedRun(chances, first, last);
      RoundKeeps(subsetEdges, chances0, budget0, chancesBefore, before, budgetBefore, x, taken, chances, edgeProb, budget);
    }
  }

  /* ---------------------------------------------------------------- the solver */

  /** `DBL_MAX`, the largest finite double, where the search for the fastest probe
      starts. */
  const DBL_MAX: real := 179769313486231570814527423731704356798070567525844996598917476803157260780028538760589558632766878171540458953514382464234321326889464182768467546703537516986049910576551282076245490090389328944075868508455133942304583236903222948165808559332123348274797826204144723168738177180919299881250404026184124858368.0

  /** `SamplingSolver`. */
  class SamplingSolver {
    /** `num_iteration_`. */
    const numIteration: int
    /** `success_prob_`. */
    const successProb: real
    /** `probe_size_`. */
    const probeSize: int
    /** `probe_repeat_`. */
    const probeRepeat: int
    /** `fixed_`. */
    const fixed: bool
    /** `weighted_`. */
    const weighted: bool
    /** `graph_`, the preprocessed graph. */
    const graph: Graphs.Graph
    /** The random numbers in the order `NextRand` hands them out. */
    const draws: nat -> real
    /** How many random numbers have been handed out. */
    var drawn: nat
    /** The clock readings, in milliseconds, in the order `GetCPUTime` takes them. */
    const clock: nat -> real
    /** How many clock readings have been taken. */
    var ticks: nat

    /** The graph is well formed, with SOURCE and SINK indexed and live, ids within the
        bitset widths and weights that are probabilities; the random numbers lie in
        [0, 1). */
    ghost predicate Valid()
      reads graph
    {
      graph.Valid() && graph.NamesLive()
      && Graphs.SOURCE in graph.nodeOf && Graphs.SINK in graph.nodeOf
      && graph.nextNode <= NUM_NODES && graph.nextArc <= NUM_EDGES
      && Probabilities(graph.arcs)
      && DrawsInUnit()
    }

    /** Every number of the generator lies in [0, 1). */
    ghost predicate DrawsInUnit()
    {
      forall i: nat :: 0.0 <= draws(i) < 1.0
    }

    /** `SamplingSolver(graph, ...)`; the seeding of the generator is the choice of the
        stream `draws`. */
    constructor (graph: Graphs.Graph, numIteration: int, successProb: real, probeSize: int,
                 probeRepeat: int, fixed: bool, weighted: bool, draws: nat -> real, clock: nat -> real)
      requires graph.Valid() && graph.NamesLive()
      requires Graphs.SOURCE in graph.nodeOf && Graphs.SINK in graph.nodeOf
      requires graph.nextNode <= NUM_NODES && graph.nextArc <= NUM_EDGES && Probabilities(graph.arcs)
      requires forall i: nat :: 0.0 <= draws(i) < 1.0
      ensures Valid() && drawn == 0 && ticks == 0
      ensures this.graph == graph && this.numIteration == numIteration && this.successProb == successProb
      ensures this.probeSize == probeSize && this.probeRepeat == probeRepeat
      ensures this.fixed == fixed && this.weighted == weighted
      ensures this.draws == draws && this.clock == clock
    {
      this.graph := graph;
      this.numIteration := numIteration;
      this.successProb := successProb;
      this.probeSize := probeSize;
      this.probeRepeat := probeRepeat;
      this.fixed := fixed;
      this.weighted := weighted;
      this.draws := draws;
      this.clock := clock;
      drawn, ticks := 0, 0;
    }

    /** `NextRand()`: the next random number, in [0, 1). */
    method NextRand() returns (d: real)
      modifies this
      ensures d == draws(old(drawn)) && drawn == old(drawn) + 1 && ticks == old(ticks)
    {
      d := draws(drawn);
      drawn := drawn + 1;
    }

    /** `GetCPUTime()`: the next clock reading. */
    method GetCPUTime() returns (t: real)
      modifies this
      ensures t == clock(old(ticks)) && ticks == old(ticks) + 1 && drawn == old(drawn)
    {
      t := clock(ticks);
      ticks := ticks + 1;
    }

    /** `SampleFixed(sampleEdges)`: the walk of `FixedDraws` over `sampleEdges`, reading
        the generator from where it stands; `picked` lists the ids in increasing order and
        its `j`-th id gets the `j`-th number the call reads. */
    method SampleFixed(sampleEdges: set<nat>) returns (edgeProb: map<nat, real>, ghost picked: seq<nat>)
      requires Fits(sampleEdges, NUM_EDGES)
      modifies this
      ensures ticks == old(ticks) && drawn == old(drawn) + |picked|
      ensures edgeProb.Keys == sampleEdges
      ensures forall k :: k in sampleEdges <==> k in picked
      ensures Ascending(picked)
      ensures forall j :: 0 <= j < |picked| ==> picked[j] in edgeProb && edgeProb[picked[j]] == draws(old(drawn) + j)
    {
      edgeProb, drawn, picked := FixedDraws(draws, drawn, sampleEdges);
    }

    /** `SampleRandom()`: the walk of `RandomDraws` over the arcs of the graph, reading
        the generator from where it stands. */
    method SampleRandom() returns (edgeProb: map<nat, real>)
      requires Valid()
      modifies this
      ensures ticks == old(ticks)
      ensures (edgeProb, drawn) == RandomSampled(draws, successProb, map[], old(drawn), Walk(graph.arcs.Keys, 0))
      ensures edgeProb.Keys <= graph.arcs.Keys
    {
      var all := graph.EdgesAsBitset();
      assert all == graph.arcs.Keys;
      edgeProb, drawn := RandomDraws(draws, successProb, drawn, all);
      RandomSampledKeys(draws, successProb, map[], old(drawn), Walk(all, 0));
      WalkMembers(all, 0);
    }

    /** The budget of weighted sampling: `ceil(CountArcs() · success_prob_)` edges. */
    function WeightedBudget(): int
      reads graph
    {
      Ceil(|graph.arcs| as real * successProb)
    }

    /** The subset loop of `SampleWeightedRandom` on the subsets `subsets` and the chance
        list `chances0`, with the budget `ceil(CountArcs() · success_prob_)`: the rounds of
        `SubsetRounds`, reading the generator from where it stands. */
    method SampleWeightedRounds(subsets: seq<EdgeSubset>, chances0: seq<nat>)
      returns (edgeProb: map<nat, real>, sampleEdges: set<nat>, budget: int)
      requires DrawsInUnit()
      requires forall k :: 0 <= k < |chances0| ==> chances0[k] < |subsets|
      requires forall k :: 0 <= k < |subsets| ==> Fits(subsets[k].edges, NUM_EDGES)
      modifies this
      ensures ticks == old(ticks) && drawn >= old(drawn)
      ensures sampleEdges == edgeProb.Keys
      ensures WeightedBudget() <= 0 ==> budget == WeightedBudget() && edgeProb == map[]
      ensures WeightedBudget() > 0 ==> 0 <= budget <= WeightedBudget() && |edgeProb| == WeightedBudget() - budget
      ensures forall e :: e in edgeProb ==> exists k :: 0 <= k < |chances0| && e in subsets[chances0[k]].edges
      ensures budget > 0 ==> forall k, e :: 0 <= k < |chances0| && e in subsets[chances0[k]].edges ==> e in edgeProb
    {
      var subsetEdges := seq(|subsets|, i requires 0 <= i < |subsets| => subsets[i].edges);
      edgeProb, sampleEdges, budget, drawn := SubsetRounds(draws, drawn, subsetEdges, chances0, WeightedBudget());
      ChancedEdgesMembers(subsetEdges, chances0);
    }

    /** A fresh copy of the graph with the samples applied and then minimised: `Graph
        graph; graph.CopyFrom(graph_); graph.UpdateWeights(...); graph.Minimize();`. The
        copy is well formed, loop-free, without elementary node, with SOURCE and SINK live
        and distinct, and with weights that are probabilities. */
    method Reduced(probMap: map<nat, real>) returns (g: Graphs.Graph)
      requires Valid()
      ensures fresh(g) && g.Valid() && g.cuts == [] && Probabilities(g.arcs)
      ensures Graphs.SOURCE in g.nodeOf && Graphs.SINK in g.nodeOf
      ensures g.nodeOf[Graphs.SOURCE] in g.nodes && g.nodeOf[Graphs.SINK] in g.nodes
      ensures g.nodeOf[Graphs.SOURCE] != g.nodeOf[Graphs.SINK]
      ensures LoopFree(g.arcs)
    {
      g := new Graphs.Graph();
      g.CopyFrom(graph);
      assert graph.names[graph.nodeOf[Graphs.SOURCE]] == Graphs.SOURCE;
      assert graph.names[graph.nodeOf[Graphs.SINK]] == Graphs.SINK;
      assert Graphs.SOURCE in Graphs.NameSet(g.names, g.nodes);
      assert Graphs.SINK in Graphs.NameSet(g.names, g.nodes);
      Graphs.WeightsUpdatedDecides(g.arcs, g.names, probMap, g.nodes);
      g.UpdateWeights(probMap);
      ghost var passes;
      passes := g.Minimize();
    }

    /** One iteration of the estimate on the samples `probMap`: more than one arc left
        means an exact solve with the sausage solver (no answer when the reduced graph's
        ids outgrow the bitsets, or when the solver has none); a single arc contributes its
        weight when it joins SOURCE to SINK and nothing otherwise; no arc contributes 0.0.
        With at most one arc left the contribution is exactly the chance that SINK is
        reachable in the reduced graph `reduced` from `s` to `t`. */
    method Iteration(probMap: map<nat, real>)
      returns (c: Option<real>, arcCount: nat, ghost reduced: ArcMap, ghost s: nat, ghost t: nat, ghost ids: seq<nat>)
      requires Valid()
      ensures arcCount == |reduced| && s != t
      ensures c.Some? ==> 0.0 <= c.value <= 1.0
      ensures arcCount <= 1 ==> Elements(ids) == reduced.Keys && c == Some(Reliability(reduced, ids, map[], s, t))
    {
      var g := Reduced(probMap);
      reduced, s, t := g.arcs, g.nodeOf[Graphs.SOURCE], g.nodeOf[Graphs.SINK];
      arcCount := |g.arcs|;
      ids := [];
      if arcCount > 1 {
        ghost var terms;
        c, terms := ExactSolve(g);
      } else if arcCount == 1 {
        var id :| id in g.arcs;
        assert g.arcs.Keys == {id} by {
          forall k | k in g.arcs ensures k == id {
            if k != id {
              assert {id, k} <= g.arcs.Keys;
              SubsetCard({id, k}, g.arcs.Keys);
            }
          }
        }
        ids := [id];
        ElementsAppend([], id);
        assert [] + [id] == ids;
        var arc := g.arcs[id];
        c := Some(LoneArc(arc, g.nodeOf[Graphs.SOURCE], g.nodeOf[Graphs.SINK]));
        LoneArcExact(reduced, id, s, t);
      } else {
        assert reduced == map[];
        NoArcExact(s, t);
        c := Some(0.0);
      }
    }

    /** The exact solve of a reduced graph by the sausage solver: no answer when its ids
        outgrow the bitsets; otherwise the solver's `GetResult` on its final live terms,
        which are keyed by distinct subsets of the SINK node, so that the answer is the
        coefficient of the term that reached the sink whenever one did. */
    static method ExactSolve(g: Graphs.Graph) returns (c: Option<real>, ghost terms: seq<TermAlgebra.TermValue>)
      requires g.Valid() && g.cuts == [] && Probabilities(g.arcs)
      requires Graphs.SOURCE in g.nodeOf && Graphs.SINK in g.nodeOf
      modifies g
      ensures g.nodeOf == old(g.nodeOf) && g.arcs == old(g.arcs)
      ensures !(old(g.nextNode) <= NUM_NODES && old(g.nextArc) <= NUM_EDGES) ==> c == None
      ensures old(g.nextNode) <= NUM_NODES && old(g.nextArc) <= NUM_EDGES ==>
        c == Poly.ResultOf(terms) && Settled(terms, {g.nodeOf[Graphs.SINK]})
      ensures forall i :: 0 <= i < |terms| && terms[i].reachable == {g.nodeOf[Graphs.SINK]} ==> c == Some(terms[i].coef)
      ensures c.Some? ==> Poly.Total(terms) == 1.0 && 0.0 <= c.value <= 1.0
    {
      if g.nextNode <= NUM_NODES && g.nextArc <= NUM_EDGES {
        var solver := new SausageSolver(g);
        ghost var sausages, added;
        c, sausages, added := solver.Solve();
        terms := solver.P.terms;
      } else {
        c, terms := None, [];
      }
    }

    /** The number of timed solves per probe: `probe_repeat_`, or none when it is not
        positive. */
    function Repeats(): nat
    {
      if probeRepeat > 0 then probeRepeat else 0
    }

    /** The time `n` timed solves measure when their clock readings start at position
        `from`: each solve reads the clock before and after, and adds the difference. */
    ghost function Elapsed(from: nat, n: nat): real
    {
      if n == 0 then 0.0 else Elapsed(from, n - 1) + (clock(from + 2 * (n - 1) + 1) - clock(from + 2 * (n - 1)))
    }

    /** The inner loop of `Probe()` for one sample: `probe_repeat_` times, a fresh copy of
        the graph with the arcs of `sampleEdges` sampled afresh (`SampleFixed`) is reduced
        and, with more than one arc left, solved by the sausage solver between two clock
        readings. The probe time is the sum of the differences of those readings. */
    method ProbeTime(sampleEdges: set<nat>) returns (probeTime: real)
      requires Valid() && Fits(sampleEdges, NUM_EDGES)
      modifies this
      ensures ticks == old(ticks) + 2 * Repeats()
      ensures probeTime == Elapsed(old(ticks), Repeats())
    {
      probeTime := 0.0;
      ghost var t0 := ticks;
      var j := 0;
      while j < probeRepeat
        invariant 0 <= j && (j <= probeRepeat || j == 0)
        invariant ticks == t0 + 2 * j
        invariant probeTime == Elapsed(t0, j)
      {
        var dt := TimedSample(sampleEdges);
        probeTime := probeTime + dt;
        j := j + 1;
      }
    }

    /** One repetition of the inner loop of `Probe()`: the arcs of `sampleEdges` are
        sampled afresh into a reduced copy of the graph, whose solve is timed. */
    method TimedSample(sampleEdges: set<nat>) returns (dt: real)
      requires Valid() && Fits(sampleEdges, NUM_EDGES)
      modifies this
      ensures ticks == old(ticks) + 2
      ensures dt == clock(old(ticks) + 1) - clock(old(ticks))
    {
      var fixedMap;
      ghost var picked;
      fixedMap, picked := SampleFixed(sampleEdges);
      var g := Reduced(fixedMap);
      dt := TimedSolve(g);
    }

    /** One timed solve of a reduced copy: the clock is read, the sausage solver runs when
        more than one arc is left, and the clock is read again; the result is the
        difference of the two readings. */
    method TimedSolve(g: Graphs.Graph) returns (dt: real)
      requires g.Valid() && g.cuts == [] && Probabilities(g.arcs)
      requires Graphs.SOURCE in g.nodeOf && Graphs.SINK in g.nodeOf
      modifies this, g
      ensures ticks == old(ticks) + 2 && drawn == old(drawn)
      ensures dt == clock(old(ticks) + 1) - clock(old(ticks))
    {
      var tStart := GetCPUTime();
      if |g.arcs| > 1 {
        var val;
        ghost var terms;
        val, terms := ExactSolve(g);
      }
      var tEnd := GetCPUTime();
      dt := tEnd - tStart;
    }

    /** One pass of the outer loop of `Probe()`: the arcs drawn by `SampleRandom` form the
        sample, timed by `ProbeTime`. */
    method ProbeSample() returns (sampleEdges: set<nat>, probeTime: real)
      requires Valid()
      modifies this
      ensures sampleEdges <= graph.arcs.Keys
      ensures probeTime == Elapsed(old(ticks), Repeats())
    {
      var probMap := SampleRandom();
      sampleEdges := probMap.Keys;
      probeTime := ProbeTime(sampleEdges);
    }

    /** `Probe()`, without weighting: `probe_size_` probes, each a sample of arcs drawn by
        `SampleRandom` and timed by `ProbeTime`. The probe kept is the first whose time is
        below `DBL_MAX`, below every earlier time and not above any later one; when no
        time is below `DBL_MAX` the empty set is kept. */
    method Probe() returns (minTimeEdges: set<nat>, ghost samples: seq<set<nat>>, ghost times: seq<real>,
                            ghost choice: Option<nat>)
      requires Valid() && !weighted
      modifies this
      ensures |samples| == |times| && (probeSize > 0 ==> |times| == probeSize)
      ensures forall i :: 0 <= i < |samples| ==> samples[i] <= graph.arcs.Keys
      ensures choice.None? ==> minTimeEdges == {} && forall i :: 0 <= i < |times| ==> times[i] >= DBL_MAX
      ensures choice.Some? ==> choice.value < |times| && minTimeEdges == samples[choice.value]
      ensures choice.Some? ==> times[choice.value] < DBL_MAX
      ensures choice.Some? ==> forall i :: 0 <= i < choice.value ==> times[i] > times[choice.value]
      ensures choice.Some? ==> forall i :: choice.value < i < |times| ==> times[i] >= times[choice.value]
      ensures minTimeEdges <= graph.arcs.Keys
    {
      minTimeEdges := {};
      var minTime := DBL_MAX;
      samples, times, choice := [], [], None;
      var i := 0;
      while i < probeSize
        invariant 0 <= i && (i <= probeSize || i == 0) && |samples| == |times| == i
        invariant forall k :: 0 <= k < |samples| ==> samples[k] <= graph.arcs.Keys
        invariant choice.None? ==> minTimeEdges == {} && minTime == DBL_MAX && forall k :: 0 <= k < |times| ==> times[k] >= DBL_MAX
        invariant choice.Some? ==> choice.value < |times| && minTimeEdges == samples[choice.value] && minTime == times[choice.value]
        invariant choice.Some? ==> times[choice.value] < DBL_MAX
        invariant choice.Some? ==> forall k :: 0 <= k < choice.value ==> times[k] > times[choice.value]
        invariant choice.Some? ==> forall k :: choice.value < k < |times| ==> times[k] >= times[choice.value]
        invariant minTimeEdges <= graph.arcs.Keys
      {
        var sampleEdges, probeTime := ProbeSample();
        samples := samples + [sampleEdges];
        times := times + [probeTime];
        if probeTime < minTime {
          minTime := probeTime;
          minTimeEdges := sampleEdges;
          choice := Some(|times| - 1);
        }
        i := i + 1;
      }
    }

    /** The loop of `solve()`: `numIteration` passes of `SampleAndIterate`, summing the
        contributions into `result`; `failed` records a pass that found no contribution. */
    method Iterate(sampleEdges: set<nat>) returns (failed: bool, result: real, ghost contributions: seq<real>)
      requires Valid() && sampleEdges <= graph.arcs.Keys
      modifies this
      ensures !failed && numIteration >= 0 ==> |contributions| == numIteration && result == Accumulated(contributions)
      ensures forall k :: 0 <= k < |contributions| ==> 0.0 <= contributions[k] <= 1.0
    {
      result, contributions, failed := 0.0, [], false;
      var i := 0;
      while i < numIteration
        invariant 0 <= i && (i <= numIteration || i == 0)
        invariant !failed ==> |contributions| == i && result == Accumulated(contributions)
        invariant forall k :: 0 <= k < |contributions| ==> 0.0 <= contributions[k] <= 1.0
      {
        var c := SampleAndIterate(sampleEdges);
        if c.Some? {
          assert (contributions + [c.value])[..|contributions|] == contributions;
          result := result + c.value;
          contributions := contributions + [c.value];
        } else {
          failed := true;
        }
        i := i + 1;
      }
    }

    /** One pass of the loop of `solve()`: the weights drawn for `sampleEdges` when the
        sample is fixed, or for every arc otherwise, then `Iteration` on them. */
    method SampleAndIterate(sampleEdges: set<nat>) returns (c: Option<real>)
      requires Valid() && sampleEdges <= graph.arcs.Keys
      modifies this
      ensures c.Some? ==> 0.0 <= c.value <= 1.0
    {
      var probMap;
      if fixed {
        ghost var picked;
        probMap, picked := SampleFixed(sampleEdges);
      } else {
        probMap := SampleRandom();
      }
      var arcCount;
      ghost var reduced, s, t, ids;
      c, arcCount, reduced, s, t, ids := Iteration(probMap);
    }

    /** `Solve()`: in fixed mode the probe picks the arcs to sample and every iteration
        samples exactly those; otherwise every iteration samples afresh. The answer is the
        mean of the iterations' contributions, each in [0, 1], so it lies in [0, 1]; no
        answer when an iteration has none. With no iteration the division is `0.0 / 0`,
        not a number, so no answer; with a negative count it is `0.0` divided by that
        count, which is zero. The graph is never modified. */
    method Solve() returns (r: Option<real>, ghost contributions: seq<real>)
      requires Valid() && !(fixed && weighted)
      modifies this
      ensures unchanged(graph)
      ensures numIteration == 0 ==> r == None
      ensures numIteration < 0 ==> r == Some(0.0)
      ensures r.Some? && numIteration > 0 ==> |contributions| == numIteration && r.value == Mean(contributions)
      ensures r.Some? ==> forall i :: 0 <= i < |contributions| ==> 0.0 <= contributions[i] <= 1.0
      ensures r.Some? ==> 0.0 <= r.value <= 1.0
    {
      var result;
      var sampleEdges: set<nat> := {};
      if fixed {
        ghost var samples, times, choice;
        sampleEdges, samples, times, choice := Probe();
      }
      var failed;
      failed, result, contributions := Iterate(sampleEdges);
      if numIteration < 0 {
        r := Some(0.0);
      } else if failed || numIteration == 0 {
        r := None;
      } else {
        MeanBounded(contributions);
        r := Some(result / numIteration as real);
      }
    }
  }
}
