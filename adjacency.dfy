/** The adjacency-list graph over integer node ids: one record per edge in a list indexed by
    edge id, a bitset of the live edges, and per node the sets of ids of the edges leaving
    and entering it. */
module Adjacency {
  import opened Reach

  /** `EInfo`: the success probability and the endpoints of one edge. */
  datatype EInfo = EInfo(p: real, source: nat, target: nat)

  /** The record with its endpoints swapped. */
  function Flip(info: EInfo): EInfo
  {
    EInfo(info.p, info.target, info.source)
  }

  /** Every record of the list with its endpoints swapped. */
  function Flipped(infos: seq<EInfo>): (r: seq<EInfo>)
    ensures |r| == |infos|
  {
    seq(|infos|, i requires 0 <= i < |infos| => Flip(infos[i]))
  }

  /** Swapping the endpoints twice gives back the records. */
  lemma FlippedTwice(infos: seq<EInfo>)
    ensures Flipped(Flipped(infos)) == infos
  {
    assert forall i :: 0 <= i < |infos| ==> Flipped(Flipped(infos))[i] == infos[i];
  }

  /** The ids of the self-loops among the records. */
  function SelfLoops(infos: seq<EInfo>): set<nat>
  {
    set i | 0 <= i < |infos| && infos[i].source == infos[i].target
  }

  /** `NewGraph`. */
  class NewGraph {
    /** `curr_edge_`: the id of the next edge. */
    var currEdge: nat
    /** `nodes_`. */
    var nodes: set<nat>
    /** `edges_`: the live edges. */
    var edges: set<nat>
    /** `edge_info_`: the record of every edge ever added, by id. */
    var edgeInfo: seq<EInfo>
    /** `out_edges_`: per node, the ids of the edges leaving it. */
    var outEdges: seq<set<nat>>
    /** `in_edges_`: per node, the ids of the edges entering it. */
    var inEdges: seq<set<nat>>

    /** The live edges whose record starts at `v`. */
    ghost function LiveFrom(v: nat): set<nat>
      reads this
    {
      set e | e in edges && e < |edgeInfo| && edgeInfo[e].source == v
    }

    /** The live edges whose record ends at `v`. */
    ghost function LiveInto(v: nat): set<nat>
      reads this
    {
      set e | e in edges && e < |edgeInfo| && edgeInfo[e].target == v
    }

    /** Ids are handed out in order, the records' endpoints are nodes that fit the node
        bitset, and each node's adjacency sets hold exactly the live edges leaving and
        entering it. */
    ghost predicate Valid()
      reads this
    {
      |outEdges| == NUM_NODES && |inEdges| == NUM_NODES
      && currEdge == |edgeInfo| <= NUM_EDGES
      && Fits(nodes, NUM_NODES)
      && (forall e :: e in edges ==> e < |edgeInfo|)
      && (forall i :: 0 <= i < |edgeInfo| ==> edgeInfo[i].source in nodes && edgeInfo[i].target in nodes)
      && (forall v: nat :: v < NUM_NODES ==> outEdges[v] == LiveFrom(v))
      && (forall v: nat :: v < NUM_NODES ==> inEdges[v] == LiveInto(v))
    }

    /** `NewGraph()`: no node, no edge, an empty adjacency set for each of `NUM_NODES`
        nodes. */
    constructor ()
      ensures Valid()
      ensures currEdge == 0 && nodes == {} && edges == {} && edgeInfo == []
      ensures outEdges == seq(NUM_NODES, _ => {}) && inEdges == seq(NUM_NODES, _ => {})
    {
      currEdge, nodes, edges, edgeInfo := 0, {}, {}, [];
      outEdges := seq(NUM_NODES, _ => {});
      inEdges := seq(NUM_NODES, _ => {});
    }

    /** `AddNode(i)`: the node bitset demands `i` below `NUM_NODES`. */
    method AddNode(i: nat)
      requires Valid() && i < NUM_NODES
      modifies this
      ensures Valid()
      ensures nodes == old(nodes) + {i}
      ensures currEdge == old(currEdge) && edges == old(edges) && edgeInfo == old(edgeInfo)
      ensures outEdges == old(outEdges) && inEdges == old(inEdges)
    {
      nodes := nodes + {i};
    }

    /** `AddEdge(source, target, p)`: the new edge takes the id `curr_edge_`, which was no
        live edge's; its record is appended, it becomes live and joins the out-set of
        `source` and the in-set of `target`; then `curr_edge_` moves on. The bitsets demand
        both nodes below `NUM_NODES` and the id below `NUM_EDGES`. */
    method AddEdge(source: nat, target: nat, p: real)
      requires Valid() && source < NUM_NODES && target < NUM_NODES && currEdge < NUM_EDGES
      modifies this
      ensures Valid()
      ensures old(currEdge) !in old(edges)
      ensures nodes == old(nodes) + {source, target}
      ensures edgeInfo == old(edgeInfo) + [EInfo(p, source, target)]
      ensures edges == old(edges) + {old(currEdge)} && currEdge == old(currEdge) + 1
      ensures outEdges == old(outEdges)[source := old(outEdges)[source] + {old(currEdge)}]
      ensures inEdges == old(inEdges)[target := old(inEdges)[target] + {old(currEdge)}]
    {
      AddNode(source);
      AddNode(target);
      var id := currEdge;
      edgeInfo := edgeInfo + [EInfo(p, source, target)];
      edges := edges + {id};
      outEdges := outEdges[source := outEdges[source] + {id}];
      inEdges := inEdges[target := inEdges[target] + {id}];
      currEdge := currEdge + 1;
      forall v: nat | v < NUM_NODES
        ensures outEdges[v] == LiveFrom(v) && inEdges[v] == LiveInto(v)
      {
        assert old(LiveFrom(v)) == old(outEdges)[v] && old(LiveInto(v)) == old(inEdges)[v];
      }
    }

    /** `Reverse()`: the loop swaps the endpoints in every record, live or not; then the
        out-sets and the in-sets trade places. */
    method Reverse()
      requires Valid()
      modifies this
      ensures Valid()
      ensures edgeInfo == Flipped(old(edgeInfo))
      ensures outEdges == old(inEdges) && inEdges == old(outEdges)
      ensures nodes == old(nodes) && edges == old(edges) && currEdge == old(currEdge)
    {
      var i := 0;
      while i < |edgeInfo|
        invariant 0 <= i <= |edgeInfo| == |old(edgeInfo)|
        invariant forall k :: 0 <= k < i ==> edgeInfo[k] == Flip(old(edgeInfo)[k])
        invariant forall k :: i <= k < |edgeInfo| ==> edgeInfo[k] == old(edgeInfo)[k]
        invariant nodes == old(nodes) && edges == old(edges) && currEdge == old(currEdge)
        invariant outEdges == old(outEdges) && inEdges == old(inEdges)
      {
        var info := edgeInfo[i];
        edgeInfo := edgeInfo[i := EInfo(info.p, info.target, info.source)];
        i := i + 1;
      }
      var temp := outEdges;
      outEdges := inEdges;
      inEdges := temp;
      forall v: nat | v < NUM_NODES
        ensures outEdges[v] == LiveFrom(v) && inEdges[v] == LiveInto(v)
      {
        assert old(LiveFrom(v)) == old(outEdges)[v] && old(LiveInto(v)) == old(inEdges)[v];
      }
    }

    /** `RemoveEdge(i)`: edge `i` is no longer live and leaves the adjacency sets of its
        endpoints; its record stays. The record list is indexed, so `i` must name a record;
        removing an edge that is not live changes nothing. */
    method RemoveEdge(i: nat)
      requires Valid() && i < |edgeInfo|
      modifies this
      ensures Valid()
      ensures edges == old(edges) - {i}
      ensures nodes == old(nodes) && edgeInfo == old(edgeInfo) && currEdge == old(currEdge)
      ensures outEdges == old(outEdges)[edgeInfo[i].source := old(outEdges)[edgeInfo[i].source] - {i}]
      ensures inEdges == old(inEdges)[edgeInfo[i].target := old(inEdges)[edgeInfo[i].target] - {i}]
    {
      edges := edges - {i};
      var info := edgeInfo[i];
      outEdges := outEdges[info.source := outEdges[info.source] - {i}];
      inEdges := inEdges[info.target := inEdges[info.target] - {i}];
      forall v: nat | v < NUM_NODES
        ensures outEdges[v] == LiveFrom(v) && inEdges[v] == LiveInto(v)
      {
        assert old(LiveFrom(v)) == old(outEdges)[v] && old(LiveInto(v)) == old(inEdges)[v];
      }
    }

    /** `RemoveSelfCycles()`: every edge whose record is a self-loop is removed, and no
        other edge is touched, so no live self-loop is left. When none was live nothing
        changes, so a second call is a no-op. */
    method RemoveSelfCycles()
      requires Valid()
      modifies this
      ensures Valid()
      ensures edges == old(edges) - SelfLoops(edgeInfo)
      ensures forall e :: e in edges ==> edgeInfo[e].source != edgeInfo[e].target
      ensures nodes == old(nodes) && edgeInfo == old(edgeInfo) && currEdge == old(currEdge)
      ensures old(edges) * SelfLoops(edgeInfo) == {} ==> outEdges == old(outEdges) && inEdges == old(inEdges)
    {
      var i := 0;
      while i < |edgeInfo|
        invariant Valid() && 0 <= i <= |edgeInfo|
        invariant nodes == old(nodes) && edgeInfo == old(edgeInfo) && currEdge == old(currEdge)
        invariant edges == old(edges) - (SelfLoops(edgeInfo) * Below(i))
      {
        if edgeInfo[i].source == edgeInfo[i].target {
          RemoveEdge(i);
        }
        i := i + 1;
      }
      assert SelfLoops(edgeInfo) * Below(i) == SelfLoops(edgeInfo);
      if old(edges) * SelfLoops(edgeInfo) == {} {
        forall v: nat | v < NUM_NODES
          ensures outEdges[v] == old(outEdges)[v] && inEdges[v] == old(inEdges)[v]
        {
          assert old(LiveFrom(v)) == LiveFrom(v) && old(LiveInto(v)) == LiveInto(v);
        }
      }
    }

    /** `GetNodeInDegree(v)`: the number of live edges entering `v`. */
    function GetNodeInDegree(v: nat): (d: nat)
      requires Valid() && v < NUM_NODES
      reads this
      ensures d == |LiveInto(v)| && d <= |edges|
    {
      SubsetCard(LiveInto(v), edges);
      |inEdges[v]|
    }

    /** `GetNodeOutDegree(v)`: the number of live edges leaving `v`. */
    function GetNodeOutDegree(v: nat): (d: nat)
      requires Valid() && v < NUM_NODES
      reads this
      ensures d == |LiveFrom(v)| && d <= |edges|
    {
      SubsetCard(LiveFrom(v), edges);
      |outEdges[v]|
    }
  }
}
