/** A term of the reliability polynomial: a partial assignment of the edges (present,
    surely absent or undecided) with the probability of that assignment and the nodes
    already known to be reached. */
module TermAlgebra {
  import opened Reach
  import opened Sums

  /** The value of a term; the program copies terms by value.
      `x` holds the edges present in the term, `y` every edge except the surely absent
      ones, `coef` the probability of the represented edge subset, and `reachable` the
      nodes reached so far. */
  datatype TermValue = TermValue(x: set<nat>, y: set<nat>, coef: real, reachable: set<nat>)

  /** The bitsets fit their width and no present edge is also absent. */
  predicate Consistent(v: TermValue)
  {
    Fits(v.y, NUM_EDGES) && v.x <= v.y
  }

  /** The edges the term has decided: present ones and surely absent ones. */
  function Decided(v: TermValue): set<nat>
  {
    v.x + (AllEdges() - v.y)
  }

  /** Edge `e` is neither present nor surely absent in `v`. */
  predicate Undecided(v: TermValue, e: nat)
  {
    e !in v.x && e in v.y
  }

  /** The value of a default-constructed term. */
  function FreshValue(): TermValue
  {
    TermValue({}, AllEdges(), 1.0, {})
  }

  /** The value `Multiply(e, p, isPresent)` leaves behind. */
  function Multiplied(v: TermValue, e: nat, p: real, isPresent: bool): TermValue
  {
    if isPresent then v.(x := v.x + {e}, coef := v.coef * p)
    else v.(y := v.y - {e}, coef := v.coef * (1.0 - p))
  }

  /** Nodes of `end` surely reached: reachable from the carried nodes over present edges. */
  function SureReachable(v: TermValue, end: set<nat>, t: TerminalMap): set<nat>
  {
    end * Closure(v.reachable, v.x, t)
  }

  /** Nodes of `end` surely unreached: not reachable even over every edge of `mid`
      that is not surely absent. */
  function SureUnreachable(v: TermValue, mid: set<nat>, end: set<nat>, t: TerminalMap): set<nat>
  {
    end - Closure(v.reachable, mid * v.y, t)
  }

  /** The term collapses: every end node is surely reached or surely unreached. */
  predicate Resolves(v: TermValue, mid: set<nat>, end: set<nat>, t: TerminalMap)
  {
    end == SureReachable(v, end, t) + SureUnreachable(v, mid, end, t)
  }

  /** Splitting a term on an undecided edge: the two children keep the term consistent,
      decide exactly one more edge, and their coefficients add up to the parent's. */
  lemma MultiplySplits(v: TermValue, e: nat, p: real)
    requires Consistent(v) && e < NUM_EDGES && Undecided(v, e)
    ensures Consistent(Multiplied(v, e, p, true)) && Consistent(Multiplied(v, e, p, false))
    ensures Decided(Multiplied(v, e, p, true)) == Decided(v) + {e}
    ensures Decided(Multiplied(v, e, p, false)) == Decided(v) + {e}
    ensures Multiplied(v, e, p, true).coef + Multiplied(v, e, p, false).coef == v.coef
  {
    assert v.coef * p + v.coef * (1.0 - p) == v.coef * (p + (1.0 - p));
  }

  /** Splitting a term of coefficient at least 0 with a probability gives children of
      coefficient at least 0. */
  lemma MultipliedNonNegative(v: TermValue, e: nat, p: real)
    requires v.coef >= 0.0 && 0.0 <= p <= 1.0
    ensures Multiplied(v, e, p, true).coef >= 0.0 && Multiplied(v, e, p, false).coef >= 0.0
  {
    ProductNonNegative(v.coef, p);
    ProductNonNegative(v.coef, 1.0 - p);
  }

  /** When the present edges lie within the non-absent edges of `mid`, no end node is
      both surely reached and surely unreached. */
  lemma SureSetsDisjoint(v: TermValue, mid: set<nat>, end: set<nat>, t: TerminalMap)
    requires v.x <= mid * v.y
    ensures SureReachable(v, end, t) * SureUnreachable(v, mid, end, t) == {}
  {
    ClosureMonotone(v.reachable, v.reachable, v.x, mid * v.y, t);
  }

  /** A term that has decided every edge of `mid`, and no present edge outside it,
      always collapses: both traversals see the same edges. */
  lemma DecidedTermResolves(v: TermValue, mid: set<nat>, end: set<nat>, t: TerminalMap)
    requires Consistent(v) && Fits(mid, NUM_EDGES) && v.x <= mid && mid <= Decided(v)
    ensures Resolves(v, mid, end, t)
  {
    assert mid * v.y == v.x;
  }

  /** A term object; `Multiply` and `Collapse` update it in place. */
  class Term {
    var x: set<nat>
    var y: set<nat>
    var coef: real
    var reachable: set<nat>

    function Value(): TermValue
      reads this
    {
      TermValue(x, y, coef, reachable)
    }

    ghost predicate Valid()
      reads this
    {
      Consistent(Value())
    }

    /** `Term()`: coefficient 1, no present edge, every edge possibly present, nothing reached. */
    constructor ()
      ensures Valid() && Value() == FreshValue()
    {
      x := {};
      y := AllEdges();
      coef := 1.0;
      reachable := {};
    }

    /** A copy of a term value (the program's copy construction). */
    constructor Copy(v: TermValue)
      ensures Value() == v
    {
      x := v.x;
      y := v.y;
      coef := v.coef;
      reachable := v.reachable;
    }

    /** Decides edge `e`: present with probability `p`, or absent with probability `1 - p`.
        The edge must fit the bitset, `p` must be a probability and the edge undecided. */
    method Multiply(e: nat, p: real, isPresent: bool)
      requires Valid() && e < NUM_EDGES && 0.0 <= p <= 1.0 && Undecided(Value(), e)
      modifies this
      ensures Valid()
      ensures isPresent ==> x == old(x) + {e} && y == old(y) && coef == old(coef) * p
      ensures !isPresent ==> y == old(y) - {e} && x == old(x) && coef == old(coef) * (1.0 - p)
      ensures reachable == old(reachable)
      ensures Value() == Multiplied(old(Value()), e, p, isPresent)
    {
      if isPresent {
        x := x + {e};
        coef := coef * p;
      } else {
        y := y - {e};
        coef := coef * (1.0 - p);
      }
    }

    /** Checks whether the term collapses on the end nodes `end`, given the edges `mid` of the
        current stage and their terminals `t`. The carried reachable set always becomes the
        closure over the present edges; on a collapse the surely reached end nodes are
        returned in `z` (left empty otherwise, as the caller passes a fresh set). */
    method Collapse(mid: set<nat>, end: set<nat>, t: TerminalMap) returns (collapsed: bool, z: set<nat>)
      requires Valid()
      modifies this`reachable
      ensures Valid()
      ensures reachable == Closure(old(reachable), x, t) && old(reachable) <= reachable
      ensures collapsed == Resolves(old(Value()), mid, end, t)
      ensures z == if collapsed then SureReachable(old(Value()), end, t) else {}
    {
      var r := Propagate(reachable, x, t, NUM_EDGES);
      var reachedX := Propagate(reachable, x, t, NUM_EDGES);
      var sure := end * reachedX;
      var yInverse := mid * y;
      var reachedY := Propagate(reachable, yInverse, t, NUM_EDGES);
      var unreachable := end - reachedY;
      reachable := r;
      if end == sure + unreachable {
        z := sure;
        collapsed := true;
      } else {
        z := {};
        collapsed := false;
      }
    }
  }
}
