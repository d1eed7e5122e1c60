/** The term algebra of the legacy single-file program: terms carry their reached nodes `z`,
    the end nodes they cannot reach `w`, the present edges `x`, the absent edges `y` (not the
    complement as in the newer term) and a coefficient. Collapsing does not change a term. */
module LegacyAlgebra {
  import opened Wrappers
  import opened Sums
  import opened Reach
  import T = TermAlgebra
  import P = Poly

  /** Width of the legacy node bitset. */
  const MAX_NODES: nat := 512
  /** Width of the legacy edge bitset. */
  const MAX_EDGES: nat := 6144

  /** The value of a legacy term. */
  datatype TermValue = TermValue(z: set<nat>, w: set<nat>, x: set<nat>, y: set<nat>, coeff: real)

  /** The edge sets fit the legacy edge bitset. */
  predicate Fitting(v: TermValue)
  {
    Fits(v.x, MAX_EDGES) && Fits(v.y, MAX_EDGES)
  }

  /** The value `multiply(e, p, inverse)` leaves behind: `inverse` marks `e` absent. */
  function Multiplied(v: TermValue, e: nat, p: real, inverse: bool): TermValue
  {
    if inverse then v.(y := v.y + {e}, coeff := v.coeff * (1.0 - p))
    else v.(x := v.x + {e}, coeff := v.coeff * p)
  }

  /** End nodes surely reached over the present edges. */
  function SureReachable(v: TermValue, end: set<nat>, t: TerminalMap): set<nat>
  {
    end * Closure(v.z, v.x, t)
  }

  /** End nodes not reached even over every edge of `mid` that is not absent. */
  function SureUnreachable(v: TermValue, mid: set<nat>, end: set<nat>, t: TerminalMap): set<nat>
  {
    end - Closure(v.z, mid - v.y, t)
  }

  /** Every end node is surely reached or surely unreached. */
  predicate Resolves(v: TermValue, mid: set<nat>, end: set<nat>, t: TerminalMap)
  {
    end == SureReachable(v, end, t) + SureUnreachable(v, mid, end, t)
  }

  /** The newer form of a legacy term: the newer term keeps every edge except the absent
      ones where the legacy term keeps the absent ones. */
  function AsNew(v: TermValue): T.TermValue
  {
    T.TermValue(v.x, AllEdges() - v.y, v.coeff, v.z)
  }

  /** The newer form of every term of a list. */
  function AsNewTerms(ts: seq<TermValue>): (r: seq<T.TermValue>)
    ensures |r| == |ts| && forall i :: 0 <= i < |ts| ==> r[i] == AsNew(ts[i])
  {
    if ts == [] then [] else AsNewTerms(ts[..|ts| - 1]) + [AsNew(ts[|ts| - 1])]
  }

  /** The two collapse checks agree: on a legacy term whose present edges lie in `mid` and
      are not absent, and a newer term with the same edges whose reached nodes lie between
      the legacy `z` and what the present edges reach from it, both decide the same collapse
      to the same end nodes. */
  lemma CollapseAgrees(lt: TermValue, v: T.TermValue, mid: set<nat>, end: set<nat>, t: TerminalMap)
    requires Fits(mid, NUM_EDGES) && lt.x <= mid && lt.x * lt.y == {}
    requires v.x == lt.x && v.y == AllEdges() - lt.y
    requires lt.z <= v.reachable <= Closure(lt.z, lt.x, t)
    ensures T.SureReachable(v, end, t) == SureReachable(lt, end, t)
    ensures T.SureUnreachable(v, mid, end, t) == SureUnreachable(lt, mid, end, t)
    ensures T.Resolves(v, mid, end, t) <==> Resolves(lt, mid, end, t)
  {
    ClosureBetween(lt.z, v.reachable, lt.x, lt.x, t);
    assert mid * v.y == mid - lt.y;
    assert lt.x <= mid - lt.y by {
      assert forall e :: e in lt.x ==> e !in lt.x * lt.y;
    }
    ClosureBetween(lt.z, v.reachable, lt.x, mid - lt.y, t);
  }

  /** Closing from any set between `z` and the closure of `z` over `es1` reaches the same
      nodes over any `es2` containing `es1`. */
  lemma ClosureBetween(z: set<nat>, s: set<nat>, es1: set<nat>, es2: set<nat>, t: TerminalMap)
    requires es1 <= es2 && z <= s <= Closure(z, es1, t)
    ensures Closure(s, es2, t) == Closure(z, es2, t)
  {
    var c := Closure(z, es2, t);
    ClosureMonotone(z, z, es1, es2, t);
    ClosureMonotone(z, s, es2, es2, t);
    ClosureMonotone(s, c, es2, es2, t);
    ClosureOfClosed(c, es2, t);
  }

  /** A legacy term object; `multiply` updates it in place, `collapse` only reads it. */
  class Term {
    var z: set<nat>
    var w: set<nat>
    var x: set<nat>
    var y: set<nat>
    var coeff: real

    function Value(): TermValue
      reads this
    {
      TermValue(z, w, x, y, coeff)
    }

    /** `Term(z, w, coeff)`: no edge decided. */
    constructor (z0: set<nat>, w0: set<nat>, coeff0: real)
      ensures Value() == TermValue(z0, w0, {}, {}, coeff0)
    {
      z, w, x, y, coeff := z0, w0, {}, {}, coeff0;
    }

    /** `Term(z, w)`: no edge decided and coefficient 0, the start of an end term. */
    constructor Blank(z0: set<nat>, w0: set<nat>)
      ensures Value() == TermValue(z0, w0, {}, {}, 0.0)
    {
      z, w, x, y := z0, w0, {}, {};
      coeff := 0.0;
    }

    /** A copy of a term value. */
    constructor Copy(v: TermValue)
      ensures Value() == v
    {
      z, w, x, y, coeff := v.z, v.w, v.x, v.y, v.coeff;
    }

    /** `multiply(e, p, inverse)`: marks `e` absent with factor `1 - p` when `inverse`,
        present with factor `p` otherwise. The bit must fit the edge bitset. */
    method Multiply(e: nat, p: real, inverse: bool)
      requires e < MAX_EDGES && Fitting(Value())
      modifies this
      ensures Fitting(Value())
      ensures inverse ==> y == old(y) + {e} && x == old(x) && coeff == old(coeff) * (1.0 - p)
      ensures !inverse ==> x == old(x) + {e} && y == old(y) && coeff == old(coeff) * p
      ensures z == old(z) && w == old(w)
      ensures Value() == Multiplied(old(Value()), e, p, inverse)
    {
      if inverse {
        y := y + {e};
        coeff := coeff * (1.0 - p);
      } else {
        x := x + {e};
        coeff := coeff * p;
      }
    }

    /** `collapse(mid, t, end, newZ)`: whether every end node is surely reached over the
        present edges or surely unreached over the non-absent edges of `mid`; on a collapse
        `newZ` holds the surely reached end nodes (the caller's fresh set stays empty
        otherwise). Every traversed edge must have terminals in `t`: the program reads the
        first terminal of an empty list for a missing one. */
    method Collapse(mid: set<nat>, t: TerminalMap, end: set<nat>) returns (collapsed: bool, newZ: set<nat>)
      requires Fitting(Value()) && Fits(mid, MAX_EDGES)
      requires x + (mid - y) <= t.Keys
      ensures collapsed == Resolves(Value(), mid, end, t)
      ensures newZ == if collapsed then SureReachable(Value(), end, t) else {}
    {
      var visited := Propagate(z, x, t, MAX_EDGES);
      var reachable := end * visited;
      var yInverse := mid - y;
      visited := Propagate(z, yInverse, t, MAX_EDGES);
      var unreachable := end - visited;
      if end == reachable + unreachable {
        newZ := reachable;
        collapsed := true;
      } else {
        newZ := {};
        collapsed := false;
      }
    }
  }

  /** The coefficient of a legacy term. */
  function Coeff(v: TermValue): real
  {
    v.coeff
  }

  /** The legacy end terms, keyed by their reached nodes (the program keys them by the
      bitset's string form). */
  type EndTerms = map<set<nat>, TermValue>

  /** The terms after `addEdge(e, p)`: every term replaced by its present child followed by
      its absent child. */
  function Split(ts: seq<TermValue>, e: nat, p: real): (r: seq<TermValue>)
    ensures |r| == 2 * |ts|
    ensures forall i :: 0 <= i < |ts| ==>
      r[2 * i] == Multiplied(ts[i], e, p, false) && r[2 * i + 1] == Multiplied(ts[i], e, p, true)
  {
    if ts == [] then []
    else
      var last := ts[|ts| - 1];
      Split(ts[..|ts| - 1], e, p) + [Multiplied(last, e, p, false), Multiplied(last, e, p, true)]
  }

  /** Splitting one more term of a list appends its two children. */
  lemma SplitPrefix(ts: seq<TermValue>, e: nat, p: real, i: nat)
    requires i < |ts|
    ensures Split(ts[..i + 1], e, p) == Split(ts[..i], e, p) + [Multiplied(ts[i], e, p, false), Multiplied(ts[i], e, p, true)]
  {
    assert ts[..i + 1][..i] == ts[..i];
  }

  /** Splitting keeps the total coefficient. */
  lemma {:induction false} SplitConserves(ts: seq<TermValue>, e: nat, p: real)
    ensures Sum(Split(ts, e, p), Coeff) == Sum(ts, Coeff)
  {
    if ts != [] {
      var init := ts[..|ts| - 1];
      var v := ts[|ts| - 1];
      var a := Multiplied(v, e, p, false);
      var b := Multiplied(v, e, p, true);
      SplitConserves(init, e, p);
      assert Split(ts, e, p) == (Split(init, e, p) + [a]) + [b];
      SumAppend(Split(init, e, p) + [a], b, Coeff);
      SumAppend(Split(init, e, p), a, Coeff);
      assert a.coeff + b.coeff == v.coeff by {
        assert v.coeff * p + v.coeff * (1.0 - p) == v.coeff * (p + (1.0 - p));
      }
    }
  }

  /** The legacy split and the newer split produce the same children in the opposite order
      within each pair: the newer program puts the absent child first. */
  lemma SplitMirrors(ts: seq<TermValue>, e: nat, p: real, i: nat)
    requires i < |ts|
    ensures AsNew(Split(ts, e, p)[2 * i]) == P.Split(AsNewTerms(ts), e, p)[2 * i + 1]
    ensures AsNew(Split(ts, e, p)[2 * i + 1]) == P.Split(AsNewTerms(ts), e, p)[2 * i]
  {
    var v := ts[i];
    var nts := AsNewTerms(ts);
    assert nts[i] == AsNew(v);
    MultipliedMirrors(v, e, p);
  }

  /** Multiplying a legacy term agrees with multiplying its newer form, with the flag
      negated. */
  lemma MultipliedMirrors(v: TermValue, e: nat, p: real)
    ensures AsNew(Multiplied(v, e, p, false)) == T.Multiplied(AsNew(v), e, p, true)
    ensures AsNew(Multiplied(v, e, p, true)) == T.Multiplied(AsNew(v), e, p, false)
  {
    assert AllEdges() - (v.y + {e}) == (AllEdges() - v.y) - {e};
  }

  /** `z` gains `c` in the end terms; a missing end term starts as `Term(z, end - z)`. */
  function AddToEnd(m: EndTerms, z: set<nat>, end: set<nat>, c: real): (r: EndTerms)
    ensures r.Keys == m.Keys + {z}
    ensures r[z].coeff == (if z in m then m[z].coeff else 0.0) + c
    ensures forall k :: k in m && k != z ==> r[k] == m[k]
  {
    var base := if z in m then m[z] else TermValue(z, end - z, {}, {}, 0.0);
    m[z := base.(coeff := base.coeff + c)]
  }

  /** Adding to an end term raises the sum of the end terms by exactly the added amount. */
  lemma AddToEndTotal(m: EndTerms, z: set<nat>, end: set<nat>, c: real)
    ensures MapSum(AddToEnd(m, z, end, c), Coeff) == MapSum(m, Coeff) + c
  {
    var base := if z in m then m[z] else TermValue(z, end - z, {}, {}, 0.0);
    MapSumUpdate(m, z, base.(coeff := base.coeff + c), Coeff);
  }

  /** One step of `collapse` on term `v`: a collapsing term adds its coefficient to the end
      term of its surely reached end nodes; any other term stays unchanged. */
  function CollapseOne(acc: (seq<TermValue>, EndTerms), v: TermValue, mid: set<nat>, end: set<nat>, t: TerminalMap)
    : (seq<TermValue>, EndTerms)
  {
    if Resolves(v, mid, end, t) then (acc.0, AddToEnd(acc.1, SureReachable(v, end, t), end, v.coeff))
    else (acc.0 + [v], acc.1)
  }

  /** The live and end terms after `collapse(mid, t, end)`, term by term in order. */
  function CollapseTerms(ts: seq<TermValue>, m: EndTerms, mid: set<nat>, end: set<nat>, t: TerminalMap)
    : (seq<TermValue>, EndTerms)
  {
    if ts == [] then ([], m)
    else CollapseOne(CollapseTerms(ts[..|ts| - 1], m, mid, end, t), ts[|ts| - 1], mid, end, t)
  }

  /** Collapsing one more term of a list is one more `CollapseOne` step. */
  lemma CollapsePrefix(ts: seq<TermValue>, m: EndTerms, mid: set<nat>, end: set<nat>, t: TerminalMap, i: nat)
    requires i < |ts|
    ensures CollapseTerms(ts[..i + 1], m, mid, end, t) == CollapseOne(CollapseTerms(ts[..i], m, mid, end, t), ts[i], mid, end, t)
  {
    assert ts[..i + 1][..i] == ts[..i];
  }

  /** Collapsing moves coefficients from live terms to end terms without losing any. */
  lemma {:induction false} CollapseConserves(ts: seq<TermValue>, m: EndTerms, mid: set<nat>, end: set<nat>, t: TerminalMap)
    ensures Sum(CollapseTerms(ts, m, mid, end, t).0, Coeff) + MapSum(CollapseTerms(ts, m, mid, end, t).1, Coeff)
         == Sum(ts, Coeff) + MapSum(m, Coeff)
  {
    if ts != [] {
      var init := ts[..|ts| - 1];
      var v := ts[|ts| - 1];
      var rest := CollapseTerms(init, m, mid, end, t);
      CollapseConserves(init, m, mid, end, t);
      if Resolves(v, mid, end, t) {
        AddToEndTotal(rest.1, SureReachable(v, end, t), end, v.coeff);
      } else {
        SumAppend(rest.0, v, Coeff);
      }
    }
  }

  /** Every term fits the bitsets and every end term is keyed by its reached nodes with no
      edge decided. */
  ghost predicate PolynomialValid(ts: seq<TermValue>, m: EndTerms)
  {
    (forall i :: 0 <= i < |ts| ==> Fitting(ts[i]))
    && (forall k :: k in m ==> m[k].z == k && m[k].x == {} && m[k].y == {})
  }

  /** Collapsing keeps the polynomial valid. */
  lemma {:induction false} CollapseValid(ts: seq<TermValue>, m: EndTerms, mid: set<nat>, end: set<nat>, t: TerminalMap)
    requires PolynomialValid(ts, m)
    ensures PolynomialValid(CollapseTerms(ts, m, mid, end, t).0, CollapseTerms(ts, m, mid, end, t).1)
  {
    if ts != [] {
      CollapseValid(ts[..|ts| - 1], m, mid, end, t);
    }
  }

  /** Within one sausage, after the edges of `done` were added: every live term has
      decided exactly those edges, each present or absent, and a coefficient at least 0. */
  ghost predicate Staged(ts: seq<TermValue>, done: set<nat>)
  {
    forall i :: 0 <= i < |ts| ==> ts[i].x + ts[i].y == done && ts[i].x * ts[i].y == {} && ts[i].coeff >= 0.0
  }

  /** Every end term is keyed by end nodes and has a coefficient at least 0. */
  ghost predicate EndsWithin(m: EndTerms, end: set<nat>)
  {
    forall k :: k in m ==> k <= end && m[k].coeff >= 0.0
  }

  /** Adding an edge not yet decided, with a probability as its weight, decides it in every
      child and keeps the coefficients at least 0. */
  lemma SplitStaged(ts: seq<TermValue>, done: set<nat>, e: nat, p: real)
    requires Staged(ts, done) && e !in done && 0.0 <= p <= 1.0
    ensures Staged(Split(ts, e, p), done + {e})
  {
    var r := Split(ts, e, p);
    forall j | 0 <= j < |r|
      ensures r[j].x + r[j].y == done + {e} && r[j].x * r[j].y == {} && r[j].coeff >= 0.0
    {
      var i := j / 2;
      assert j == 2 * i || j == 2 * i + 1;
      ProductNonNegative(ts[i].coeff, p);
      ProductNonNegative(ts[i].coeff, 1.0 - p);
    }
  }

  /** A term that has decided every edge of `mid` collapses: over the non-absent edges it
      reaches just what it reaches over the present ones. */
  lemma DecidedResolves(v: TermValue, mid: set<nat>, end: set<nat>, t: TerminalMap)
    requires v.x + v.y == mid && v.x * v.y == {}
    ensures Resolves(v, mid, end, t)
  {
    forall e | e in v.x
      ensures e !in v.y
    {
      assert e !in v.x * v.y;
    }
    assert mid - v.y == v.x;
  }

  /** Collapsing keeps the live terms staged and the end terms within the end nodes; once
      every edge of `mid` is decided, no live term is left. */
  lemma {:induction false} CollapseStaged(ts: seq<TermValue>, m: EndTerms, mid: set<nat>, end: set<nat>, t: TerminalMap,
                                          done: set<nat>)
    requires Staged(ts, done) && EndsWithin(m, end)
    ensures Staged(CollapseTerms(ts, m, mid, end, t).0, done)
    ensures EndsWithin(CollapseTerms(ts, m, mid, end, t).1, end)
    ensures done == mid ==> CollapseTerms(ts, m, mid, end, t).0 == []
  {
    if ts != [] {
      var init := ts[..|ts| - 1];
      var v := ts[|ts| - 1];
      assert Staged(init, done);
      CollapseStaged(init, m, mid, end, t, done);
      if done == mid {
        DecidedResolves(v, mid, end, t);
      }
    }
  }

  /** `getResult` on two terms of which exactly one has reached nodes: that term's
      coefficient. */
  function ResultOf(ts: seq<TermValue>): real
    requires |ts| == 2 && (ts[0].z != {} <==> ts[1].z == {})
  {
    if ts[0].z != {} then ts[0].coeff else ts[1].coeff
  }

  /** Under the legacy assertions the newer `GetResult` gives the same answer. */
  lemma ResultAgrees(ts: seq<TermValue>)
    requires |ts| == 2 && (ts[0].z != {} <==> ts[1].z == {})
    ensures P.ResultOf([AsNew(ts[0]), AsNew(ts[1])]) == Some(ResultOf(ts))
    ensures exists i :: 0 <= i < 2 && ts[i].z != {} && ResultOf(ts) == ts[i].coeff
  {
  }

  /** A legacy polynomial object. */
  class Polynomial {
    var terms: seq<TermValue>
    var endTerms: EndTerms

    ghost predicate Valid()
      reads this
    {
      PolynomialValid(terms, endTerms)
    }

    /** `Polynomial(terms)`: starts from the given terms with no end term. */
    constructor (ts: seq<TermValue>)
      requires forall i :: 0 <= i < |ts| ==> Fitting(ts[i])
      ensures Valid() && terms == ts && endTerms == map[]
    {
      terms := ts;
      endTerms := map[];
    }

    /** `addEdge(e, p)`: every term splits on `e`, its present child first. */
    method AddEdge(e: nat, p: real)
      requires Valid() && e < MAX_EDGES
      modifies this
      ensures terms == Split(old(terms), e, p) && endTerms == old(endTerms)
      ensures Valid()
      ensures Sum(terms, Coeff) == Sum(old(terms), Coeff)
    {
      var newTerms := SplitAll(terms, e, p);
      SplitConserves(terms, e, p);
      terms := newTerms;
    }

    /** The loop of `addEdge` on the term values. */
    static method SplitAll(ts: seq<TermValue>, e: nat, p: real) returns (newTerms: seq<TermValue>)
      requires e < MAX_EDGES && forall i :: 0 <= i < |ts| ==> Fitting(ts[i])
      ensures newTerms == Split(ts, e, p)
      ensures forall j :: 0 <= j < |newTerms| ==> Fitting(newTerms[j])
    {
      newTerms := [];
      for i := 0 to |ts|
        invariant newTerms == Split(ts[..i], e, p)
        invariant forall j :: 0 <= j < |newTerms| ==> Fitting(newTerms[j])
      {
        var present, absent := Children(ts[i], e, p);
        SplitPrefix(ts, e, p, i);
        newTerms := newTerms + [present, absent];
      }
      assert ts[..|ts|] == ts;
    }

    /** The two copies of a term `addEdge` multiplies: present first, then absent. */
    static method Children(v: TermValue, e: nat, p: real) returns (present: TermValue, absent: TermValue)
      requires e < MAX_EDGES && Fitting(v)
      ensures present == Multiplied(v, e, p, false) && absent == Multiplied(v, e, p, true)
      ensures Fitting(present) && Fitting(absent)
    {
      var xTerm := new Term.Copy(v);
      xTerm.Multiply(e, p, false);
      present := xTerm.Value();
      var yTerm := new Term.Copy(v);
      yTerm.Multiply(e, p, true);
      absent := yTerm.Value();
    }

    /** `collapse(mid, t, end)`: collapsing terms move their coefficient to the end term of
        the end nodes they surely reach; the others stay, unchanged and in order. */
    method Collapse(mid: set<nat>, t: TerminalMap, end: set<nat>)
      requires Valid() && Fits(mid, MAX_EDGES)
      requires forall i :: 0 <= i < |terms| ==> terms[i].x + (mid - terms[i].y) <= t.Keys
      modifies this
      ensures (terms, endTerms) == CollapseTerms(old(terms), old(endTerms), mid, end, t)
      ensures Valid()
      ensures Sum(terms, Coeff) + MapSum(endTerms, Coeff) == Sum(old(terms), Coeff) + MapSum(old(endTerms), Coeff)
    {
      var ts := terms;
      var m := endTerms;
      var newTerms: seq<TermValue> := [];
      var ends := m;
      for i := 0 to |ts|
        invariant (newTerms, ends) == CollapseTerms(ts[..i], m, mid, end, t)
        invariant unchanged(this)
      {
        CollapsePrefix(ts, m, mid, end, t, i);
        newTerms, ends := CollapseStep(newTerms, ends, ts[i], mid, t, end);
      }
      assert ts[..|ts|] == ts;
      CollapseValid(ts, m, mid, end, t);
      CollapseConserves(ts, m, mid, end, t);
      terms := newTerms;
      endTerms := ends;
    }

    /** The body of `collapse`'s loop for one term. */
    static method CollapseStep(newTerms: seq<TermValue>, ends: EndTerms, v: TermValue, mid: set<nat>, t: TerminalMap, end: set<nat>)
      returns (newTerms': seq<TermValue>, ends': EndTerms)
      requires Fitting(v) && Fits(mid, MAX_EDGES) && v.x + (mid - v.y) <= t.Keys
      ensures (newTerms', ends') == CollapseOne((newTerms, ends), v, mid, end, t)
    {
      newTerms', ends' := newTerms, ends;
      var term := new Term.Copy(v);
      var collapsed, z := term.Collapse(mid, t, end);
      if collapsed {
        ends' := AddToEndTerm(ends, z, end, term.coeff);
      } else {
        newTerms' := newTerms + [term.Value()];
      }
    }

    /** The end-term update of `collapse`: the end term keyed by `z`, or `Term(z, end - z)`
        when there is none, gains coefficient `c`. */
    static method AddToEndTerm(ends: EndTerms, z: set<nat>, end: set<nat>, c: real) returns (r: EndTerms)
      ensures r == AddToEnd(ends, z, end, c)
    {
      var endTerm: Term;
      if z in ends {
        endTerm := new Term.Copy(ends[z]);
      } else {
        endTerm := new Term.Blank(z, end - z);
      }
      endTerm.coeff := endTerm.coeff + c;
      r := ends[z := endTerm.Value()];
    }

    /** `advance()`: the program asserts that no live term is left, and otherwise leaves
        the polynomial as it is (the assertion aborts the program). The end terms then become
        the live terms, in some order, and are cleared; the program asserts that the moved
        coefficients add up to 1 within 0.01. `ok` says whether both assertions hold. */
    method Advance() returns (ok: bool, ghost order: seq<set<nat>>)
      requires Valid()
      modifies this
      ensures ok <==> old(terms) == [] && 0.99 < MapSum(old(endTerms), Coeff) < 1.01
      ensures Valid()
      ensures old(terms) != [] ==> terms == old(terms) && endTerms == old(endTerms)
      ensures old(terms) == [] ==> endTerms == map[] && |order| == |terms| == |old(endTerms)|
      ensures old(terms) == [] ==> forall k :: k in old(endTerms) <==> k in order
      ensures old(terms) == [] ==> forall i, j :: 0 <= i < j < |order| ==> order[i] != order[j]
      ensures old(terms) == [] ==>
                forall i :: 0 <= i < |order| ==> order[i] in old(endTerms) && terms[i] == old(endTerms)[order[i]]
      ensures old(terms) == [] ==> Sum(terms, Coeff) == MapSum(old(endTerms), Coeff)
    {
      order := [];
      if terms != [] {
        return false, order;
      }
      var ts, totalCoeff;
      ts, totalCoeff, order := CollectValues(endTerms, Coeff);
      terms := ts;
      endTerms := map[];
      ok := totalCoeff < 1.01 && totalCoeff > 0.99;
    }

    /** `getResult()`: the program asserts two live terms whose coefficients add up to 1
        within 0.01, exactly one of which has reached nodes, and answers that term's
        coefficient; `None` stands for a failed assertion. */
    function GetResult(): (r: Option<real>)
      reads this
      ensures r.Some? <==> (|terms| == 2 && 0.99 < terms[0].coeff + terms[1].coeff < 1.01
                            && (terms[0].z != {} <==> terms[1].z == {}))
      ensures r.Some? ==> exists i :: 0 <= i < 2 && terms[i].z != {} && r.value == terms[i].coeff
    {
      if |terms| == 2 && 0.99 < terms[0].coeff + terms[1].coeff < 1.01 && (terms[0].z != {} <==> terms[1].z == {}) then
        ResultAgrees(terms);
        Some(ResultOf(terms))
      else None
    }
  }
}
