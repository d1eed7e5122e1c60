/** The reliability polynomial of the sausage method: the live terms of the current stage
    and the end terms reached so far, keyed by the end nodes a term reaches. */
module Poly {
  import opened Wrappers
  import opened Sums
  import opened Reach
  import opened TermAlgebra

  /** End terms keyed by the set of end nodes they reach (the program keys them by the
      bitset's string form, which is one-to-one on sets). */
  type EndTerms = map<set<nat>, TermValue>

  /** The coefficient of a term, the weight its sums add up. */
  function Coef(v: TermValue): real
  {
    v.coef
  }

  /** Sum of the coefficients of a term list. */
  function Total(ts: seq<TermValue>): real
  {
    Sum(ts, Coef)
  }

  /** Sum of the coefficients of the end terms. */
  ghost function EndTotal(m: EndTerms): real
  {
    MapSum(m, Coef)
  }

  /** Every term is consistent (its bitsets fit and its present edges are decided) and
      has a coefficient at least 0. */
  ghost predicate TermsValid(ts: seq<TermValue>)
  {
    forall i :: 0 <= i < |ts| ==> Consistent(ts[i]) && ts[i].coef >= 0.0
  }

  /** An end term: no edge decided, reaching exactly its key, coefficient at least 0. */
  predicate IsEndTerm(k: set<nat>, v: TermValue)
  {
    v.x == {} && v.y == AllEdges() && v.reachable == k && v.coef >= 0.0
  }

  ghost predicate EndTermsValid(m: EndTerms)
  {
    forall k :: k in m ==> IsEndTerm(k, m[k])
  }

  /** The terms after `AddEdge(e, p)`: every term replaced by its child with `e` absent
      followed by its child with `e` present. */
  function Split(ts: seq<TermValue>, e: nat, p: real): (r: seq<TermValue>)
    ensures |r| == 2 * |ts|
    ensures forall i :: 0 <= i < |ts| ==>
      r[2 * i] == Multiplied(ts[i], e, p, false) && r[2 * i + 1] == Multiplied(ts[i], e, p, true)
  {
    if ts == [] then []
    else
      var last := ts[|ts| - 1];
      Split(ts[..|ts| - 1], e, p) + [Multiplied(last, e, p, false), Multiplied(last, e, p, true)]
  }

  /** Splitting on an edge keeps the total coefficient. */
  lemma {:induction false} SplitConserves(ts: seq<TermValue>, e: nat, p: real)
    ensures Total(Split(ts, e, p)) == Total(ts)
  {
    if ts != [] {
      var init := ts[..|ts| - 1];
      var v := ts[|ts| - 1];
      var a := Multiplied(v, e, p, false);
      var b := Multiplied(v, e, p, true);
      SplitConserves(init, e, p);
      assert Split(ts, e, p) == (Split(init, e, p) + [a]) + [b];
      SumAppend(Split(init, e, p) + [a], b, Coef);
      SumAppend(Split(init, e, p), a, Coef);
      assert a.coef + b.coef == v.coef by {
        assert v.coef * p + v.coef * (1.0 - p) == v.coef * (p + (1.0 - p));
      }
    }
  }

  /** Splitting on an undecided edge keeps every term valid. */
  lemma SplitValid(ts: seq<TermValue>, e: nat, p: real)
    requires TermsValid(ts) && e < NUM_EDGES && 0.0 <= p <= 1.0
    requires forall i :: 0 <= i < |ts| ==> Undecided(ts[i], e)
    ensures TermsValid(Split(ts, e, p))
  {
    var r := Split(ts, e, p);
    forall j | 0 <= j < |r|
      ensures Consistent(r[j]) && r[j].coef >= 0.0
    {
      var i := j / 2;
      assert j == 2 * i || j == 2 * i + 1;
      ChildValid(ts, e, p, i);
    }
  }

  lemma ChildValid(ts: seq<TermValue>, e: nat, p: real, i: nat)
    requires i < |ts| && Consistent(ts[i]) && ts[i].coef >= 0.0 && e < NUM_EDGES && 0.0 <= p <= 1.0
    requires Undecided(ts[i], e)
    ensures Consistent(Split(ts, e, p)[2 * i]) && Split(ts, e, p)[2 * i].coef >= 0.0
    ensures Consistent(Split(ts, e, p)[2 * i + 1]) && Split(ts, e, p)[2 * i + 1].coef >= 0.0
  {
    MultiplySplits(ts[i], e, p);
    MultipliedNonNegative(ts[i], e, p);
  }

  /** When every term has decided exactly `d`, every child has decided exactly `d + {e}`. */
  lemma SplitDecides(ts: seq<TermValue>, e: nat, p: real, d: set<nat>)
    requires forall i :: 0 <= i < |ts| ==> Consistent(ts[i]) && Undecided(ts[i], e) && Decided(ts[i]) == d
    requires e < NUM_EDGES
    ensures forall i :: 0 <= i < |Split(ts, e, p)| ==> Decided(Split(ts, e, p)[i]) == d + {e}
  {
    var r := Split(ts, e, p);
    forall j | 0 <= j < |r|
      ensures Decided(r[j]) == d + {e}
    {
      var i := j / 2;
      assert j == 2 * i || j == 2 * i + 1;
      ChildrenDecide(ts, e, p, d, i);
    }
  }

  lemma ChildrenDecide(ts: seq<TermValue>, e: nat, p: real, d: set<nat>, i: nat)
    requires i < |ts| && Consistent(ts[i]) && Undecided(ts[i], e) && Decided(ts[i]) == d && e < NUM_EDGES
    ensures Decided(Split(ts, e, p)[2 * i]) == d + {e} && Decided(Split(ts, e, p)[2 * i + 1]) == d + {e}
  {
    MultiplySplits(ts[i], e, p);
  }

  /** `z` gains `c` in the end terms; a missing end term starts as a fresh term with
      coefficient 0 reaching `z`. */
  function AddToEnd(m: EndTerms, z: set<nat>, c: real): (r: EndTerms)
    ensures r.Keys == m.Keys + {z}
    ensures r[z].coef == (if z in m then m[z].coef else 0.0) + c
    ensures forall k :: k in m && k != z ==> r[k] == m[k]
  {
    var base := if z in m then m[z] else FreshValue().(coef := 0.0, reachable := z);
    m[z := base.(coef := base.coef + c)]
  }

  /** One step of `Collapse` on term `v`: a collapsing term adds its coefficient to the
      end term of its surely reached end nodes, any other term stays, with its reachable
      set closed over its present edges. */
  function CollapseOne(acc: (seq<TermValue>, EndTerms), v: TermValue, mid: set<nat>, end: set<nat>, t: TerminalMap)
    : (r: (seq<TermValue>, EndTerms))
  {
    if Resolves(v, mid, end, t) then (acc.0, AddToEnd(acc.1, SureReachable(v, end, t), v.coef))
    else (acc.0 + [v.(reachable := Closure(v.reachable, v.x, t))], acc.1)
  }

  /** The live terms and end terms after `Collapse(mid, end, t)`, term by term in order. */
  function CollapseTerms(ts: seq<TermValue>, m: EndTerms, mid: set<nat>, end: set<nat>, t: TerminalMap)
    : (r: (seq<TermValue>, EndTerms))
  {
    if ts == [] then ([], m)
    else CollapseOne(CollapseTerms(ts[..|ts| - 1], m, mid, end, t), ts[|ts| - 1], mid, end, t)
  }

  /** Collapsing one more term of a list is one more `CollapseOne` step. */
  lemma CollapsePrefix(ts: seq<TermValue>, m: EndTerms, mid: set<nat>, end: set<nat>, t: TerminalMap, i: nat)
    requires i < |ts|
    ensures CollapseTerms(ts[..i + 1], m, mid, end, t) == CollapseOne(CollapseTerms(ts[..i], m, mid, end, t), ts[i], mid, end, t)
  {
    assert ts[..i + 1][..i] == ts[..i];
  }

  /** Splitting one more term of a list appends its two children. */
  lemma SplitPrefix(ts: seq<TermValue>, e: nat, p: real, i: nat)
    requires i < |ts|
    ensures Split(ts[..i + 1], e, p) == Split(ts[..i], e, p) + [Multiplied(ts[i], e, p, false), Multiplied(ts[i], e, p, true)]
  {
    assert ts[..i + 1][..i] == ts[..i];
  }

  /** `AddToEnd` stores at `z` the old or fresh end term with its coefficient raised. */
  lemma AddToEndIsUpdate(m: EndTerms, z: set<nat>, c: real, v: TermValue)
    requires v == (if z in m then m[z] else FreshValue().(coef := 0.0, reachable := z)).(coef := (if z in m then m[z].coef else 0.0) + c)
    ensures AddToEnd(m, z, c) == m[z := v]
  {
  }

  /** Adding to an end term raises the sum of the end terms by exactly the added amount. */
  lemma AddToEndTotal(m: EndTerms, z: set<nat>, c: real)
    ensures EndTotal(AddToEnd(m, z, c)) == EndTotal(m) + c
  {
    var base := if z in m then m[z] else FreshValue().(coef := 0.0, reachable := z);
    MapSumUpdate(m, z, base.(coef := base.coef + c), Coef);
  }

  /** Collapsing moves coefficients from live terms to end terms without losing any. */
  lemma {:induction false} CollapseConserves(ts: seq<TermValue>, m: EndTerms, mid: set<nat>, end: set<nat>, t: TerminalMap)
    ensures Total(CollapseTerms(ts, m, mid, end, t).0) + EndTotal(CollapseTerms(ts, m, mid, end, t).1)
         == Total(ts) + EndTotal(m)
  {
    if ts != [] {
      var init := ts[..|ts| - 1];
      var v := ts[|ts| - 1];
      var rest := CollapseTerms(init, m, mid, end, t);
      CollapseConserves(init, m, mid, end, t);
      if Resolves(v, mid, end, t) {
        AddToEndTotal(rest.1, SureReachable(v, end, t), v.coef);
      } else {
        SumAppend(rest.0, v.(reachable := Closure(v.reachable, v.x, t)), Coef);
      }
    }
  }

  /** Collapsing keeps live terms and end terms valid. */
  lemma {:induction false} CollapseValid(ts: seq<TermValue>, m: EndTerms, mid: set<nat>, end: set<nat>, t: TerminalMap)
    requires TermsValid(ts) && EndTermsValid(m)
    ensures TermsValid(CollapseTerms(ts, m, mid, end, t).0)
    ensures EndTermsValid(CollapseTerms(ts, m, mid, end, t).1)
  {
    if ts != [] {
      CollapseValid(ts[..|ts| - 1], m, mid, end, t);
    }
  }

  /** Live terms that survive a collapse keep their decided edges and their present edges. */
  lemma {:induction false} CollapseKeepsDecided(ts: seq<TermValue>, m: EndTerms, mid: set<nat>, end: set<nat>, t: TerminalMap, d: set<nat>, xs: set<nat>)
    requires forall i :: 0 <= i < |ts| ==> Decided(ts[i]) == d && ts[i].x <= xs
    ensures forall i :: 0 <= i < |CollapseTerms(ts, m, mid, end, t).0| ==>
      Decided(CollapseTerms(ts, m, mid, end, t).0[i]) == d && CollapseTerms(ts, m, mid, end, t).0[i].x <= xs
  {
    if ts != [] {
      var init, v := ts[..|ts| - 1], ts[|ts| - 1];
      CollapseKeepsDecided(init, m, mid, end, t, d, xs);
      var rest := CollapseTerms(init, m, mid, end, t).0;
      var v' := v.(reachable := Closure(v.reachable, v.x, t));
      assert Decided(v') == d && v'.x <= xs;
      var r := CollapseTerms(ts, m, mid, end, t).0;
      assert r == if Resolves(v, mid, end, t) then rest else rest + [v'];
      forall i | 0 <= i < |r|
        ensures Decided(r[i]) == d && r[i].x <= xs
      {
        if i < |rest| {
          assert r[i] == rest[i];
        }
      }
    }
  }

  /** Every end term is keyed by a set of end nodes. */
  lemma {:induction false} CollapseEndKeys(ts: seq<TermValue>, m: EndTerms, mid: set<nat>, end: set<nat>, t: TerminalMap)
    requires forall k :: k in m ==> k <= end
    ensures forall k :: k in CollapseTerms(ts, m, mid, end, t).1 ==> k <= end
  {
    if ts != [] {
      CollapseEndKeys(ts[..|ts| - 1], m, mid, end, t);
    }
  }

  /** When every term has decided exactly the edges of `mid`, and its present edges lie in
      `mid`, every term collapses and no live term is left. */
  lemma {:induction false} CollapseAllDecided(ts: seq<TermValue>, m: EndTerms, mid: set<nat>, end: set<nat>, t: TerminalMap)
    requires Fits(mid, NUM_EDGES)
    requires forall i :: 0 <= i < |ts| ==> Consistent(ts[i]) && ts[i].x <= mid && Decided(ts[i]) == mid
    ensures CollapseTerms(ts, m, mid, end, t).0 == []
  {
    if ts != [] {
      CollapseAllDecided(ts[..|ts| - 1], m, mid, end, t);
      DecidedTermResolves(ts[|ts| - 1], mid, end, t);
    }
  }

  /** `GetResult` on a term list: the coefficient of the first term when it has reached
      nodes, else that of the last term. The program reads the first element of an empty
      list there, which is undefined; the model answers `None`. */
  function ResultOf(ts: seq<TermValue>): Option<real>
  {
    if ts == [] then None
    else if ts[0].reachable != {} then Some(ts[0].coef)
    else Some(ts[|ts| - 1].coef)
  }

  /** The live terms of the last stage when the end nodes are the single sink: at most two
      terms with distinct reached sets, each inside `{sink}`. If one has reached the sink,
      the result is its coefficient. */
  lemma ResultIsSinkTerm(ts: seq<TermValue>, sink: nat, i: nat)
    requires forall j :: 0 <= j < |ts| ==> ts[j].reachable <= {sink}
    requires forall j, k :: 0 <= j < k < |ts| ==> ts[j].reachable != ts[k].reachable
    requires i < |ts| && ts[i].reachable == {sink}
    ensures ResultOf(ts) == Some(ts[i].coef)
  {
    var last := |ts| - 1;
    if sink in ts[0].reachable {
      assert ts[0].reachable == {sink};
    } else {
      assert ts[0].reachable == {};
      assert ts[last].reachable == {sink};
    }
  }

  /** When no term has reached the sink the result is still a coefficient, that of the
      single term which did not reach it: the program does not answer 0 in that case. */
  lemma ResultWithoutSinkTerm(ts: seq<TermValue>)
    requires ts != []
    requires forall j, k :: 0 <= j < k < |ts| ==> ts[j].reachable != ts[k].reachable
    requires forall j :: 0 <= j < |ts| ==> ts[j].reachable == {}
    ensures |ts| == 1 && ResultOf(ts) == Some(ts[0].coef)
  {
    assert ts[0].reachable == ts[|ts| - 1].reachable;
  }

  /** A polynomial object. */
  class Polynomial {
    var terms: seq<TermValue>
    var endTerms: EndTerms

    ghost predicate Valid()
      reads this
    {
      TermsValid(terms) && EndTermsValid(endTerms)
    }

    /** `Polynomial(source_nodes)`: one fresh term that has reached the source nodes. */
    constructor (source: set<nat>)
      ensures Valid()
      ensures terms == [FreshValue().(reachable := source)] && endTerms == map[]
      ensures Total(terms) == 1.0
    {
      var seed := new Term();
      seed.reachable := source;
      var v := seed.Value();
      assert Total([v]) == Total([]) + 1.0;
      terms := [v];
      endTerms := map[];
    }

    /** `AddEdge(e, p)`: every term splits on edge `e`, its absent child first. (The program
        names the absent child `xTerm` and the present one `yTerm`.) */
    method AddEdge(e: nat, p: real)
      requires Valid() && e < NUM_EDGES && 0.0 <= p <= 1.0
      requires forall i :: 0 <= i < |terms| ==> Undecided(terms[i], e)
      modifies this
      ensures terms == Split(old(terms), e, p) && endTerms == old(endTerms)
      ensures Valid()
    {
      var newTerms := SplitAll(terms, e, p);
      SplitValid(terms, e, p);
      terms := newTerms;
    }

    /** The loop of `AddEdge` on the term values. */
    static method SplitAll(ts: seq<TermValue>, e: nat, p: real) returns (newTerms: seq<TermValue>)
      requires TermsValid(ts) && e < NUM_EDGES && 0.0 <= p <= 1.0
      requires forall i :: 0 <= i < |ts| ==> Undecided(ts[i], e)
      ensures newTerms == Split(ts, e, p)
    {
      newTerms := [];
      for i := 0 to |ts|
        invariant newTerms == Split(ts[..i], e, p)
      {
        var absent, present := Children(ts[i], e, p);
        SplitPrefix(ts, e, p, i);
        newTerms := newTerms + [absent, present];
      }
      assert ts[..|ts|] == ts;
    }

    /** The two copies of a term `AddEdge` multiplies: absent first, then present. */
    static method Children(v: TermValue, e: nat, p: real) returns (absent: TermValue, present: TermValue)
      requires Consistent(v) && e < NUM_EDGES && 0.0 <= p <= 1.0 && Undecided(v, e)
      ensures absent == Multiplied(v, e, p, false) && present == Multiplied(v, e, p, true)
    {
      var xTerm := new Term.Copy(v);
      xTerm.Multiply(e, p, false);
      absent := xTerm.Value();
      var yTerm := new Term.Copy(v);
      yTerm.Multiply(e, p, true);
      present := yTerm.Value();
    }

    /** `Collapse(mid, end, t)`: collapsing terms move their coefficient to the end term of
        the end nodes they surely reach; the others stay, in order. */
    method Collapse(mid: set<nat>, end: set<nat>, t: TerminalMap)
      requires Valid()
      modifies this
      ensures (terms, endTerms) == CollapseTerms(old(terms), old(endTerms), mid, end, t)
      ensures Valid()
    {
      var ts := terms;
      var m := endTerms;
      var newTerms: seq<TermValue> := [];
      var ends := m;
      for i := 0 to |ts|
        invariant (newTerms, ends) == CollapseTerms(ts[..i], m, mid, end, t)
        invariant unchanged(this)
      {
        CollapsePrefix(ts, m, mid, end, t, i);
        newTerms, ends := CollapseStep(newTerms, ends, ts[i], mid, end, t);
      }
      assert ts[..|ts|] == ts;
      CollapseValid(ts, m, mid, end, t);
      terms := newTerms;
      endTerms := ends;
    }

    /** The body of `Collapse`'s loop for one term. */
    static method CollapseStep(newTerms: seq<TermValue>, ends: EndTerms, v: TermValue, mid: set<nat>, end: set<nat>, t: TerminalMap)
      returns (newTerms': seq<TermValue>, ends': EndTerms)
      requires Consistent(v)
      ensures (newTerms', ends') == CollapseOne((newTerms, ends), v, mid, end, t)
    {
      newTerms', ends' := newTerms, ends;
      var term := new Term.Copy(v);
      var collapsed, z := term.Collapse(mid, end, t);
      if collapsed {
        ends' := AddToEndTerm(ends, z, term.coef);
      } else {
        newTerms' := newTerms + [term.Value()];
      }
    }

    /** The end-term update of `Collapse`: the end term keyed by `z`, or a fresh term with
        coefficient 0 reaching `z` when there is none, gains coefficient `c`. */
    static method AddToEndTerm(ends: EndTerms, z: set<nat>, c: real) returns (r: EndTerms)
      ensures r == AddToEnd(ends, z, c)
    {
      var endTerm := new Term();
      endTerm.coef := 0.0;
      if z in ends {
        endTerm := new Term.Copy(ends[z]);
      } else {
        endTerm.reachable := z;
      }
      endTerm.coef := endTerm.coef + c;
      r := ends[z := endTerm.Value()];
      AddToEndIsUpdate(ends, z, c, endTerm.Value());
    }

    /** `Advance()`: the end terms become the live terms and the end terms are cleared.
        Live terms still present are dropped. */
    method Advance() returns (ghost order: seq<set<nat>>)
      requires Valid()
      modifies this
      ensures Valid() && endTerms == map[]
      ensures |order| == |terms| == |old(endTerms)|
      ensures forall k :: k in old(endTerms) <==> k in order
      ensures forall i, j :: 0 <= i < j < |order| ==> order[i] != order[j]
      ensures forall i :: 0 <= i < |order| ==> order[i] in old(endTerms) && terms[i] == old(endTerms)[order[i]]
      ensures Total(terms) == EndTotal(old(endTerms))
    {
      var ts, totalCoeff;
      ts, totalCoeff, order := CollectValues(endTerms, Coef);
      terms := ts;
      endTerms := map[];
    }

    /** `GetResult()`, on the current live terms. */
    function GetResult(): Option<real>
      reads this
    {
      ResultOf(terms)
    }
  }
}
