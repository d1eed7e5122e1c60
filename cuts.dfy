/** Vertex cuts: a partition of the nodes into left, middle and right, with the set of
    edges the cut covers (the edges on the left and middle side). */
module Cuts {

  /** A vertex cut. `Cut()` is the all-empty value, used as the "no cut" sentinel. */
  datatype Cut = Cut(left: set<nat>, middle: set<nat>, right: set<nat>, covered: set<nat>)

  /** The default-constructed cut. */
  function Empty(): Cut
  {
    Cut({}, {}, {}, {})
  }

  /** `size()`: the number of middle nodes. */
  function Size(c: Cut): nat
  {
    |c.middle|
  }

  /** A cut has size zero exactly when its middle is empty; the sentinel is such a cut. */
  lemma SizeZeroIffSentinelMiddle(c: Cut)
    ensures Size(c) == 0 <==> c.middle == {}
    ensures Size(Empty()) == 0 && Empty().left == {} && Empty().right == {} && Empty().covered == {}
  {
    if c.middle != {} {
      var n :| n in c.middle;
      assert |c.middle| >= |{n}|;
    }
  }

  /** The three node sets are pairwise disjoint and together make up `nodes`. */
  predicate Partitions(c: Cut, nodes: set<nat>)
  {
    c.left + c.middle + c.right == nodes
    && c.left * c.middle == {} && c.left * c.right == {} && c.middle * c.right == {}
  }

  /** `a`'s middle lies within `b`'s (the test `(~b.middle & a.middle).none()`). */
  predicate Within(a: Cut, b: Cut)
  {
    a.middle <= b.middle
  }

  /** Neither middle contains the other. */
  predicate Incomparable(a: Cut, b: Cut)
  {
    !Within(a, b) && !Within(b, a)
  }

  /** `s` without its element at position `k`: the effect of `erase(begin() + k)`. */
  function Without<T>(s: seq<T>, k: nat): (r: seq<T>)
    requires k < |s|
    ensures |r| == |s| - 1
  {
    s[..k] + s[k + 1..]
  }

  /** Positions before `k` keep their element; later ones take their successor's. */
  lemma WithoutAt<T>(s: seq<T>, k: nat)
    requires k < |s|
    ensures forall p :: 0 <= p < k ==> Without(s, k)[p] == s[p]
    ensures forall p :: k <= p < |s| - 1 ==> Without(s, k)[p] == s[p + 1]
  {
  }

  /** `idx` lists strictly increasing positions of `cs` at which the elements of `r` stand. */
  ghost predicate SubsequenceAt(r: seq<Cut>, cs: seq<Cut>, idx: seq<nat>)
  {
    |idx| == |r|
    && (forall k {:trigger idx[k]} :: 0 <= k < |idx| ==> idx[k] < |cs| && r[k] == cs[idx[k]])
    && (forall k, l :: 0 <= k < l < |idx| ==> idx[k] < idx[l])
  }

  /** Every sequence is a subsequence of itself, at the identity positions. */
  lemma SubsequenceAtSelf(cs: seq<Cut>)
    ensures SubsequenceAt(cs, cs, seq(|cs|, k => k))
  {
    var idx := seq(|cs|, k => k);
    assert forall k :: 0 <= k < |idx| ==> idx[k] == k;
  }

  /** Some cut of `r` has its middle within `c`'s. */
  ghost predicate HasWithin(r: seq<Cut>, c: Cut)
  {
    exists k :: 0 <= k < |r| && Within(r[k], c)
  }

  /** Every cut of `cs` has a cut of `r` whose middle lies within its own. */
  ghost predicate Dominated(cs: seq<Cut>, r: seq<Cut>)
  {
    forall i :: 0 <= i < |cs| ==> HasWithin(r, cs[i])
  }

  lemma DominatedBySelf(cs: seq<Cut>)
    ensures Dominated(cs, cs)
  {
    forall i | 0 <= i < |cs|
      ensures HasWithin(cs, cs[i])
    {
      assert Within(cs[i], cs[i]);
    }
  }

  lemma SubsequenceWithout(r: seq<Cut>, cs: seq<Cut>, idx: seq<nat>, k: nat)
    requires SubsequenceAt(r, cs, idx) && k < |r|
    ensures SubsequenceAt(Without(r, k), cs, Without(idx, k))
  {
    var r', idx' := Without(r, k), Without(idx, k);
    WithoutAt(r, k);
    WithoutAt(idx, k);
    forall a, b | 0 <= a < b < |idx'|
      ensures idx'[a] < idx'[b]
    {
      var a0 := if a < k then a else a + 1;
      var b0 := if b < k then b else b + 1;
      assert idx'[a] == idx[a0] && idx'[b] == idx[b0];
    }
  }

  /** Erasing a cut whose middle contains a surviving cut's middle keeps every cut dominated. */
  lemma DominatedWithout(cs: seq<Cut>, r: seq<Cut>, x: nat, y: nat)
    requires Dominated(cs, r) && x < |r| && y < |r| && x != y && Within(r[y], r[x])
    ensures Dominated(cs, Without(r, x))
  {
    var r' := Without(r, x);
    WithoutAt(r, x);
    forall i | 0 <= i < |cs|
      ensures HasWithin(r', cs[i])
    {
      var p :| 0 <= p < |r| && Within(r[p], cs[i]);
      var q := if p == x then y else p;
      assert Within(r[q], cs[i]);
      if q < x {
        assert r'[q] == r[q];
      } else {
        assert r'[q - 1] == r[q];
      }
    }
  }

  /** No cut before position `i` has its middle comparable with a later cut's. */
  ghost predicate SettledBefore(r: seq<Cut>, i: nat)
  {
    forall p, q :: 0 <= p < i && p < q < |r| ==> Incomparable(r[p], r[q])
  }

  /** The cut at `i` is incomparable with every cut strictly between `i` and `j`. */
  ghost predicate ClearBetween(r: seq<Cut>, i: nat, j: nat)
    requires i < |r|
  {
    forall q :: i < q < j && q < |r| ==> Incomparable(r[i], r[q])
  }

  lemma SettledWithout(r: seq<Cut>, i: nat, x: nat)
    requires SettledBefore(r, i) && i <= x < |r|
    ensures SettledBefore(Without(r, x), i)
  {
    var r' := Without(r, x);
    WithoutAt(r, x);
    forall p, q | 0 <= p < i && p < q < |r'|
      ensures Incomparable(r'[p], r'[q])
    {
      if q < x {
        assert r'[q] == r[q];
      } else {
        assert r'[q] == r[q + 1];
      }
    }
  }

  lemma ClearWithout(r: seq<Cut>, i: nat, j: nat)
    requires i < j < |r| && ClearBetween(r, i, j)
    ensures ClearBetween(Without(r, j), i, j)
  {
    var r' := Without(r, j);
    WithoutAt(r, j);
    assert forall q :: i < q < j ==> r'[q] == r[q];
  }

  lemma SettledNext(r: seq<Cut>, i: nat)
    requires i < |r| && SettledBefore(r, i) && ClearBetween(r, i, |r|)
    ensures SettledBefore(r, i + 1)
  {
  }

  /** Every cut of `r` whose middle recurs later in the input `cs` has a later cut in `r`
      whose middle lies within its own. */
  ghost predicate TwinsCovered(r: seq<Cut>, cs: seq<Cut>, idx: seq<nat>)
    requires |idx| == |r|
  {
    forall k, q :: 0 <= k < |r| && idx[k] < q < |cs| && cs[q].middle == r[k].middle ==>
      exists l :: k < l < |r| && Within(r[l], r[k])
  }

  /** Erasing the cut at `i` because a later cut's middle lies within its own keeps every
      recurring middle covered. */
  lemma TwinsWithoutCurrent(r: seq<Cut>, cs: seq<Cut>, idx: seq<nat>, i: nat, j: nat)
    requires |idx| == |r| && TwinsCovered(r, cs, idx) && i < j < |r| && Within(r[j], r[i])
    ensures TwinsCovered(Without(r, i), cs, Without(idx, i))
  {
    var r', idx' := Without(r, i), Without(idx, i);
    WithoutAt(r, i);
    WithoutAt(idx, i);
    forall k', q | 0 <= k' < |r'| && idx'[k'] < q < |cs| && cs[q].middle == r'[k'].middle
      ensures exists l :: k' < l < |r'| && Within(r'[l], r'[k'])
    {
      var k := if k' < i then k' else k' + 1;
      assert r'[k'] == r[k] && idx'[k'] == idx[k];
      var l :| k < l < |r| && Within(r[l], r[k]);
      var l2 := if l == i then j else l;
      assert k < l2 && Within(r[l2], r[k]);
      var l' := if l2 < i then l2 else l2 - 1;
      assert r'[l'] == r[l2];
    }
  }

  /** Erasing the later cut at `j` because the cut at `i` lies within it, in a scan where
      the cuts before `i` and those between `i` and `j` are incomparable with the rest,
      keeps every recurring middle covered: `j` was never anyone's cover. */
  lemma TwinsWithoutOther(r: seq<Cut>, cs: seq<Cut>, idx: seq<nat>, i: nat, j: nat)
    requires |idx| == |r| && TwinsCovered(r, cs, idx) && i < j < |r|
    requires Within(r[i], r[j]) && !Within(r[j], r[i])
    requires SettledBefore(r, i) && ClearBetween(r, i, j)
    ensures TwinsCovered(Without(r, j), cs, Without(idx, j))
  {
    var r', idx' := Without(r, j), Without(idx, j);
    WithoutAt(r, j);
    WithoutAt(idx, j);
    forall k', q | 0 <= k' < |r'| && idx'[k'] < q < |cs| && cs[q].middle == r'[k'].middle
      ensures exists l :: k' < l < |r'| && Within(r'[l], r'[k'])
    {
      var k := if k' < j then k' else k' + 1;
      assert r'[k'] == r[k] && idx'[k'] == idx[k];
      if k < j {
        assert !Within(r[j], r[k]) by {
          if k < i {
            assert Incomparable(r[k], r[j]);
          } else if i < k {
            assert Incomparable(r[i], r[k]);
          }
        }
      }
      var l :| k < l < |r| && Within(r[l], r[k]);
      var l' := if l < j then l else l - 1;
      assert r'[l'] == r[l];
    }
  }

  /** Once every cut is settled, no surviving cut's middle recurs later in the input. */
  lemma TwinsSettled(r: seq<Cut>, cs: seq<Cut>, idx: seq<nat>)
    requires |idx| == |r| && TwinsCovered(r, cs, idx) && SettledBefore(r, |r|)
    ensures forall k, q :: 0 <= k < |r| && idx[k] < q < |cs| ==> cs[q].middle != r[k].middle
  {
    forall k | 0 <= k < |r|
      ensures forall l :: k < l < |r| ==> !Within(r[l], r[k])
    {
      assert forall l :: k < l < |r| ==> Incomparable(r[k], r[l]);
    }
  }

  /** The inner loop of `RemoveRedundantCuts` for position `i`: compares the cut at `i` with
      each later one, erasing the later one when it contains the cut at `i`, and erasing the
      cut at `i` itself (ending the scan) when it contains the later one. */
  method ScanLater(r0: seq<Cut>, i: nat, ghost cs: seq<Cut>, ghost idx0: seq<nat>)
    returns (r: seq<Cut>, ghost idx: seq<nat>, erased: bool)
    requires i < |r0| && SubsequenceAt(r0, cs, idx0) && Dominated(cs, r0) && SettledBefore(r0, i)
    requires TwinsCovered(r0, cs, idx0)
    ensures SubsequenceAt(r, cs, idx) && Dominated(cs, r) && SettledBefore(r, i) && TwinsCovered(r, cs, idx)
    ensures i <= |r| <= |r0| && (erased ==> |r| < |r0|)
    ensures !erased ==> i < |r| && ClearBetween(r, i, |r|)
  {
    r, idx := r0, idx0;
    var current := r[i];
    erased := false;
    var j := i + 1;
    while j < |r| && !erased
      invariant i <= |r| && i + 1 <= j && (!erased ==> j <= |r|)
      invariant |r| <= |r0| && (erased ==> |r| < |r0|)
      invariant !erased ==> r[i] == current
      invariant SubsequenceAt(r, cs, idx) && Dominated(cs, r) && SettledBefore(r, i) && TwinsCovered(r, cs, idx)
      invariant !erased ==> ClearBetween(r, i, j)
      decreases |r| - j, if erased then 0 else 1
    {
      var other := r[j];
      if Within(other, current) {
        ghost var r', idx' := Without(r, i), Without(idx, i);
        assert SubsequenceAt(r', cs, idx') && Dominated(cs, r') && SettledBefore(r', i) by {
          DominatedWithout(cs, r, i, j);
          SubsequenceWithout(r, cs, idx, i);
          SettledWithout(r, i, i);
        }
        TwinsWithoutCurrent(r, cs, idx, i, j);
        r, idx := Without(r, i), idx';
        erased := true;
      } else if Within(current, other) {
        ghost var r', idx' := Without(r, j), Without(idx, j);
        assert SubsequenceAt(r', cs, idx') && Dominated(cs, r') && SettledBefore(r', i)
          && ClearBetween(r', i, j) && r'[i] == current by {
          DominatedWithout(cs, r, j, i);
          SubsequenceWithout(r, cs, idx, j);
          SettledWithout(r, i, j);
          ClearWithout(r, i, j);
          WithoutAt(r, j);
        }
        TwinsWithoutOther(r, cs, idx, i, j);
        r, idx := Without(r, j), idx';
      } else {
        assert ClearBetween(r, i, j + 1) by {
          assert Incomparable(r[i], r[j]);
        }
        j := j + 1;
      }
    }
  }

  /** Before anything is erased, a later cut with the same middle is itself a later cut
      within it. */
  lemma TwinsInitial(cs: seq<Cut>)
    ensures TwinsCovered(cs, cs, seq(|cs|, k => k))
  {
    var idx := seq(|cs|, k => k);
    forall k, q | 0 <= k < |cs| && idx[k] < q < |cs| && cs[q].middle == cs[k].middle
      ensures exists l :: k < l < |cs| && Within(cs[l], cs[k])
    {
      assert Within(cs[q], cs[k]);
    }
  }

  /** `r` is what dropping the redundant cuts of `cs` leaves: a subsequence of `cs`, at the
      positions `idx`, in which no middle lies within another, every cut of `cs` keeps a
      cut of `r` within it, and no cut of `r` has a later cut of `cs` with the same middle. */
  ghost predicate RedundantDropped(cs: seq<Cut>, r: seq<Cut>, idx: seq<nat>)
  {
    SubsequenceAt(r, cs, idx)
    && (forall p, q :: 0 <= p < q < |r| ==> Incomparable(r[p], r[q]))
    && Dominated(cs, r)
    && (forall k, q :: 0 <= k < |r| && idx[k] < q < |cs| ==> cs[q].middle != r[k].middle)
  }

  /** `RemoveRedundantCuts`: scans pairs `i < j`; when `j`'s middle lies within `i`'s, `i` is
      erased (so of two equal middles the later one stays), otherwise when `i`'s middle lies
      within `j`'s, `j` is erased. The result is a subsequence of the input in which no
      middle lies within another, every input cut keeps a surviving cut inside it, and no
      surviving cut has a later input cut with the same middle. */
  method RemoveRedundant(cs: seq<Cut>) returns (r: seq<Cut>, ghost idx: seq<nat>)
    ensures RedundantDropped(cs, r, idx)
  {
    r := cs;
    idx := seq(|cs|, k => k);
    SubsequenceAtSelf(cs);
    DominatedBySelf(cs);
    TwinsInitial(cs);
    var i := 0;
    while i < |r|
      invariant 0 <= i <= |r|
      invariant SubsequenceAt(r, cs, idx) && Dominated(cs, r) && SettledBefore(r, i) && TwinsCovered(r, cs, idx)
      decreases |r| - i
    {
      var erased;
      r, idx, erased := ScanLater(r, i, cs, idx);
      if !erased {
        SettledNext(r, i);
        i := i + 1;
      }
    }
    TwinsSettled(r, cs, idx);
  }

  /** The cuts of `cs` whose middle misses `left`, in their original order. */
  function Unobsoleted(cs: seq<Cut>, left: set<nat>): seq<Cut>
  {
    if cs == [] then []
    else
      var rest := Unobsoleted(cs[..|cs| - 1], left);
      var c := cs[|cs| - 1];
      if c.middle * left == {} then rest + [c] else rest
  }

  /** A cut survives exactly when it occurs in the input and its middle misses `left`;
      the survivors keep their order and there are never more of them than inputs. */
  lemma {:induction false} UnobsoletedMembers(cs: seq<Cut>, left: set<nat>)
    ensures forall c :: c in Unobsoleted(cs, left) <==> c in cs && c.middle * left == {}
    ensures |Unobsoleted(cs, left)| <= |cs|
  {
    if cs != [] {
      var init := cs[..|cs| - 1];
      UnobsoletedMembers(init, left);
      assert cs == init + [cs[|cs| - 1]];
    }
  }

  /** `RemoveObsoleteCuts`: erases, in place and in order, every cut whose middle meets
      the left side of the cut just consumed. */
  method RemoveObsolete(cs: seq<Cut>, cut: Cut) returns (r: seq<Cut>)
    ensures r == Unobsoleted(cs, cut.left)
  {
    r := cs;
    var i := 0;
    ghost var n := 0;
    while i < |r|
      invariant 0 <= n <= |cs|
      invariant r == Unobsoleted(cs[..n], cut.left) + cs[n..]
      invariant i == |Unobsoleted(cs[..n], cut.left)|
      decreases |cs| - n
    {
      UnobsoletedStep(cs, cut.left, n);
      if r[i].middle * cut.left != {} {
        r := Without(r, i);
      } else {
        i := i + 1;
      }
      n := n + 1;
    }
    assert cs[..n] == cs;
  }

  /** Taking one more cut of `cs` into account: the cut at `n` is kept exactly when its
      middle misses `left`, and erasing it from the working list leaves the rest in place. */
  lemma UnobsoletedStep(cs: seq<Cut>, left: set<nat>, n: nat)
    requires n < |cs|
    ensures var u := Unobsoleted(cs[..n], left);
      (Unobsoleted(cs[..n + 1], left) == if cs[n].middle * left == {} then u + [cs[n]] else u)
      && (u + cs[n..])[|u|] == cs[n]
      && Without(u + cs[n..], |u|) == u + cs[n + 1..]
      && u + cs[n..] == (u + [cs[n]]) + cs[n + 1..]
  {
    assert cs[..n + 1][..n] == cs[..n];
    var u := Unobsoleted(cs[..n], left);
    assert Without(u + cs[n..], |u|) == u + cs[n + 1..];
  }
}
