# PReach, modelled in Dafny

PReach computes the probability that the node SINK is reachable from the node SOURCE in a
directed graph whose arcs are present independently, each with its own probability (its
weight). The exact engine works in four steps:

1. It adds a unified SOURCE and SINK to the graph.
2. It shrinks the graph:
   - removes the nodes on no SOURCE-to-SINK path;
   - drops self-loops;
   - collapses nodes with one arc in and one arc out, using the series rule `w1·w2` and the parallel rule `1 - (1 - w)(1 - w')`;
   - splits a direct SOURCE-to-SINK arc with an ISOLATOR node.
3. It finds vertex cuts (left, middle, right, covered arcs) between SOURCE and SINK.
4. It consumes the arcs "sausage" by "sausage". A sausage is the arcs a cut covers that no earlier cut covered. The engine keeps a polynomial of terms. Each term is a partial assignment of the arcs: the present ones, the not-yet-absent ones, a coefficient, and the nodes reached so far. Adding an arc splits every term in two. Collapsing settles a term as soon as every middle node of the cut is surely reached or surely unreached. Advancing turns the settled end terms into the next stage's terms. The answer is the coefficient of the final term that reached SINK.

Two other solvers drive the same algebra. A random-order solver adds the arcs in shuffled
order. A sampling estimator fixes some arcs by random draws, reduces the graph, solves it
exactly, and averages the results. An unused adjacency structure and the whole legacy
implementation (`Preach_old.h`, `Preach_old.cc`) are modelled as well.

The modules, each in its own file:

- `Reach` (`reach.dfy`): the bitset widths (`NUM_NODES`, `NUM_EDGES`) and reachability closure. This includes the fixpoint loop of `Term::Collapse`.
- `TermAlgebra` (`term.dfy`) and `Poly` (`polynomial.dfy`): `Term` and `Polynomial` as classes whose fields the methods update in place. Each class has value-level specification functions (`Split`, `CollapseTerms`, `AddToEnd`) and lemmas about them.
- `LegacyAlgebra` (`legacy_algebra.dfy`): the legacy `Term` and `Polynomial`, with their live asserts turned into failure results, and lemmas relating them to the newer algebra.
- `Cuts` (`cuts.dfy`): the `Cut` record, redundant-cut removal and obsolete-cut removal.
- `Digraphs` (`digraphs.dfy`): a digraph as a map from arc id to (source, target, weight). It covers successor and reachability sets, reversal, node erasure and the series/parallel weight rules.
- `CutFinding` (`cutfinding.dfy`): the first cut, the sweep of `FindSomeGoodCuts`, and the grow and shrink steps of `RefineCuts`.
- `Graphs` (`graph.dfy`): the `Graph` class with its node set, arc map, name maps, key set and cuts. Its methods change these fields in place.
- `LegacyPreach` (`legacy_preach.dfy`): the free functions of `Preach_old.cc` over the same graph class.
- `Solvers` (`solvers.dfy`): the common `Solver` set-up, `SausageSolver` and `RandomSolver`.
- `Sampling` (`sampling.dfy`): `EdgeSubset` and `SamplingSolver`. The random generator and the CPU clock are streams of numbers handed to the solver, each with a cursor of its own.
- `Adjacency` (`adjacency.dfy`): the unused `NewGraph` with its adjacency sets.

The model keeps the following behaviours as the code has them:

- `AddEdge` keys an arc by the concatenation `source + target`, so ("1", "23") and ("12", "3") collide. The second arc is then dropped.
- The new `FindSomeGoodCuts` returns the sentinel `Cut()` as a real cut. The legacy version returns no new cut instead.
- `Advance` replaces the live terms by the end terms. When a sausage is empty this drops the seed term.
- The new `GetResult` answers 1 when no final term reached SINK, not 0.
- `RemoveIsolatedNodes` erases entries of the name index while walking it. This is modelled as a walk over a snapshot of the index.

Some named declarations are missing from the headers: `Cut::Overlaps`, `Cut::RemoveObsoleteCuts`, the reached-node field of `Term`, and `Polynomial::Advance`. They take the meaning the legacy code gives them (`Preach_old.cc:294-313`, `Preach_old.cc:613-621`, `Preach_old.h`).

`Polynomial.cc` labels its two children with swapped names. Both children are still produced, and the model follows the code.

The solvers return `None` for an outcome the C++ leaves undefined:
- the program reads past an empty term list;
- the graph's ids outgrow the bitsets;
- the legacy code fails an assert.

## Model

| member | source | states |
|---|---|---|
| TermAlgebra.MultiplySplits | Term.cc:10-18 | splitting a consistent term on an undecided edge gives two consistent children that each decide exactly that edge more, and whose coefficients `c·p` and `c·(1-p)` add up to the parent's `c` |
| TermAlgebra.MultipliedNonNegative | Term.cc:10-18 | a term with coefficient at least 0, multiplied by a probability or its complement, keeps a coefficient at least 0 |
| TermAlgebra.SureSetsDisjoint | Term.cc:47-55 | when the present edges lie among the non-absent edges of the stage, no end node is both surely reached and surely unreached |
| TermAlgebra.DecidedTermResolves | Term.cc:47-67 | a term that has decided every edge of the stage, with no present edge outside it, always collapses |
| TermAlgebra.Term.constructor | Term.cc:3-8 | a new term has coefficient 1, no present edge, every edge possibly present and no reached node |
| TermAlgebra.Term.Multiply | Term.cc:10-18 | a present edge joins `X` and multiplies the coefficient by `p`; an absent edge leaves `Y` and multiplies it by `1-p`; nothing else changes and the term stays consistent |
| TermAlgebra.Term.Collapse | Term.cc:20-68 | the term collapses exactly when every end node is surely reached over the present edges or surely unreached over the non-absent edges of the stage; on a collapse it returns the surely reached end nodes; the carried reached set becomes the closure over the present edges |
| Poly.Split | Polynomial.cc:3-18 | after `AddEdge` there are twice as many terms, and positions `2i` and `2i+1` hold the absent child and then the present child of term `i` |
| Poly.SplitConserves | Polynomial.cc:3-18 | splitting every term on an edge keeps the total coefficient |
| Poly.SplitValid | Polynomial.cc:3-18 | splitting on an edge that no term has decided keeps every term consistent with a coefficient at least 0 |
| Poly.SplitDecides | Polynomial.cc:3-18 | when every term has decided exactly the edges `d`, every child has decided exactly `d` plus the new edge |
| Poly.AddToEnd | Polynomial.cc:28-41 | the end term keyed by `z`, or a new one with coefficient 0 when there is none, gains the coefficient `c`; every other end term is kept |
| Poly.AddToEndTotal | Polynomial.cc:28-41 | adding `c` to an end term raises the sum of the end terms by exactly `c` |
| Poly.CollapseConserves | Polynomial.cc:20-48 | a collapse moves coefficients from the live terms to the end terms without losing or creating any: live total plus end total is unchanged |
| Poly.CollapseValid | Polynomial.cc:20-48 | a collapse keeps the live terms valid and every end term an undecided term that reaches exactly its key |
| Poly.CollapseKeepsDecided | Polynomial.cc:20-48 | the live terms that survive a collapse keep their decided and present edges |
| Poly.CollapseEndKeys | Polynomial.cc:20-48 | every end term is keyed by a set of end nodes |
| Poly.CollapseAllDecided | Polynomial.cc:20-48 | when every term has decided exactly the edges of the stage, every term collapses and no live term is left |
| Poly.ResultIsSinkTerm | Polynomial.cc:50-64 | with at most the sink as end node and distinct reached sets, `GetResult` is the coefficient of the term that reached the sink, whether it is first or last |
| Poly.ResultWithoutSinkTerm | Polynomial.cc:50-64 | when no term reached the sink there is exactly one term and `GetResult` is its coefficient, not 0 |
| Poly.Polynomial.constructor | Polynomial.h:8-12 | the polynomial starts with one fresh term that has reached the source nodes, no end term and total coefficient 1 |
| Poly.Polynomial.AddEdge | Polynomial.cc:3-18 | the terms become `Split` of the old terms, the end terms are untouched, and the polynomial stays valid |
| Poly.Polynomial.SplitAll | Polynomial.cc:6-15 | the loop of `AddEdge` builds exactly `Split` of the terms |
| Poly.Polynomial.Collapse | Polynomial.cc:20-48 | the new live terms and end terms are those of `CollapseTerms` on the old ones, and the polynomial stays valid |
| Poly.Polynomial.CollapseStep | Polynomial.cc:23-45 | one term of the `Collapse` loop: a collapsing term goes to its end term, any other stays |
| Poly.Polynomial.AddToEndTerm | Polynomial.cc:28-41 | the end-term update of `Collapse` is `AddToEnd` |
| Poly.Polynomial.Advance | Polynomial.cc:68-83 | the end terms, each once, become the live terms in some order, their total is kept, and the end terms are cleared |
| Sums.CollectValues | Polynomial.cc:72-77 | the loop that copies the end terms into the live terms takes every value exactly once, in some order, and its running total is the sum over the map |
| Reach.Closure | Term.cc:24-43 | the nodes reachable from `s` over the edges: they contain `s`, add only targets of those edges, and no edge leaves them |
| Reach.ClosureLeast | Term.cc:24-43 | the reachable set is the least set containing the start that no edge leaves |
| Reach.ClosureMonotone | Term.cc:24-43 | more start nodes or more edges never reach fewer nodes |
| Reach.ClosureOfClosed | Term.cc:24-43 | a set that no edge leaves reaches nothing more |
| Reach.Pass | Term.cc:33-39 | one pass over the edges in id order only marks reachable nodes, and a pass that marks nothing new proves the marked set closed |
| Reach.Propagate | Term.cc:32-43 | the traversal loop, repeated until a pass changes nothing, ends with exactly the reachable set |
| LegacyAlgebra.AsNewTerms | Preach_old.h:55-60 | the newer form of a legacy term list has the same length and, position by position, the newer form of each term (absent edges turned into kept edges) |
| LegacyAlgebra.CollapseAgrees | Preach_old.h:93-149 | the legacy collapse check and the newer one agree on a term with the same edges: same surely reached and surely unreached end nodes, and the same collapse verdict, even though the newer term carries its closed reached set |
| LegacyAlgebra.ClosureBetween | Preach_old.h:108-117 | closing from any set between `z` and what the present edges reach from `z` gives the same nodes over any larger edge set, so carrying the closed set changes no traversal |
| LegacyAlgebra.Term.constructor | Preach_old.h:68-69 | `Term(z, w, coeff)` decides no edge and keeps `z`, `w` and the coefficient |
| LegacyAlgebra.Term.Blank | Preach_old.h:71-74 | `Term(z, w)` decides no edge and has coefficient 0 |
| LegacyAlgebra.Term.Multiply | Preach_old.h:77-85 | with `inverse` the edge becomes absent and the coefficient is multiplied by `1-p`, otherwise the edge becomes present and it is multiplied by `p`; the reached and unreached nodes stay |
| LegacyAlgebra.Term.Collapse | Preach_old.h:93-149 | the term collapses exactly when every end node is reached from `z` over the present edges or not reached over the edges of the stage that are not absent; on a collapse it returns the reached end nodes |
| LegacyAlgebra.Split | Preach_old.h:162-177 | after `addEdge` there are twice as many terms, and positions `2i` and `2i+1` hold the present child and then the absent child of term `i` |
| LegacyAlgebra.SplitConserves | Preach_old.h:162-177 | splitting every term on an edge keeps the total coefficient |
| LegacyAlgebra.SplitMirrors | Preach_old.h:162-177 | the legacy split and the newer split produce the same children, in the opposite order within each pair |
| LegacyAlgebra.MultipliedMirrors | Preach_old.h:77-85 | the legacy `multiply` with `inverse` agrees with the newer `Multiply` with `isPresent` negated |
| LegacyAlgebra.AddToEnd | Preach_old.h:227-236 | the end term keyed by `z`, or `Term(z, end - z)` with coefficient 0 when there is none, gains the coefficient `c`; every other end term is kept |
| LegacyAlgebra.AddToEndTotal | Preach_old.h:227-236 | adding `c` to an end term raises the sum of the end terms by exactly `c` |
| LegacyAlgebra.CollapseConserves | Preach_old.h:219-242 | a collapse keeps live total plus end total |
| LegacyAlgebra.CollapseValid | Preach_old.h:219-242 | a collapse keeps every term within the bitsets and every end term keyed by its reached nodes |
| LegacyAlgebra.SplitStaged | Preach_old.h:162-177 | adding an edge not yet decided with a probability as weight decides it in every child, each present or absent, and keeps the coefficients at least 0 |
| LegacyAlgebra.DecidedResolves | Preach_old.h:93-149 | a term that has decided every edge of the stage always collapses |
| LegacyAlgebra.CollapseStaged | Preach_old.h:219-242 | a collapse keeps the live terms staged and the end terms keyed by end nodes; once every edge of the stage is decided no live term is left |
| LegacyAlgebra.ResultAgrees | Preach_old.h:198-211 | on two terms of which exactly one has reached nodes, the legacy and the newer `GetResult` answer the coefficient of that term |
| LegacyAlgebra.Polynomial.constructor | Preach_old.h:157 | the polynomial starts from the given terms and no end term |
| LegacyAlgebra.Polynomial.AddEdge | Preach_old.h:162-177 | the terms become `Split` of the old terms, the end terms are untouched, and the total coefficient is kept |
| LegacyAlgebra.Polynomial.SplitAll | Preach_old.h:165-174 | the loop of `addEdge` builds exactly `Split` of the terms, each within the bitsets |
| LegacyAlgebra.Polynomial.Children | Preach_old.h:167-173 | the two copies `addEdge` multiplies are the present child and the absent child |
| LegacyAlgebra.Polynomial.Collapse | Preach_old.h:219-242 | the new live and end terms are those of `CollapseTerms` on the old ones, and live total plus end total is kept |
| LegacyAlgebra.Polynomial.CollapseStep | Preach_old.h:221-240 | one term of the `collapse` loop: a collapsing term goes to its end term, any other stays |
| LegacyAlgebra.Polynomial.AddToEndTerm | Preach_old.h:227-236 | the end-term update of `collapse` is `AddToEnd` |
| LegacyAlgebra.Polynomial.Advance | Preach_old.h:181-196 | succeeds exactly when no live term is left and the end coefficients add up to 1 within 0.01; with live terms nothing changes; otherwise every end term, once each, becomes a live term, the total is kept and the end terms are cleared |
| LegacyAlgebra.Polynomial.GetResult | Preach_old.h:198-211 | answers exactly when there are two live terms whose coefficients add up to 1 within 0.01 and exactly one of them has reached nodes, and then answers that term's coefficient |
| Cuts.SizeZeroIffSentinelMiddle | Cut.h:14-24 | a cut has size 0 exactly when its middle is empty, and the default cut `Cut()` is empty on every side |
| Cuts.ScanLater | Preach_old.cc:296-311 | the inner loop for position `i`: the list stays a subsequence of the input, every input cut keeps a surviving cut whose middle lies within its own, the cuts before `i` stay pairwise incomparable, and without erasing the cut at `i` it ends incomparable with every later cut |
| Cuts.TwinsInitial | Preach_old.cc:293-296 | before anything is erased, every cut with a later twin (same middle) has a later cut within it |
| Cuts.TwinsWithoutCurrent | Preach_old.cc:299-303 | erasing the cut at `i` because a later cut lies within it keeps every surviving cut's later twins covered by a later survivor |
| Cuts.TwinsWithoutOther | Preach_old.cc:305-308 | erasing a later cut strictly containing the cut at `i` keeps every surviving cut's later twins covered by a later survivor |
| Cuts.TwinsSettled | Preach_old.cc:294-313 | once the survivors are pairwise incomparable, no survivor has a later input cut with the same middle |
| Cuts.RemoveRedundant | Preach_old.cc:294-313 | the result is a subsequence of the input in which no middle lies within another; every input cut keeps a surviving cut whose middle lies within its own; of two cuts with equal middles the later one survives, since no survivor has a later input cut with the same middle |
| Cuts.DominatedWithout | Preach_old.cc:300-310 | erasing a cut whose middle contains the middle of another surviving cut keeps every input cut covered by a survivor |
| Cuts.UnobsoletedMembers | Preach_old.cc:611-621 | a cut survives exactly when it occurs in the input and its middle misses the left side of the consumed cut; there are never more survivors than inputs |
| Cuts.RemoveObsolete | Preach_old.cc:613-621 | the erase-in-place loop leaves exactly the cuts whose middle misses the consumed cut's left side, in their original order |
| CutFinding.FirstCutShaped | Graph.cc:196-234 | without a self-loop on the source and with the sink no successor of the source, the first cut partitions the nodes with the source on the left and the sink on the right |
| CutFinding.FirstCut | Graph.cc:196-234 | an arc from the source into the sink gives the sentinel `Cut()`; otherwise the cut has the source on the left, its successors in the middle, the other nodes on the right, and covers the source's arcs and the middle's arcs that do not enter the right |
| CutFinding.SweepPass | Graph.cc:354-407 | one pass of the `while (added)` loop over the node ids in order is exactly `SweepStep` of the current cut, and `added` is set exactly when the right side changed; the right side only shrinks, the left only grows, shaped cuts stay shaped and covered arcs stay arcs |
| CutFinding.Sweep | Graph.cc:347-408 | the cuts start with the first cut and each next cut is `SweepStep` of the one before, with a strictly smaller right side and a larger left side; the last cut is a fixed point of `SweepStep` on the right side, which ends the loop; a shaped first cut keeps every cut shaped, so the sink never enters a middle |
| CutFinding.SweptFromHead | Graph.cc:347-408 | a sweep is the first cut alone exactly when that cut's step moves nothing, so the `while (added)` loop runs once |
| CutFinding.SweptFromUnique | Graph.cc:347-408 | the sweep from a cut is determined by it: two lists that are both sweeps from the same first cut are equal |
| CutFinding.EscapeAll | Graph.cc:267-287 | every node the grow loop moved off the right side has a search that leaves the original right side |
| CutFinding.StaysWithin | Graph.cc:267-287 | once no arc leaves the right side it is closed and holds exactly the original right nodes whose searches stay within it |
| CutFinding.Grow | Graph.cc:263-297 | the grow step moves right nodes to the middle until no arc leaves the right, covers the middle's arcs that do not enter the right, and what remains on the right is exactly the original right nodes from which no search leaves it |
| CutFinding.Shrunk | Graph.cc:306-331 | the shrink step keeps right side and covered arcs, and a middle node stays exactly when it has a successor on the right; the others move to the left |
| CutFinding.GrownShrunkGood | Graph.cc:262-331 | a grown and shrunk cut is a good cut (closed right side, every middle node with an arc into it), a partition stays a partition with no smaller left side, and a sink without outgoing arcs stays on the right |
| CutFinding.GrownPartitions | Graph.cc:262-331 | growing and then shrinking only moves nodes between the sides of a partition |
| CutFinding.GrowShrinkAll | Graph.cc:262-332 | the two middle loops of `RefineCuts`: the result is exactly `GrownShrunk` of the input, cut by cut (`Shrunk` of `Grown`), so each is a good cut covering at most its old arcs plus arcs of the graph, and shaped cuts stay shaped when the sink has no outgoing arc |
| CutFinding.GrowShrinkKeeps | Graph.cc:262-332 | cut by cut, the refined cuts cover only arcs of the graph when the input cuts did, and stay shaped when the input cuts were shaped and the sink has no out-arcs |
| CutFinding.GrowShrink | Graph.cc:263-330 | one cut grown and shrunk is exactly `Shrunk(Grown(c))`, a good cut whose covered arcs only grew, by arcs of the graph |
| CutFinding.GrownFacts | Graph.cc:263-297 | growing moves nodes only from the right side to the middle; the grown right side is closed and holds exactly the right nodes whose search stays on the right |
| CutFinding.GrownShrunkCut | Graph.cc:262-331 | `Shrunk(Grown(c))` is a good cut whose covered arcs grew only by arcs of the graph, and a shaped cut stays shaped when no arc leaves the sink |
| CutFinding.GrownShrunkNext | Graph.cc:262-332 | one more cut grown and shrunk extends the prefix of `GrownShrunk` by exactly that cut, the loop invariant of `GrowShrinkAll` |
| CutFinding.Refine | Preach_old.cc:316-393 | the legacy `RefineCuts` (its first redundancy pass is commented out): the result is exactly what dropping the redundant cuts of `GrownShrunk` of the input leaves (`RedundantDropped`), so every result is a good cut, no two middles contain one another, shaped inputs stay shaped when the sink has no outgoing arc, covered arcs stay arcs, and there are no more cuts than before |
| Digraphs.EdgeTable | Graph.h:73-82 | the terminal table has one entry per arc, holding the arc's source and target |
| Digraphs.ReachedIsLeastClosed | Graph.cc:108-116 | what a breadth-first search reaches contains the start, is closed under the arcs, lies within every closed superset of the start, and adds only arc targets |
| Digraphs.ReachedTransitive | Graph.cc:108-116 | a search from a reached node reaches nothing new |
| Digraphs.ReversedTwice | Graph.cc:124-128 | reversing every arc twice gives back the graph, as `RemoveIsolatedNodes` relies on |
| Digraphs.WithoutNodes | Graph.cc:135 | erasing nodes keeps exactly the arcs with neither endpoint erased, unchanged |
| Digraphs.WithoutNodesUnion | Graph.cc:131-138 | erasing two node sets one after the other is erasing their union |
| Digraphs.SeriesIsProbability | Graph.cc:186 | the weight of the arc replacing a path through an elementary node is a probability no larger than either arc's |
| Digraphs.ParallelIsProbability | Graph.cc:177-178 | merging into an existing arc gives a probability no smaller than either weight |
| Graphs.WithoutLoops | Graph.cc:141-147 | the arcs after dropping self-loops: exactly the non-loop arcs, unchanged, and no loop is left |
| Graphs.WithoutLoopsIdempotent | Graph.cc:141-147 | dropping self-loops leaves a loop-free arc map as it is, so a second `RemoveSelfCycles` changes nothing |
| Graphs.WithoutLoopsKeepsReach | Graph.cc:141-147 | dropping self-loops changes no node's reachable set |
| Graphs.WeightsUpdated | Graph.cc:11-26 | a sampled arc (one with a draw, not leaving SOURCE nor entering SINK) survives exactly when its draw exceeds its weight and then weighs 1.0; every other arc is kept as it is |
| Graphs.WeightsUpdatedDecides | Graph.cc:11-26 | after the update every sampled arc is decided (gone or certain), weights stay probabilities and arcs stay between live nodes |
| Graphs.Link | Graph.cc:171-187 | the link step: when some arc from `x` to `y` exists its weight becomes `1 - (1 - w')(1 - p)` and nothing else changes; otherwise a new arc `x -> y` of weight `p` takes the next arc id |
| Graphs.LinkKeeps | Graph.cc:171-187 | linking keeps every arc's endpoints, leaves `x` linked to `y`, keeps arcs between live nodes and keeps weights probabilities |
| Graphs.LinkIsLinking | Graph.cc:171-187 | on a simple digraph the arc the search merges into is the only one joining the pair, so the link step computes `Linking` |
| Graphs.LinkingArcsAt | Graph.cc:171-187 | linking adds the new arc to the in-arcs of `y` and the out-arcs of `x` exactly when it adds one, and changes no other node's arcs |
| Graphs.BypassedLinks | Graph.cc:165-191 | with exactly one in-arc `i` (not a loop) and one out-arc `o` at `n`, the node is elementary, `o` is not a loop either, and bypassing `n` is linking the source of `i` to the target of `o` by the product `w_i * w_o` and then erasing `n` with its arcs |
| Graphs.BypassedWeights | Graph.cc:165-191 | the weight rule of a bypass: with in-arc `i` from `x` and out-arc `o` into `y`, not loops, erasing `n` keeps every arc not touching `n`, and either adds `x -> y` of weight `w_i * w_o` under the next id (no arc joined them) or turns the existing arc's weight `w` into `1 - (1 - w)(1 - w_i * w_o)`, same id and endpoints |
| Graphs.BypassedSimple | Graph.cc:165-191 | bypassing a node of a simple digraph keeps it simple and every id below the next one |
| Graphs.BypassedInArcsAt | Graph.cc:165-191 | bypassing `n` changes another node's in-arcs only by the out-arc of `n` it loses and the new bridging arc it gains |
| Graphs.BypassedOutArcsAt | Graph.cc:165-191 | bypassing `n` changes another node's out-arcs only by the in-arc of `n` it loses and the new bridging arc it gains |
| Graphs.BypassedAddsAtOnes | Graph.cc:165-191 | for another node with one arc in and one out, a bypass that adds an arc into (out of) it also removes its arc from (to) `n` |
| Graphs.BypassedKeepsOnes | Graph.cc:157-191 | bypassing `n` keeps every other node with one arc in and one out so, as the marked list relies on |
| Graphs.BypassedAllKeeps | Graph.cc:165-192 | after bypassing a prefix of the marked list the digraph is simple, ids stay below the counter, and every later marked node still has one arc in and one out |
| Graphs.BypassedAllNext | Graph.cc:165-192 | bypassing one more marked node extends `BypassedAll` of the prefix by `Bypassed` of that node |
| Graphs.LinkingProbabilities | Graph.cc:177-186 | linking with a probability keeps all weights probabilities |
| Graphs.BypassedProbabilities | Graph.cc:165-191 | a bypass keeps all weights probabilities |
| Graphs.BypassedAllProbabilities | Graph.cc:165-192 | bypassing every marked node keeps all weights probabilities |
| Graphs.CollapsedProbabilities | Graph.cc:149-194 | every run of passes of the `Collapsed` fold keeps all weights probabilities |
| Graphs.StagedNext | Graph.cc:151-192 | a further pass step extends the recorded states and passes, the invariant of the `while (changing)` loop |
| Graphs.StagedCollapsed | Graph.cc:151-192 | on a simple start, recorded pass steps mark as `PassesMark` says and end at the `Collapsed` fold of the passes, still simple |
| Graphs.StagedRun | Graph.cc:151-192 | recorded pass steps whose last pass marks nothing are a whole `CollapseRun` whose end state is `Collapsed` of the start |
| Graphs.LinkStep | Graph.cc:169-187 | one in-arc `i` linked with the out-arc `o`: when no arc joins `x = src(i)` to `y = tgt(o)`, a new arc `x -> y` of weight `w_i * w_o` takes the next id; otherwise an arc between them gets weight `1 - (1 - w)(1 - w_i * w_o)` and nothing else changes; on a simple digraph this is `Linking`; endpoints, simplicity and probabilities kept |
| Graphs.LinkAll | Graph.cc:168-188 | every in-arc of the snapshot is linked with the out-arc; endpoints, simplicity and probabilities kept; every new arc bridges an in-neighbour to the out-neighbour; with one in-arc on a simple digraph the result is exactly `Linking` by the product weight `w_i * w_o` |
| Graphs.Bypass | Graph.cc:165-191 | bypassing node `n`: arcs stay among the other nodes, weights stay probabilities, the result is a bypass of `n` (arcs not touching `n` keep their endpoints, every in-neighbour linked to every out-neighbour, new arcs only bridge), and for one arc in and one out on a simple digraph it is exactly `Bypassed` (the weight rule of `BypassedWeights`) |
| Graphs.BypassFinish | Graph.cc:190 | erasing `n` once every in-arc is linked with every out-arc completes the bypass |
| Graphs.BypassStep | Graph.cc:167-189 | the outer-loop invariant of the bypass survives one out-arc |
| Graphs.BypassKeepsReach | Graph.cc:170-175 | bypassing `n` changes no reachability from other nodes: each reaches what it reached before, less `n` |
| Graphs.BypassReachesLess | Graph.cc:170-175 | after a bypass no node other than `n` reaches anything new |
| Graphs.BypassClosedLess | Graph.cc:170-175 | a successor-closed node set stays closed after the bypass, less `n` |
| Graphs.BypassReachesAll | Graph.cc:170-175 | after a bypass every node other than `n` still reaches everything it reached, except `n` |
| Graphs.AvoidsBypassed | Graph.cc:190 | once no arc touches `n`, no search from elsewhere reaches `n` |
| Graphs.ElementaryNotTerminal | Graph.cc:157-162 | the marked nodes are never the SOURCE or SINK node |
| Graphs.ReachKeptTrans | Graph.cc:152-192 | keeping reachability composes over successive passes |
| Graphs.BypassAll | Graph.cc:165-192 | every marked node bypassed and erased: exactly the marked nodes go, arcs stay among the survivors, weights stay probabilities and reachability among the survivors is kept; on a simple digraph whose marked nodes have one arc in and one out, the result is exactly `BypassedAll`, the bypasses in marking order |
| Graphs.BypassNext | Graph.cc:165-191 | one more marked node bypassed: arcs stay among the other nodes, ids stay below the counter, simplicity and probabilities kept, reachability among the nodes not yet bypassed kept, and for one arc in and one out on a simple digraph the result is exactly `Bypassed` |
| Graphs.Graph.constructor | Graph.h:34 | the empty graph: no nodes, arcs, names, keys or cuts |
| Graphs.Graph.GetNode | Graph.cc:39-48 | a known name returns its node and changes nothing; a new name gets the next node id, is named and indexed, and nothing else changes |
| Graphs.Graph.AddEdge | Graph.cc:4-9 | the key `source + target` is always recorded; when it was new an arc between the named nodes (created as needed) with that weight takes the next arc id, otherwise nothing changes and the first weight stays |
| Graphs.Graph.AddNamedArc | Graph.cc:5-7 | both named nodes exist afterwards (created as needed, other names and nodes kept) and the new arc between them with the given weight takes the next arc id |
| Graphs.KeyedAdd | Graph.cc:4-9 | adding an arc under a new key `source + target` keeps every arc's key recorded and keeps no two arcs joining the same pair |
| Graphs.Graph.AddArc | Graph.cc:6 | a new arc with the next arc id between two live nodes; everything else unchanged |
| Graphs.Graph.Reverse | Graph.cc:28-37 | every arc turned around in place (`arcs == Reversed(old(arcs))`), nothing else changes |
| Graphs.Graph.RemoveSelfCycles | Graph.cc:141-147 | the arcs become `WithoutLoops` of the old arcs, nothing else changes |
| Graphs.Graph.DropLoops | Graph.cc:142-146 | the loop over the arc ids computes `WithoutLoops` |
| Graphs.Graph.InDegree | Graph.h:155-160 | the count equals the number of arcs entering the node |
| Graphs.Graph.OutDegree | Graph.h:163-168 | the count equals the number of arcs leaving the node |
| Graphs.Graph.EdgesAsBitset | Graph.h:65-71 | the bitset holds exactly the ids of the arcs |
| Graphs.Graph.GetNodeBitset | Graph.h:92-96 | a one-node bitset holding the named node |
| Graphs.Graph.GetEdgeInfo | Graph.h:73-82 | every arc's entry is overwritten with its weight and terminals; other entries are kept; no entry is dropped |
| Graphs.Graph.UpdateWeights | Graph.cc:11-26 | the arcs become `WeightsUpdated` of the old arcs under the draws, nothing else changes |
| Graphs.Graph.ApplyDraws | Graph.cc:12-25 | the loop over the arc ids computes `WeightsUpdated` |
| Graphs.Graph.ReachableFrom | Graph.cc:108-116 | one search: exactly the live nodes reachable from the start node |
| Graphs.Graph.OnPathNodes | Graph.cc:117-128 | the forward search from SOURCE and the backward search from SINK (reverse, search, reverse back) find exactly the live nodes on some SOURCE-to-SINK path, and the graph is left as it was |
| Graphs.Graph.RemoveIsolatedNodes | Graph.cc:107-139 | exactly the isolated nodes (named, not SOURCE or SINK, on no SOURCE-to-SINK path) are erased with their arcs and index entries; SINK is reachable from SOURCE exactly when it was; with every node indexed by its name the survivors are the path nodes plus the terminals |
| Graphs.Graph.PruneIsolated | Graph.cc:130-138 | the erasing part on values: the same outcome as `RemoveIsolatedNodes`, given the nodes both searches found |
| Graphs.Graph.EraseIsolated | Graph.cc:131-138 | the loop over the name index erases the nodes of the names outside `live` (other than SOURCE and SINK) with their arcs and entries, keeping the result well formed |
| Graphs.Graph.ErasedWellformed | Graph.cc:131-138 | erasing those nodes leaves a well-formed digraph whose remaining names index live nodes |
| Graphs.Graph.EraseName | Graph.cc:132-137 | one step of the loop: the erased set grows by the visited name's node exactly when it is isolated |
| Graphs.Graph.MarkElementary | Graph.cc:155-163 | the marked nodes are exactly the live elementary nodes (not SOURCE or SINK, in-degree 1, out-degree 1), each once |
| Graphs.Graph.IsElementary | Graph.cc:157-159 | the test agrees with `Elementary` |
| Graphs.Graph.CollapseElementaryPaths | Graph.cc:149-194 | the loop ends with no self-loop and no elementary node; nodes only disappear, the SOURCE and SINK nodes stay, every survivor reaches what it reached before less the erased nodes, and weights stay probabilities; on a simple input the passes are a `CollapseRun` and the arcs, nodes and next id are exactly the `Collapsed` fold (each pass drops loops, then bypasses its marked nodes by the rule of `BypassedWeights`) |
| Graphs.Graph.CollapsePass | Graph.cc:153-192 | one pass: the marked nodes are exactly the elementary nodes once loops are dropped, exactly they are erased, a change is reported exactly when one was, on a simple digraph the arcs are exactly `BypassedAll` of the loop-free arcs, and without a change the graph is loop-free with no elementary node |
| Graphs.Graph.CollapseStage | Graph.cc:151-192 | one turn of the `while (changing)` loop: a pass recorded as one more pass step, with a change exactly when it marked a node |
| Graphs.Graph.MarkAndBypass | Graph.cc:155-192 | on loop-free arcs: marks exactly the elementary nodes, erases exactly them, and on a simple digraph the arcs are exactly `BypassedAll` of them |
| Graphs.Graph.BypassMarked | Graph.cc:165-192 | bypassing a non-empty list of marked non-terminal nodes erases exactly them, keeps the terminals, reachability among the survivors and probabilities, and on a simple digraph whose marked nodes have one arc in and one out gives exactly `BypassedAll` |
| Graphs.Graph.CollapseMarked | Graph.cc:165-192 | the same on the digraph's values, keeping it well formed |
| Graphs.Graph.Minimize | Graph.cc:76-81 | SOURCE and SINK survive, no self-loop and no elementary node is left, every node isolated in the input is erased, SINK is reachable from SOURCE exactly when it was, no two arcs join the same pair if none did before, and weights stay probabilities; on a simple input the result is exactly the `Collapsed` fold of the input without its isolated nodes, over a whole `CollapseRun` |
| Graphs.Graph.UnifyTerminals | Graph.h:122-139 | arcs of weight 1.0 from SOURCE to each source, then from each target to SINK, through `AddEdge`: the keys grow by exactly those keys, old arcs are kept, every new arc is one of the two kinds, and the terminals exist when their first keys were new |
| Graphs.Graph.LinkSources | Graph.h:131-133 | the first loop: keys grow by the SOURCE keys, every new arc leaves SOURCE with weight 1.0 into a source |
| Graphs.Graph.LinkTargets | Graph.h:136-138 | the second loop: keys grow by the SINK keys, every new arc enters SINK with weight 1.0 from a target |
| Graphs.Graph.Preprocess | Graph.cc:83-105 | the state after unifying (and minimizing when asked) has the ISOLATOR split applied to it, with its first direct SOURCE-to-SINK arc; old arcs survive unification; SINK is reachable from SOURCE exactly when it was after unification; on a graph built by `AddEdge` no direct arc is left; both terminals are live; with minimization the graph is loop-free and the only elementary node can be ISOLATOR |
| Graphs.Graph.Isolate | Graph.cc:88-104 | the first direct SOURCE-to-SINK arc is replaced by an ISOLATOR node and two arcs (head with the old weight, tail with 1.0); with at most one direct arc none is left; SINK is reachable from SOURCE exactly when it was; loop-freedom and probabilities are kept; only the ISOLATOR node can become elementary |
| Graphs.SplitKeepsConnection | Graph.cc:88-104 | a direct SOURCE-to-SINK arc joins them before the split, and the tail and head arcs still join them after it |
| Digraphs.SimpleBetween | Graph.cc:88-104 | on a digraph where no two arcs join the same pair, at most one arc joins any two nodes, so at most one runs from SOURCE to SINK for the split to take |
| Graphs.SplitDirect | Graph.cc:88-104 | the same on the digraph's values, keeping it well formed |
| Graphs.SplitAt | Graph.cc:94-101 | once a direct SOURCE-to-SINK arc is chosen, the split is exactly `SplitApplied` with it, keeps the digraph well formed and loop-free and the terminals' nodes, and leaves no direct arc when there was only one |
| Graphs.SplitProbabilities | Graph.cc:97-100 | the split keeps every weight a probability |
| Graphs.SplitWellformed | Graph.cc:94-101 | the split keeps the digraph well formed, removes exactly the split arc from the direct arcs, and keeps loop-freedom |
| Graphs.SplitElementary | Graph.cc:94-101 | the split changes no old node's elementarity and makes the ISOLATOR node elementary |
| Graphs.IsolateDegrees | Graph.cc:94-101 | the split changes no other node's arcs and gives the ISOLATOR node one arc in and one arc out |
| Graphs.Graph.CreateFirstCut | Graph.cc:196-234 | the sentinel exactly when SINK is a successor of SOURCE; otherwise the first cut around SOURCE, which on a loop-free graph is a partition with SOURCE on the left and SINK on the right |
| Graphs.Graph.RemoveRedundantCuts | Graph.cc:236-253 | the cuts become a sub-collection of the old ones in which no middle lies within another's, each old cut keeping a survivor inside it, and of two cuts with equal middles the later one survives |
| Graphs.Graph.RefineCuts | Graph.cc:255-336 | the cuts become exactly: redundant cuts dropped from the old ones (`mid`), every cut of `mid` grown and shrunk (`GrownShrunk`), redundant cuts dropped again; so every surviving cut is good, no middle lies within another's, there are no more cuts than before, and SOURCE/SINK partitions stay partitions when SINK has no out-arc |
| Graphs.Graph.FindSomeGoodCuts | Graph.cc:338-410 | the sentinel alone when SINK is a successor of SOURCE; the first cut alone when SOURCE has no successor; otherwise `swept` is the sweep from the first cut and the result is exactly `RefineCuts` of the old cuts followed by `swept`, all good and pairwise incomparable, partitions when the old ones were |
| Graphs.Graph.SweepAndRefine | Graph.cc:347-409 | the sweep from the first cut appended to the cuts, then refined: the cuts are exactly the refinement of the old cuts followed by the sweep, good and pairwise incomparable |
| Graphs.Graph.CopyFrom | Graph.h:36-47 | the copy has the other graph's live nodes, arcs and names (under the other graph's ids, see Left out); every copied node is indexed under its name; the keys grow by the copied arcs' keys; into an empty index the result is well formed |
| Graphs.Graph.IndexNames | Graph.h:41-43 | every node indexed under its name; other entries kept |
| Graphs.Graph.KeysOf | Graph.h:44-46 | the keys grow by exactly the copied arcs' `source + target` keys |
| Graphs.LiveNames | Graph.h:37-40 | the copied name map holds exactly the live nodes with their names |
| Graphs.IsolatedExactly | Graph.cc:130-138 | with every node indexed by its name, the nodes kept are exactly the live nodes on a SOURCE-to-SINK path plus the two terminals |
| Graphs.IsolatedAvoids | Graph.cc:132-134 | the erased nodes are neither terminal and lie on no SOURCE-to-SINK path |
| Graphs.RemovingOffPathKeepsConnection | Graph.cc:130-138 | erasing nodes on no path from `s` to `t` keeps whether `t` is reachable from `s` |
| Graphs.ReachKeptConnection | Graph.cc:149-194 | when reachability among the surviving nodes is kept, so is SOURCE-to-SINK connectivity |
| LegacyPreach.EdgeExists | Preach_old.cc:36-42 | true exactly when some arc joins `source` to `target` |
| LegacyPreach.BetweenAfterAdd | Preach_old.cc:107-110 | adding an arc between an unjoined pair makes it the only arc between them and changes no other pair |
| LegacyPreach.KeptTransitive | Preach_old.cc:105-120 | keeping every arc composes over the two loops |
| LegacyPreach.AddKeepsUnlinked | Preach_old.cc:107-110 | adding an arc between an unjoined pair keeps every added arc the only one joining a pair no old arc joined |
| LegacyPreach.SimpleAdded | Preach_old.cc:105-120 | adding arcs only between pairs no arc joined keeps no two arcs joining the same pair |
| LegacyPreach.AddedUnlinkedCompose | Preach_old.cc:105-120 | two rounds of such additions are one round |
| LegacyPreach.UnifyTerminals | Preach_old.cc:87-121 | SOURCE and SINK exist; every source is joined from SOURCE and every target to SINK; old arcs are kept; every added arc has weight 1.0, runs between a terminal and a listed name, and is the only arc joining a pair no arc joined before |
| LegacyPreach.LinkPair | Preach_old.cc:107-110 | after the step the pair is joined; the only arc that can be added is `x -> y` with weight 1.0, and only when no arc joined them |
| LegacyPreach.LinkSources | Preach_old.cc:105-111 | every source joined from SOURCE; each added arc weighs 1.0, leaves SOURCE and enters a listed source |
| LegacyPreach.LinkTargets | Preach_old.cc:114-120 | every target joined to SINK; each added arc weighs 1.0, enters SINK and leaves a listed target |
| LegacyPreach.CollectBad | Preach_old.cc:183-187 | the collected nodes are exactly the live nodes other than SOURCE and SINK not found by both searches, in increasing id order |
| LegacyPreach.EraseNodes | Preach_old.cc:190-192 | the nodes and arcs afterwards are those without the collected nodes |
| LegacyPreach.PruneOffPath | Preach_old.cc:183-192 | the surviving nodes are exactly the live path nodes plus the two terminals, their arcs are kept, and SINK stays reachable from SOURCE exactly when it was |
| LegacyPreach.BadIsOffPath | Preach_old.cc:183-187 | the collected nodes are exactly the live nodes, other than the terminals, on no SOURCE-to-SINK path |
| LegacyPreach.WithoutWellformed | Preach_old.cc:190-192 | erasing live nodes with their arcs keeps the digraph well formed |
| LegacyPreach.RemoveIsolatedNodes | Preach_old.cc:155-193 | exactly the live nodes on no SOURCE-to-SINK path, other than the terminals, are erased with their arcs; the name maps are untouched; SINK stays reachable from SOURCE exactly when it was |
| LegacyPreach.Reduce | Preach_old.cc:270-274 | both terminals survive, no self-loop and no elementary node is left, nodes only disappear, SINK stays reachable from SOURCE exactly when it was, and weights stay probabilities; on a simple input the result is exactly the `Collapsed` fold (weights by the rule of `Graphs.BypassedWeights`) of the input without its off-path nodes |
| LegacyPreach.Preprocess | Preach_old.cc:262-291 | unification keeps every old arc and adds only the only arcs between pairs no arc joined; the state after reduction has the ISOLATOR split applied to it, with its first direct SOURCE-to-SINK arc; SINK is reachable from SOURCE exactly when it was after unification; when no two input arcs joined the same pair no direct arc is left; both terminals are live; with `pre` the graph is loop-free and the only elementary node can be ISOLATOR; weights stay probabilities |
| LegacyPreach.OnlyIsolatorElementary | Preach_old.cc:275-290 | splitting a direct arc of a graph without elementary nodes leaves ISOLATOR the only elementary node |
| LegacyPreach.FindSomeGoodCuts | Preach_old.cc:511-583 | `cuts` comes back as it was when SINK is a successor of SOURCE or SOURCE has none; otherwise `swept` is the sweep from the first cut and the result is exactly what dropping redundant cuts of `GrownShrunk` of the old cuts followed by `swept` leaves: good cuts, no two middles containing one another; shaped cuts stay shaped on a loop-free graph whose sink has no out-arc |
| LegacyPreach.SausageTerminals | Preach_old.cc:626-633 | the table has exactly the sausage's arcs, each with its source and target |
| LegacyPreach.ConsumeSausage | Preach_old.cc:623-648 | the advance succeeds exactly when the sausage is non-empty; then the live terms are the new stage's terms, over distinct sets of end nodes within `endNodes`, and every arc of the sausage was added once, in id order |
| LegacyPreach.AddSausage | Preach_old.cc:638-644 | the coefficients keep adding up to 1 and every end term lies within `endNodes`; with a non-empty sausage no live term is left; every arc was added once, in id order |
| LegacyPreach.AddOne | Preach_old.cc:641-643 | one arc added and collapsed: the staged invariant grows by that arc, coefficients still add up to 1, and after the last arc no live term is left |
| LegacyPreach.EdgesAsBitset | Preach_old.cc:605-609 | the bitset holds exactly the arc ids |
| LegacyPreach.Solve | Preach_old.cc:660-712 | an answer is a probability: the coefficient of the one of exactly two final terms whose reached set is the SINK node, after every arc was added exactly once |
| Solvers.DistinctCard | RandomSolver.h:30-34 | a list without repeats has as many elements as entries |
| Solvers.PrefixElements | RandomSolver.h:21-24 | each further entry of a list without repeats is a new element |
| Solvers.BelowCard | RandomSolver.h:30-34 | the ids below `n` are `n` many |
| Solvers.PermutationOnto | RandomSolver.h:33 | a shuffle's permutation of the positions below `n` hits every position |
| Solvers.PermutedElements | RandomSolver.h:33 | shuffling keeps the length and the elements of the list, and a list without repeats stays without them |
| Solvers.StageStep | SausageSolver.cc:49-51 | adding a new edge and collapsing: every live term had left the edge undecided, the stage grows by the edge, no coefficient is lost, and after the stage's last edge no live term is left |
| Solvers.AddAndCollapse | SausageSolver.cc:49-51 | the shared loop body keeps the stage invariant for one more edge, keeps the total coefficient, and empties the live terms after the last edge |
| Solvers.AddInOrder | RandomSolver.h:21-24 | all edges added in the shuffled order: no coefficient is lost and, with at least one edge, no live term is left |
| Solvers.TotalNonNegative | Polynomial.cc:50-64 | coefficients at least 0 add up to at least 0 |
| Solvers.CoefBelowTotal | Polynomial.cc:50-64 | no single coefficient exceeds the total |
| Solvers.ResultBounded | Polynomial.cc:50-64 | a result read from terms adding up to 1 exists and is a probability |
| Solvers.ResultUnreached | Polynomial.cc:57-63 | when no term reached the sink the result is the other term's coefficient, 1 |
| Solvers.AdvancedSettled | Polynomial.cc:68-83 | the terms of an advanced polynomial decide nothing yet and are keyed by distinct sets of end nodes |
| Solvers.SettledResult | Polynomial.cc:50-64 | in the last stage a result exists exactly when a term is left; it is a probability: the coefficient of the term that reached the sink, or 1 when none did |
| Solvers.ConsumedStep | SausageSolver.cc:9-26 | consuming a sausage of uncovered edges in id order keeps the sausages pairwise disjoint, within the covered edges, and every covered edge added exactly once |
| Solvers.Setup | Solver.h:9-14 | the source and target bitsets are the SOURCE and SINK nodes, the edge information is every arc's weight and terminals, and the edge bitset is every arc id |
| Solvers.TerminalTable | SausageSolver.cc:38-41 | the terminal table has exactly the sausage's edges, each with its terminals from the edge information |
| Solvers.SausageSolver.constructor | SausageSolver.h:10-12 | the common set-up, a single term of coefficient 1 reaching the SOURCE node, and the graph's good cuts; the graph's nodes and arcs are left as they are |
| Solvers.SausageSolver.ConsumeSausage | SausageSolver.cc:35-56 | a non-empty sausage, every edge added once in id order, leaves one live term per reached set of end nodes with the same total coefficient; an empty one leaves no term |
| Solvers.SausageSolver.AddSausage | SausageSolver.cc:46-52 | the loop keeps the total coefficient and, for a non-empty sausage, leaves every term an end term |
| Solvers.SausageSolver.Solve | SausageSolver.cc:3-33 | the sausages are pairwise disjoint and every edge is added exactly once; a result exists exactly when no sausage was empty, and then it is a probability: the coefficient of the term that reached the sink, or 1 |
| Solvers.RandomSolver.constructor | RandomSolver.h:13 | the common set-up and a single term of coefficient 1 reaching the SOURCE node, with no shuffled order yet |
| Solvers.RandomSolver.Shuffle | RandomSolver.h:30-34 | every edge id pushed in increasing order, then the list rearranged by the drawn permutation; on the first call every edge occurs exactly once |
| Solvers.RandomSolver.AscendingIds | RandomSolver.h:31 | the pushes are the edge ids in increasing order, each once |
| Solvers.RandomSolver.Solve | RandomSolver.h:15-27 | every edge added exactly once in the shuffled order; a result exists exactly when there is an edge, and then it is a probability: the coefficient of the term that reached the sink, or 1 |
| Solvers.AdvanceAndRead | RandomSolver.h:25-26 | the last `Advance` and `GetResult`: the live terms become the end terms, keyed by distinct subsets of the sink; a result exists exactly when some edge was added, and then it is a probability, the coefficient of the term that reached the sink, or 1 |
| Sampling.FailProductBounds | EdgeSubset.h:19-25 | with every probability in [0, 1], the chance that all the chosen edges fail is in [0, 1] |
| Sampling.GatheredStep | EdgeSubset.h:19-25 | one more entry of the edge table keeps the loop invariant: an edge from the left to the middle is taken once and its failure chance multiplied in; any other entry changes nothing |
| Sampling.EdgeSubset.constructor | EdgeSubset.h:16-28 | the edges are exactly those from the left of the cut to its middle, the success chance is the product of their failure chances plus 0.001, so between 0.001 and 1.001, and the size is the number of middle nodes |
| Sampling.EdgeSubset.Weight | EdgeSubset.h:30 | the weight shared out over the edges gives back success chance times cut size, and lies between 0 and that product |
| Sampling.EdgeSubset.GetEdges | EdgeSubset.h:34 | an edge is returned exactly when it goes from the left of the cut to its middle |
| Sampling.EdgeSubset.CutSize | EdgeSubset.h:36 | the size is the number of middle nodes |
| Sampling.ReachedNoArc | SamplingSolver.cc:26-27 | with no arc only the start is reached |
| Sampling.ReachedOneArc | SamplingSolver.cc:24-25 | with one arc the sink is reached exactly when the arc joins the source to it |
| Sampling.LoneArcExact | SamplingSolver.cc:24-25 | the corrected contribution of a lone arc is exactly the chance that the sink is reachable through it |
| Sampling.NoArcExact | SamplingSolver.cc:26-27 | a graph without arcs contributes 0, the chance that the sink is reachable in it |
| Sampling.ContributionAsWritten | SamplingSolver.cc:21-27 | as written: the exact answer for more than one arc, 1.0 for one arc, 0.0 for none |
| Sampling.LoneArcOvercounted | SamplingSolver.cc:24-25 | a lone arc of weight 0.5 from source to sink is reached half the time, yet is counted as 1.0 |
| Sampling.AccumulatedBounds | SamplingSolver.cc:23-27 | contributions in [0, 1] add up to between 0 and their number |
| Sampling.MeanBounded | SamplingSolver.cc:29 | the mean of contributions in [0, 1] lies in [0, 1] |
| Sampling.Ceil | SamplingSolver.cc:64 | `ceil` gives the least integer not below its argument |
| Sampling.ScaledIndex | SamplingSolver.cc:67 | a draw in [0, 1) scaled by a positive length and rounded down indexes that length |
| Sampling.WalkMembers | SamplingSolver.cc:44 | the walk over a bitset visits exactly its ids below the width, each once, in increasing order |
| Sampling.WalkPast | SamplingSolver.cc:44 | a walk started past every id visits nothing |
| Sampling.RecordedProps | SamplingSolver.cc:68-76 | the subset pass records no edge twice, no more than the budget, only edges without a sample, and every edge of the subset when it stops short of the budget |
| Sampling.RecordedStep | SamplingSolver.cc:69-74 | one step of the pass records the edge, spending one unit of budget, exactly when it has no sample yet |
| Sampling.RunAround | SamplingSolver.cc:78-85 | the two scans find the whole run of entries equal to the drawn one, and it can be stretched no further |
| Sampling.ErasedAsWritten | SamplingSolver.cc:86 | the erase as written drops the run but its last entry, so a non-empty chance list never becomes empty |
| Sampling.ErasedAsWrittenStalls | SamplingSolver.cc:66-87 | one subset `{0}`, chances `[0]`, budget 2: after the first round nothing is recorded or erased, so the loop never ends |
| Sampling.ErasedRun | SamplingSolver.cc:86 | the erase as intended: the whole run goes, so the list shrinks, every other value stays and nothing new appears |
| Sampling.FixedDraws | SamplingSolver.cc:42-46 | every id of the sample set, in increasing order, takes the next number: the samples have exactly those keys and the `j`-th id gets the `j`-th number |
| Sampling.RandomSampledAdvance | SamplingSolver.cc:51-55 | the walk reads one or two numbers per edge |
| Sampling.RandomSampledKeys | SamplingSolver.cc:51-55 | samples are added only for the edges walked |
| Sampling.RandomSampledKeeps | SamplingSolver.cc:51-55 | samples of edges not walked are kept |
| Sampling.RandomSampledFromStream | SamplingSolver.cc:51-55 | every new sample is a number the walk read |
| Sampling.RandomSampledHead | SamplingSolver.cc:52-54 | an edge gets a sample exactly when its first number is at least the success chance, and the sample is the number after it |
| Sampling.RandomSampledStep | SamplingSolver.cc:52-54 | one step of the walk reads one number, or two when the edge is sampled |
| Sampling.RandomDraws | SamplingSolver.cc:48-57 | the loop over the edge bitset computes the walk `RandomSampled` from no samples |
| Sampling.RecordDraws | SamplingSolver.cc:68-76 | the subset pass records exactly `Recorded`'s edges, each taking the next number, keeps old samples, and spends one unit of budget per edge |
| Sampling.ChancedEdgesMembers | SamplingSolver.cc:66-87 | an edge is among the chanced edges exactly when some chance names a subset holding it |
| Sampling.RoundKeeps | SamplingSolver.cc:66-87 | one round keeps the round invariant: budget spent equals edges recorded, recorded edges lie in chanced subsets, and a gone subset had all its edges recorded while budget lasts |
| Sampling.SubsetRounds | SamplingSolver.cc:64-87 | with the run erase corrected the loop ends; the budget stays between 0 and its start, each unit spent records a new edge, every recorded edge lies in a chanced subset, and leftover budget means every chanced subset was fully recorded |
| Sampling.SamplingSolver.constructor | SamplingSolver.h:15-21 | the solver holds the graph and the parameters given, with the generator and clock unread |
| Sampling.SamplingSolver.NextRand | SamplingSolver.h:59 | the next number of the generator, which moves on by one |
| Sampling.SamplingSolver.GetCPUTime | SamplingSolver.h:62 | the next clock reading, which moves on by one |
| Sampling.SamplingSolver.SampleFixed | SamplingSolver.cc:42-46 | the samples have exactly the keys of the sample set; the `j`-th id in increasing order gets the `j`-th number read |
| Sampling.SamplingSolver.SampleRandom | SamplingSolver.cc:48-57 | the samples and the generator's new position are the walk `RandomSampled` over the graph's arcs; only arcs get samples |
| Sampling.SamplingSolver.SampleWeightedRounds | SamplingSolver.cc:64-87 | with budget `ceil(CountArcs() * success_prob_)`: no sample when it is not positive; otherwise the budget spent equals the samples taken, every sample lies in a chanced subset, and leftover budget means every chanced subset was fully sampled |
| Sampling.SamplingSolver.Reduced | SamplingSolver.cc:10-18 | the copy with the samples applied and minimised is well formed, loop-free, with SOURCE and SINK live and distinct, and with probabilities as weights |
| Sampling.SamplingSolver.Iteration | SamplingSolver.cc:10-27 | a contribution is a probability; with at most one arc left it is exactly the chance that SINK is reachable in the reduced graph (the corrected lone-arc case, see Left out) |
| Sampling.SamplingSolver.ExactSolve | SamplingSolver.cc:21-23 | no answer when the reduced copy's ids outgrow the bitsets; otherwise the answer is the sausage solver's `GetResult` on its final live terms, which are keyed by distinct subsets of the SINK node, so it is the coefficient of the term that reached SINK whenever one did; an answer is a probability and the coefficients add up to 1 |
| Sampling.SamplingSolver.ProbeTime | SamplingSolver.cc:155-169 | `probe_repeat_` timed solves read the clock twice each, and the probe time is the sum of the differences |
| Sampling.SamplingSolver.TimedSample | SamplingSolver.cc:156-168 | one repetition reads the clock twice and measures the difference |
| Sampling.SamplingSolver.TimedSolve | SamplingSolver.cc:162-167 | the solve is timed between two clock readings and draws no number |
| Sampling.SamplingSolver.Probe | SamplingSolver.cc:132-176 | one time per probe; the edges kept are the first probe whose time is below `DBL_MAX`, strictly below every earlier time and not above any later one; none below `DBL_MAX` keeps the empty set; every probe samples only arcs |
| Sampling.SamplingSolver.Solve | SamplingSolver.cc:3-30 | the graph is never modified; the answer is the mean of one contribution per iteration, each in [0, 1], so a probability; no iteration gives no answer and a negative count gives 0 (with the corrected lone-arc case, see Left out) |
| Sampling.SamplingSolver.Iterate | SamplingSolver.cc:9-28 | the loop of `Solve`: unless a pass fails, one contribution per iteration, each in [0, 1], and `result` is their sum |
| Adjacency.FlippedTwice | NewGraph.h:38-47 | swapping every record's endpoints twice gives back the records, so reversing twice restores the graph |
| Adjacency.NewGraph.constructor | NewGraph.h:22-25 | no node, no edge, no record, and an empty out-set and in-set for each of the `NUM_NODES` nodes |
| Adjacency.NewGraph.AddNode | NewGraph.h:26 | the node joins the node set and nothing else changes |
| Adjacency.NewGraph.AddEdge | NewGraph.h:28-36 | the new edge takes the current id, which no live edge had; both endpoints become nodes, the record is appended, the edge becomes live and joins exactly the out-set of its source and the in-set of its target, and the id counter moves on |
| Adjacency.NewGraph.Reverse | NewGraph.h:38-47 | every record's endpoints are swapped and the out-sets and in-sets trade places, keeping each node's sets equal to its live edges |
| Adjacency.NewGraph.RemoveEdge | NewGraph.h:72-76 | the edge is no longer live and leaves exactly the out-set of its source and the in-set of its target; its record stays; removing a dead edge changes nothing else |
| Adjacency.NewGraph.RemoveSelfCycles | NewGraph.h:78-84 | exactly the self-loop records' edges stop being live, so no live self-loop is left; with none live nothing changes, so a second call is a no-op |
| Adjacency.NewGraph.GetNodeInDegree | NewGraph.h:86 | the in-degree is the number of live edges entering the node |
| Adjacency.NewGraph.GetNodeOutDegree | NewGraph.h:88 | the out-degree is the number of live edges leaving the node |

## Left out

- Reading files and program entry are not modelled: `Graph::Create`, `ReadList`, `NewGraph::Create`, `NewGraph::ReadList`, `CreateGraph`, both `main` functions, argument parsing and all printing (`Print`, `PrintGraph`, `PrintCut`, `PrintCuts`). The source and target lists that `UnifyTerminals` reads are parameters instead. `NewGraph::UnifyTerminals` is left out because it only reads files and calls `AddEdge`.
- The LEMON library is foreign code. Its digraph is a node set plus a map from arc id to (source, target, weight), and breadth-first search is the reachability closure. LEMON reuses the ids of erased nodes and arcs. The model hands out fresh ids instead, so the bitset bounds (`Fits`, `nextNode <= NUM_NODES`) are stated on the next id. This is stronger than what LEMON needs.
- Iteration order over LEMON containers and `unordered_map` is unspecified. Loops over them pick any remaining element, and the contracts hold for every order.
- Weights and coefficients are `real`, so there is no rounding. The legacy asserts' tolerance (between 0.99 and 1.01) is kept as a tolerance of 0.01. Everywhere else the model proves exact sums of 1.
- The random generator, `srand`/`random_shuffle` and `clock()` are not modelled. The generator and the clock are streams `draws` and `clock` with cursors `drawn` and `ticks`. The shuffle is a permutation passed to `RandomSolver.Shuffle`.
- `GetChanceVector` is left out because it has no return statement and divides by zero when all weights are equal (`SamplingSolver.cc:108-130`). The chance list is a parameter of `SampleWeightedRounds`.
- The spill-over loop of `SampleWeightedRandom` is left out (`SamplingSolver.cc:89-104`). It uses `|` where a set difference was meant and an index as an edge id.
- Sampling.SamplingSolver.Probe: modelled for unweighted probing only. The weighted branch fills a shadowed `edge_subsets` (`SamplingSolver.cc:139`) and relies on `GetChanceVector`, so the outer list stays empty.
- Sampling.SamplingSolver.Solve: requires that fixed and weighted sampling are not both on, for the same reason. The exact answers it averages are only proved to be probabilities.
- Sampling.SamplingSolver.Iteration: with more than one arc left, the contribution is proved to lie in [0, 1], not to equal the reachability probability of the reduced graph. Its `None` outcome (ids beyond the bitset widths) comes from the fresh-id model.
- Sampling.SamplingSolver.Iteration: when exactly one arc is left, the contribution is that arc's weight if it joins SOURCE to SINK (`LoneArc`, the corrected member of the first Findings row), while `SamplingSolver.cc:24-25` adds 1.0. The as-written value is `ContributionAsWritten`, and `LoneArcOvercounted` shows the difference.
- Sampling.SamplingSolver.Solve: averages the corrected contributions of `Iteration`, not the ones `SamplingSolver.cc:24-25` computes (see the first Findings row).
- Sampling.SamplingSolver.Reduced: states the properties of the reduced copy (well formed, loop-free, terminals live, weights probabilities) but not which arcs survive. `Graphs.Graph.UpdateWeights` states the update exactly (`WeightsUpdated`). When the updated arcs join no pair twice, `Graphs.Graph.Minimize` states the surviving arcs and weights exactly as the `Collapsed` fold; otherwise it states reachability, loop-freedom and probabilities only.
- Sampling.SamplingSolver.ExactSolve: the answer is tied to the sausage solver's final terms, not to the reachability probability of the reduced graph, for the same reason as `SausageSolver.Solve`.
- Graphs.Graph.CollapseElementaryPaths, Graphs.Graph.Minimize, LegacyPreach.Reduce: the exact arcs and weights (the `Collapsed` fold) are stated only for inputs where no two arcs join the same pair. Otherwise the link step merges into whichever parallel arc its walk meets first, and LEMON does not fix that order; the other promises hold for every input.
- Sampling.SamplingSolver.SampleWeightedRounds: uses the corrected erase (see Findings), since the erase as written need not terminate.
- Solvers.SausageSolver.Solve: proves coverage (disjoint sausages, every edge added once), conservation of the total coefficient and that the answer is a probability read from the sink's term. It does not prove that the answer equals the reachability probability over all arc subsets.
- Solvers.RandomSolver.Solve: the same as for `SausageSolver.Solve`.
- LegacyPreach.Solve: the same as for `SausageSolver.Solve`.
- TermAlgebra.Term.Multiply: the meaning of the coefficient as the probability of the set of arc assignments the term stands for is not stated. The model proves the split and conservation identities from which that meaning follows.
- Graphs.Graph.Preprocess: requires non-empty source and target lists whose first keys are new. Otherwise `name_to_node_[SOURCE]` yields an invalid node and the C++ behaviour is undefined. It also requires room in the node bitset for minimisation.
- LegacyPreach.Preprocess: requires room in the node bitset for minimisation.
- Graphs.Graph.Preprocess, LegacyPreach.Preprocess: "no direct SOURCE-to-SINK arc is left" is proved only for inputs where no two arcs join the same pair (for the newer graph, also every arc's key recorded, as `AddEdge` leaves it). Arcs added outside `AddEdge` could give two direct arcs, and then one survives the split.
- Graphs.Graph.CopyFrom: the copy keeps the other graph's node and arc ids, while `digraphCopy` hands out fresh ids of the copy's own. So the sample map keyed by the original arcs, which `UpdateWeights` looks up with the copy's arcs in `SamplingSolver::Iteration`, is modelled as keyed by the same ids; the C++ lookup only matches when LEMON happens to give equal ids.
- The legacy `FindGoodCuts` and `FindAllCuts`, and `compareCuts`, are not modelled. They are not used by the legacy `Solve` path.
- The legacy string helpers are diagnostic output built on number formatting, so they are left out: `joinString`, `splitString`, `arcToString`, `edgesToReferenceString` and `CheckProcessedReference`.
- `TestRunner.cc`, `TermTest.cc` and `PolynomialTest.cc` are not modelled. The tests' expected rejections appear as the preconditions of `Multiply`.
- `Util.h` and `Stl.h` are not modelled. Bitsets are finite sets bounded by `NUM_NODES` and `NUM_EDGES`.
- Iterator invalidation while erasing during a walk is not modelled. Only the intended effect on the sets is.
- The shortcut in `PReach.cc` that prints 0.0 for a graph without arcs is not modelled.

## Findings

| source | as written | input that shows it | evidently intended | confidence | as-written member | corrected member |
|---|---|---|---|---|---|---|
| SamplingSolver.cc:24-25 | an iteration whose reduced graph has exactly one arc adds 1.0 to the estimate | one arc of weight 0.5 from SOURCE to SINK after reduction: it is present half of the time, but counts as 1.0 | add the arc's weight when it joins SOURCE to SINK, i.e. the reachability probability of the one-arc graph | not executed | Sampling.LoneArcOvercounted | Sampling.LoneArcExact |
| SamplingSolver.cc:86 | `chances.erase(begin + start, begin + end)` removes the run of the drawn subset's chances except its last entry | one subset holding edge 0, chances `[0]`, budget 2: the first round records edge 0 and erases nothing; every later round draws the same subset, records nothing and erases nothing, so the loop never ends | erase the whole run (`begin + end + 1`), so the chance list shrinks each round and the loop ends | not executed | Sampling.ErasedAsWrittenStalls | Sampling.ErasedRun |
