# DEX aggregator routing core, modelled in Dafny

This project models the routing core of a decentralised-exchange aggregator.
The aggregator keeps a liquidity graph: tokens are nodes, pools are edges,
and each edge carries the liquidity of its two tokens. It lists the
fewest-hop routes between two tokens. It folds per-hop linear fits into one
line per route and sets up the linear program that splits an order across
routes. It then cleans the solver's split and pushes each share through the
constant-product curve of every pool on its route.

The files:

- `errors.dfy` (module `Outcomes`): the `Result` type and the Python exceptions the core raises.
- `collections.dfy` (module `Collections`): duplicate-free sequences, the split of a sequence into its prefix and last element, and overwriting a map key. The graph, the path search and the `DEXA` object share them.
- `builtins.dfy` (module `Builtins`): the Python built-ins the core calls (`max`, `list.index`, `sum`, numpy's `prod`).
- `exchange.dfy` (module `Exchange`): `exchange_function`, the constant-product curve, with its bounds, monotonicity and concavity.
- `postprocess.dfy` (module `PostProcess`): `process_model_result`. An imperative method works on an `array<real>` and is proved equal to a function model. It comes with the cleanup and routing lemmas and with the two-phase reading.
- `prior.dfy` (module `PriorModel`): `prior_to_model`. A method with a loop is proved against a function, with lemmas relating each record to the composition of its route's hops.
- `linear_program.dfy` (module `LinearProgram`): the matrix and indicator construction of `linear_model_old`, on `array2`, and the extraction of the inputs from a solution.
- `graph.dfy` (module `Graphs`):
  - the `nx.Graph` state as a value (`Snapshot`) and as a class (`Graph`) whose methods update it in place;
  - `from_list` as functions of the edge and node records, with its meaning proved;
  - `assign_weight` as a function of the edge dicts.
- `paths.dfy` (module `SimplePaths`): the path query, that is, `shortest_simple_paths` cut by `islice`. All simple paths are enumerated depth first and sorted by hop count, and the library's promise is proved of the result.
- `core.dfy` (module `Core`): the `DEXA` object as class `Dexa`. `FromList`, `AssignWeight` and `GetPathways` are proved against the functions above.

Numbers are Dafny `real`s, which are exact. A Python exception is an `Err` carrying its kind.

## Model

| member | source | states |
|---|---|---|
| Exchange.ExchangeFunction | entropic/liquidity.py:11-26 | the output `y` keeps the pool's product: `(liq1 + x) * (liq2 - y) == liq1 * liq2` |
| Exchange.ExchangeClosedForm | entropic/liquidity.py:25-26 | the output equals `liq2 * x / (liq1 + x)` |
| Exchange.ExchangeBounds | entropic/liquidity.py:25-26 | for positive reserves and `x >= 0`: `0 <= y < liq2`, and `y == 0` exactly when `x == 0`, so a trade never drains the output reserve |
| Exchange.ExchangeDifference | entropic/liquidity.py:25-26 | the gain between two inputs is `liq1 * liq2 * (x2 - x1)` over the two denominators |
| Exchange.ExchangeStrictlyIncreasing | entropic/liquidity.py:25-26 | for positive reserves, `0 <= x1 < x2` gives a strictly larger output |
| Exchange.ExchangeMonotone | entropic/liquidity.py:25-26 | for positive reserves, `0 <= x1 <= x2` gives an output that is no smaller |
| Exchange.ExchangeConcave | entropic/liquidity.py:25-26 | the second difference with step `h >= 0` is `<= 0`, and strictly negative for `h > 0` |
| Exchange.SamplesAt | tests/test_liquidity.py:27-29 | entry `i` of the curve sampled on the grid `x0, x0 + h, ...` is the curve at the non-negative input `x0 + i * h` |
| Exchange.SampleStepAt | tests/test_liquidity.py:22-33 | at every grid position the next sample is no smaller and the second difference is `<= 0` |
| Exchange.Samples | tests/test_liquidity.py:27-29 | the curve sampled at `n` evenly spaced non-negative inputs, as `np.linspace` and the vectorised call give; one sample per grid point |
| Exchange.Diff | tests/test_liquidity.py:31-33 | numpy's `diff`: one entry shorter, each entry the step between neighbours |
| Exchange.SampledCurveMonotoneConcave | tests/test_liquidity.py:22-33 | on every evenly spaced grid of non-negative inputs, all first differences are `>= 0` and all second differences `<= 0` |
| Builtins.Max | entropic/liquidity.py:162 | `max`: an element of the list that no element exceeds |
| Builtins.IndexOf | entropic/liquidity.py:163 | `list.index`: the first position holding the value |
| Builtins.SumUpdate | entropic/liquidity.py:164-167 | overwriting one entry changes `sum` by the difference |
| PostProcess.MaxIndex | entropic/liquidity.py:162-163 | the index of the first maximal allocation: the maximum sits there and every earlier entry is smaller |
| PostProcess.CleanPrefixOther | entropic/liquidity.py:164-167 | an entry other than the maximal one is zeroed exactly when it was below the threshold and its iteration has run, and is kept otherwise |
| PostProcess.CleanPrefixMax | entropic/liquidity.py:164-166 | the maximal entry ends up holding itself plus every amount moved onto it |
| PostProcess.CleanPrefixSum | entropic/liquidity.py:164-167 | every intermediate cleanup state of a non-negative allocation has the original total |
| PostProcess.CleanupPreservesSum | entropic/liquidity.py:162-167 | the cleanup of a non-negative allocation preserves its sum |
| PostProcess.CleanupOutcome | entropic/liquidity.py:162-167 | after the cleanup of a non-negative allocation, each entry is 0 or at least 1% of the original maximum; only the first maximal entry gains, and it gains exactly what was zeroed |
| PostProcess.CleanupNegativeBelowThreshold | entropic/liquidity.py:162-167 | with a negative entry an entry can end strictly between 0 and the threshold: `[1, -0.995]` cleans to `[0.005, 0]`, below the threshold 0.01 |
| PostProcess.CleanPrefixNonNegative | entropic/liquidity.py:164-167 | every intermediate state of a non-negative allocation stays non-negative |
| PostProcess.CleanupNegativeLosesSum | entropic/liquidity.py:164-167 | with a negative entry the sum is not kept: `[-10, 5]` (total -5) cleans to `[0, 0]` |
| PostProcess.Route | entropic/liquidity.py:174-178 | one path's amount pushed through its pools in order, failing at the first hop that divides by zero |
| PostProcess.Hop | entropic/liquidity.py:175-178 | one hop succeeds exactly when neither the rate nor `asset_a + amount` is zero |
| PostProcess.RouteSucceeds | entropic/liquidity.py:173-178 | through pools with positive liquidity and rate, a non-negative amount always routes; the result is non-negative, zero only for zero, and below half the last pool's liquidity |
| PostProcess.RouteStrictlyIncreasing | entropic/liquidity.py:173-178 | through such pools, more in gives strictly more out |
| PostProcess.RoutePrefixFails | entropic/liquidity.py:174-178 | a failing hop fails the whole route |
| PostProcess.EstimateUpTo | entropic/liquidity.py:169-178 | the output block over the first `i` paths: the dict of routed amounts of the non-zero allocations, or the first error |
| PostProcess.Estimate | entropic/liquidity.py:169-178 | the output block over all paths |
| PostProcess.EstimateUpToMeaning | entropic/liquidity.py:169-178 | the output block succeeds exactly when there is an allocation per path and each non-zero one routes; its dict has exactly the paths with a non-zero allocation, each mapped to the routed amount |
| PostProcess.EstimateStaysFailed | entropic/liquidity.py:171-178 | once the output block has raised, the result is that error |
| PostProcess.RunUpTo | entropic/liquidity.py:164-178 | the loop as written stops after at least one and at most `k` iterations |
| PostProcess.RunStaysFailed | entropic/liquidity.py:164-178 | an iteration that raises ends the call with its error |
| PostProcess.RunOkRanAll | entropic/liquidity.py:164-179 | a successful run returns the output block on the fully cleaned allocation |
| PostProcess.ProcessedOutcome | entropic/liquidity.py:147-179 | on success `actual_var` holds the cleaned allocation, the dict holds exactly the paths with a non-zero cleaned allocation, each mapped to its routed amount, and the total is their sum |
| PostProcess.ProcessSucceeds | entropic/liquidity.py:147-179 | a non-empty non-negative allocation with one entry per path always succeeds over healthy pools |
| PostProcess.EstimateOutputs | entropic/liquidity.py:169-178 | the nested output loops return the output-block function of the array |
| PostProcess.ProcessedAsWritten | entropic/liquidity.py:148-179 | `process_model_result` as written: ValueError for an empty allocation, otherwise the cleanup loop with the output block run in every iteration; the result and the final allocation |
| PostProcess.ProcessModelResult | entropic/liquidity.py:147-179 | the result and the final array are those of the loop as written, output block inside the cleanup loop, and an empty allocation raises ValueError |
| PostProcess.ProcessedOnceMeaning | entropic/liquidity.py:164-179 | with the output block run once after cleanup: it succeeds exactly when each non-zero cleaned allocation routes, reports those routed amounts and their total, and leaves the cleaned allocation |
| PostProcess.ProcessedOnceSucceeds | entropic/liquidity.py:164-179 | run once, it succeeds as soon as the pools on the paths that keep a non-zero allocation are healthy |
| PostProcess.AsWrittenAgreesWhenOk | entropic/liquidity.py:164-179 | whenever the code as written succeeds, it returns and leaves exactly what the single output block would |
| PostProcess.OutputBlockInsideLoopFails | entropic/liquidity.py:164-178 | paths `[[Pool(2, 1)], [Pool(2, 0)]]` with allocation `[100, 0.001]`: the code as written raises ZeroDivisionError, the single block succeeds |
| PriorModel.PathLine | entropic/liquidity.py:196-223 | a path's record exists exactly when the path has an edge, enough intercepts and a slippage; otherwise the KeyError, IndexError or ValueError Python raises |
| PriorModel.PriorLines | entropic/liquidity.py:194-225 | one record per path, in path order, or the first failure |
| PriorModel.PriorToModel | entropic/liquidity.py:182-225 | the appending loop returns the records of all paths, or the first error |
| PriorModel.PriorLinesStayFailed | entropic/liquidity.py:196-225 | a failure on one path is the failure of the whole call |
| PriorModel.ComposeIsApplyHops | entropic/liquidity.py:205-223 | the composed line of the first `n` hops is what feeding an input through those hops gives |
| PriorModel.ComposeSlopeIsProduct | entropic/liquidity.py:200-217 | the composed slope is the product of the hop slopes |
| PriorModel.ProductSnoc | entropic/liquidity.py:200 | `prod` of a list with one more factor is that factor times the old product |
| PriorModel.PathLineMeaning | entropic/liquidity.py:196-223 | `m` is the product of all slopes; `c` is the composed intercept of the first one, two or three hops; `s` is the single slippage of a one-edge path and the largest one otherwise |
| PriorModel.ShortPathLineExact | entropic/liquidity.py:196-223 | for paths of one to three edges, `m * x + c` is the path's output for every input |
| PriorModel.LongPathLineNotExact | entropic/liquidity.py:214-223 | for four edges the record ignores the last intercept: slopes `[1, 1, 1, 2]` and intercepts `[0, 0, 0, 1]` give `2x + 0`, but the hops give 1 at 0 |
| LinearProgram.DotZero | entropic/liquidity.py:262-264 | a zero row contributes nothing to the matrix product |
| LinearProgram.DotSingle | entropic/liquidity.py:262-264 | a row with a single non-zero entry picks out that column |
| LinearProgram.DotPair | entropic/liquidity.py:262-264 | a row with two non-zero entries picks out those two columns |
| LinearProgram.IndicatorsMeaning | entropic/liquidity.py:248-249 | `output_var` is 1 exactly at the even columns and `input_var` exactly at the odd ones, so each column is marked by exactly one of them |
| LinearProgram.ExtractInputs | entropic/liquidity.py:275 | `flatten("F")[1::2]` takes the odd columns: entry `i` is column `2i + 1` |
| LinearProgram.ExtractOutputs | entropic/liquidity.py:251 | the even columns: entry `i` is column `2i` |
| LinearProgram.ObjectiveIsTotalOutput | entropic/liquidity.py:248-251 | the objective `output_var.T @ x` is the sum of the outputs |
| LinearProgram.InputConstraintIsTotalInput | entropic/liquidity.py:249-264 | `input_var.T @ x` is the sum of the inputs |
| LinearProgram.EqualityRow | entropic/liquidity.py:255-256 | row `i` of `equ_matrix`: 1 at column `2i`, `m_i` at column `2i + 1`, 0 elsewhere, `2n` columns |
| LinearProgram.InequalityRow | entropic/liquidity.py:257-258 | row `i` of `inequ_matrix`: 1 at column `2i`, `-s_i` at column `2i + 1`, 0 elsewhere, `2n` columns |
| LinearProgram.EqualityRowMeaning | entropic/liquidity.py:255-262 | row `i` of the equality matrix times `x` is `output_i + m_i * input_i`: the built sign is plus |
| LinearProgram.InequalityRowMeaning | entropic/liquidity.py:257-263 | row `i` of the inequality matrix times `x` is `output_i - s_i * input_i` |
| LinearProgram.FeasibleMeaning | entropic/liquidity.py:261-266 | a vector meets the built constraints exactly when, path by path, `output + m * input == c` and `output >= s * input`, the inputs add up to the amount, and nothing is negative |
| LinearProgram.BuildConstraints | entropic/liquidity.py:243-259 | the loop fills the `(n, 2n)` matrices row by row at columns `2i` and `2i + 1`, and returns `y_inter` and both indicators |
| LinearProgram.IntendedEqualityMeaning | entropic/liquidity.py:234 | with the documented minus sign, row `i` holds exactly when the output lies on the fitted line, `output == m * input + c` |
| LinearProgram.BuiltEqualityRejectsFittedPoint | entropic/liquidity.py:234-256 | for the line `y = 2x`, input 1 and output 2 meet the documented row but not the built constraints |
| Graphs.Empty | entropic/core.py:33 | `nx.Graph()` is well formed |
| Graphs.AddEdgeTo | entropic/core.py:39 | `add_edge(u, v, **attrs)` on the graph state: missing endpoints added, `u` first, and `attrs` merged into the pair's dict |
| Graphs.AddEdgeToNodes | entropic/core.py:39 | `add_edge` adds exactly the missing endpoints as nodes, after the old order, with empty dicts, leaves the old node dicts alone, and keeps the graph well formed |
| Graphs.AddEdgeToOrder | entropic/core.py:39 | `add_edge` appends a new `u` and then a new `v` (once, for a self-loop) to the node order, and changes it in no other way |
| Graphs.AddEdgeToEdges | entropic/core.py:39 | `add_edge` adds the pair `{u, v}`, merges the new attributes over any old ones, and leaves the other edges alone |
| Graphs.LoadEdges | entropic/core.py:33-39 | the first loop of from_list: records added one by one, KeyError for a missing endpoint, TypeError for a key clashing with `add_edge`'s parameters |
| Graphs.LoadEdgesSucceeds | entropic/core.py:34-39 | the edge loop succeeds exactly when every record has `u` and `v` and no other key named `self`, `u_of_edge` or `v_of_edge` |
| Graphs.LoadEdgesFailure | entropic/core.py:34-39 | a failed edge loop raises the error of the first record it cannot load: KeyError at `pop` when an endpoint is missing, TypeError at `add_edge` when a remaining key repeats one of its parameter names |
| Graphs.LoadEdgesStaysFailed | entropic/core.py:34-39 | once one record has raised, the whole loop ends with that error |
| Graphs.LoadEdgesNodes | entropic/core.py:33-39 | after the edge loop the nodes are exactly the endpoints, each with an empty dict |
| Graphs.LoadEdgesEdges | entropic/core.py:33-39 | after the edge loop the edges are exactly the records' pairs, each dict the merge of its records minus `u` and `v` |
| Graphs.LoadEdgesMeaning | entropic/core.py:33-39 | the edge loop succeeds exactly when every record has both endpoints and no key clashing with `add_edge`'s parameters; then its nodes are the endpoints with empty dicts and its edges the records' pairs with their merged attributes |
| Graphs.LoadEdgesOrder | entropic/core.py:33-39 | nodes are inserted in order of first appearance in the records, `u` before `v` |
| Graphs.MergeNodes | entropic/core.py:41-42 | the node loop: each record merged into the node it names, KeyError at the first record without a known `name` |
| Graphs.MergeNodesMeaning | entropic/core.py:41-42 | the node loop succeeds exactly when every record names an existing node (KeyError otherwise); it leaves the order, node set and edges alone and merges into each node the records naming it |
| Graphs.FirstIn | entropic/core.py:43 | the endpoint `edges(data=True)` reports as `u`: the member of the edge inserted first |
| Graphs.LastIn | entropic/core.py:43 | the endpoint reported as `v`: the member of the edge inserted last |
| Graphs.SourceTargetMeaning | entropic/core.py:43-45 | the two reported endpoints make up the edge, the source no later than the target in insertion order |
| Graphs.Annotate | entropic/core.py:43-45 | the third loop: every edge dict gets its source's and its target's liquidity, 0 when absent |
| Graphs.Build | entropic/core.py:24-46 | `from_list` as a function of the two record lists: the edge loop, the node loop, then the annotation, stopping at the first error |
| Graphs.BuildStages | entropic/core.py:24-46 | from_list fails with the edge loop's error or the node loop's error, and otherwise is the annotation of the well-formed graph the node loop leaves |
| Graphs.BuildSucceeds | entropic/core.py:24-46 | from_list succeeds exactly when every edge record has `u` and `v` and no key clashing with `add_edge`'s parameters, and every node record has a `name` among the endpoints; a failure is a KeyError, or a TypeError only when some edge record clashes |
| Graphs.BuildNodes | entropic/core.py:24-46 | from_list's nodes are the endpoints in order of first appearance, each holding the merge of the node records naming it |
| Graphs.BuildEdges | entropic/core.py:24-46 | from_list's edges are the records' pairs, each holding its records' attributes plus the source's and the target's liquidity, 0 when absent |
| Graphs.BuildLiquidity | entropic/core.py:43-45 | for every edge record, the edge's two liquidity entries are the liquidities of that record's two endpoints, in one order or the other |
| Graphs.PairAttrsLastWins | entropic/core.py:33-39 | two records for one pair give one edge, and under each key the value of the last record that carries it |
| Graphs.NodeAttrsLastWins | entropic/core.py:41-42 | under each key a node holds the value of the last node record naming it that carries that key |
| Graphs.Reweighted | entropic/core.py:67-68 | every edge dict gets `weight` set to the function of its old dict, with the edge set and all other keys unchanged |
| Graphs.ReweightIdempotent | entropic/core.py:61-68 | assigning weights twice with a function that ignores the old weight is the same as assigning them once |
| Graphs.Graph.constructor | entropic/core.py:33 | a new graph is empty |
| Graphs.Graph.AddEdge | entropic/core.py:39 | the in-place `add_edge` gives the state the function model describes |
| Graphs.Graph.UpdateNode | entropic/core.py:42 | `graph.nodes[name].update(rec)` raises KeyError exactly for an unknown name and otherwise merges `rec` into that node alone |
| Graphs.Graph.SetEdgeAttr | entropic/core.py:44-68 | assigning one key of one edge dict changes nothing else |
| Core.Dexa.constructor | entropic/core.py:15-21 | the dataclass holds the given graph |
| Core.Dexa.FromList | entropic/core.py:24-46 | succeeds exactly when the record functions do, with a fresh well-formed graph equal to the one they describe, and otherwise fails with the same error |
| Core.Dexa.LoadEdgeRecords | entropic/core.py:33-39 | the edge loop on a new graph fails or ends exactly as the function model of the loop |
| Core.Dexa.MergeNodeRecords | entropic/core.py:41-42 | the node loop fails or ends exactly as the function model of the loop |
| Core.Dexa.AnnotateEdges | entropic/core.py:43-45 | the third loop leaves every edge dict annotated with both endpoints' liquidities |
| Core.Dexa.AssignWeight | entropic/core.py:61-68 | the loop gives every edge the weight of its old dict, keeps the order and the nodes, and keeps the graph well formed |
| Core.Dexa.GetPathways | entropic/core.py:70-87 | see the detail after this table |
| SimplePaths.AllSimplePaths | entropic/core.py:84 | every simple path from source to target, found by depth-first search |
| SimplePaths.ExtensionsSound | entropic/core.py:82-85 | every path the depth-first search yields is a simple path that extends the one it started from |
| SimplePaths.ExtensionsComplete | entropic/core.py:82-85 | every simple path to the target that extends the start is yielded |
| SimplePaths.ExtensionsDistinct | entropic/core.py:82-85 | no path is yielded twice |
| SimplePaths.AllSimplePathsExact | entropic/core.py:82-85 | the enumeration holds exactly the simple paths from source to target, each once |
| SimplePaths.Insert | entropic/core.py:84 | inserting a path keeps the same paths |
| SimplePaths.InsertOrdered | entropic/core.py:84 | inserting a path into a list in hop-count order keeps it in that order |
| SimplePaths.SortByHopCount | entropic/core.py:84 | sorting gives a permutation in non-decreasing hop count |
| SimplePaths.KShortestPaths | entropic/core.py:82-87 | `list(islice(shortest_simple_paths(G, s, t), k))`: ValueError for `k` out of `islice`'s range, `[]` for 0, otherwise NodeNotFound, NoPath or the first `k` paths by hop count |
| SimplePaths.KShortestPathsCorrect | entropic/core.py:82-87 | at most `k` distinct simple paths in non-decreasing hop count; fewer than `k` only when none is left out, and none left out is shorter than one returned |
| SimplePaths.KShortestPathsErrors | entropic/core.py:82-87 | ValueError exactly for `k` below 0 or above `sys.maxsize` (`2^63 - 1`); NodeNotFound exactly for `0 < k <= sys.maxsize` and a missing endpoint; NoPath exactly for such `k`, both endpoints present and no simple path |
| SimplePaths.FirstPathIsShortest | tests/test_core.py:42-50 | the first path returned is a shortest one, and a source equal to the target gives the one-node path |

`Core.Dexa.GetPathways` states the following:

- ValueError exactly for a count below 0 or above `sys.maxsize` (`2^63 - 1`), which `islice` rejects.
- NodeNotFound exactly for a count from 1 to `sys.maxsize` and a missing endpoint.
- NoPath exactly for such a count, both endpoints present and no simple path.
- Otherwise at most `num_of_paths` distinct simple paths from source to target, in non-decreasing hop count.
- Fewer paths are returned only when there are no more, and none left out is shorter than one returned.

## Left out

- `exchange_fit`, `exchange_fit_params`, `_fit_func`, `_fit_func_dcp`, `convex_model` and `linear_model`, and the `problem.solve()` step of `linear_model_old`. They are floating-point curve fitting and calls into an external convex solver whose algorithm is not part of this model.
- `liquidity_per_path`: it calls `exchange_line`, which is not part of this model, and it prints.
- `DEXA.from_file`: JSON file loading, which is I/O. `Core.Dexa.FromList` takes the two record lists directly.
- The Dash applications, the synthetic-data script and the packaging script: they are user interface, random data and file writing.
- Floating point: every quantity is an exact `real`. Rounding, `inf` and `nan`, the 0.01 threshold as a binary fraction and numpy's integer-versus-float arrays are not modelled.
- Exchange.ExchangeFunction: requires `liq1 + x != 0`. Python raises ZeroDivisionError for scalars and numpy returns `inf` for arrays; the routing code that calls it (`PostProcess.Hop`) models that error itself.
- PostProcess.ProcessModelResult: `paths` are lists of `Pool(liquidity, rate)` values rather than dicts, so a missing `liquidity` or `rate` key (KeyError) is not modelled. The result dict is a `map` and its insertion order is not kept.
- PostProcess.CleanupPreservesSum: requires every allocation to be non-negative. With a negative entry the sum is not preserved, as `PostProcess.CleanupNegativeLosesSum` shows.
- PostProcess.CleanupOutcome: requires every allocation to be non-negative. With a negative entry an entry can end strictly between 0 and the threshold: `[1, -0.995]` cleans to `[0.005, 0]`, as `PostProcess.CleanupNegativeBelowThreshold` shows.
- PriorModel.PathLine: the three per-path dicts are lists indexed by path, so a dict with missing or extra keys is modelled only as a list that is too short (KeyError).
- Graphs.Liquidity: `get('liquidity', 0)` returns the integer 0; it is modelled as the number 0.0, and Python's int/float distinction is not kept.
- Graphs.Value: node names and attribute values are numbers, strings or booleans. Unhashable names (TypeError) and `None` are not modelled.
- Graphs.Value: Python treats `True` as `1` and `False` as `0` when hashing and comparing, so they name the same dict key and the same node. Here `Flag(true)` and `Num(1.0)` are different nodes. So `add_edge(1, True)` is a self-loop in networkx but an edge between two nodes here, and a node record named `True` that updates node `1` there raises KeyError here. Records that mix booleans and the numbers 0 or 1 as node names build a different graph in this model.
- Core.Dexa.AssignWeight: `weight_func` is a total pure function of the edge dict. A function that raises, or that reads or changes other state, is not modelled, and the order in which edges are visited is not observable.
- Core.Dexa.GetPathways: among paths with the same hop count, networkx's order is not modelled; only non-decreasing hop count is promised. `num_of_paths` is an integer here: `None`, for which `islice` returns every path, and other non-integers, which `islice` rejects with ValueError, are not modelled. `sys.maxsize` is taken as on a 64-bit CPython. The lazy generator is modelled by its result list.
- The networkx internals behind `edges(data=True)` are modelled only as far as the core relies on them. The endpoint reported first is the one inserted into the graph earlier.
- Aliasing: the caller's record dicts are values here, so the copy made at entropic/core.py:36 cannot be observed to matter.

## Findings

| source | as written | input that shows it | evidently intended | confidence | as-written member | corrected member |
|---|---|---|---|---|---|---|
| entropic/liquidity.py:164-178 | the output block is indented inside the cleanup loop, so it routes every intermediate, partly cleaned allocation | paths `[[Pool(2, 1)], [Pool(2, 0)]]`, allocation `[100, 0.001]`: the first iteration routes 0.001 through a pool of rate 0 and raises ZeroDivisionError | clean the allocation completely, then route it once; the result is the same whenever the code as written succeeds | not executed; medium | PostProcess.ProcessedAsWritten, PostProcess.OutputBlockInsideLoopFails | PostProcess.ProcessedOnce, PostProcess.ProcessedOnceMeaning, PostProcess.ProcessedOnceSucceeds |
| entropic/liquidity.py:256 | the equality row stores `+m_i` under the input column, so the constraint is `output + m * input == c` | line `y = 2x`, amount 1: input 1 with output 2 lies on the line but violates the built constraint | `output - m * input == c`, as the docstring at entropic/liquidity.py:234 states | not executed; medium | LinearProgram.BuildConstraints, LinearProgram.BuiltEqualityRejectsFittedPoint | LinearProgram.IntendedEqualityRow, LinearProgram.IntendedEqualityMeaning |
