# P7-DAA vehicle routing core in Dafny

This project models the routing engine of P7-DAA. The engine solves a vehicle-routing problem over a square distance matrix: a number of vehicles leave a depot node, visit every other node once between them, and return to the depot. The model covers three parts.

* **Routes and solutions.**
  * A route (`src/route.h`) is a vector of node ids that is changed in place: `addClient`, `swap`, `Displace`, `insert`, `remove` and `operator[]`.
  * It also has a cached integer cost that only its callers change, through the reference `getCost()` returns.
  * A solution (`src/solution.h`) holds a vector of routes and recomputes its total with `calculateCost()`.
  * The earlier minimal route of `route.h` is modelled too.
  * `TrueCost(d, s)` is the sum of `d[s[k]][s[k+1]]` over consecutive nodes. A route's cached cost is meant to equal it.
* **Greedy construction.** There are three copies of round-robin nearest-neighbour `greedySolver`: `Algorithm::greedySolver` (`src/algorithm.cc`) and the free functions of `src/main.cc` and `main.cc`.
  * Each vehicle in turn extends its route with the nearest unvisited node. The lowest id wins ties, because the comparison is a strict `<`.
  * Once every node is visited, every route returns to the depot.
* **Local search** (`src/local_search.cc`). There are four neighbourhoods: intra- and inter-route swap, and intra- and inter-route reinsertion.
  * Each neighbourhood has a constant-time evaluation of a move. It is proved equal to the change of `TrueCost` that the move causes.
  * Each neighbourhood has a best-improvement descent that changes routes in place until a full scan finds no strictly better move.
  * Each neighbourhood has a wrapper that runs the descent on copies of a solution's routes.

Classes follow the source's classes:
* `Routes.Route` and `LegacyRoutes.Route` hold `route: seq<int>` and `cost: int`;
* `Solutions.Solution` holds `routes: seq<Route>` and `cost`;
* `LocalSearches.LocalSearch` holds its `problem`;
* `Algorithms.Algorithm` holds the problem it is built with.

The loops are `while` loops with invariants. The value-level facts they need are in separate modules: `Costs`, `Greedy`, `DeltaCosts` and `Scans`.

The greedy construction is specified by the vocabulary below; `GreedySolver` ends in these predicates, and they are the loop invariant:
* `Closed`: every route starts and ends at the depot;
* `Covers`: the route interiors hold every other node exactly once;
* `Balanced`: interior lengths are non-increasing in the route index and differ by at most one;
* `NearestOrder`: each chosen node is what `findMinNotVisited` returns at its turn, namely the nearest node not yet visited, lowest id on ties;
* `CostsMatch`: each cached cost is the route's `TrueCost`, closing edge included.

The local-search descents are specified as follows:
* the nodes are rearranged (or moved between the two routes) without loss;
* the depot ends stay fixed;
* `cached cost - TrueCost` (the `Gap`) is unchanged, so a consistent cost stays consistent;
* the cost never rises;
* on exit, no move in the scan range evaluates strictly below the current cost.

Termination uses `TrueCost` as the measure. It is non-negative for non-negative distances and strictly falls with every move applied.

## Model

| member | source | states |
|---|---|---|
| Routes.Route.constructor | src/route.h:23-30 | A new route has no nodes and cost 0. |
| Routes.Route.Copy | src/route.h:21-24 | The implicit copy: a distinct route with the same nodes and cost. |
| Routes.Route.GetSize | src/route.h:40-42 | Returns the number of nodes. |
| Routes.Route.GetRoute | src/route.h:48-50 | Returns the node sequence. After `SetRoute(v)` it returns `v`. |
| Routes.Route.SetRoute | src/route.h:80-82 | The nodes become `v`. The cost is unchanged. |
| Routes.Route.GetCost | src/route.h:56-58 | Returns the cached cost. Callers write through the reference by assigning `cost`. |
| Routes.Route.GetLastClient | src/route.h:64-66 | Returns the last node of a non-empty route. |
| Routes.Route.AddClient | src/route.h:72-74 | Appends `c`: size grows by one, the last node is `c`, earlier nodes and the cost are unchanged. |
| Routes.Route.At | src/route.h:98-100 | Reading through `operator[]` returns the node at `pos`. |
| Routes.Route.Put | src/route.h:98-100 | Writing through `operator[]` changes exactly position `pos`. The cost is unchanged. |
| Routes.Route.Swap | src/route.h:102-104 | The nodes become `Swapped(old, p, q)`. The cost is unchanged. |
| Routes.Route.Displace | src/route.h:106-116 | The nodes become `Displaced(old, i, j)`. The cost is unchanged. |
| Routes.Route.Insert | src/route.h:118-120 | `node` is placed at `index + 1` and the tail shifts right. The cost is unchanged. |
| Routes.Route.Remove | src/route.h:122-126 | Returns the old node at `index` and erases it, keeping the order of the rest. The cost is unchanged. |
| Routes.Swapped | src/route.h:102-104 | Exactly positions `p` and `q` are exchanged. Length, every other position and the multiset are unchanged. |
| Routes.InsertAt | src/route.h:118-120 | Length grows by one and `v` is at `pos`. The prefix is unchanged, the tail moves one to the right, and the multiset gains `v`. |
| Routes.EraseAt | src/route.h:122-126 | Length shrinks by one. The prefix is unchanged, the tail moves one to the left, and the multiset loses the erased node. |
| Routes.Displaced | src/route.h:106-116 | Length and multiset are preserved in all three branches. For `i == j` the route is unchanged. |
| Routes.DisplacedForward | src/route.h:107-110 | For `i < j`, the node ends at index `j` and the nodes between move one to the left. The rest is unchanged. |
| Routes.DisplacedBackward | src/route.h:111-115 | For `i > j`, the node ends at index `j + 1` and the nodes between move one to the right. The rest is unchanged. |
| Routes.RemoveInsertRoundTrip | src/route.h:118-126 | `insert(k - 1, remove(k))` restores the original sequence. |
| LegacyRoutes.Route.constructor | route.h:11-15 | A new route has size 0 and cost 0. |
| LegacyRoutes.Route.GetSize | route.h:18-20 | Returns the number of nodes. |
| LegacyRoutes.Route.GetRoute | route.h:22-24 | Returns the appended nodes in insertion order. |
| LegacyRoutes.Route.GetCost | route.h:26-28 | Returns the cached cost. Writes through the reference are assignments to `cost`. |
| LegacyRoutes.Route.GetLastClient | route.h:30-32 | Returns the last node of a non-empty route. |
| LegacyRoutes.Route.AddClient | route.h:34-36 | Appends `c`: size grows by one, the last node is `c`, and the cost is unchanged. |
| LegacyRoutes.EmptyRoutes | main.cc:84 | `std::vector<Route>(n)`: `n` distinct fresh routes, each empty with cost 0. |
| Solutions.EmptyRoutes | src/solution.h:36 | `routes_.resize(n)`: `n` distinct fresh routes, each empty with cost 0. |
| Solutions.Solution.constructor | src/solution.h:35-37 | The solution holds exactly `n` distinct empty routes of cost 0, and its own cost is 0. |
| Solutions.Solution.AddRoute | src/solution.h:48-50 | Appends a fresh copy of the route. The count grows by one and the routes already held are untouched. |
| Solutions.Solution.CalculateCost | src/solution.h:55-61 | Stores and returns the sum of the routes' cached costs. No route changes. |
| Solutions.CalculateCostTwice | src/solution.h:55-61 | Two consecutive `calculateCost()` calls return the same total. |
| Solutions.Solution.GetRoutes | src/solution.h:67-69 | Returns the vector of routes itself, aliasing the solution's routes: a write to one of its routes is a write to the solution (see `UpdateThroughRoutes`). It has no contract of its own. |
| Solutions.UpdateThroughRoutes | src/solution.h:67-69 | A cost written through `getRoutes()[k]` is seen by the next `calculateCost()`: the total changes by exactly the difference. |
| Solutions.CopyRoutes | src/local_search.cc:47 | Copying the vector of routes gives distinct fresh routes with the same nodes and costs. |
| Solutions.WithRoutes | src/local_search.cc:51 | A fresh solution holding fresh copies of the given routes, with the same nodes and cached costs. |
| Costs.TrueCost | src/algorithm.cc:32-40 | The route length the cached costs accumulate. It is non-negative for non-negative distances. |
| Costs.TrueCostAppend | src/algorithm.cc:32-33 | Appending a node adds the edge from the old last node to it. |
| Costs.TrueCostReplace | src/local_search.cc:180-203 | Replacing interior node `i` trades its two edges for the two edges of the new node. |
| Costs.TrueCostErase | src/local_search.cc:353-356 | Erasing interior node `i` replaces its two edges with the shortcut. |
| Costs.TrueCostInsert | src/local_search.cc:358-361 | Inserting `v` breaks one edge into two. |
| DeltaCosts.SwapCost | src/local_search.cc:92-115 | The intra `swapCost` formula, with the separate case for neighbours. Its meaning is fixed by `SwapCostExact`. |
| DeltaCosts.InterSwapCost | src/local_search.cc:180-203 | The inter `swapCost` pair of formulas. Its meaning is fixed by `InterSwapCostExact`. |
| DeltaCosts.ReinsertionCost | src/local_search.cc:263-277 | The intra `reinsertionCost` formula. Its meaning is fixed by `ReinsertionCostExact`. |
| DeltaCosts.InterReinsertionCost | src/local_search.cc:343-364 | The inter `reinsertionCost` pair of formulas, without the unused read of the node before `j`. Its meaning is fixed by `InterReinsertionCostExact`. |
| DeltaCosts.InterReinsertionCostAsWritten | src/local_search.cc:343-364 | The evaluation as written, including the read at `j - 1`: it is defined exactly when `j >= 1`, and `None` marks the out-of-range read at `j == 0`. |
| DeltaCosts.SwapCostExact | src/local_search.cc:92-115 | For every interior `i < j`, adjacent or not, the intra `swapCost` is the cached cost plus the change of `TrueCost` that `swap(i, j)` causes. |
| DeltaCosts.InterSwapCostExact | src/local_search.cc:180-203 | Both halves of the inter `swapCost` are exact for exchanging `r1[i]` and `r2[j]`. |
| DeltaCosts.DisplacedForwardIsEraseInsert | src/route.h:107-110 | Moving forward, `Displace(i, j)` equals erasing at `i` and then inserting at `j`. |
| DeltaCosts.ReinsertionCostExact | src/local_search.cc:263-277 | For every move the intra scan makes (`i` interior, `j <= size-2`, `i != j`, `i != j + 1`), `reinsertionCost` is exact for `Displace(i, j)`. |
| DeltaCosts.InterReinsertionCostExact | src/local_search.cc:343-364 | Both halves of the inter `reinsertionCost` are exact for `r2.insert(j, r1.remove(i))`. |
| DeltaCosts.AsWrittenReadsOutside | src/local_search.cc:347 | The as-written evaluation reads out of range at `j == 0`. It agrees with the corrected one for every `j >= 1`. |
| Scans.BestIntraSwap | src/local_search.cc:65-74 | Either no move beats `best` and the route is swap-optimal at `best`, or the result is the first move in scan order with the least evaluation, strictly below `best`. |
| Scans.BestInterSwap | src/local_search.cc:149-158 | The same for pairs of routes, comparing summed costs. |
| Scans.BestIntraReinsertion | src/local_search.cc:234-245 | The same over the intra reinsertion moves. The skipped cases `i == j` and `i == j + 1` are excluded. |
| Scans.BestInterReinsertion | src/local_search.cc:314-323 | The same over the inter reinsertion moves, with `j` from 0. |
| LocalSearches.UpperLimit | src/local_search.cc:303-304 | For non-negative clients and positive vehicles, the limit is `numClients / numVehicles + numClients / 10`. The division truncates, as C++ does. |
| LocalSearches.InterSwapStep | src/local_search.cc:159-164 | An inter swap keeps both routes' ends, their combined multiset and each route's gap. If it improves the sum, the pair is kept. |
| LocalSearches.IntraReinsertionStep | src/local_search.cc:247-248 | A reinsertion move rearranges the route and keeps its gap. |
| LocalSearches.InterReinsertionStep | src/local_search.cc:325-327 | Moving a node across keeps the ends, the combined multiset and each gap. If it improves the sum, the pair is kept. |
| LocalSearches.PairKeptTrans | src/local_search.cc:147-169 | Two kept steps of a pair descent compose into one kept step. |
| LocalSearches.MoveAcross | src/local_search.cc:324-327 | The first route loses its node at `i` and the second gains it after `j`. The costs become the evaluation, and the pair is kept. |
| LocalSearches.LocalSearch.constructor | src/local_search.cc:12-14 | A new local search has no problem. |
| LocalSearches.LocalSearch.SetProblem | src/local_search.cc:23-25 | The problem becomes `p`. |
| LocalSearches.LocalSearch.IntraRouteSwapProcedure | src/local_search.cc:58-83 | The route is rearranged with its ends and gap kept. It is unchanged or strictly cheaper, and on exit no swap evaluates below its cost. |
| LocalSearches.LocalSearch.InterRouteSwapProcedure | src/local_search.cc:140-170 | The pair keeps its sizes, its combined multiset, its ends and its gaps. It is unchanged or strictly cheaper in sum, and on exit no inter swap beats the sum. |
| LocalSearches.LocalSearch.IntraRouteReinsertionProcedure | src/local_search.cc:225-254 | The route is rearranged with its ends and gap kept. It is unchanged or strictly cheaper, and on exit no reinsertion move evaluates below its cost. |
| LocalSearches.LocalSearch.InterRouteReinsertionProcedure | src/local_search.cc:302-333 | The pair keeps its combined multiset, ends and gaps, and is unchanged or strictly cheaper in sum. A first route that changed still has at least 4 nodes, and a second one that changed has at most the limit. A pair at either limit is untouched. Otherwise no move beats the sum on exit. |
| LocalSearches.LocalSearch.SwapEach | src/local_search.cc:48-50 | Each route of the vector gets the intra swap descent. |
| LocalSearches.LocalSearch.SwapIntraRoute | src/local_search.cc:46-52 | A fresh solution of as many routes. Each is a rearrangement of the input route with the same ends and the same gap between cached cost and `TrueCost` (so it is cost-consistent exactly when the input was). It is no costlier and is swap-optimal. |
| LocalSearches.LocalSearch.ReinsertEach | src/local_search.cc:215-217 | Each route of the vector gets the intra reinsertion descent. |
| LocalSearches.LocalSearch.ReinsertionIntraRoute | src/local_search.cc:213-219 | The same as `SwapIntraRoute`, with reinsertion optimality. |
| LocalSearches.PairNodes | src/local_search.cc:129 | After a pair step, the vector's nodes and costs are the old ones with the two pair slots replaced. |
| LocalSearches.PairStep | src/local_search.cc:127-131 | A kept pair step keeps the whole vector kept: same node multiset, ends, sizes (for swaps), gaps, and a total that does not rise. |
| LocalSearches.LocalSearch.SwapPair | src/local_search.cc:129 | One visit of the pair `(i, j)` keeps the vector kept. |
| LocalSearches.LocalSearch.SwapPairs | src/local_search.cc:127-131 | Over all pairs: the same node multiset, the ends and sizes of every route, their gaps, and a total that does not rise. |
| LocalSearches.LocalSearch.SwapInterRoute | src/local_search.cc:125-133 | A fresh solution whose routes are kept against the input's. |
| LocalSearches.LocalSearch.ReinsertPair | src/local_search.cc:291 | One visit of the pair `(i, j)` keeps the vector kept. |
| LocalSearches.LocalSearch.ReinsertPairs | src/local_search.cc:289-293 | As `SwapPairs`, without the sizes. |
| LocalSearches.LocalSearch.ReinsertionInterRoute | src/local_search.cc:287-295 | A fresh solution whose routes are kept against the input's. |
| LocalSearches.LocalSearch.Run | src/local_search.cc:32-37 | The result of `swapIntraRoute`, the only live branch. |
| Greedy.MarkDecreases | src/main.cc:164 | Marking an unvisited node lowers the unvisited count by one. This is the termination measure. |
| Greedy.BuildingStart | src/main.cc:146-153 | After the routes start at the depot, the loop invariant holds with only the depot visited. |
| Greedy.TurnFindsNode | src/main.cc:160-163 | While a node is unvisited, `findMinNotVisited` from any route's last node finds one. It never returns -1. |
| Greedy.BuildingStep | src/main.cc:160-166 | A turn that appends the nearest unvisited node keeps the invariant and moves the round on. |
| Greedy.RoundWraps | src/main.cc:156 | A pass that reaches the last vehicle starts the next round. |
| Greedy.BuildingClose | src/main.cc:170-173 | Closing every route once all nodes are visited gives `Closed`, `Covers`, `Balanced` and `NearestOrder`. |
| Greedy.FirstChoice | src/main.cc:156-165 | The first chosen node (route 0, position 1) is the arg-min of row `initialNode` over the other nodes, lowest id on ties. |
| MainFunctions.AllClientsVisited | src/main.cc:95-100 | True exactly when every entry is true, and so true for an empty vector. The copies at main.cc:56-61 and src/algorithm.cc:54-59 are the same function. |
| MainFunctions.FindMinNotVisited | src/main.cc:115-128 | Either `(-1, INT_MAX)` with no eligible node below INT_MAX, or an unvisited node other than `current` with the minimal distance, lowest index on ties, and the cost `d[current][index]`. The copy at main.cc:63-77 is the same function. |
| MainFunctions.StartRoutes | src/main.cc:151-153 | Every route becomes `[initialNode]` with cost 0. |
| MainFunctions.Turn | src/main.cc:160-166 | Route `i` receives the nearest unvisited node and pays its distance. The invariant holds and the unvisited count falls. |
| MainFunctions.Round | src/main.cc:156-167 | One pass of the for loop: at least one turn is taken, and a pass cut short leaves every node visited. |
| MainFunctions.Rounds | src/main.cc:155-168 | The while loop ends with every node visited and the invariant intact. |
| MainFunctions.CloseRoutes | src/main.cc:170-173 | Every route pays its closing edge and ends at the depot. |
| MainFunctions.FillRoutes | src/main.cc:146-174 | The routes end `Closed`, `Covers`, `Balanced`, `NearestOrder` and `CostsMatch`. |
| MainFunctions.GreedySolver | src/main.cc:143-175 | Returns `nVehicles` distinct routes satisfying that specification. |
| LegacyMain.StartRoutes | main.cc:87-89 | Every route becomes `[initialNode]` with cost 0. |
| LegacyMain.Turn | main.cc:96-102 | Route `i` receives the nearest unvisited node and pays its distance. The invariant holds. |
| LegacyMain.Round | main.cc:92-103 | One pass of the for loop, as in `MainFunctions.Round`. |
| LegacyMain.Rounds | main.cc:91-104 | The while loop ends with every node visited. |
| LegacyMain.CloseRoutes | main.cc:106-109 | Every route pays its closing edge and ends at the depot. |
| LegacyMain.FillRoutes | main.cc:83-110 | The routes end `Closed`, `Covers`, `Balanced`, `NearestOrder` and `CostsMatch`. |
| LegacyMain.GreedySolver | main.cc:80-111 | Returns `nVehicles` routes from and to the depot that cover every other node once, each cost being its length. |
| Algorithms.Algorithm.constructor | src/algorithm.h:17-19 | The algorithm holds the given problem. |
| Algorithms.Algorithm.FindMinNotVisited | src/algorithm.cc:73-86 | The `findMinNotVisited` contract, on the problem's matrix. |
| Algorithms.Algorithm.GreedySolver | src/algorithm.cc:13-43 | A fresh solution of `numVehicles` routes satisfying the greedy specification, with its own cost left at 0. |

## Left out

- Reading the input file (`Problem(std::ifstream&)`, `readInitialValues`, `readDistanceMatrix`), both `main` functions, `printRoute` and `printSolution`: I/O only. The problem is a value `Problem(numVehicles, numClients, d)` given to the model.
- `calculateProbabilities`, `findRandomMinNotVisited` and `GRC`: they use `float` weights and the global `rand()`. `GRASPSolver` is an empty stub.
- Pointers to the problem: `Algorithm` holds the `Problem` value itself, and `LocalSearch` holds `Option<Problem>` (NULL until `setProblem`). `getDistanceMatrix()` returning a copy is not modelled, as it changes no value.
- The unreachable `return`s of `LocalSearch::run` (src/local_search.cc:34-36).
- `Solution(routes)`, used at src/local_search.cc:51, 132, 218 and 294, is not declared in src/solution.h. `Solutions.WithRoutes` builds the intended value, a solution holding copies of the routes, from `Solution(0)` and `addRoute`. Its `cost` stays 0.
- C++ `int` overflow: integers are unbounded. The model instead assumes non-negative distances for the local search and distances below INT_MAX for the greedy.
- `Solutions.Solution.GetRoutes` is a function returning the vector of route references. Writes to those routes are writes to the solution's routes, but resizing the vector through the reference is not modelled.
- Destructors are not modelled.
- `Algorithm::allClientsVisited`, and `allClientsVisited`/`findMinNotVisited` of main.cc, are line for line those of src/main.cc. They are modelled by the same `MainFunctions` members.
- LocalSearches.LocalSearch.SwapInterRoute: does not state that every pair is a local optimum on exit, because a later pair can change a route that an earlier pair left optimal. The source makes no such promise either.
- LocalSearches.LocalSearch.ReinsertionInterRoute: no local-optimum statement, for the same reason.
- MainFunctions.GreedySolver, Algorithms.Algorithm.GreedySolver, LegacyMain.GreedySolver: require at least one vehicle unless the matrix has a single node. With no vehicle and a node to visit, the source's `while` loop never ends.
- Solutions.Solution.constructor, Solutions.EmptyRoutes, LegacyRoutes.EmptyRoutes: require a non-negative vehicle count. A negative count in the source converts to a huge `size_type` in `resize` (src/solution.h:36) or in the vector constructor (main.cc:84, src/main.cc:148) and throws `std::length_error`. The model does not capture that exception, and the requires exclude the case.
- Termination uses `TrueCost` as the measure, which needs non-negative distances. With negative distances the source's descents still end, because costs are bounded integers there, but the model does not cover that case.

## Findings

| source | as written | input that shows it | evidently intended | confidence | as-written member | corrected member |
|---|---|---|---|---|---|---|
| src/local_search.cc:347 | `second_route[second_index - 1]` is read on every evaluation | the scan's first move `j = 0` (src/local_search.cc:315) reads index -1 of the second route | the node before `j` is never used in the formula, so it should not be read | high (reading the code; not executed) | DeltaCosts.InterReinsertionCostAsWritten (DeltaCosts.AsWrittenReadsOutside) | DeltaCosts.InterReinsertionCost (DeltaCosts.InterReinsertionCostExact) |
