# Branch and bound, modelled in Dafny

This project models the search core of three small branch-and-bound
solvers and proves properties of the model:

- `beb_kp.py`: a 0/1 knapsack.
  - `solve_relax` is the greedy fractional relaxation. It keeps the fixed items. Then it fills the free items in decreasing value/cost order: whole items while they fit within `capacity + 1e-6`, then a fraction of the first item that does not fit, then zeros.
  - `beb` is the depth-first search over it. It prunes on the bound and keeps an integral node that improves the incumbent. Otherwise it branches on the first fractional item, fixing it to 0 and then to 1.
- `beb_proj7_4.py`: a facility-location problem that minimises. Its relaxations come from Gurobi. It branches on the most fractional warehouse-opening variable `y_i`. Every node is recorded in `tree_log`.
- `beb_proj7_ex1.py`: a two-variable integer program that maximises, with the same structure. It branches on `x` or `y`, whichever is further from an integer, and takes `x` on a tie.

## How the model is organised

- `numeric.dfy` (`Numeric`):
  - the tolerance `Eps = 1e-6`;
  - `math.floor`, `math.ceil` and Python's half-even `round` on exact reals;
  - `Dist(v)`, the distance to the nearest integer. `DistIsRoundingError` proves it equals `abs(v - round(v))`;
  - extended reals for the `math.inf` / `-math.inf` sentinels.
- `knapsack_relax.dfy` (`KnapsackRelax`):
  - `solve_relax` as a method, `SolveRelax`, made of one method per loop;
  - each method is proved against the function `Relax`. `Relax` is built from a ratio-sorted order of the free indices and the greedy fill `GreedyFill`.
- `knapsack_search.dfy` (`KnapsackSearch`):
  - `beb` as the method `Solver.Beb`, on a class holding the globals;
  - it is proved equal to the function `Explore` on incumbents, which recurses on the number of free items.
- `search_tree.dfy` (`SearchTree`):
  - what the two Gurobi engines share: branching constraints, the oracle outcome, the `node_info` record and the engine state;
  - `calculate_tree_positions`, which is the same code in both files, modelled once as `TreePositions`.
  - A node's `current_constraints` list is a `Path`, a snoc list of constraints. A child extends its parent's path and never changes it. `Constraints` gives back the Python list.
- `depth_first.dfy` (`DepthFirst`): the recursion that both Gurobi engines share.
  - `Explore` applies a node rule and then recurses into the `<=` child (id `2k+1`) and the `>=` child (id `2k+2`).
  - Generic lemmas prove, for any rule, that:
    - the log grows by appending;
    - each record after a call's first is a child of an earlier branched record, and no id is logged twice;
    - integral records are new incumbents;
    - the incumbent only changes by installation from a logged record.
- `facility.dfy` (`FacilityLocation`) and `integer_program.dfy` (`IntegerProgram`): one engine each.
  - `Visit` is the work of one call on its own node.
  - `Engine.VisitNode` performs that work in place on the globals. It appends `node_info` and then updates the record, as the source does.
  - `Engine.BranchAndBound` is the recursive method. It is proved equal to `DepthFirst.Explore` with the engine's rule.
  - `Engine.RunProblemAndLog` is the reset and the root call.

The Gurobi LP is a function field `oracle` of the engine. It maps the problem name and the constraint path to an optimum (value and solution) or to "not optimal". A status other than optimal and a Gurobi error both become the infinite sentinel. `+inf` stands for both in the minimising engine, `-inf` in the maximising one.

## Behaviours made explicit

Several behaviours of the code are captured exactly.

- **Knapsack prune rule.** `beb` returns when the relaxation's value is exactly `0.0`. That is the infeasible sentinel, but it also covers a feasible node worth 0. It also returns when the value is at most `best - 1e-6`, not `best + 1e-6`. `KnapsackSearch.Explore` follows the code.
- **Knapsack branching.** `beb` branches on the first fractional item, not the most fractional one. The LP engines pick the most fractional variable.
- **Integral nodes always improve.** In both LP engines an integral node that is not pruned always improves on the incumbent. The prune test is the negation of the improvement test. So every record marked `is_integer` is also marked `new_incumbent` (`SearchIntegralImproves`).
- **Branched nodes with no children.** In `beb_proj7_ex1.py` a node can be recorded as `'Ramificado'` yet get no children. The integrality test uses `< 1e-6` and the choice of a branching variable uses `> 1e-6`. So a coordinate at distance exactly `1e-6` passes neither test (`IntegerProgram.BranchedWithoutChildren`).
- **Key decoding.** `beb_proj7_4.py` reads a warehouse key back from `y_<key>` as the single character `var_name[2]`. This is exact only for one-character keys (`FacilityLocation.DecodeBranchName`).

## Model

| member | source | states |
|---|---|---|
| Numeric.DistIsRoundingError | Problems/TravellingSalesmanProblem/beb_kp.py:71 | The distance-to-integer used throughout equals `abs(v - round(v))` with Python's half-even `round`, and lies in [0, 1/2] |
| Numeric.DistZeroIffIntegral | Problems/TravellingSalesmanProblem/beb_proj7_4.py:93 | `abs(v - round(v))` is 0 exactly when `v` is an integer |
| Numeric.CeilOfFraction | Problems/TravellingSalesmanProblem/beb_proj7_4.py:115-116 | For a non-integer, `math.ceil` is `math.floor` plus one and the value lies strictly between them |
| Numeric.ExtOrderFacts | Problems/TravellingSalesmanProblem/beb_proj7_4.py:80 | Comparison with the `math.inf` sentinels is a total preorder with `<` as its strict part |
| Numeric.ShiftMonotone | Problems/TravellingSalesmanProblem/beb_proj7_4.py:106 | Adding the tolerance to both sides keeps the order, and `a - 1e-6 <= a <= a + 1e-6` even at the infinities |
| KnapsackRelax.WeightedUpdate | Problems/TravellingSalesmanProblem/beb_kp.py:36-38 | Fixing a free item at amount `v` adds exactly `w[i] * v` to a weighted sum over the fixed items |
| KnapsackRelax.WeightedAllFixed | Problems/TravellingSalesmanProblem/beb_kp.py:50 | Once every entry is fixed, the accumulated value is the dot product `sum(valores[i] * sol[i])` |
| KnapsackRelax.DotZeros | Problems/TravellingSalesmanProblem/beb_kp.py:26 | The all-zero sentinel solution is worth 0 |
| KnapsackRelax.FreeIndices | Problems/TravellingSalesmanProblem/beb_kp.py:18-23 | `nulos_indices` lists exactly the unassigned indices, each once, in increasing order |
| KnapsackRelax.Insert | Problems/TravellingSalesmanProblem/beb_kp.py:28-32 | Inserting into the ratio order adds exactly that index, as a multiset |
| KnapsackRelax.RatioOrder | Problems/TravellingSalesmanProblem/beb_kp.py:28-32 | The sorted free indices are a permutation of the free indices |
| KnapsackRelax.InsertSorted | Problems/TravellingSalesmanProblem/beb_kp.py:28-32 | Insertion keeps the order sorted by decreasing ratio, ties in original order |
| KnapsackRelax.RatioOrderSorted | Problems/TravellingSalesmanProblem/beb_kp.py:28-32 | `sorted(..., key=ratio, reverse=True)` on increasing indices is sorted by decreasing ratio and stable |
| KnapsackRelax.SortedDistinct | Problems/TravellingSalesmanProblem/beb_kp.py:28-32 | A stably sorted order has no index twice |
| KnapsackRelax.OrderFacts | Problems/TravellingSalesmanProblem/beb_kp.py:28-32 | The fill order visits every unassigned index exactly once and nothing else |
| KnapsackRelax.GreedyFillShape | Problems/TravellingSalesmanProblem/beb_kp.py:34-44 | The fill is a run of 1.0s, then at most one other amount, then zeros, and no amount exceeds 1 |
| KnapsackRelax.Relax | Problems/TravellingSalesmanProblem/beb_kp.py:12-50 | The relaxed solution has the input's length and keeps every fixed amount (or is the 0 sentinel) |
| KnapsackRelax.AssembleShape | Problems/TravellingSalesmanProblem/beb_kp.py:34-48 | Placed into the solution, each item of the order gets its fill amount, a 1.0 is preceded only by 1.0s, every item after one that is not 1.0 gets 0.0, and at most one free entry is neither 0 nor 1 |
| KnapsackRelax.RelaxIsGreedy | Problems/TravellingSalesmanProblem/beb_kp.py:28-48 | When the fixed items fit, free items are taken in decreasing ratio, whole items form a prefix of that order, every item after the first one not taken whole gets 0.0 (the loop stops after the fraction), and at most one free item is fractional |
| KnapsackRelax.SumFixed | Problems/TravellingSalesmanProblem/beb_kp.py:14-23 | The first loop returns the cost and value of the fixed items and the list of free indices |
| KnapsackRelax.FillStart | Problems/TravellingSalesmanProblem/beb_kp.py:34 | The fill loop's invariant holds on entry |
| KnapsackRelax.FillWhole | Problems/TravellingSalesmanProblem/beb_kp.py:35-38 | Taking a whole item that fits keeps the invariant, with cost and value updated by that item |
| KnapsackRelax.FillFraction | Problems/TravellingSalesmanProblem/beb_kp.py:39-44 | Taking the fraction of the first item that does not fit ends the loop with cost exactly `capacity` |
| KnapsackRelax.FillComplete | Problems/TravellingSalesmanProblem/beb_kp.py:34-44 | Running out of items ends the loop with every item whole and the cost within `capacity + 1e-6` |
| KnapsackRelax.TakeItem | Problems/TravellingSalesmanProblem/beb_kp.py:35-44 | One pass of the fill loop either continues with the invariant or stops in the loop's final state |
| KnapsackRelax.FillGreedy | Problems/TravellingSalesmanProblem/beb_kp.py:34-44 | The fill loop assigns exactly the greedy amounts, with cost and value equal to the sums over the solution and cost within `capacity + 1e-6` |
| KnapsackRelax.ZeroRest | Problems/TravellingSalesmanProblem/beb_kp.py:46-48 | The zero loop fills every free entry the fill left empty with 0, touching nothing else and leaving cost and value unchanged |
| KnapsackRelax.FilledAssembles | Problems/TravellingSalesmanProblem/beb_kp.py:46-50 | After the zero loop the solution is exactly the assembled greedy solution |
| KnapsackRelax.AssembleBinary | Problems/TravellingSalesmanProblem/beb_kp.py:34-48 | When every fill amount is 0 or 1, so is every free entry |
| KnapsackRelax.NoneLeft | Problems/TravellingSalesmanProblem/beb_kp.py:46-48 | After the zero loop no entry is unassigned |
| KnapsackRelax.SolveRelax | Problems/TravellingSalesmanProblem/beb_kp.py:12-50 | `solve_relax` returns `Relax`: the value is `sum(valores[i] * sol[i])`; overweight fixed items give `(0.0, [0]*n)`; otherwise fixed amounts are kept, the cost is within `capacity + 1e-6`, and a fractional free item means the cost is exactly `capacity` |
| KnapsackSearch.FreeCountFix | Problems/TravellingSalesmanProblem/beb_kp.py:86-92 | Fixing a free item leaves one free item fewer, so the recursion terminates |
| KnapsackSearch.FirstFractional | Problems/TravellingSalesmanProblem/beb_kp.py:68-73 | The branching index is the first entry more than `1e-6` from an integer; none exists exactly when every entry is within `1e-6` |
| KnapsackSearch.FindFractional | Problems/TravellingSalesmanProblem/beb_kp.py:68-73 | The scan loop finds that first fractional index |
| KnapsackSearch.RoundAll | Problems/TravellingSalesmanProblem/beb_kp.py:78 | `[int(round(x)) ...]` keeps the length and moves no entry by more than 1/2 |
| KnapsackSearch.RoundIntegral | Problems/TravellingSalesmanProblem/beb_kp.py:75-78 | On an integral node, rounding moves no entry by more than `1e-6` |
| KnapsackSearch.BranchIndexFree | Problems/TravellingSalesmanProblem/beb_kp.py:68-92 | The branching index is a free item, so both children fix one more item, to 0 or 1 |
| KnapsackSearch.ExploreWitness | Problems/TravellingSalesmanProblem/beb_kp.py:53-94 | After `beb`, the incumbent is unchanged, or it beats the old value by more than `1e-6` and is the bound and rounded solution of an integral node below the start node |
| KnapsackSearch.ExploreMonotone | Problems/TravellingSalesmanProblem/beb_kp.py:76-78 | The incumbent value never decreases |
| KnapsackSearch.AllFree | Problems/TravellingSalesmanProblem/beb_kp.py:97-98 | The root node has every item free |
| KnapsackSearch.Solver.constructor | Problems/TravellingSalesmanProblem/beb_kp.py:9-10 | The incumbent starts at value 0.0 with the all-zero solution |
| KnapsackSearch.Solver.Beb | Problems/TravellingSalesmanProblem/beb_kp.py:53-94 | `beb` leaves the incumbent `Explore` describes; its value never decreases, and a pruned node changes nothing |
| SearchTree.BranchesSplit | Problems/TravellingSalesmanProblem/beb_proj7_4.py:115-121 | The two children add `<= floor(v)` and `>= ceil(v)` on the same variable, with consecutive bounds |
| SearchTree.ChildrenOf | Problems/TravellingSalesmanProblem/beb_proj7_4.py:135 | The list comprehension holds exactly the ids of records whose parent is the node |
| SearchTree.ReachChild | Problems/TravellingSalesmanProblem/beb_proj7_4.py:138-140 | A newly reached child gets its parent's level plus one |
| SearchTree.UnseenMembers | Problems/TravellingSalesmanProblem/beb_proj7_4.py:135-140 | The children the inner loop queues are exactly the children not yet reached, none of them twice |
| SearchTree.EnqueueChildren | Problems/TravellingSalesmanProblem/beb_proj7_4.py:135-140 | The queue grows by exactly the unreached children, in `children` order and each once; they and only they get the node's level plus one; old levels never change |
| SearchTree.BfsStep | Problems/TravellingSalesmanProblem/beb_proj7_4.py:131-140 | One pass of the BFS keeps its invariant and reaches a new id or shortens the queue |
| SearchTree.AssignLevels | Problems/TravellingSalesmanProblem/beb_proj7_4.py:127-140 | Node 1 gets level 0; every other id that gets a level is logged as a child of a node with a level one less; every logged child of a node with a level gets a level |
| SearchTree.MaxLevel | Problems/TravellingSalesmanProblem/beb_proj7_4.py:142 | `max(levels.values())` is a level of some node and no level is larger |
| SearchTree.LevelNodes | Problems/TravellingSalesmanProblem/beb_proj7_4.py:145-148 | A level's list holds exactly the logged ids with that level |
| SearchTree.GroupByLevel | Problems/TravellingSalesmanProblem/beb_proj7_4.py:144-148 | `nodes_per_level` has `max_level + 1` lists, list `l` holding the logged ids of level `l` in log order |
| SearchTree.XPosSpread | Problems/TravellingSalesmanProblem/beb_proj7_4.py:154-157 | The x positions of one level are strictly increasing and strictly inside (-0.5, 0.5) |
| SearchTree.XPosBounds | Problems/TravellingSalesmanProblem/beb_proj7_4.py:154-157 | Every x position is strictly inside (-0.5, 0.5) |
| SearchTree.NoneBetweenStep | Problems/TravellingSalesmanProblem/beb_proj7_4.py:154-157 | Passing a slot that holds another id keeps "no later slot of this id" |
| SearchTree.NoneBetweenNextLevel | Problems/TravellingSalesmanProblem/beb_proj7_4.py:150-157 | Finishing a level carries "no later slot of this id" on to the next level |
| SearchTree.Layout | Problems/TravellingSalesmanProblem/beb_proj7_4.py:150-160 | Exactly the ids listed on some level get a position, and it is the position of their last slot, as the dictionary overwrite leaves it |
| SearchTree.LayoutOfLevels | Problems/TravellingSalesmanProblem/beb_proj7_4.py:142-160 | Laid out from the levels, the positioned ids are the logged ids with a level, each with y `-level/2` and the x of its last slot in its level's list |
| SearchTree.TreePositions | Problems/TravellingSalesmanProblem/beb_proj7_4.py:126-162 | Exactly the logged ids the BFS reaches get positions, with y `-0.5 * level` and x that of their last slot in their level's list, strictly inside (-0.5, 0.5) |
| DepthFirst.SplitLogs | Problems/TravellingSalesmanProblem/beb_proj7_4.py:113-124 | A branched call logs its own branched record, then the `<=` subtree starting with child `2n+1`, then the `>=` subtree starting with child `2n+2`, and ends where the `>=` subtree ends |
| DepthFirst.ExplorePrefix | Problems/TravellingSalesmanProblem/beb_proj7_4.py:77 | A call only appends to `tree_log`, and its first record is its own node with its parent |
| DepthFirst.ShapedJoin | Problems/TravellingSalesmanProblem/beb_proj7_4.py:113-124 | A branched record followed by two runs, each starting with one of its children and each made of children of earlier branched records, is again made of children of earlier branched records |
| DepthFirst.ExploreShape | Problems/TravellingSalesmanProblem/beb_proj7_4.py:61-124 | Each record after a call's own is a child, with id `2p+1` or `2p+2`, of an earlier branched record `p` of that call |
| DepthFirst.DescendsChild | Problems/TravellingSalesmanProblem/beb_proj7_4.py:123-124 | An id below child `2n+1` or `2n+2` is below `n` and is not `n` |
| DepthFirst.DescendsChain | Problems/TravellingSalesmanProblem/beb_proj7_4.py:123-124 | Two heap ancestors of one id are ancestor and descendant of each other |
| DepthFirst.SiblingsDisjoint | Problems/TravellingSalesmanProblem/beb_proj7_4.py:123-124 | No id lies below both children `2n+1` and `2n+2` |
| DepthFirst.IdsSingle | Problems/TravellingSalesmanProblem/beb_proj7_4.py:77 | A call that does not branch appends one record, whose id is its own |
| DepthFirst.DistinctJoin | Problems/TravellingSalesmanProblem/beb_proj7_4.py:113-124 | Node `n`'s record followed by distinct ids below `2n+1` and distinct ids below `2n+2` holds distinct ids below `n` |
| DepthFirst.ExploreIds | Problems/TravellingSalesmanProblem/beb_proj7_4.py:61-124 | The ids a call appends are pairwise distinct heap descendants of its own id: no node is logged twice |
| DepthFirst.IntegralMarkedJoin | Problems/TravellingSalesmanProblem/beb_proj7_4.py:123-124 | Integral records marked as new incumbents in both subtrees stay so in the joined log |
| DepthFirst.IntegralMarkedSplit | Problems/TravellingSalesmanProblem/beb_proj7_4.py:113-124 | A branched node whose subtrees mark every integral record marks every integral record |
| DepthFirst.ExploreIntegralMarked | Problems/TravellingSalesmanProblem/beb_proj7_4.py:102-111 | If every step marks an integral record as a new incumbent, so does the whole search |
| DepthFirst.KeepsOrInstallsTrans | Problems/TravellingSalesmanProblem/beb_proj7_4.py:106-109 | "kept, or improved and installed by a logged record" composes across calls |
| DepthFirst.ExploreKeepsOrInstalls | Problems/TravellingSalesmanProblem/beb_proj7_4.py:61-124 | If every step keeps or installs the incumbent, so does the whole search |
| FacilityLocation.SolveLpRelaxation | Problems/TravellingSalesmanProblem/beb_proj7_4.py:49-59 | The bound is finite exactly when a solution comes back, is `+inf` exactly on a non-optimal status or error, and is never `-inf` |
| FacilityLocation.DecodeBranchName | Problems/TravellingSalesmanProblem/beb_proj7_4.py:41 | `var_name[2]` recovers the key of the branching name `y_<key>` exactly when the key is one character |
| FacilityLocation.MostFractionalInSpec | Problems/TravellingSalesmanProblem/beb_proj7_4.py:86-100 | No candidate exactly when every `y` is within `1e-6` of an integer; otherwise a fractional `y` of largest distance, strictly larger than every earlier candidate (first wins ties) |
| FacilityLocation.ScanFractional | Problems/TravellingSalesmanProblem/beb_proj7_4.py:86-100 | The scan loop sets `is_integer` exactly when no `y` is fractional, else `var_to_branch`/`val_to_branch` of the most fractional `y` |
| FacilityLocation.RoundYSpec | Problems/TravellingSalesmanProblem/beb_proj7_4.py:108 | Rounding `y_sol` keeps every key in order and moves no value by more than 1/2 |
| FacilityLocation.VisitFacts | Problems/TravellingSalesmanProblem/beb_proj7_4.py:66-124 | One call appends one record with its id, parent and bound; pruned iff `lp >= best - 1e-6` or infinite; branched iff it recurses; a branching keeps the incumbent; any other outcome keeps it or installs an improvement from its own record |
| FacilityLocation.VisitChildren | Problems/TravellingSalesmanProblem/beb_proj7_4.py:113-121 | For the most fractional `y_i` of the node's solution, with value `v`, the children extend the node's constraints by `y_i <= floor(v)` and `y_i >= ceil(v)`, consecutive integers with `floor(v) < v < ceil(v)` |
| FacilityLocation.RuleMarksIntegral | Problems/TravellingSalesmanProblem/beb_proj7_4.py:102-109 | Each call appends its own record, and an integral record is always a new incumbent |
| FacilityLocation.SearchShape | Problems/TravellingSalesmanProblem/beb_proj7_4.py:61-124 | A call only appends to `tree_log`, first its own node; each later record is a child `2p+1` or `2p+2` of an earlier branched record; the appended ids are distinct descendants of the call's id. |
| FacilityLocation.SearchIntegralImproves | Problems/TravellingSalesmanProblem/beb_proj7_4.py:80-109 | Every record marked integral is marked as a new incumbent |
| FacilityLocation.ImprovesTransitive | Problems/TravellingSalesmanProblem/beb_proj7_4.py:106 | Improving by more than `1e-6` twice improves by more than `1e-6` |
| FacilityLocation.ExploreIncumbent | Problems/TravellingSalesmanProblem/beb_proj7_4.py:61-124 | After a call the incumbent is unchanged, or it is below the old value minus `1e-6` and is the bound and rounded `y` of an integral record appended by that call |
| FacilityLocation.ExploreBestMonotone | Problems/TravellingSalesmanProblem/beb_proj7_4.py:106-107 | The best value never increases |
| FacilityLocation.Engine.constructor | Problems/TravellingSalesmanProblem/beb_proj7_4.py:8-11 | The globals start at `+inf`, `None`, `[]`, `""` |
| FacilityLocation.Engine.VisitNode | Problems/TravellingSalesmanProblem/beb_proj7_4.py:66-121 | Updating the globals and the appended record in place yields exactly the step `Visit` describes |
| FacilityLocation.Engine.BranchAndBound | Problems/TravellingSalesmanProblem/beb_proj7_4.py:61-124 | The globals afterwards are those `Explore` gives with this engine's rule |
| FacilityLocation.Engine.ExploreChildren | Problems/TravellingSalesmanProblem/beb_proj7_4.py:123-124 | The two recursive calls run the `<=` child and then the `>=` child |
| FacilityLocation.Engine.RunProblemAndLog | Problems/TravellingSalesmanProblem/beb_proj7_4.py:215-228 | After the reset, the result is the search from node 1, parent 0, no constraints, from `+inf`/`None`/`[]`, independent of earlier runs; `tree_log` starts with node 1, is a tree rooted there, and has no id twice |
| IntegerProgram.SolveLpRelaxation | Problems/TravellingSalesmanProblem/beb_proj7_ex1.py:38-47 | The bound is finite exactly when a solution comes back, is `-inf` exactly on a non-optimal status or error, and is never `+inf` |
| IntegerProgram.ChooseBranchSpec | Problems/TravellingSalesmanProblem/beb_proj7_ex1.py:90-100 | Nothing is chosen exactly when both distances are at most `1e-6`; otherwise the chosen value is not an integer and is `x` if `x` is at least as fractional as `y`, else `y` |
| IntegerProgram.VisitFacts | Problems/TravellingSalesmanProblem/beb_proj7_ex1.py:54-109 | One call appends one record with its id, parent and bound; pruned iff `lp <= best + 1e-6` or `-inf`; branched whenever it recurses; a branching keeps the incumbent; any other outcome keeps it or installs an improvement from its own record |
| IntegerProgram.BranchedWithoutChildren | Problems/TravellingSalesmanProblem/beb_proj7_ex1.py:74-100 | A node is marked branched yet has no children exactly when it is not pruned, both distances are at most `1e-6` and one equals `1e-6` |
| IntegerProgram.VisitChildren | Problems/TravellingSalesmanProblem/beb_proj7_ex1.py:102-106 | The children add `<= floor(v)` and `>= ceil(v)` on exactly the variable and value `ChooseBranch` picks (`var_to_branch`, `val_to_branch`), with consecutive bounds strictly around that value |
| IntegerProgram.RuleMarksIntegral | Problems/TravellingSalesmanProblem/beb_proj7_ex1.py:77-84 | Each call appends its own record, and an integral record is always a new incumbent |
| IntegerProgram.SearchShape | Problems/TravellingSalesmanProblem/beb_proj7_ex1.py:49-109 | A call only appends to `tree_log`, first its own node; each later record is a child `2p+1` or `2p+2` of an earlier branched record; the appended ids are distinct descendants of the call's id |
| IntegerProgram.SearchIntegralImproves | Problems/TravellingSalesmanProblem/beb_proj7_ex1.py:67-109 | Every record marked integral is marked as a new incumbent |
| IntegerProgram.ImprovesTransitive | Problems/TravellingSalesmanProblem/beb_proj7_ex1.py:81 | Improving by more than `1e-6` twice improves by more than `1e-6` |
| IntegerProgram.ExploreIncumbent | Problems/TravellingSalesmanProblem/beb_proj7_ex1.py:49-109 | After a call the incumbent is unchanged, or it is above the old value plus `1e-6` and is the bound and rounded point of an integral record appended by that call |
| IntegerProgram.ExploreBestMonotone | Problems/TravellingSalesmanProblem/beb_proj7_ex1.py:81-82 | The best value never decreases |
| IntegerProgram.Engine.constructor | Problems/TravellingSalesmanProblem/beb_proj7_ex1.py:8-11 | The globals start at `-inf`, `None`, `[]`, `""` |
| IntegerProgram.Engine.VisitNode | Problems/TravellingSalesmanProblem/beb_proj7_ex1.py:54-106 | Updating the globals and the appended record in place yields exactly the step `Visit` describes |
| IntegerProgram.Engine.BranchAndBound | Problems/TravellingSalesmanProblem/beb_proj7_ex1.py:49-109 | The globals afterwards are those `Explore` gives with this engine's rule |
| IntegerProgram.Engine.ExploreChildren | Problems/TravellingSalesmanProblem/beb_proj7_ex1.py:108-109 | The two recursive calls run the `<=` child and then the `>=` child |
| IntegerProgram.Engine.RunProblemAndLog | Problems/TravellingSalesmanProblem/beb_proj7_ex1.py:202-215 | After the reset, the result is the search from node 1, parent 0, no constraints, from `-inf`/`None`/`[]`, independent of earlier runs; `tree_log` starts with node 1, is a tree rooted there, and has no id twice |

## Left out

- Building the Gurobi models: variables, objective and the problem constraints of `solve_lp_relaxation` in both LP files. This is replaced by the `oracle` function field, which maps the problem name and the constraint path to an outcome.
- The decoding of branching constraints inside `solve_lp_relaxation` of `beb_proj7_4.py`: `y[var_name[2]]` reads back a one-character key. For a multi-character key whose first character is not a key, it raises `KeyError`; only `GurobiError` is caught, so that error ends the whole run. For a multi-character key whose first character is another key, it silently bounds the wrong variable. The oracle is an arbitrary function of the constraint path, so both the crash and the mis-decoding are abstracted into it. `DecodeBranchName` states exactly when the key is read back correctly.
- `PROBLEMS_DATA` and the instance constants of `beb_kp.py`: they are generalised to any `Instance` with positive costs, and to any oracle. The lookup `PROBLEMS_DATA[problem_name]` in `branch_and_bound` of both LP files raises `KeyError` for an unknown name, outside any `try`, so the run ends; the oracle accepts every name, so that error path is absorbed into the abstraction and not modelled.
- Floating point: all arithmetic is on exact reals. Float rounding in sums, in `x_step` and in the `1e-6` comparisons is not modelled.
- Printing and plotting: `print`, `print(m.status)`, `plot_bnb_tree` and the report loops of `run_problem_and_log`.
- The `strategy` parameter: it is unused.
- `global_best_value` of `beb_kp.py`: it is never read.
- The script lines of `beb_kp.py` that print the result. The root call is `AllFree` followed by `Solver.Beb`.
- FacilityLocation.Engine.BranchAndBound: it takes a `fuel` bound on recursion depth. A call whose depth would exceed it stops, which Python does not do. The LP oracle is arbitrary, so nothing else guarantees termination.
- IntegerProgram.Engine.BranchAndBound: the same fuel bound, for the same reason.
- DepthFirst.Explore: the same fuel bound, for the same reason.
- KnapsackSearch.Solver.Beb: it requires every fixed entry to be 0 or 1. The search only ever fixes those values.
- SearchTree.AssignLevels: it does not prove that a level is the minimum depth at which BFS reaches the id. It proves only that each level is one more than a logged parent's level. The logs of `run_problem_and_log` have distinct ids (`ExploreIds`), so each id there has one logged parent, but the step from that to minimal depth is not proved.
- SearchTree.LayoutOfLevels: its contract is exact for whatever level map it is given: each level's row lists every logged occurrence of its ids in log order, repeats included; slot `i` of a row of `n` is at `(i+1)/(n+1) - 0.5`; and an id listed more than once gets the x of its last slot. Called from `TreePositions`, that map is the one of `AssignLevels`, with the gap described above.
- SearchTree.TreePositions: it inherits the gap of `AssignLevels`: the y coordinate is `-0.5` times a level that is not proved to be the BFS-minimal one.
- Optimality of the final incumbent of the two LP engines is not proved. The model proves only that each incumbent is an improving integral node found by the search. Proving optimality would need the oracle to be a true relaxation bound, which an arbitrary LP oracle is not.
- Optimality of the final incumbent of `beb` in `beb_kp.py` is not proved either, although `Relax` is concrete. The proof would need `Relax` to bound every 0/1 completion of a node, which is the optimality of the greedy fractional knapsack, an exchange argument over the ratio order. On top of that, the prune at exactly `0.0` and the `1e-6` tolerances can discard a completion worth up to `1e-6` more. That argument is out of the scope of this model; it proves the incumbent is an improving integral node the search found (`ExploreWitness`).
