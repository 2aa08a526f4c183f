# KD-tree colour lookup: a Dafny model

This project models the core of a small C++ program (`Source.cpp`). The
program remaps the colours of an image. It does so with a static 3-d tree
(`KDTree`) over a palette of integer colour triples (`PointT`), which is
queried for the nearest palette entry of each pixel.

The model covers:

- **Points and distance** (`points.dfy`).
  - A point is an integer triple.
  - `distance` sums the squared coordinate differences and returns the square root, truncated to an `int`.
  - The model computes this exactly, as the integer square root `ISqrt` of the squared distance.
- **The selection step** (`axis_sort.dfy`).
  - `nth_element` over a range of point indices, comparing one axis.
  - It is modelled by its contract, `IsNthElement`: the range is permuted so that the entry at position `mid` separates smaller keys from larger ones.
  - A stable insertion sort meets that contract.
- **The tree build** (`kd_tree.dfy`).
  - `BuildTree` starts from the index permutation `0 .. n - 1` (`iota`).
  - `BuildRecursive` selects the median on axis `depth % 3` into position `(n - 1) / 2`, makes it the node, and recurses on the entries before and after it.
  - The tree is an immutable datatype.
- **Nearest-neighbour search** (`nn_search.dfy`).
  - `nnSearch`/`nnSearchRecursive` is a depth-first branch and bound.
  - It keeps a node whose distance is strictly below the best so far.
  - It searches the child on the query's side of the split first.
  - It then searches the other child only while the axis gap `fabs(Query[Axis] - train[Axis])` is below the best distance.
  - The search is written once, over a `Metric`. `Truncated` is the code as written; `Squared` is the corrected search described under Findings.
- **The bounded priority queue** (`bounded_queue.dfy`).
  - `BoundedPriorityQueue::push` inserts a value before the first element greater than it (`find_if`), then cuts the vector back to the bound.
  - `back`, `operator[]` and `size` are read-only accessors.
  - `KnnQueue` is the queue on `pair<int, int>`.

`Option` (in `wrappers.dfy`) stands for the guess that `nnSearch` leaves unassigned when no node is visited.

Two points of the code are worth stating up front:

- The comment at `Source.cpp:159` gives the Euclidean distance formula, but `distance` returns its square root truncated to an `int` (`Source.cpp:163`), and the search compares those truncated values. So for the query (1, 1, 1) over the four axis points, `NnSearchAxesExample` reports distance 1. The exact squared-distance search gives 3 (`NnSearchExactAxesExample`).
- On a tree with no nodes, `nnSearch` leaves `Guess` unassigned (`Source.cpp:69`) and reports `INT_MAX` as the distance. The model returns `None` and `INT_MAX` (`NnSearchEmpty`, `NnSearchDefaultTree`).

## Model

| member | source | states |
|---|---|---|
| Points.SqDistBounds | Source.cpp:159-162 | The summed squared differences are zero exactly for equal points. The sum is at least the squared difference on any single axis. |
| Points.ISqrtBracket | Source.cpp:163 | The truncated root `r` of `n` satisfies `r*r <= n < (r+1)*(r+1)`, which is what truncating `sqrt` of an exact integer gives. |
| Points.ISqrtUnique | Source.cpp:163 | That bracket determines the truncated root. |
| Points.ISqrtMonotone | Source.cpp:163 | The truncated root never decreases as its argument grows. |
| Points.DistanceBracket | Source.cpp:157-164 | `distance` brackets the squared distance between `r*r` and `(r+1)*(r+1)`. It is 0 exactly between equal points. |
| Points.DistanceBelowIntMax | Source.cpp:70 | When the squared distance fits in an `int`, the distance is strictly below the starting `MinDist` of `INT_MAX`. So the first visited node always becomes the guess. |
| AxisSort.NthElement | Source.cpp:128-131 | The arranged range is a permutation of the input. Every entry before `mid` has an axis key no larger than the entry at `mid`, and every entry after it a key no smaller. |
| AxisSort.NthElementParts | Source.cpp:128-138 | Cut at `mid`, the arranged range is the median, the lower part and the upper part. Together they are the original indices, with keys bracketing the median. |
| AxisSort.SortByAxis | Source.cpp:128-131 | The sort that meets the selection contract yields a permutation of the range, in non-decreasing key order. |
| KdTree.SelectMedianBrackets | Source.cpp:126-131 | The median's axis coordinate bounds the lower range from above and the upper range from below. |
| KdTree.SelectMedian | Source.cpp:126-138 | The lower range has `(n-1)/2` entries and the upper range `n - (n-1)/2 - 1`. With the median they make up the range. |
| KdTree.BuildRecursive | Source.cpp:121-141 | A range of size `<= 0` gives no node. Otherwise the subtree stores exactly the indices of the range, each as often as it occurs. |
| KdTree.BuildShape | Source.cpp:123-138 | Every node splits on `depth % 3`. The left child holds the `(n-1)/2` entries before `Mid` and the right child the rest, so sibling sizes differ by at most one. |
| KdTree.BuildSplit | Source.cpp:128-138 | Split invariant: at each node, the left subtree's points are no larger, and the right subtree's no smaller, than the node's point on the node's axis. |
| KdTree.IotaCounts | Source.cpp:54-55 | The filled index vector holds each of `0 .. n-1` exactly once and nothing else. |
| KdTree.BuildTree | Source.cpp:49-58 | The tree keeps the points. Each index `0 .. n-1` is stored exactly once. The split invariant holds, axes cycle from 0 at the root, and children are balanced halves. |
| KdTree.IndexesSize | Source.cpp:49-58 | A tree built over `n` points has `n` nodes. |
| NnSearch.SearchRec | Source.cpp:166-187 | The search never raises the best distance. Whenever it changes the state, it strictly lowered the distance to a valid index whose measure it records. |
| NnSearch.SearchNode | Source.cpp:171-186 | The same, for one node's visit: measure and keep the node, search the near side, then the far side if the gap test passes. |
| NnSearch.PruneIsSafe | Source.cpp:184-186 | A point across the split plane from the query is at least the axis gap away. So skipping the far side when the gap is not below the best loses no strictly better point. |
| NnSearch.SplitAcross | Source.cpp:181-186 | Under the split invariant, every point of the second-visited child lies across the split plane from the query. |
| NnSearch.SearchRecMinimal | Source.cpp:166-187 | After searching a subtree, the best distance is at most the distance of every point stored in it. |
| NnSearch.SearchNodeMinimal | Source.cpp:173-186 | The same bound for one node: the node, its near child and, through the pruning argument, its far child. |
| NnSearch.SearchBelowAll | Source.cpp:67-77 | From the starting state, the search ends no worse than any point of the tree. |
| NnSearch.SearchFindsNearest | Source.cpp:67-77 | On a non-empty built tree, for either measure, a guess is assigned. It indexes the points, `MinDist` is its measure, and no point measures less. |
| NnSearch.NnSearch | Source.cpp:67-77 | On an empty tree there is no guess and `MinDist` stays `INT_MAX`. Any guess indexes the points, and `MinDist` is its truncated distance. |
| NnSearch.NnSearchFindsNearest | Source.cpp:67-77 | Correctness of `nnSearch` under the program's own metric: it returns a point of least truncated distance. |
| NnSearch.NnSearchSelfQuery | Source.cpp:67-77 | Querying a stored point gives distance 0 and a guess equal to the query point, with no bound on the other points' distances. |
| NnSearch.NnSearchSinglePoint | Source.cpp:49-77 | A tree built from one point answers every query with index 0 and the distance to that point. |
| NnSearch.NnSearchDefaultTree | Source.cpp:37 | The default-constructed tree, with no root, answers every query with no guess and `MinDist == INT_MAX`. |
| NnSearch.NnSearchEmpty | Source.cpp:67-77 | A tree built from no points answers with no guess and `MinDist == INT_MAX`. |
| NnSearch.NnSearchUniqueNearest | Source.cpp:67-77 | A point strictly nearest under the truncated distance is the one returned, with its distance. |
| NnSearch.NnSearchAxesExample | Source.cpp:67-77 | Over the four axis points, (1,1,1) gives index 0 and (9,0,0) gives index 1, both at truncated distance 1. |
| NnSearch.NnSearchExact | Source.cpp:157-187 | The corrected search with the squared distance as measure. An empty tree gives no guess. Any guess indexes the points with its squared distance. |
| NnSearch.NnSearchExactFindsNearest | Source.cpp:157-187 | The corrected search returns a point of least squared distance. |
| NnSearch.NnSearchExactUniqueNearest | Source.cpp:157-187 | A point strictly nearest in squared distance is the one the corrected search returns. |
| NnSearch.NnSearchExactAxesExample | Source.cpp:157-187 | Over the four axis points, the corrected search gives index 0 at squared distance 3 for (1,1,1), and index 1 at squared distance 1 for (9,0,0). |
| NnSearch.TruncationPicksFartherPoint | Source.cpp:157-187 | Over (1,1,0), (0,1,0), (5,0,0) with query (0,0,0), the code returns index 0 at squared distance 2, although index 1 is at squared distance 1. The corrected search returns index 1. |
| NnSearch.BuiltTreePicksFartherPoint | Source.cpp:49-77 | The same discrepancy, for the tree `BuildTree` builds over those points. |
| NnSearch.CounterexampleTree | Source.cpp:121-141 | The build over those three points has (1,1,0) at the root, (0,1,0) on the left and (5,0,0) on the right. |
| BoundedQueue.UpperBound | Source.cpp:102-103 | `find_if` finds the first element greater than the value, or the end. Every element before it is not greater. |
| BoundedQueue.Take | Source.cpp:106-107 | `resize` keeps the first `bound` elements, or all of them when there are fewer. |
| BoundedQueue.Push | Source.cpp:100-108 | `push` keeps the bound. The size grows by one until it reaches the bound, then stays there. |
| BoundedQueue.InsertSorted | Source.cpp:102-104 | Reference sorted insertion: adds exactly the value to the elements. |
| BoundedQueue.SplitIsInsertSorted | Source.cpp:102-104 | Inserting at the `find_if` position is the reference sorted insertion. |
| BoundedQueue.PushIsBoundedInsert | Source.cpp:100-108 | After `push`, the queue holds the first `bound` elements of the old elements with the value inserted in order. |
| BoundedQueue.UpperBoundSplits | Source.cpp:102-103 | On an ordered queue, the `find_if` position separates the elements not greater than the value from the greater ones, in both directions. |
| BoundedQueue.InsertKeepsSorted | Source.cpp:102-104 | Insertion at that position keeps the elements ordered. |
| BoundedQueue.TakeKeepsSorted | Source.cpp:106-107 | Cutting back to the bound keeps them ordered. |
| BoundedQueue.PushKeepsValid | Source.cpp:100-108 | `push` keeps the queue ordered and no longer than its bound. |
| BoundedQueue.PushIsStable | Source.cpp:102-104 | The new value lands after every equivalent element already queued and before every greater one. The other elements keep their order. |
| BoundedQueue.PushDropsLargest | Source.cpp:106-107 | Every element the cut drops is at least as large as every element kept. |
| BoundedQueue.BackIsLargest | Source.cpp:110-111 | On an ordered queue, `back()` is not smaller than any `operator[]` element. |
| BoundedQueue.PairLessIsStrictWeakOrder | Source.cpp:119 | `less<pair<int,int>>` (lexicographic) is a strict weak ordering, as `Compare` must be. |
| BoundedQueue.KnnQueueExample | Source.cpp:119 | A `KnnQueue` of bound 2 fed (3,0), (1,1), (2,2), (1,3) holds (1,1), then (1,3): the two lexicographically smallest pairs. |
| BoundedQueue.StableExample | Source.cpp:100-108 | Under a comparison on the first component only, a queue of bound 3 fed (2,0), (1,1), (1,3) holds (1,1), (1,3), (2,0): an equivalent value goes after the one queued before it. |

## Left out

- `main` (`Source.cpp:194-278`) is left out: image file I/O, threads and timing.
- `ClearTree`, `ClearRecursive` and the destructor (`Source.cpp:44-47`, `60-65`, `143-155`) are left out. The tree is an immutable value, so there is no node graph to release. `BuildTree` is a function of the new points alone, which is what clearing first achieves.
- KdTree.BuildTree: the value constructor `KDTree(Points)` (`Source.cpp:39-42`) never initialises `TreeRootPtr` (`Source.cpp:189`); only the default constructor (`Source.cpp:37`) sets it to `nullptr`. The `ClearTree` that starts `BuildTree` (`Source.cpp:51`, `62`) therefore hands an indeterminate pointer to `ClearRecursive`, which is undefined behaviour, and `main` takes this path (`Source.cpp:248`). The model does not represent an uninitialised root: every build starts from an empty tree, which is what the code evidently means to do.
- Floating point is left out. `sqrt` of the `int` sum is modelled as the exact integer square root. For sums below 2^31 the `double` square root truncates to the same value. `fabs` of an `int` difference is modelled as the integer absolute value.
- `nth_element` internals are left out. Only its contract is modelled, met by a stable insertion sort. Other arrangements that `nth_element` may produce for ranges of more than three entries can put tied keys in a different order, and so build a different (equally valid) tree.
- The uninitialised `Guess` of `nnSearch` is modelled as `None`. The optional `MinDist` out-pointer is modelled by returning both values in `Best`.
- The `reserve(Bound + 1)` of the queue constructor is left out: it is a capacity hint with no visible effect.
- `BoundedQueue.Size`, `BoundedQueue.Back` and `BoundedQueue.At` are plain accessors with no contract of their own. `back()` on an empty queue and `operator[]` past the end are undefined in C++, so the model requires them not to happen.
- NnSearch.NnSearchFindsNearest: requires every squared distance from the query to fit in an `int` (`FitsInt`). The C++ sum in `distance` overflows otherwise, which is undefined behaviour, and 32-bit wrap-around is not modelled.
- NnSearch.NnSearchUniqueNearest: carries the same `FitsInt` precondition, for the same reason.
- NnSearch.NnSearchSinglePoint: requires the squared distance from the query to the one point to fit in an `int`, for the same reason.
- NnSearch.NnSearchExactUniqueNearest: requires every squared distance to be below `INT_MAX`, the starting bound of the search, for the same reason.
- NnSearch.NnSearchExactFindsNearest: requires every squared distance to be below `INT_MAX`, the starting bound of the search, for the same reason.
- NnSearch.SearchFindsNearest: requires every measure to be below `INT_MAX`, the starting bound; a point at exactly `INT_MAX` would never be kept.
- The queue's ordering lemmas (`UpperBoundSplits`, `InsertKeepsSorted`, `PushKeepsValid`, `PushIsStable`, `PushDropsLargest`, `BackIsLargest`) assume `Compare` is a strict weak ordering, as the C++ standard requires of it.

## Findings

| source | as written | input that shows it | evidently intended | confidence | as-written member | corrected member |
|---|---|---|---|---|---|---|
| Source.cpp:157-187 | `distance` truncates the square root to an `int`, and the search keeps a node only when that truncated value is strictly smaller. Two points whose distances truncate to the same integer are not told apart, so the first one visited wins even when the second is strictly closer. | Points (1,1,0), (0,1,0), (5,0,0) with query (0,0,0). The root is (1,1,0), at squared distance 2; (0,1,0) is at squared distance 1. Both truncate to 1, so the search returns index 0. | Return the stored point of least Euclidean distance: compare squared distances, and compare the squared axis gap in the pruning test. | not executed | NnSearch.TruncationPicksFartherPoint | NnSearch.NnSearchExactFindsNearest |
