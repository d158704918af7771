# Range tree, modelled in Dafny

This project models `RangeTree`, a static multi-level orthogonal range tree over
`d`-dimensional points. The source is `RangeTree.java`.

- **Levels `d-1` down to 2.** These are primary nodes (`Leaf`, `Joint`).
  - Each node splits its points by its own coordinate.
  - Each node keeps an `inner` structure over the same points, one dimension lower.
- **The bottom two dimensions.** These are a fractional-cascading tree (`CascadeLeaf`, `CascadeJoint`).
  - Each node's point list is ascending by coordinate 0.
  - A joint links its list to each child's list with a bridge array (`buildRef`).
  - A query needs one binary search (`binSearch`) at the top of the cascade. Every lower node reuses it through the bridges.
- **The build.** The input is sorted once by `POINT_COMPARATOR`. `buildNode` then runs a binary-counter stack of `NodeInfo(node, height, from, to)` entries.
  - At a primary level, runs of equal coordinate become `Leaf`s.
  - Two entries of equal height are joined into a `Joint`. Its range is first re-sorted in place by the next lower coordinate, and then its inner structure is built on that range.
  - The remaining stack is folded at the end.
  - The cascade level uses the same scheme. There, joints `merge` their children's lists linearly.

The model has five modules:

| module (file) | contents |
|---|---|
| `Points` (`points.dfy`) | points as `seq<int>`, the brute-force box filter `Naive` that specifies a query, and `POINT_COMPARATOR` |
| `Lists` (`lists.dfy`) | `binSearch`, `merge`, `buildRef` and the forward scan of a contained cascade node, each a loop proved against a specification function (`LowerBound`, `Merged`, `IsBridge`, `ScanEnd`), and `concat` as a function whose contract gives its size and multiset |
| `Sorting` (`sorting.dfy`) | `List.sort` on a sub-list view, as an in-place insertion sort over a range of the shared array, plus the frame facts about rearranging one range of an array |
| `Nodes` (`nodes.dfy`) | the node datatypes, the invariant `Valid` / `CValid` that a build establishes, the query functions, and their correctness |
| `Build` (`build.dfy`) | `buildNode` as methods over one shared `array<Point>` that is re-sorted in place, the `NodeInfo` stack and its invariant, the constructor with its error cases, and the end-to-end query theorem |

The queries are pure recursive functions over immutable nodes. The build, `merge`, `buildRef`,
`binSearch` and the scan are methods with loops, as in the source.

Query results are compared as multisets. `Point` has no `equals`, so `RangeTreeTest` compares
results by object identity, in a `HashSet`. The model proves more than that comparison needs:
each stored occurrence of a point in the box comes back exactly once, and nothing else does.

The main theorem is `Build.TreeQueryCorrect`. For a tree that `Build.NewRangeTree` built from
`points`, `query(from, to)` returns the same multiset as the brute-force filter of
`points` by `from[k] <= p[k] <= to[k]` for every `k < dims`. `Build.NewRangeTree` guarantees the
predicate `Represents` that this lemma starts from.

The lemmas behind it also state:

- Every node's point multiset is exactly the multiset of its stack range.
- In-place sorts only permute inside the range being rebuilt.
- Bridges hold lower bounds.
- A hinted cascade query equals a fresh binary search in each child.
- `CascadeLeaf.subQuery`, which throws, is never reached.

Three details of the source shape the model:

- `RangeTree.java:39` builds a `Leaf`'s inner structure on its group as it lies, without
  re-sorting it. Query correctness does not depend on that order. At the primary levels, only
  the ranges of `Joint`s are re-sorted, by coordinate `dim - 1` (lines 46, 61).
- `buildRef` advances while `subPoints[ref][0] < points[i][0]` (line 314), so each entry is a
  lower bound: the first index whose coordinate 0 is at least the point's.
- `buildNode` reads `points.get(0)` (lines 36, 70), so an empty input throws
  `IndexOutOfBoundsException`. The model returns this as `Failure(IndexOutOfBounds)`.

## Model

| member | source | states |
|---|---|---|
| Points.CompareCoord | src/main/java/ru/ifmo/ctddev/zyulyaev/range/RangeTree.java:19 | `Double.compare` on integer coordinates: negative iff `x < y`, zero iff equal, within `[-1, 1]` |
| Points.ComparePoints | src/main/java/ru/ifmo/ctddev/zyulyaev/range/RangeTree.java:14-21 | the point order compares dimensions first and then coordinates from the highest index down; it is zero exactly when the points are equal |
| Points.ComparePointsAntisymmetric | src/main/java/ru/ifmo/ctddev/zyulyaev/range/RangeTree.java:14-21 | swapping the arguments negates the comparison |
| Points.ComparePointsTransitive | src/main/java/ru/ifmo/ctddev/zyulyaev/range/RangeTree.java:14-21 | the point order is transitive; with antisymmetry and zero exactly on equal points, it is a total order, as `Comparator` requires of the sorts at line 28 |
| Points.PointComparator | src/main/java/ru/ifmo/ctddev/zyulyaev/range/RangeTree.java:14-21 | the comparator's downward loop computes `ComparePoints` |
| Points.Inside | src/main/java/ru/ifmo/ctddev/zyulyaev/range/RangeTree.java:106-108 | `inside`: the closed interval test `from <= coord <= to` |
| Points.Between | src/test/java/ru/ifmo/ctddev/zyulyaev/range/RangeTreeTest.java:85-91 | `between`: every coordinate `0 .. dims-1` of the point lies in the query's closed interval |
| Points.InBox | src/test/java/ru/ifmo/ctddev/zyulyaev/range/RangeTreeTest.java:85-91 | `between` for a point that may be too short: it has the coordinates `0 .. dims-1` and passes `between` |
| Points.Naive | src/test/java/ru/ifmo/ctddev/zyulyaev/range/RangeTreeTest.java:93-95 | `naive`: the points of the input that pass `between`, in input order |
| Points.NaiveCount | src/test/java/ru/ifmo/ctddev/zyulyaev/range/RangeTreeTest.java:85-95 | the brute-force filter keeps every occurrence of a point in the box and no other point |
| Points.NaivePerm | src/test/java/ru/ifmo/ctddev/zyulyaev/range/RangeTreeTest.java:93-95 | the filter's multiset depends only on the input's multiset |
| Points.NaiveDrop | src/test/java/ru/ifmo/ctddev/zyulyaev/range/RangeTreeTest.java:85-91 | a bound that every point already meets can be left out of the box test |
| Lists.LowerBound | src/main/java/ru/ifmo/ctddev/zyulyaev/range/RangeTree.java:131-133 | the first index whose coordinate is at least `x`: everything before it is below `x`, and it is `|s|` or at least `x` |
| Lists.LowerBoundSorted | src/main/java/ru/ifmo/ctddev/zyulyaev/range/RangeTree.java:131-133 | on a sorted list, everything from the lower bound on is at least `x` |
| Lists.BinSearch | src/main/java/ru/ifmo/ctddev/zyulyaev/range/RangeTree.java:134-144 | the result lies in `[0, size]` with the element before it below `from[dim]` and the element at it not below; on a sorted list it is the lower bound |
| Lists.MergedFrom | src/main/java/ru/ifmo/ctddev/zyulyaev/range/RangeTree.java:112-119 | each step of the merge loop emits one element, taking the left one on ties, so the length is what remains of both inputs |
| Lists.Merged | src/main/java/ru/ifmo/ctddev/zyulyaev/range/RangeTree.java:110-121 | `merge` of two whole lists: the merge steps from both cursors at 0 |
| Lists.MergedPerm | src/main/java/ru/ifmo/ctddev/zyulyaev/range/RangeTree.java:110-121 | the merge has length `left.size() + right.size()` and the union multiset of both inputs |
| Lists.MergedSorted | src/main/java/ru/ifmo/ctddev/zyulyaev/range/RangeTree.java:110-121 | merging two lists ascending by `dim` gives a list ascending by `dim` |
| Lists.Merge | src/main/java/ru/ifmo/ctddev/zyulyaev/range/RangeTree.java:110-121 | the two-cursor loop builds exactly the merge `Merged(left, right, dim)` |
| Lists.BuildRef | src/main/java/ru/ifmo/ctddev/zyulyaev/range/RangeTree.java:310-319 | the array has length `points.size() + 1` and last entry `subPoints.size()`; entries are non-decreasing and within `[0, subPoints.size()]`; on a sorted `points` every entry is the lower bound of its point in `subPoints` (`IsBridge`) |
| Lists.Advance | src/main/java/ru/ifmo/ctddev/zyulyaev/range/RangeTree.java:314-315 | the inner loop stops at the first point not below `x`, having passed only points below it |
| Lists.BridgeStep | src/main/java/ru/ifmo/ctddev/zyulyaev/range/RangeTree.java:306-308 | at the lower bound of `x` in a sorted list, a bridge into a child whose points are drawn from that list holds the lower bound of `x` in the child |
| Lists.ScanEnd | src/main/java/ru/ifmo/ctddev/zyulyaev/range/RangeTree.java:240 | the scan from `i` stops at the first point whose coordinate 0 leaves `[from0, to0]`, and every point it passes is inside |
| Lists.Scan | src/main/java/ru/ifmo/ctddev/zyulyaev/range/RangeTree.java:239-242 | the accumulating loop returns the slice from `hint` to the end of the scan |
| Lists.ScanFilters | src/main/java/ru/ifmo/ctddev/zyulyaev/range/RangeTree.java:238-242 | on a list ascending by coordinate 0, the scan from the lower bound of `from[0]` yields exactly the brute-force filter on coordinate 0 |
| Lists.Concat | src/main/java/ru/ifmo/ctddev/zyulyaev/range/RangeTree.java:146-151 | the result has both sizes summed and the union multiset |
| Sorting.CmpAntisymmetric | src/main/java/ru/ifmo/ctddev/zyulyaev/range/RangeTree.java:46 | each comparator the build sorts with is antisymmetric |
| Sorting.Compare | src/main/java/ru/ifmo/ctddev/zyulyaev/range/RangeTree.java:46 | the call site of a comparator returns its verdict `Cmp` |
| Sorting.SortRange | src/main/java/ru/ifmo/ctddev/zyulyaev/range/RangeTree.java:46 | `subList(lo, hi).sort(...)` leaves `a[lo..hi]` in comparator order, holding the same points as before, with the rest of the array untouched |
| Sorting.Insert | src/main/java/ru/ifmo/ctddev/zyulyaev/range/RangeTree.java:46 | one insertion step extends the ordered prefix by one element and only permutes inside it |
| Nodes.CascadeNode | src/main/java/ru/ifmo/ctddev/zyulyaev/range/RangeTree.java:221-320 | `CascadeLeaf` (lines 251-273) holds its run's list and shared coordinate 1; `CascadeJoint` (lines 275-320) holds the merged list, `min`/`max` on coordinate 1, both children and both bridge arrays `leftRef`/`rightRef` |
| Nodes.Node | src/main/java/ru/ifmo/ctddev/zyulyaev/range/RangeTree.java:123-219 | the `Node` interface: `Leaf` (lines 153-180) holds its inner structure, dimension and shared `coord`; `Joint` (lines 182-219) holds its inner structure, dimension, `min`/`max` and both children; `Cascade` is a `CascadeNode` stored as a `Node` |
| Nodes.MinOf | src/main/java/ru/ifmo/ctddev/zyulyaev/range/RangeTree.java:197 | `Math.min` of two coordinates (also line 289), characterised by `Nodes.MinMaxOf` |
| Nodes.MaxOf | src/main/java/ru/ifmo/ctddev/zyulyaev/range/RangeTree.java:198 | `Math.max` of two coordinates (also line 290), characterised by `Nodes.MinMaxOf` |
| Nodes.MinMaxOf | src/main/java/ru/ifmo/ctddev/zyulyaev/range/RangeTree.java:197-198 | `MinOf` is at most both arguments and equal to one of them; `MaxOf` is at least both and equal to one of them |
| Nodes.CGetMin | src/main/java/ru/ifmo/ctddev/zyulyaev/range/RangeTree.java:259-262 | a `CascadeLeaf`'s minimum on coordinate 1 is its `coord`; a `CascadeJoint`'s is its stored `min` (lines 295-298) |
| Nodes.CGetMax | src/main/java/ru/ifmo/ctddev/zyulyaev/range/RangeTree.java:264-267 | a `CascadeLeaf`'s maximum on coordinate 1 is its `coord`; a `CascadeJoint`'s is its stored `max` (lines 300-303) |
| Nodes.GetMin | src/main/java/ru/ifmo/ctddev/zyulyaev/range/RangeTree.java:171-174 | a `Leaf`'s minimum on its dimension is its `coord`; a `Joint`'s is its stored `min` (lines 210-213); a cascade tree's is `CGetMin` |
| Nodes.GetMax | src/main/java/ru/ifmo/ctddev/zyulyaev/range/RangeTree.java:176-178 | a `Leaf`'s maximum on its dimension is its `coord`; a `Joint`'s is its stored `max` (lines 215-218); a cascade tree's is `CGetMax` |
| Nodes.Query | src/main/java/ru/ifmo/ctddev/zyulyaev/range/RangeTree.java:165-168 | `Leaf.query`: nothing if `coord` misses the query on the leaf's dimension, else the inner query. `Joint.query` (lines 202-208): nothing if `[min, max]` misses the query, the inner query if `[min, max]` lies inside it, else the children's answers concatenated |
| Nodes.CascadeQuery | src/main/java/ru/ifmo/ctddev/zyulyaev/range/RangeTree.java:229-233 | `CascadeNode.query(from, to)`: nothing if the node's range misses the query on coordinate 1, else the hinted query from the lower bound of `from[0]` in the node's list |
| Nodes.CascadeQueryFrom | src/main/java/ru/ifmo/ctddev/zyulyaev/range/RangeTree.java:235-246 | `CascadeNode.query(from, to, hint)`: nothing if disjoint on coordinate 1, the forward scan from `hint` if contained, else `subQuery` |
| Nodes.SubQuery | src/main/java/ru/ifmo/ctddev/zyulyaev/range/RangeTree.java:306-308 | `CascadeJoint.subQuery`: the children's hinted answers from `leftRef[hint]` and `rightRef[hint]`, concatenated; it requires a joint, because `CascadeLeaf.subQuery` (lines 270-272) throws and is never called |
| Nodes.CascadeBounds | src/main/java/ru/ifmo/ctddev/zyulyaev/range/RangeTree.java:286-290 | every point under a cascade node has coordinate 1 within its `[getMin(), getMax()]` |
| Nodes.NodeBounds | src/main/java/ru/ifmo/ctddev/zyulyaev/range/RangeTree.java:197-198 | every point under a primary node of dimension `k` has coordinate `k` within its `[getMin(), getMax()]` |
| Nodes.CascadeOutside | src/main/java/ru/ifmo/ctddev/zyulyaev/range/RangeTree.java:236-237 | a cascade node whose range misses the query on coordinate 1 stores no point of the box |
| Nodes.CascadeContained | src/main/java/ru/ifmo/ctddev/zyulyaev/range/RangeTree.java:238-242 | a cascade node inside the query on coordinate 1 scans exactly its points in the two-dimensional box |
| Nodes.CascadePartial | src/main/java/ru/ifmo/ctddev/zyulyaev/range/RangeTree.java:306-308 | a partly overlapping cascade node is a joint, so `CascadeLeaf.subQuery` is never reached; the hints its bridges pass down equal a fresh binary search in each child |
| Nodes.CascadeFromCount | src/main/java/ru/ifmo/ctddev/zyulyaev/range/RangeTree.java:235-246 | the hinted cascade query returns every stored occurrence of a point in the box once, and no other point |
| Nodes.CascadeCount | src/main/java/ru/ifmo/ctddev/zyulyaev/range/RangeTree.java:229-233 | the top cascade query, with its one binary search, returns every stored occurrence of a point in the box once, and no other point |
| Nodes.NodeOutside | src/main/java/ru/ifmo/ctddev/zyulyaev/range/RangeTree.java:203-204 | a primary node whose range misses the query on its dimension stores no point of the box |
| Nodes.NodeInside | src/main/java/ru/ifmo/ctddev/zyulyaev/range/RangeTree.java:205-206 | under a primary node inside the query on its dimension, the box test on that dimension always passes |
| Nodes.LeafCount | src/main/java/ru/ifmo/ctddev/zyulyaev/range/RangeTree.java:165-168 | `Leaf.query` returns every stored occurrence in the box once, and nothing else |
| Nodes.JointCount | src/main/java/ru/ifmo/ctddev/zyulyaev/range/RangeTree.java:202-208 | `Joint.query`, in each of its three cases, returns every stored occurrence in the box once, and nothing else |
| Nodes.QueryCount | src/main/java/ru/ifmo/ctddev/zyulyaev/range/RangeTree.java:123-124 | `Node.query` on a valid node of dimension `k` counts every point as the box on dimensions `0..k` keeps it |
| Nodes.QueryCorrect | src/main/java/ru/ifmo/ctddev/zyulyaev/range/RangeTree.java:164-208 | a valid node's query has the multiset of the brute-force filter of the node's points |
| Build.NodeInfo | src/main/java/ru/ifmo/ctddev/zyulyaev/range/RangeTree.java:322-334 | a stack entry: a built node, its height, and the range `[from, to)` of the current list it was built from |
| Build.BuildNode | src/main/java/ru/ifmo/ctddev/zyulyaev/range/RangeTree.java:32-99 | `buildNode` on the sub-list `a[lo..hi]` returns a valid node of that dimension holding exactly the sub-list's points, and rearranges only that sub-list |
| Build.BuildPrimary | src/main/java/ru/ifmo/ctddev/zyulyaev/range/RangeTree.java:33-66 | the primary branch returns a valid node holding exactly the range's points, and only permutes inside the range |
| Build.CloseRun | src/main/java/ru/ifmo/ctddev/zyulyaev/range/RangeTree.java:38-50 | closing a run of equal coordinate extends the stack, whose entries tile `[0, i)` and each hold their range, to end at `i`; it only permutes inside `[from, i)`, where `from`, at most `start`, is where the new top entry begins |
| Build.PushRun | src/main/java/ru/ifmo/ctddev/zyulyaev/range/RangeTree.java:38-40 | the node built over the run, wrapped in a `Leaf` of height 0 starting at `start`, is pushed on the unchanged stack, which still tiles; only the run is permuted |
| Build.PushLeaf | src/main/java/ru/ifmo/ctddev/zyulyaev/range/RangeTree.java:39-40 | the new `Leaf` entry holds its run and the stack still tiles, over the list after the inner build |
| Build.LeafHolds | src/main/java/ru/ifmo/ctddev/zyulyaev/range/RangeTree.java:39 | a `Leaf` over a run sharing coordinate `dim` is valid and holds the run |
| Build.Carry | src/main/java/ru/ifmo/ctddev/zyulyaev/range/RangeTree.java:42-49 | the carry keeps the stack invariant, never grows the stack, and stops with the top two heights different; it only permutes inside the final top entry's range, which starts at or below the old top entry's `from` |
| Build.CarryStep | src/main/java/ru/ifmo/ctddev/zyulyaev/range/RangeTree.java:43-48 | one join of the carry lowers the top entry's `from` and extends the permuted suffix of the list down to it, keeping the stack invariant |
| Build.Collapse | src/main/java/ru/ifmo/ctddev/zyulyaev/range/RangeTree.java:57-64 | the final fold leaves exactly one entry, holding all of `[0, size)` |
| Build.JoinTop | src/main/java/ru/ifmo/ctddev/zyulyaev/range/RangeTree.java:43-48 | one join replaces the top two entries by a `Joint` of dimension `dim` whose children are the two popped nodes, starting at the lower entry's `from` with height one more than the top entry's; the entries below are kept and the stack invariant holds; the list is permuted only inside the joint range `[preLast.from, start)` (lines 45-47) |
| Build.SortAndBuild | src/main/java/ru/ifmo/ctddev/zyulyaev/range/RangeTree.java:45-47 | sorting the joint range by coordinate `dim - 1` and building on it gives a valid node holding exactly the range's points |
| Build.JoinRange | src/main/java/ru/ifmo/ctddev/zyulyaev/range/RangeTree.java:43-45 | the top two entries are adjacent, and their joint range ends at `start` and can be sorted by coordinate `dim - 1` |
| Build.PushJoint | src/main/java/ru/ifmo/ctddev/zyulyaev/range/RangeTree.java:47-48 | the stack with the new `Joint` entry on top still tiles and holds, over the re-sorted list |
| Build.JoinedHolds | src/main/java/ru/ifmo/ctddev/zyulyaev/range/RangeTree.java:47 | the `Joint` of two adjacent entries holds their joint range |
| Build.JoinedValid | src/main/java/ru/ifmo/ctddev/zyulyaev/range/RangeTree.java:47 | the `Joint` of two adjacent entries over an inner node of their joint range is valid |
| Build.NewJoint | src/main/java/ru/ifmo/ctddev/zyulyaev/range/RangeTree.java:191-199 | the `Joint` constructor keeps its inner node, dimension and children; its `min` is at most both children's minima and equal to one of them, and dually for `max` |
| Build.JointValid | src/main/java/ru/ifmo/ctddev/zyulyaev/range/RangeTree.java:191-199 | a `Joint` of valid children over an inner structure holding exactly their points is valid |
| Build.NewCascadeJoint | src/main/java/ru/ifmo/ctddev/zyulyaev/range/RangeTree.java:285-293 | the `CascadeJoint` constructor yields a valid node whose merged list holds exactly both children's points, ascending by coordinate 0, bridged to each child |
| Build.BuildCascade | src/main/java/ru/ifmo/ctddev/zyulyaev/range/RangeTree.java:67-98 | the cascade branch returns a valid cascade node holding exactly the range's points, and only permutes inside the range |
| Build.CloseCascadeRun | src/main/java/ru/ifmo/ctddev/zyulyaev/range/RangeTree.java:73-84 | closing a run `[start, i)` leaves the run sorted by coordinate 0 and permuted only within itself, pushes a `CascadeLeaf` holding a copy of it and carries, keeping the stack invariant up to `i` |
| Build.PushCascadeLeaf | src/main/java/ru/ifmo/ctddev/zyulyaev/range/RangeTree.java:73-76 | the new `CascadeLeaf` entry holds its sorted run and the stack still tiles |
| Build.CascadeLeafHolds | src/main/java/ru/ifmo/ctddev/zyulyaev/range/RangeTree.java:74-75 | a `CascadeLeaf` copying a run that is sorted by coordinate 0 and shares coordinate 1 is valid and holds the run |
| Build.CascadeCarry | src/main/java/ru/ifmo/ctddev/zyulyaev/range/RangeTree.java:78-83 | the cascade carry keeps the stack invariant and stops with the top two heights different |
| Build.CascadeCollapse | src/main/java/ru/ifmo/ctddev/zyulyaev/range/RangeTree.java:91-96 | the final cascade fold leaves exactly one entry, holding the whole range |
| Build.CascadeJoinTop | src/main/java/ru/ifmo/ctddev/zyulyaev/range/RangeTree.java:79-82 | one cascade join replaces the top two entries by their `CascadeJoint`, height plus one, keeping the stack invariant |
| Build.Error | src/main/java/ru/ifmo/ctddev/zyulyaev/range/RangeTree.java:26-27 | the two ways the constructor fails: `IllegalArgument` for the `IllegalArgumentException` of line 27, `IndexOutOfBounds` for the exception `points.get(0)` raises on an empty list (lines 36, 70) |
| Build.Result | src/main/java/ru/ifmo/ctddev/zyulyaev/range/RangeTree.java:25-30 | the constructor's outcome: the built tree, or the `Error` it throws |
| Build.RangeTree | src/main/java/ru/ifmo/ctddev/zyulyaev/range/RangeTree.java:13-23 | the `RangeTree` object: its one field, the `root` node of line 23 |
| Build.TreeQuery | src/main/java/ru/ifmo/ctddev/zyulyaev/range/RangeTree.java:102-104 | `RangeTree.query`: the root's query |
| Build.NewRangeTree | src/main/java/ru/ifmo/ctddev/zyulyaev/range/RangeTree.java:25-30 | `dimensions < 2` fails with `IllegalArgument`; an empty input or a point without coordinate `dimensions - 1` fails with `IndexOutOfBounds`; in every other case the tree is valid at `dimensions - 1` and holds exactly the input points |
| Build.TreeQueryCorrect | src/main/java/ru/ifmo/ctddev/zyulyaev/range/RangeTree.java:102-104 | a query on a built tree returns the multiset of the brute-force filter of the input points over all `dims` dimensions |

## Left out

- Coordinates are `int`, not `double`. NaN, `-0.0` and rounding, which behave differently under `!=` and `Double.compare`, are not modelled.
- `Point` is a `seq<int>` value. Object identity and the defensive copy are not modelled. Several equal points count as several occurrences, which is what identity-based comparison of results needs.
- Query bounds: `from` and `to` must have every coordinate the traversal reads; with fewer, the source throws, and the model does not cover that case. A query also needs the predicate `Valid` on the tree it is asked of, which every tree `NewRangeTree` returns satisfies.
- Sorting: `List.sort` and the constructor's stream sort are modelled by a stable in-place insertion sort over a range of one shared array. The model states only what the build relies on: comparator order and a permutation of that range. Stability is not stated.
- Lists.BinSearch: the midpoint `l + r >> 1` is computed on unbounded integers, so the 32-bit overflow for lists of more than 2^30 elements is not modelled.
- Sizes, indices and heights are unbounded integers. Java's 32-bit `int` is not modelled.
- Heights: `NodeInfo.height` is carried and compared as in the source. The resulting balance and the complexity claims in the class comment are not proved.
- Lists.MergedFrom: that ties go to the left list is part of its definition, and `Lists.Merge` is proved equal to it. No separate stability lemma is stated.
- Primary levels: `Valid` does not require any order of the points under a primary node, because the query's correctness does not depend on one. Only the cascade lists are required to be ascending, by coordinate 0.
- The `Node` interface is the datatype `Node`. A cascade tree used where the source stores it as a `Node` appears as `Cascade(c)`.
- `RangeTree.query` is the function `TreeQuery`. `Node.getMin` and `Node.getMax` are the functions `GetMin`/`GetMax` and `CGetMin`/`CGetMax`.
- The collection types of results (`ArrayList`, `Collections.emptyList`) are sequences.
- RangeTreeBenchmark.java, and the random generation in RangeTreeTest.java, are not part of this model.
