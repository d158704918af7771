/** The construction of the tree (`buildNode` with its `NodeInfo` stack), the constructor of
    `RangeTree` and its `query`. The input list is sorted once by `POINT_COMPARATOR` into an
    array; every level then works on a sub-range `[lo, hi)` of that shared array and re-sorts
    parts of it in place, as `List.sort` does on a `subList` view. Stack ranges `[from, to)`
    are relative to `lo`, as the source's are relative to its sub-list. */
module Build {
  import opened Points
  import opened Lists
  import opened Sorting
  import opened Nodes

  /** `NodeInfo`: a built node, its height in the binary-counter stack and the range
      `[from, to)` of the current list it was built from. */
  datatype NodeInfo<N> = NodeInfo(node: N, height: nat, from: nat, to: nat)

  /** A stack entry of a primary level: its node is valid at `dim` and holds exactly the
      points of its non-empty range of the list `s[lo..]`. */
  ghost predicate Holds(s: seq<Point>, lo: nat, info: NodeInfo<Node>, dim: nat) {
    info.from < info.to && lo + info.to <= |s| && Valid(info.node, dim) &&
    Collects(Elems(info.node), s, lo + info.from, lo + info.to)
  }

  /** A stack entry of the cascade level: its node is valid and holds exactly the points of
      its non-empty range. */
  ghost predicate CHolds(s: seq<Point>, lo: nat, info: NodeInfo<CascadeNode>) {
    info.from < info.to && lo + info.to <= |s| && CValid(info.node) &&
    Collects(info.node.points, s, lo + info.from, lo + info.to)
  }

  /** The first `m` entries of the primary stack tile `[0, start)`: entry `m - 1` ends at
      `start` and holds, and the entries below it tile `[0, nodes[m - 1].from)`. */
  ghost predicate StackTo(nodes: seq<NodeInfo<Node>>, m: nat, start: nat, s: seq<Point>, lo: nat, dim: nat)
    requires m <= |nodes|
    decreases m
  {
    if m == 0 then start == 0
    else nodes[m - 1].to == start && Holds(s, lo, nodes[m - 1], dim) && StackTo(nodes, m - 1, nodes[m - 1].from, s, lo, dim)
  }

  ghost predicate Stack(nodes: seq<NodeInfo<Node>>, start: nat, s: seq<Point>, lo: nat, dim: nat) {
    StackTo(nodes, |nodes|, start, s, lo, dim)
  }

  /** The cascade stack tiles `[0, start)` in the same way. */
  ghost predicate CStackTo(nodes: seq<NodeInfo<CascadeNode>>, m: nat, start: nat, s: seq<Point>, lo: nat)
    requires m <= |nodes|
    decreases m
  {
    if m == 0 then start == 0
    else nodes[m - 1].to == start && CHolds(s, lo, nodes[m - 1]) && CStackTo(nodes, m - 1, nodes[m - 1].from, s, lo)
  }

  ghost predicate CStack(nodes: seq<NodeInfo<CascadeNode>>, start: nat, s: seq<Point>, lo: nat) {
    CStackTo(nodes, |nodes|, start, s, lo)
  }

  /** The first `m` entries only depend on the list below `lo + start`. */
  lemma {:induction false} StackKept(nodes: seq<NodeInfo<Node>>, m: nat, start: nat, s: seq<Point>, t: seq<Point>,
                                     lo: nat, dim: nat)
    requires m <= |nodes| && StackTo(nodes, m, start, s, lo, dim) && |s| == |t|
    requires forall x :: 0 <= x < lo + start && x < |s| ==> s[x] == t[x]
    ensures StackTo(nodes, m, start, t, lo, dim)
    decreases m
  {
    if 0 < m {
      var top := nodes[m - 1];
      CollectsSame(Elems(top.node), s, t, lo + top.from, lo + top.to);
      StackKept(nodes, m - 1, top.from, s, t, lo, dim);
    }
  }

  lemma {:induction false} CStackKept(nodes: seq<NodeInfo<CascadeNode>>, m: nat, start: nat, s: seq<Point>,
                                      t: seq<Point>, lo: nat)
    requires m <= |nodes| && CStackTo(nodes, m, start, s, lo) && |s| == |t|
    requires forall x :: 0 <= x < lo + start && x < |s| ==> s[x] == t[x]
    ensures CStackTo(nodes, m, start, t, lo)
    decreases m
  {
    if 0 < m {
      var top := nodes[m - 1];
      CollectsSame(top.node.points, s, t, lo + top.from, lo + top.to);
      CStackKept(nodes, m - 1, top.from, s, t, lo);
    }
  }

  /** The first `m` entries of two stacks that agree on them tile alike. */
  lemma {:induction false} StackSame(nodes: seq<NodeInfo<Node>>, other: seq<NodeInfo<Node>>, m: nat, start: nat,
                                     s: seq<Point>, lo: nat, dim: nat)
    requires m <= |nodes| && m <= |other| && forall k :: 0 <= k < m ==> nodes[k] == other[k]
    ensures StackTo(nodes, m, start, s, lo, dim) == StackTo(other, m, start, s, lo, dim)
    decreases m
  {
    if 0 < m {
      StackSame(nodes, other, m - 1, nodes[m - 1].from, s, lo, dim);
    }
  }

  lemma {:induction false} CStackSame(nodes: seq<NodeInfo<CascadeNode>>, other: seq<NodeInfo<CascadeNode>>, m: nat,
                                      start: nat, s: seq<Point>, lo: nat)
    requires m <= |nodes| && m <= |other| && forall k :: 0 <= k < m ==> nodes[k] == other[k]
    ensures CStackTo(nodes, m, start, s, lo) == CStackTo(other, m, start, s, lo)
    decreases m
  {
    if 0 < m {
      CStackSame(nodes, other, m - 1, nodes[m - 1].from, s, lo);
    }
  }

  /** Putting an entry that holds and starts at `start` above the first `m` entries, which
      tile `[0, start)`. */
  lemma Push(nodes: seq<NodeInfo<Node>>, m: nat, start: nat, info: NodeInfo<Node>, pushed: seq<NodeInfo<Node>>,
             s: seq<Point>, lo: nat, dim: nat)
    requires m <= |nodes| && StackTo(nodes, m, start, s, lo, dim) && info.from == start && Holds(s, lo, info, dim)
    requires |pushed| == m + 1 && pushed[m] == info && forall k :: 0 <= k < m ==> pushed[k] == nodes[k]
    ensures Stack(pushed, info.to, s, lo, dim)
  {
    StackSame(nodes, pushed, m, start, s, lo, dim);
  }

  lemma CPush(nodes: seq<NodeInfo<CascadeNode>>, m: nat, start: nat, info: NodeInfo<CascadeNode>,
              pushed: seq<NodeInfo<CascadeNode>>, s: seq<Point>, lo: nat)
    requires m <= |nodes| && CStackTo(nodes, m, start, s, lo) && info.from == start && CHolds(s, lo, info)
    requires |pushed| == m + 1 && pushed[m] == info && forall k :: 0 <= k < m ==> pushed[k] == nodes[k]
    ensures CStack(pushed, info.to, s, lo)
  {
    CStackSame(nodes, pushed, m, start, s, lo);
  }

  /** A sequence holding the points of `s[x..y]` inherits the range's width and a coordinate
      value the whole range shares. */
  lemma FromRange(t: seq<Point>, s: seq<Point>, x: nat, y: nat, n: nat, k: nat, coord: int)
    requires x <= y <= |s| && Collects(t, s, x, y) && k < n
    requires WideIn(s, x, y, n) && forall i :: x <= i < y ==> s[i][k] == coord
    ensures Wide(t, n) && forall i :: 0 <= i < |t| ==> t[i][k] == coord
  {
    forall i | 0 <= i < |t| ensures n <= |t[i]| && t[i][k] == coord {
      var j := CollectsSource(t, s, x, y, i);
    }
  }

  /** A sequence holding the points of two wide sequences is wide. */
  lemma WideUnion(t: seq<Point>, l: seq<Point>, r: seq<Point>, n: nat)
    requires multiset(t) == multiset(l) + multiset(r) && Wide(l, n) && Wide(r, n)
    ensures Wide(t, n)
  {
    forall i | 0 <= i < |t| ensures n <= |t[i]| {
      assert t[i] in multiset(l) + multiset(r);
      if t[i] in multiset(l) {
        var j :| 0 <= j < |l| && l[j] == t[i];
      } else {
        var j :| 0 <= j < |r| && r[j] == t[i];
      }
    }
  }

  /** Widths survive a rearrangement of `[lo, p)` inside `[lo, hi)`. */
  lemma WideKept(s: seq<Point>, t: seq<Point>, lo: nat, p: nat, hi: nat, n: nat)
    requires PermutedWithin(s, t, lo, p) && p <= hi && WideIn(s, lo, hi, n)
    ensures WideIn(t, lo, hi, n)
  {
    PermutedWide(s, t, lo, p, n);
  }

  /** A rearrangement of `[lo, y)` following one of `[lo, x)`, `x <= y`, is one of `[lo, y)`. */
  lemma PermutedGrow(orig: seq<Point>, s: seq<Point>, t: seq<Point>, lo: nat, x: nat, y: nat)
    requires x <= y && PermutedWithin(orig, s, lo, x) && PermutedWithin(s, t, lo, y)
    ensures PermutedWithin(orig, t, lo, y)
  {
    PermutedWiden(orig, s, lo, lo, x, y);
    PermutedTrans(orig, s, t, lo, y);
  }

  /** A rearrangement of `[y, hi)` following one of `[x, hi)`, `y <= x`, is one of `[y, hi)`. */
  lemma PermutedGrowDown(orig: seq<Point>, s: seq<Point>, t: seq<Point>, x: nat, y: nat, hi: nat)
    requires y <= x && PermutedWithin(orig, s, x, hi) && PermutedWithin(s, t, y, hi)
    ensures PermutedWithin(orig, t, y, hi)
  {
    PermutedWiden(orig, s, y, x, hi, hi);
    PermutedTrans(orig, s, t, y, hi);
  }

  /** `buildNode(points, dimension)` on the sub-list `a[lo..hi]`: a node valid at `dim` that
      holds exactly the sub-list's points; the sub-list itself is left rearranged. */
  method BuildNode(a: array<Point>, lo: nat, hi: nat, dim: nat) returns (n: Node)
    requires 1 <= dim && lo < hi <= a.Length && WideIn(a[..], lo, hi, dim + 1)
    modifies a
    ensures Valid(n, dim) && Collects(Elems(n), old(a[..]), lo, hi)
    ensures PermutedWithin(old(a[..]), a[..], lo, hi)
    decreases dim, 6
  {
    if dim > 1 {
      n := BuildPrimary(a, lo, hi, dim);
    } else {
      var c := BuildCascade(a, lo, hi);
      n := Cascade(c);
    }
  }

  /** The `dimension > 1` branch of `buildNode` (lines 33-66): a `Leaf` per run of equal
      coordinate `dim`, pushed on the stack and carried into `Joint`s, then the stack folded
      into one node. */
  method BuildPrimary(a: array<Point>, lo: nat, hi: nat, dim: nat) returns (n: Node)
    requires 2 <= dim && lo < hi <= a.Length && WideIn(a[..], lo, hi, dim + 1)
    modifies a
    ensures Valid(n, dim) && Collects(Elems(n), old(a[..]), lo, hi)
    ensures PermutedWithin(old(a[..]), a[..], lo, hi)
    decreases dim, 5
  {
    var size := hi - lo;
    var nodes: seq<NodeInfo<Node>> := [];
    var start := 0;
    var coord := a[lo + start][dim];
    PermutedRefl(a[..], lo, lo);
    var i := 1;
    while i <= size
      invariant start < i <= size + 1 && (i == size + 1 ==> start == size)
      invariant PermutedWithin(old(a[..]), a[..], lo, lo + start)
      invariant WideIn(a[..], lo, hi, dim + 1)
      invariant Stack(nodes, start, a[..], lo, dim)
      invariant forall x :: lo + start <= x < lo + i && x < hi ==> a[x][dim] == coord
    {
      if i == size || a[lo + i][dim] != coord {
        ghost var before := a[..];
        nodes := CloseRun(a, lo, hi, nodes, start, i, coord, dim);
        PermutedGrow(old(a[..]), before, a[..], lo, lo + start, lo + i);
        start := i;
        if start < size {
          coord := a[lo + start][dim];
        }
      }
      i := i + 1;
    }
    ghost var last := a[..];
    nodes := Collapse(a, lo, hi, nodes, size, dim);
    PermutedTrans(old(a[..]), last, a[..], lo, hi);
    n := nodes[0].node;
    CollectsBack(Elems(n), old(a[..]), a[..], lo, hi);
  }

  /** The end of a run `[start, i)` of equal coordinate `dim` (lines 38-50): a `Leaf` over a
      node built on the run at `dim - 1` is pushed, then the stack is carried. */
  method CloseRun(a: array<Point>, lo: nat, hi: nat, nodes: seq<NodeInfo<Node>>, start: nat, i: nat, coord: int,
                  dim: nat) returns (result: seq<NodeInfo<Node>>)
    requires 2 <= dim && start < i && lo + i <= hi <= a.Length
    requires Stack(nodes, start, a[..], lo, dim) && WideIn(a[..], lo, hi, dim + 1)
    requires forall x :: lo + start <= x < lo + i ==> a[x][dim] == coord
    modifies a
    ensures Stack(result, i, a[..], lo, dim) && WideIn(a[..], lo, hi, dim + 1)
    ensures 0 < |result| && result[|result| - 1].from <= start
    ensures PermutedWithin(old(a[..]), a[..], lo + result[|result| - 1].from, lo + i)
    ensures PermutedWithin(old(a[..]), a[..], lo, lo + i)
    decreases dim, 4
  {
    result := PushRun(a, lo, hi, nodes, start, i, coord, dim);
    ghost var mid := a[..];
    result := Carry(a, lo, hi, result, i, dim);
    PermutedGrowDown(old(a[..]), mid, a[..], lo + start, lo + result[|result| - 1].from, lo + i);
    PermutedWiden(old(a[..]), a[..], lo, lo + result[|result| - 1].from, lo + i, lo + i);
  }

  /** Lines 38-40: the node over the run `[start, i)` at `dim - 1`, wrapped in a `Leaf` of
      height 0 and pushed; only the run is rearranged. */
  method PushRun(a: array<Point>, lo: nat, hi: nat, nodes: seq<NodeInfo<Node>>, start: nat, i: nat, coord: int,
                 dim: nat) returns (result: seq<NodeInfo<Node>>)
    requires 2 <= dim && start < i && lo + i <= hi <= a.Length
    requires Stack(nodes, start, a[..], lo, dim) && WideIn(a[..], lo, hi, dim + 1)
    requires forall x :: lo + start <= x < lo + i ==> a[x][dim] == coord
    modifies a
    ensures Stack(result, i, a[..], lo, dim) && WideIn(a[..], lo, hi, dim + 1)
    ensures |result| == |nodes| + 1 && result[..|nodes|] == nodes
    ensures result[|nodes|].node.Leaf? && result[|nodes|].node.coord == coord
    ensures result[|nodes|].height == 0 && result[|nodes|].from == start
    ensures PermutedWithin(old(a[..]), a[..], lo + start, lo + i)
    decreases dim, 3
  {
    var inner := BuildNode(a, lo + start, lo + i, dim - 1);
    PushLeaf(old(a[..]), a[..], lo, hi, nodes, start, i, coord, inner, dim);
    var leaf := NodeInfo(Leaf(inner, dim, coord), 0, start, i);
    result := nodes + [leaf];
    assert result[|nodes|] == leaf;
  }

  /** After the inner node of a run `[start, i)` is built, the new `Leaf` entry is pushed on
      a stack that still holds, and the list is rearranged only inside `[lo, lo + i)`. */
  lemma PushLeaf(before: seq<Point>, after: seq<Point>, lo: nat, hi: nat,
                 nodes: seq<NodeInfo<Node>>, start: nat, i: nat, coord: int, inner: Node, dim: nat)
    requires 2 <= dim && start < i && lo + i <= hi <= |before|
    requires PermutedWithin(before, after, lo + start, lo + i)
    requires WideIn(before, lo, hi, dim + 1)
    requires forall x :: lo + start <= x < lo + i ==> before[x][dim] == coord
    requires Valid(inner, dim - 1) && Collects(Elems(inner), before, lo + start, lo + i)
    requires Stack(nodes, start, before, lo, dim)
    ensures WideIn(after, lo, hi, dim + 1)
    ensures Stack(nodes + [NodeInfo(Leaf(inner, dim, coord), 0, start, i)], i, after, lo, dim)
    ensures PermutedWithin(before, after, lo, lo + i)
  {
    var leaf := NodeInfo(Leaf(inner, dim, coord), 0, start, i);
    PermInside(before, after, lo, lo + start, lo + i, hi, dim + 1);
    LeafHolds(before, after, lo, hi, start, i, coord, inner, dim);
    StackKept(nodes, |nodes|, start, before, after, lo, dim);
    Push(nodes, |nodes|, start, leaf, nodes + [leaf], after, lo, dim);
  }

  /** The `Leaf` of a run whose points share coordinate `dim` holds the run, also after the
      run is rearranged. */
  lemma LeafHolds(before: seq<Point>, after: seq<Point>, lo: nat, hi: nat, start: nat, i: nat, coord: int,
                  inner: Node, dim: nat)
    requires 2 <= dim && start < i && lo + i <= hi <= |before|
    requires PermutedWithin(before, after, lo + start, lo + i)
    requires WideIn(before, lo, hi, dim + 1)
    requires forall x :: lo + start <= x < lo + i ==> before[x][dim] == coord
    requires Valid(inner, dim - 1) && Collects(Elems(inner), before, lo + start, lo + i)
    ensures Holds(after, lo, NodeInfo(Leaf(inner, dim, coord), 0, start, i), dim)
  {
    FromRange(Elems(inner), before, lo + start, lo + i, dim + 1, dim, coord);
    CollectsMoved(Elems(inner), before, after, lo + start, lo + i);
  }

  /** The carry of lines 42-49: while the two top entries have equal height, join them. */
  method Carry(a: array<Point>, lo: nat, hi: nat, nodes: seq<NodeInfo<Node>>, start: nat, dim: nat)
    returns (result: seq<NodeInfo<Node>>)
    requires 2 <= dim && lo + start <= hi <= a.Length
    requires Stack(nodes, start, a[..], lo, dim) && WideIn(a[..], lo, hi, dim + 1)
    modifies a
    ensures Stack(result, start, a[..], lo, dim) && WideIn(a[..], lo, hi, dim + 1)
    ensures |result| <= |nodes| && (|result| < 2 || result[|result| - 2].height != result[|result| - 1].height)
    ensures 0 < |nodes| ==> 0 < |result| && result[|result| - 1].from <= nodes[|nodes| - 1].from
    ensures 0 < |nodes| ==> PermutedWithin(old(a[..]), a[..], lo + result[|result| - 1].from, lo + start)
    ensures PermutedWithin(old(a[..]), a[..], lo, lo + start)
    decreases dim, 2
  {
    result := nodes;
    if |nodes| == 0 {
      PermutedRefl(a[..], lo, lo + start);
      return;
    }
    TopOne(nodes, start, a[..], lo, dim);
    PermutedRefl(a[..], lo + nodes[|nodes| - 1].from, lo + start);
    while 1 < |result| && result[|result| - 2].height == result[|result| - 1].height
      invariant 0 < |result| <= |nodes|
      invariant Stack(result, start, a[..], lo, dim) && WideIn(a[..], lo, hi, dim + 1)
      invariant result[|result| - 1].from <= nodes[|nodes| - 1].from
      invariant PermutedWithin(old(a[..]), a[..], lo + result[|result| - 1].from, lo + start)
      decreases |result|
    {
      result := CarryStep(a, lo, hi, result, start, dim, old(a[..]));
    }
    PermutedWiden(old(a[..]), a[..], lo, lo + result[|result| - 1].from, lo + start, lo + start);
  }

  /** One join of the carry, which extends the rearranged suffix `[lo + from, lo + start)` of
      the list down to the joint entry's `from`. */
  method CarryStep(a: array<Point>, lo: nat, hi: nat, nodes: seq<NodeInfo<Node>>, start: nat, dim: nat,
                   ghost orig: seq<Point>) returns (result: seq<NodeInfo<Node>>)
    requires 2 <= dim && 2 <= |nodes| && lo + start <= hi <= a.Length
    requires Stack(nodes, start, a[..], lo, dim) && WideIn(a[..], lo, hi, dim + 1)
    requires PermutedWithin(orig, a[..], lo + nodes[|nodes| - 1].from, lo + start)
    modifies a
    ensures 0 < |result| == |nodes| - 1 && Stack(result, start, a[..], lo, dim) && WideIn(a[..], lo, hi, dim + 1)
    ensures result[|result| - 1].from < nodes[|nodes| - 1].from
    ensures PermutedWithin(orig, a[..], lo + result[|result| - 1].from, lo + start)
    decreases dim, 1
  {
    ghost var before := a[..];
    result := JoinTop(a, lo, hi, nodes, start, dim);
    PermutedGrowDown(orig, before, a[..], lo + nodes[|nodes| - 1].from, lo + result[|result| - 1].from, lo + start);
  }

  /** The top entry of a non-empty primary stack holds and ends at `start`. */
  lemma TopOne(nodes: seq<NodeInfo<Node>>, start: nat, s: seq<Point>, lo: nat, dim: nat)
    requires 0 < |nodes| && Stack(nodes, start, s, lo, dim)
    ensures Holds(s, lo, nodes[|nodes| - 1], dim) && nodes[|nodes| - 1].to == start
  {
  }

  /** The fold of lines 57-64: join the two top entries until one is left. */
  method Collapse(a: array<Point>, lo: nat, hi: nat, nodes: seq<NodeInfo<Node>>, start: nat, dim: nat)
    returns (result: seq<NodeInfo<Node>>)
    requires 2 <= dim && 0 < |nodes| && lo + start <= hi <= a.Length
    requires Stack(nodes, start, a[..], lo, dim) && WideIn(a[..], lo, hi, dim + 1)
    modifies a
    ensures |result| == 1 && Stack(result, start, a[..], lo, dim)
    ensures PermutedWithin(old(a[..]), a[..], lo, lo + start)
    decreases dim, 1
  {
    result := nodes;
    PermutedRefl(a[..], lo, lo + start);
    while 1 < |result|
      invariant 0 < |result|
      invariant Stack(result, start, a[..], lo, dim) && WideIn(a[..], lo, hi, dim + 1)
      invariant PermutedWithin(old(a[..]), a[..], lo, lo + start)
      decreases |result|
    {
      ghost var before := a[..];
      result := JoinTop(a, lo, hi, result, start, dim);
      PermutedWiden(before, a[..], lo, lo + result[|result| - 1].from, lo + start, lo + start);
      PermutedTrans(old(a[..]), before, a[..], lo, lo + start);
    }
  }

  /** The `Joint` constructor (lines 191-199): its range on `dim` spans both children's. */
  function NewJoint(inner: Node, dim: nat, left: Node, right: Node): (j: Node)
    ensures j.Joint? && j.inner == inner && j.dimension == dim && j.left == left && j.right == right
    ensures j.min <= GetMin(left) && j.min <= GetMin(right) && (j.min == GetMin(left) || j.min == GetMin(right))
    ensures j.max >= GetMax(left) && j.max >= GetMax(right) && (j.max == GetMax(left) || j.max == GetMax(right))
  {
    Joint(inner, dim, MinOf(GetMin(left), GetMin(right)), MaxOf(GetMax(left), GetMax(right)), left, right)
  }

  /** One join (lines 43-48, 58-63): the two top entries are removed, their joint range is
      sorted by coordinate `dim - 1`, an inner node is built on it, and the `Joint` of the two
      is pushed with the upper entry's height plus one. */
  method JoinTop(a: array<Point>, lo: nat, hi: nat, nodes: seq<NodeInfo<Node>>, start: nat, dim: nat)
    returns (result: seq<NodeInfo<Node>>)
    requires 2 <= dim && 2 <= |nodes| && lo + start <= hi <= a.Length
    requires Stack(nodes, start, a[..], lo, dim) && WideIn(a[..], lo, hi, dim + 1)
    modifies a
    ensures |result| == |nodes| - 1 && Stack(result, start, a[..], lo, dim) && WideIn(a[..], lo, hi, dim + 1)
    ensures forall k :: 0 <= k < |result| - 1 ==> result[k] == nodes[k]
    ensures result[|result| - 1].height == nodes[|nodes| - 1].height + 1
    ensures result[|result| - 1].from == nodes[|nodes| - 2].from < nodes[|nodes| - 1].from
    ensures result[|result| - 1].node.Joint? && result[|result| - 1].node.dimension == dim
    ensures result[|result| - 1].node.left == nodes[|nodes| - 2].node
    ensures result[|result| - 1].node.right == nodes[|nodes| - 1].node
    ensures PermutedWithin(old(a[..]), a[..], lo + nodes[|nodes| - 2].from, lo + start)
    decreases dim, 0
  {
    var last := nodes[|nodes| - 1];
    var preLast := nodes[|nodes| - 2];
    ghost var s0 := a[..];
    JoinRange(s0, lo, hi, nodes, start, dim);
    var inner := SortAndBuild(a, lo + preLast.from, lo + last.to, dim - 1);
    var joint := NewJoint(inner, dim, preLast.node, last.node);
    PermInside(s0, a[..], lo, lo + preLast.from, lo + start, hi, dim + 1);
    PushJoint(s0, a[..], lo, hi, nodes, start, inner, dim);
    var top := NodeInfo(joint, last.height + 1, preLast.from, last.to);
    result := nodes[..|nodes| - 2] + [top];
    assert result[|result| - 1] == top;
  }

  /** Lines 46-47: the sub-list `a[lo..hi]` is sorted by coordinate `dim` and a node is built
      on it at `dim`. */
  method SortAndBuild(a: array<Point>, lo: nat, hi: nat, dim: nat) returns (n: Node)
    requires 1 <= dim && lo < hi <= a.Length && FitsIn(a[..], lo, hi, ByCoord(dim)) && WideIn(a[..], lo, hi, dim + 1)
    modifies a
    ensures Valid(n, dim) && Collects(Elems(n), old(a[..]), lo, hi)
    ensures PermutedWithin(old(a[..]), a[..], lo, hi)
    decreases dim, 7
  {
    SortRange(a, lo, hi, ByCoord(dim));
    ghost var sorted := a[..];
    PermutedWide(old(a[..]), sorted, lo, hi, dim + 1);
    n := BuildNode(a, lo, hi, dim);
    PermutedTrans(old(a[..]), sorted, a[..], lo, hi);
    CollectsBack(Elems(n), old(a[..]), sorted, lo, hi);
  }

  /** The joint range of the two top entries ends at `start`, lies in `[lo, hi)` and is wide
      enough to sort by coordinate `dim - 1` and to build on at `dim - 1`. */
  lemma JoinRange(s: seq<Point>, lo: nat, hi: nat, nodes: seq<NodeInfo<Node>>, start: nat, dim: nat)
    requires 2 <= dim && 2 <= |nodes| && lo + start <= hi <= |s|
    requires Stack(nodes, start, s, lo, dim) && WideIn(s, lo, hi, dim + 1)
    ensures nodes[|nodes| - 2].from < nodes[|nodes| - 2].to == nodes[|nodes| - 1].from
    ensures nodes[|nodes| - 2].from < nodes[|nodes| - 1].to == start
    ensures FitsIn(s, lo + nodes[|nodes| - 2].from, lo + start, ByCoord(dim - 1))
    ensures WideIn(s, lo + nodes[|nodes| - 2].from, lo + start, dim)
  {
    var n := |nodes|;
    assert StackTo(nodes, n - 1, nodes[n - 1].from, s, lo, dim);
  }

  /** After the join, the stack with the new `Joint` entry on top holds over the rearranged
      list. */
  lemma PushJoint(before: seq<Point>, after: seq<Point>, lo: nat, hi: nat, nodes: seq<NodeInfo<Node>>,
                  start: nat, inner: Node, dim: nat)
    requires 2 <= dim && 2 <= |nodes| && lo + start <= hi <= |before|
    requires Stack(nodes, start, before, lo, dim) && WideIn(before, lo, hi, dim + 1)
    requires nodes[|nodes| - 2].from < start
    requires PermutedWithin(before, after, lo + nodes[|nodes| - 2].from, lo + start)
    requires Valid(inner, dim - 1)
    requires Collects(Elems(inner), before, lo + nodes[|nodes| - 2].from, lo + start)
    ensures Stack(nodes[..|nodes| - 2] + [NodeInfo(NewJoint(inner, dim, nodes[|nodes| - 2].node, nodes[|nodes| - 1].node),
                                                    nodes[|nodes| - 1].height + 1, nodes[|nodes| - 2].from, start)],
                  start, after, lo, dim)
  {
    var n := |nodes|;
    var last, preLast := nodes[n - 1], nodes[n - 2];
    TopTwo(nodes, start, before, lo, dim);
    JoinedHolds(before, after, lo, preLast, last, inner, dim, last.height + 1);
    PushOnRest(nodes, NodeInfo(NewJoint(inner, dim, preLast.node, last.node), last.height + 1, preLast.from, last.to),
               before, after, lo, dim);
  }

  /** The two top entries of a primary stack hold and are adjacent, and the rest tiles the
      range below them. */
  lemma TopTwo(nodes: seq<NodeInfo<Node>>, start: nat, s: seq<Point>, lo: nat, dim: nat)
    requires 2 <= |nodes| && Stack(nodes, start, s, lo, dim)
    ensures Holds(s, lo, nodes[|nodes| - 1], dim) && Holds(s, lo, nodes[|nodes| - 2], dim)
    ensures nodes[|nodes| - 2].to == nodes[|nodes| - 1].from && nodes[|nodes| - 1].to == start
    ensures StackTo(nodes, |nodes| - 2, nodes[|nodes| - 2].from, s, lo, dim)
  {
    assert StackTo(nodes, |nodes| - 1, nodes[|nodes| - 1].from, s, lo, dim);
  }

  /** Replacing the two top entries by one that holds their joint range, over a list that
      only changed from that range on. */
  lemma PushOnRest(nodes: seq<NodeInfo<Node>>, joined: NodeInfo<Node>, s: seq<Point>, t: seq<Point>, lo: nat, dim: nat)
    requires 2 <= |nodes| && StackTo(nodes, |nodes| - 2, nodes[|nodes| - 2].from, s, lo, dim)
    requires |s| == |t| && forall x :: 0 <= x < lo + joined.from && x < |s| ==> s[x] == t[x]
    requires joined.from == nodes[|nodes| - 2].from && Holds(t, lo, joined, dim)
    ensures Stack(nodes[..|nodes| - 2] + [joined], joined.to, t, lo, dim)
  {
    var n := |nodes|;
    StackKept(nodes, n - 2, joined.from, s, t, lo, dim);
    Push(nodes, n - 2, joined.from, joined, nodes[..n - 2] + [joined], t, lo, dim);
  }

  /** A rearrangement of `[x, y)` inside `[lo, hi)` is one of `[lo, y)` and keeps the widths
      of `[lo, hi)`. */
  lemma PermInside(before: seq<Point>, after: seq<Point>, lo: nat, x: nat, y: nat, hi: nat, n: nat)
    requires lo <= x <= y <= hi <= |before| && PermutedWithin(before, after, x, y) && WideIn(before, lo, hi, n)
    ensures PermutedWithin(before, after, lo, y) && WideIn(after, lo, hi, n)
  {
    PermutedWiden(before, after, lo, x, y, y);
    WideKept(before, after, lo, y, hi, n);
  }

  /** The `Joint` of two adjacent entries, over an inner node holding both entries' points,
      holds their joint range, also after that range is rearranged. */
  lemma JoinedHolds(before: seq<Point>, after: seq<Point>, lo: nat, l: NodeInfo<Node>, r: NodeInfo<Node>,
                    inner: Node, dim: nat, height: nat)
    requires 2 <= dim && Holds(before, lo, l, dim) && Holds(before, lo, r, dim) && l.to == r.from
    requires PermutedWithin(before, after, lo + l.from, lo + r.to)
    requires Valid(inner, dim - 1) && Collects(Elems(inner), before, lo + l.from, lo + r.to)
    ensures Holds(after, lo, NodeInfo(NewJoint(inner, dim, l.node, r.node), height, l.from, r.to), dim)
  {
    JoinedValid(before, lo, l, r, inner, dim);
    CollectsMoved(Elems(inner), before, after, lo + l.from, lo + r.to);
  }

  /** The `Joint` of two adjacent entries, over an inner node holding both entries' points,
      is valid. */
  lemma JoinedValid(s: seq<Point>, lo: nat, l: NodeInfo<Node>, r: NodeInfo<Node>, inner: Node, dim: nat)
    requires 2 <= dim && Holds(s, lo, l, dim) && Holds(s, lo, r, dim) && l.to == r.from
    requires Valid(inner, dim - 1) && Collects(Elems(inner), s, lo + l.from, lo + r.to)
    ensures Valid(NewJoint(inner, dim, l.node, r.node), dim)
  {
    CollectsSplit(Elems(inner), Elems(l.node), Elems(r.node), s, lo + l.from, lo + l.to, lo + r.to);
    JointValid(inner, dim, l.node, r.node);
  }

  /** A `Joint` built from valid children and an inner node one dimension lower that holds
      exactly the children's points is valid. */
  lemma JointValid(inner: Node, dim: nat, left: Node, right: Node)
    requires 2 <= dim && Valid(inner, dim - 1) && Valid(left, dim) && Valid(right, dim)
    requires multiset(Elems(inner)) == multiset(Elems(left)) + multiset(Elems(right))
    ensures Valid(NewJoint(inner, dim, left, right), dim)
  {
    WideUnion(Elems(inner), Elems(left), Elems(right), dim + 1);
  }

  /** The `CascadeJoint` constructor (lines 285-293): the children's lists merged by
      coordinate 0, a bridge from the merged list into each child's, and the range on
      coordinate 1 spanning both children's. */
  method NewCascadeJoint(left: CascadeNode, right: CascadeNode) returns (c: CascadeNode)
    requires CValid(left) && CValid(right)
    ensures CValid(c) && c.CascadeJoint? && c.left == left && c.right == right
    ensures multiset(c.points) == multiset(left.points) + multiset(right.points)
  {
    var points := Merge(left.points, right.points, 0);
    MergedPerm(left.points, right.points, 0);
    MergedSorted(left.points, right.points, 0);
    WideUnion(points, left.points, right.points, 2);
    var leftRef := BuildRef(points, left.points);
    var rightRef := BuildRef(points, right.points);
    c := CascadeJoint(points, MinOf(CGetMin(left), CGetMin(right)), MaxOf(CGetMax(left), CGetMax(right)),
                      left, leftRef, right, rightRef);
  }

  /** The `dimension <= 1` branch of `buildNode` (lines 67-98): a `CascadeLeaf` per run of
      equal coordinate 1, holding a copy of the run sorted in place by coordinate 0, pushed on
      the stack and carried into `CascadeJoint`s, then the stack folded into one node. */
  method BuildCascade(a: array<Point>, lo: nat, hi: nat) returns (c: CascadeNode)
    requires lo < hi <= a.Length && WideIn(a[..], lo, hi, 2)
    modifies a
    ensures CValid(c) && Collects(c.points, old(a[..]), lo, hi)
    ensures PermutedWithin(old(a[..]), a[..], lo, hi)
  {
    var size := hi - lo;
    var nodes: seq<NodeInfo<CascadeNode>> := [];
    var start := 0;
    var coord := a[lo + start][1];
    PermutedRefl(a[..], lo, lo);
    var i := 1;
    while i <= size
      invariant start < i <= size + 1 && (i == size + 1 ==> start == size)
      invariant PermutedWithin(old(a[..]), a[..], lo, lo + start)
      invariant WideIn(a[..], lo, hi, 2)
      invariant CStack(nodes, start, a[..], lo)
      invariant forall x :: lo + start <= x < lo + i && x < hi ==> a[x][1] == coord
    {
      if i == size || a[lo + i][1] != coord {
        ghost var before := a[..];
        nodes := CloseCascadeRun(a, lo, hi, nodes, start, i, coord);
        PermutedGrow(old(a[..]), before, a[..], lo, lo + start, lo + i);
        start := i;
        if start < size {
          coord := a[lo + start][1];
        }
      }
      i := i + 1;
    }
    nodes := CascadeCollapse(nodes, a[..], lo, size);
    c := nodes[0].node;
    CollectsBack(c.points, old(a[..]), a[..], lo, hi);
  }

  /** The end of a run `[start, i)` of equal coordinate 1 (lines 73-84): the run is sorted by
      coordinate 0, a `CascadeLeaf` over a copy of it is pushed, then the stack is carried. */
  method CloseCascadeRun(a: array<Point>, lo: nat, hi: nat, nodes: seq<NodeInfo<CascadeNode>>, start: nat, i: nat,
                         coord: int) returns (result: seq<NodeInfo<CascadeNode>>)
    requires start < i && lo + i <= hi <= a.Length
    requires CStack(nodes, start, a[..], lo) && WideIn(a[..], lo, hi, 2)
    requires forall x :: lo + start <= x < lo + i ==> a[x][1] == coord
    modifies a
    ensures CStack(result, i, a[..], lo) && WideIn(a[..], lo, hi, 2)
    ensures PermutedWithin(old(a[..]), a[..], lo + start, lo + i)
    ensures PermutedWithin(old(a[..]), a[..], lo, lo + i)
    ensures SortedIn(a[..], lo + start, lo + i, ByCoord(0))
  {
    assert FitsIn(a[..], lo + start, lo + i, ByCoord(0));
    SortRange(a, lo + start, lo + i, ByCoord(0));
    var leaf := CascadeLeaf(a[lo + start..lo + i], coord);
    PushCascadeLeaf(old(a[..]), a[..], lo, hi, nodes, start, i, coord);
    result := nodes + [NodeInfo(leaf, 0, start, i)];
    result := CascadeCarry(result, a[..], lo, i);
  }

  /** After a run `[start, i)` is sorted by coordinate 0, its `CascadeLeaf` is pushed on a
      stack that still holds, and the list is rearranged only inside `[lo, lo + i)`. */
  lemma PushCascadeLeaf(before: seq<Point>, after: seq<Point>, lo: nat, hi: nat,
                        nodes: seq<NodeInfo<CascadeNode>>, start: nat, i: nat, coord: int)
    requires start < i && lo + i <= hi <= |before|
    requires PermutedWithin(before, after, lo + start, lo + i)
    requires SortedIn(after, lo + start, lo + i, ByCoord(0))
    requires WideIn(before, lo, hi, 2)
    requires forall x :: lo + start <= x < lo + i ==> before[x][1] == coord
    requires CStack(nodes, start, before, lo)
    ensures WideIn(after, lo, hi, 2)
    ensures CStack(nodes + [NodeInfo(CascadeLeaf(after[lo + start..lo + i], coord), 0, start, i)], i, after, lo)
    ensures PermutedWithin(before, after, lo, lo + i)
  {
    var leaf := NodeInfo(CascadeLeaf(after[lo + start..lo + i], coord), 0, start, i);
    PermInside(before, after, lo, lo + start, lo + i, hi, 2);
    PermutedCoord(before, after, lo + start, lo + i, 1, coord);
    CascadeLeafHolds(after, lo, start, i, coord);
    CStackKept(nodes, |nodes|, start, before, after, lo);
    CPush(nodes, |nodes|, start, leaf, nodes + [leaf], after, lo);
  }

  /** The `CascadeLeaf` holding a copy of a run that is sorted by coordinate 0 and whose
      points share coordinate 1 is valid and holds the run. */
  lemma CascadeLeafHolds(s: seq<Point>, lo: nat, start: nat, i: nat, coord: int)
    requires start < i && lo + i <= |s|
    requires SortedIn(s, lo + start, lo + i, ByCoord(0))
    requires forall x :: lo + start <= x < lo + i ==> 1 < |s[x]| && s[x][1] == coord
    ensures CHolds(s, lo, NodeInfo(CascadeLeaf(s[lo + start..lo + i], coord), 0, start, i))
  {
    SliceCoord(s, lo + start, lo + i, 1, coord);
    SortedInByCoord(s, lo + start, lo + i, 0);
    SliceCollects(s, lo + start, lo + i);
  }

  /** A slice of a range whose points all have coordinate `k` equal to `coord`. */
  lemma SliceCoord(s: seq<Point>, x: nat, y: nat, k: nat, coord: int)
    requires x <= y <= |s| && forall i :: x <= i < y ==> k < |s[i]| && s[i][k] == coord
    ensures Wide(s[x..y], k + 1) && forall i :: 0 <= i < y - x ==> s[x..y][i][k] == coord
  {
  }

  /** The carry of lines 78-83: while the two top entries have equal height, join them. */
  method CascadeCarry(nodes: seq<NodeInfo<CascadeNode>>, ghost s: seq<Point>, lo: nat, start: nat)
    returns (result: seq<NodeInfo<CascadeNode>>)
    requires CStack(nodes, start, s, lo)
    ensures CStack(result, start, s, lo)
    ensures |result| <= |nodes| && (|result| < 2 || result[|result| - 2].height != result[|result| - 1].height)
  {
    result := nodes;
    while 1 < |result| && result[|result| - 2].height == result[|result| - 1].height
      invariant |result| <= |nodes| && CStack(result, start, s, lo)
      decreases |result|
    {
      result := CascadeJoinTop(result, s, lo, start);
    }
  }

  /** The fold of lines 91-96: join the two top entries until one is left. */
  method CascadeCollapse(nodes: seq<NodeInfo<CascadeNode>>, ghost s: seq<Point>, lo: nat, start: nat)
    returns (result: seq<NodeInfo<CascadeNode>>)
    requires 0 < |nodes| && CStack(nodes, start, s, lo)
    ensures |result| == 1 && CStack(result, start, s, lo)
  {
    result := nodes;
    while 1 < |result|
      invariant 0 < |result| && CStack(result, start, s, lo)
      decreases |result|
    {
      result := CascadeJoinTop(result, s, lo, start);
    }
  }

  /** One cascade join (lines 79-82, 92-95): the two top entries are replaced by their
      `CascadeJoint`, with the upper entry's height plus one. */
  method CascadeJoinTop(nodes: seq<NodeInfo<CascadeNode>>, ghost s: seq<Point>, lo: nat, start: nat)
    returns (result: seq<NodeInfo<CascadeNode>>)
    requires 2 <= |nodes| && CStack(nodes, start, s, lo)
    ensures |result| == |nodes| - 1 && CStack(result, start, s, lo)
    ensures forall k :: 0 <= k < |result| - 1 ==> result[k] == nodes[k]
    ensures result[|result| - 1].height == nodes[|nodes| - 1].height + 1
    ensures result[|result| - 1].node.CascadeJoint?
    ensures result[|result| - 1].node.left == nodes[|nodes| - 2].node
    ensures result[|result| - 1].node.right == nodes[|nodes| - 1].node
  {
    var last := nodes[|nodes| - 1];
    var preLast := nodes[|nodes| - 2];
    CascadeJoinRange(nodes, start, s, lo);
    var joint := NewCascadeJoint(preLast.node, last.node);
    var info := NodeInfo(joint, last.height + 1, preLast.from, last.to);
    CollectsJoin(joint.points, preLast.node.points, last.node.points, s, lo + preLast.from, lo + preLast.to,
                 lo + last.to);
    result := nodes[..|nodes| - 2] + [info];
    CPush(nodes, |nodes| - 2, preLast.from, info, result, s, lo);
  }

  /** The two top entries of a cascade stack hold and are adjacent, and the rest tiles the
      range below them. */
  lemma CascadeJoinRange(nodes: seq<NodeInfo<CascadeNode>>, start: nat, s: seq<Point>, lo: nat)
    requires 2 <= |nodes| && CStack(nodes, start, s, lo)
    ensures CHolds(s, lo, nodes[|nodes| - 1]) && CHolds(s, lo, nodes[|nodes| - 2])
    ensures nodes[|nodes| - 2].to == nodes[|nodes| - 1].from && nodes[|nodes| - 1].to == start
    ensures CStackTo(nodes, |nodes| - 2, nodes[|nodes| - 2].from, s, lo)
  {
    assert CStackTo(nodes, |nodes| - 1, nodes[|nodes| - 1].from, s, lo);
  }

  /** The errors the constructor raises. */
  datatype Error = IllegalArgument | IndexOutOfBounds

  datatype Result<T> = Success(value: T) | Failure(error: Error)

  /** A `RangeTree` is its root node. */
  datatype RangeTree = RangeTree(root: Node)

  /** `t` is a tree over `points` in `dims` dimensions: its root is valid at `dims - 1` and
      holds exactly the points, which all have the coordinates `0 .. dims-1`. */
  ghost predicate Represents(t: RangeTree, points: seq<Point>, dims: nat) {
    2 <= dims && Wide(points, dims) && Valid(t.root, dims - 1) &&
    multiset(Elems(t.root)) == multiset(points)
  }

  /** The constructor (lines 25-30): `dimensions < 2` is rejected; the points are sorted by
      `POINT_COMPARATOR` and `buildNode` runs on the sorted list at `dimensions - 1`, which
      fails on an empty list and on a point without coordinate `dimensions - 1`. */
  method NewRangeTree(points: seq<Point>, dimensions: int) returns (r: Result<RangeTree>)
    ensures dimensions < 2 <==> r == Failure(IllegalArgument)
    ensures (2 <= dimensions && (|points| == 0 || !Wide(points, dimensions))) <==> r == Failure(IndexOutOfBounds)
    ensures r.Success? ==> Represents(r.value, points, dimensions)
  {
    if dimensions < 2 {
      return Failure(IllegalArgument);
    }
    if |points| == 0 || exists i | 0 <= i < |points| :: |points[i]| < dimensions {
      return Failure(IndexOutOfBounds);
    }
    var a := new Point[|points|](i requires 0 <= i < |points| => points[i]);
    assert a[..] == points;
    SortRange(a, 0, a.Length, ByPoint);
    ghost var sorted := a[..];
    assert WideIn(points, 0, a.Length, dimensions);
    PermutedWide(points, sorted, 0, a.Length, dimensions);
    var root := BuildNode(a, 0, a.Length, dimensions - 1);
    CollectsBack(Elems(root), points, sorted, 0, a.Length);
    CollectsAll(Elems(root), points);
    r := Success(RangeTree(root));
  }

  /** `RangeTree.query`: the root's query. */
  function TreeQuery(t: RangeTree, from: Point, to: Point): seq<Point>
    requires Valid(t.root, Dimension(t.root)) && Dimension(t.root) < |from| && Dimension(t.root) < |to|
  {
    Query(t.root, from, to)
  }

  /** A query on a tree built over `points` returns exactly the points the brute-force
      filter keeps, each occurrence once. */
  lemma TreeQueryCorrect(t: RangeTree, points: seq<Point>, dims: nat, from: Point, to: Point)
    requires Represents(t, points, dims) && dims <= |from| && dims <= |to|
    ensures Dimension(t.root) == dims - 1
    ensures multiset(TreeQuery(t, from, to)) == multiset(Naive(points, from, to, dims))
  {
    var k := dims - 1;
    QueryCorrect(t.root, k, from, to);
    ValidFacts(t.root, k);
    assert Naive(Elems(t.root), from, to, k + 1) == Naive(Elems(t.root), from, to, dims);
    NaivePerm(Elems(t.root), points, from, to, dims);
  }
}
