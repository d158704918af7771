/** The nodes of the range tree, the invariant the build gives them, and their queries.
    A primary node (`Leaf` or `Joint`) of dimension `k` splits its points by coordinate `k`
    and keeps an `inner` structure over the same points one dimension lower; the bottom two
    dimensions are a `CascadeNode` tree over coordinate 1 whose point lists are ascending by
    coordinate 0 and linked by bridge arrays. */
module Nodes {
  import opened Points
  import opened Lists

  /** `CascadeLeaf` / `CascadeJoint`: `points` is the node's list ordered by coordinate 0. */
  datatype CascadeNode =
    | CascadeLeaf(points: seq<Point>, coord: int)
    | CascadeJoint(points: seq<Point>, min: int, max: int,
                   left: CascadeNode, leftRef: seq<int>,
                   right: CascadeNode, rightRef: seq<int>)

  /** `Leaf` / `Joint` at dimension 2 and above; `Cascade` is a cascade tree used where the
      source stores a `CascadeNode` as a `Node`. */
  datatype Node =
    | Leaf(inner: Node, dimension: nat, coord: int)
    | Joint(inner: Node, dimension: nat, min: int, max: int, left: Node, right: Node)
    | Cascade(cascade: CascadeNode)

  /** `Math.min` and `Math.max` on coordinates. */
  function MinOf(x: int, y: int): int { if x <= y then x else y }
  function MaxOf(x: int, y: int): int { if x <= y then y else x }

  /** The minimum is at most both arguments and one of them; dually for the maximum. */
  lemma MinMaxOf(x: int, y: int)
    ensures MinOf(x, y) <= x && MinOf(x, y) <= y && (MinOf(x, y) == x || MinOf(x, y) == y)
    ensures x <= MaxOf(x, y) && y <= MaxOf(x, y) && (MaxOf(x, y) == x || MaxOf(x, y) == y)
  {
  }

  /** `getMin` / `getMax` of a cascade node: its range on coordinate 1. */
  function CGetMin(c: CascadeNode): int {
    match c
    case CascadeLeaf(_, coord) => coord
    case CascadeJoint(_, mn, _, _, _, _, _) => mn
  }

  function CGetMax(c: CascadeNode): int {
    match c
    case CascadeLeaf(_, coord) => coord
    case CascadeJoint(_, _, mx, _, _, _, _) => mx
  }

  /** `getMin` / `getMax` of a node: its range on its own dimension. */
  function GetMin(n: Node): int {
    match n
    case Leaf(_, _, coord) => coord
    case Joint(_, _, mn, _, _, _) => mn
    case Cascade(c) => CGetMin(c)
  }

  function GetMax(n: Node): int {
    match n
    case Leaf(_, _, coord) => coord
    case Joint(_, _, _, mx, _, _) => mx
    case Cascade(c) => CGetMax(c)
  }

  /** The dimension a node splits on; a cascade tree splits on coordinate 1. */
  function Dimension(n: Node): nat {
    match n
    case Leaf(_, d, _) => d
    case Joint(_, d, _, _, _, _) => d
    case Cascade(_) => 1
  }

  /** The points stored under a node, as held by its lowest level. */
  function Elems(n: Node): seq<Point> {
    match n
    case Leaf(inner, _, _) => Elems(inner)
    case Joint(inner, _, _, _, _, _) => Elems(inner)
    case Cascade(c) => c.points
  }

  /** The invariant of a built cascade node: its list is ascending by coordinate 0; a leaf's
      points share coordinate 1; a joint holds exactly its children's points, takes its range
      from theirs and bridges its list to each child's. */
  ghost predicate CValid(c: CascadeNode) {
    Wide(c.points, 2) && SortedBy(c.points, 0) &&
    match c
    case CascadeLeaf(pts, coord) => forall i :: 0 <= i < |pts| ==> pts[i][1] == coord
    case CascadeJoint(pts, mn, mx, l, lr, r, rr) =>
      CValid(l) && CValid(r) &&
      multiset(pts) == multiset(l.points) + multiset(r.points) &&
      mn == MinOf(CGetMin(l), CGetMin(r)) && mx == MaxOf(CGetMax(l), CGetMax(r)) &&
      IsBridge(lr, pts, l.points) && IsBridge(rr, pts, r.points)
  }

  /** The invariant of a built node of dimension `k`: a leaf's points share coordinate `k`; a
      joint's inner structure holds exactly its children's points and its range is theirs;
      every inner structure is a node of dimension `k - 1`, down to a cascade tree at 1. */
  ghost predicate Valid(n: Node, k: nat) {
    Wide(Elems(n), k + 1) &&
    match n
    case Leaf(inner, d, coord) =>
      d == k && 2 <= k && Valid(inner, k - 1) &&
      forall i :: 0 <= i < |Elems(inner)| ==> Elems(inner)[i][k] == coord
    case Joint(inner, d, mn, mx, l, r) =>
      d == k && 2 <= k && Valid(inner, k - 1) && Valid(l, k) && Valid(r, k) &&
      multiset(Elems(inner)) == multiset(Elems(l)) + multiset(Elems(r)) &&
      mn == MinOf(GetMin(l), GetMin(r)) && mx == MaxOf(GetMax(l), GetMax(r))
    case Cascade(c) => k == 1 && CValid(c)
  }

  /** A node valid at dimension `k` splits on dimension `k`, and its points have coordinate `k`. */
  lemma ValidFacts(n: Node, k: nat)
    requires Valid(n, k)
    ensures Dimension(n) == k && Wide(Elems(n), k + 1)
  {
  }

  /** Every point under a cascade node has its coordinate 1 within the node's `[min, max]`. */
  lemma {:induction false} CascadeBounds(c: CascadeNode)
    requires CValid(c)
    ensures forall i :: 0 <= i < |c.points| ==> CGetMin(c) <= c.points[i][1] <= CGetMax(c)
    decreases c
  {
    match c
    case CascadeLeaf(_, _) =>
    case CascadeJoint(pts, mn, mx, l, _, r, _) =>
      CascadeBounds(l);
      CascadeBounds(r);
      forall i | 0 <= i < |pts| ensures mn <= pts[i][1] <= mx {
        assert pts[i] in multiset(l.points) + multiset(r.points);
        if pts[i] in multiset(l.points) {
          var j :| 0 <= j < |l.points| && l.points[j] == pts[i];
        } else {
          var j :| 0 <= j < |r.points| && r.points[j] == pts[i];
        }
      }
  }

  /** Every point under a node of dimension `k` has its coordinate `k` within `[min, max]`. */
  lemma {:induction false} NodeBounds(n: Node, k: nat)
    requires Valid(n, k)
    ensures forall i :: 0 <= i < |Elems(n)| ==> GetMin(n) <= Elems(n)[i][k] <= GetMax(n)
    decreases n
  {
    match n
    case Leaf(_, _, _) =>
    case Joint(inner, _, mn, mx, l, r) =>
      NodeBounds(l, k);
      NodeBounds(r, k);
      var s := Elems(inner);
      forall i | 0 <= i < |s| ensures mn <= s[i][k] <= mx {
        assert s[i] in multiset(Elems(l)) + multiset(Elems(r));
        if s[i] in multiset(Elems(l)) {
          var j :| 0 <= j < |Elems(l)| && Elems(l)[j] == s[i];
        } else {
          var j :| 0 <= j < |Elems(r)| && Elems(r)[j] == s[i];
        }
      }
    case Cascade(c) =>
      CascadeBounds(c);
  }

  /** `Leaf.query` and `Joint.query`: nothing when the node's range misses the query on its
      dimension, the inner structure's answer when the range lies inside it, and otherwise
      the children's answers concatenated. */
  function Query(n: Node, from: Point, to: Point): seq<Point>
    requires Valid(n, Dimension(n)) && Dimension(n) < |from| && Dimension(n) < |to|
    decreases n
  {
    match n
    case Leaf(inner, d, coord) =>
      ValidFacts(inner, d - 1);
      if coord < from[d] || coord > to[d] then [] else Query(inner, from, to)
    case Joint(inner, d, mn, mx, l, r) =>
      ValidFacts(inner, d - 1);
      if mn > to[d] || mx < from[d] then []
      else if mn >= from[d] && mx <= to[d] then Query(inner, from, to)
      else
        ValidFacts(l, d);
        ValidFacts(r, d);
        Concat(Query(l, from, to), Query(r, from, to))
    case Cascade(c) => CascadeQuery(c, from, to)
  }

  /** `CascadeNode.query(from, to)`: one search for the first point at or above `from[0]`. */
  function CascadeQuery(c: CascadeNode, from: Point, to: Point): seq<Point>
    requires CValid(c) && 2 <= |from| && 2 <= |to|
  {
    if CGetMax(c) < from[1] || CGetMin(c) > to[1] then []
    else CascadeQueryFrom(c, from, to, LowerBound(c.points, from[0], 0))
  }

  /** `CascadeNode.query(from, to, hint)`: a node inside the query on coordinate 1 scans its
      list forward from `hint`; a partly overlapping one asks its children. */
  function CascadeQueryFrom(c: CascadeNode, from: Point, to: Point, hint: nat): seq<Point>
    requires CValid(c) && 2 <= |from| && 2 <= |to| && hint <= |c.points|
    decreases c, 1
  {
    if CGetMax(c) < from[1] || CGetMin(c) > to[1] then []
    else if CGetMin(c) >= from[1] && CGetMax(c) <= to[1] then
      c.points[hint..ScanEnd(c.points, hint, from[0], to[0])]
    else SubQuery(c, from, to, hint)
  }

  /** `CascadeJoint.subQuery`: the children's answers, each from the hint the bridges carry
      down. `CascadeLeaf.subQuery` throws; it is never reached, and the precondition that `c`
      is a joint is discharged at the only call, because a leaf's range is a single value. */
  function SubQuery(c: CascadeNode, from: Point, to: Point, hint: nat): seq<Point>
    requires CValid(c) && c.CascadeJoint? && 2 <= |from| && 2 <= |to| && hint <= |c.points|
    decreases c, 0
  {
    Concat(CascadeQueryFrom(c.left, from, to, c.leftRef[hint]),
           CascadeQueryFrom(c.right, from, to, c.rightRef[hint]))
  }

  /** A point stored under a cascade node has coordinate 1 within the node's range. */
  lemma CascadeMember(c: CascadeNode, p: Point)
    requires CValid(c) && multiset(c.points)[p] > 0
    ensures 2 <= |p| && CGetMin(c) <= p[1] <= CGetMax(c)
  {
    CascadeBounds(c);
    assert p in c.points;
  }

  /** A point stored under a node of dimension `k` has coordinate `k` within the node's range. */
  lemma NodeMember(n: Node, k: nat, p: Point)
    requires Valid(n, k) && multiset(Elems(n))[p] > 0
    ensures k < |p| && GetMin(n) <= p[k] <= GetMax(n)
  {
    NodeBounds(n, k);
    assert p in Elems(n);
  }

  /** A cascade node whose range misses the query on coordinate 1 stores nothing in the box. */
  lemma CascadeOutside(c: CascadeNode, from: Point, to: Point, p: Point)
    requires CValid(c) && 2 <= |from| && 2 <= |to|
    requires CGetMax(c) < from[1] || CGetMin(c) > to[1]
    ensures multiset(c.points)[p] > 0 ==> !InBox(p, from, to, 2)
  {
    if multiset(c.points)[p] > 0 {
      CascadeMember(c, p);
      InBoxOutside(p, from, to, 1);
    }
  }

  /** A cascade node inside the query on coordinate 1 scans exactly its points in the box. */
  lemma CascadeContained(c: CascadeNode, from: Point, to: Point)
    requires CValid(c) && 2 <= |from| && 2 <= |to|
    requires CGetMin(c) >= from[1] && CGetMax(c) <= to[1]
    ensures CascadeQueryFrom(c, from, to, LowerBound(c.points, from[0], 0)) == Naive(c.points, from, to, 2)
  {
    CascadeBounds(c);
    ContainedScan(c.points, from, to, CGetMin(c), CGetMax(c));
  }

  /** Scanning a list ascending by coordinate 0 from the lower bound of `from[0]` while
      coordinate 0 stays in the query gives the points in the box, when coordinate 1 of every
      point is already inside it. */
  lemma ContainedScan(pts: seq<Point>, from: Point, to: Point, lo: int, hi: int)
    requires SortedBy(pts, 0) && Wide(pts, 2) && 2 <= |from| && 2 <= |to|
    requires forall i :: 0 <= i < |pts| ==> lo <= pts[i][1] <= hi
    requires from[1] <= lo && hi <= to[1]
    ensures pts[LowerBound(pts, from[0], 0)..ScanEnd(pts, LowerBound(pts, from[0], 0), from[0], to[0])] ==
            Naive(pts, from, to, 2)
  {
    ScanFilters(pts, from, to);
    NaiveDrop(pts, from, to, 1);
  }

  /** A cascade joint that partly overlaps the query asks each child from that child's own
      lower bound of `from[0]`, and the children hold exactly its points. */
  lemma CascadePartial(c: CascadeNode, from: Point, to: Point)
    requires CValid(c) && 2 <= |from| && 2 <= |to|
    requires !(CGetMax(c) < from[1] || CGetMin(c) > to[1])
    requires !(CGetMin(c) >= from[1] && CGetMax(c) <= to[1])
    ensures c.CascadeJoint? && CValid(c.left) && CValid(c.right)
    ensures multiset(c.points) == multiset(c.left.points) + multiset(c.right.points)
    ensures CascadeQueryFrom(c, from, to, LowerBound(c.points, from[0], 0)) ==
            CascadeQueryFrom(c.left, from, to, LowerBound(c.left.points, from[0], 0)) +
            CascadeQueryFrom(c.right, from, to, LowerBound(c.right.points, from[0], 0))
  {
    var pts := c.points;
    BridgeStep(c.leftRef, pts, c.left.points, from[0]);
    BridgeStep(c.rightRef, pts, c.right.points, from[0]);
  }

  /** Counting a point in a concatenation of two answers whose counts are known. */
  lemma CountSplit(q: seq<Point>, ql: seq<Point>, qr: seq<Point>,
                   s: seq<Point>, sl: seq<Point>, sr: seq<Point>, inBox: bool, p: Point)
    requires q == ql + qr && multiset(s) == multiset(sl) + multiset(sr)
    requires multiset(ql)[p] == if inBox then multiset(sl)[p] else 0
    requires multiset(qr)[p] == if inBox then multiset(sr)[p] else 0
    ensures multiset(q)[p] == if inBox then multiset(s)[p] else 0
  {
  }

  /** A cascade node asked from the lower bound of `from[0]` in its list returns each stored
      point in the two-dimensional box exactly as often as it is stored, and no other point. */
  lemma {:induction false} CascadeFromCount(c: CascadeNode, from: Point, to: Point, p: Point)
    requires CValid(c) && 2 <= |from| && 2 <= |to|
    ensures multiset(CascadeQueryFrom(c, from, to, LowerBound(c.points, from[0], 0)))[p] ==
            if InBox(p, from, to, 2) then multiset(c.points)[p] else 0
    decreases c
  {
    if CGetMax(c) < from[1] || CGetMin(c) > to[1] {
      CascadeOutside(c, from, to, p);
    } else if CGetMin(c) >= from[1] && CGetMax(c) <= to[1] {
      CascadeContained(c, from, to);
      NaiveCount(c.points, from, to, 2, p);
    } else {
      CascadePartial(c, from, to);
      CascadeFromCount(c.left, from, to, p);
      CascadeFromCount(c.right, from, to, p);
      CountSplit(CascadeQueryFrom(c, from, to, LowerBound(c.points, from[0], 0)),
                 CascadeQueryFrom(c.left, from, to, LowerBound(c.left.points, from[0], 0)),
                 CascadeQueryFrom(c.right, from, to, LowerBound(c.right.points, from[0], 0)),
                 c.points, c.left.points, c.right.points, InBox(p, from, to, 2), p);
    }
  }

  /** `CascadeNode.query` returns each stored point in the box exactly as often as it is
      stored, and no other point. */
  lemma CascadeCount(c: CascadeNode, from: Point, to: Point, p: Point)
    requires CValid(c) && 2 <= |from| && 2 <= |to|
    ensures multiset(CascadeQuery(c, from, to))[p] == if InBox(p, from, to, 2) then multiset(c.points)[p] else 0
  {
    if CGetMax(c) < from[1] || CGetMin(c) > to[1] {
      CascadeOutside(c, from, to, p);
    } else {
      CascadeFromCount(c, from, to, p);
    }
  }

  /** A node whose range misses the query on its dimension stores nothing in the box. */
  lemma NodeOutside(n: Node, k: nat, from: Point, to: Point, p: Point)
    requires Valid(n, k) && k < |from| && k < |to|
    requires GetMin(n) > to[k] || GetMax(n) < from[k]
    ensures multiset(Elems(n))[p] > 0 ==> !InBox(p, from, to, k + 1)
  {
    if multiset(Elems(n))[p] > 0 {
      NodeMember(n, k, p);
      InBoxOutside(p, from, to, k);
    }
  }

  /** A node whose range lies inside the query on its dimension stores only points inside it
      on that dimension, so the box test need not look at it. */
  lemma NodeInside(n: Node, k: nat, from: Point, to: Point, p: Point)
    requires Valid(n, k) && k < |from| && k < |to|
    requires GetMin(n) >= from[k] && GetMax(n) <= to[k]
    ensures multiset(Elems(n))[p] > 0 ==> InBox(p, from, to, k + 1) == InBox(p, from, to, k)
  {
    if multiset(Elems(n))[p] > 0 {
      NodeMember(n, k, p);
      InBoxStep(p, from, to, k);
    }
  }

  /** `query` on a built node of dimension `k` returns each stored point in the box on
      dimensions `0 .. k` exactly as often as it is stored, and no other point: the canonical
      decomposition loses and repeats nothing. */
  lemma {:induction false} QueryCount(n: Node, k: nat, from: Point, to: Point, p: Point)
    requires Valid(n, k) && k < |from| && k < |to|
    ensures Dimension(n) == k
    ensures multiset(Query(n, from, to))[p] == if InBox(p, from, to, k + 1) then multiset(Elems(n))[p] else 0
    decreases n, 1
  {
    match n
    case Leaf(_, _, _) =>
      LeafCount(n, k, from, to, p);
    case Joint(_, _, _, _, _, _) =>
      JointCount(n, k, from, to, p);
    case Cascade(c) =>
      CascadeCount(c, from, to, p);
  }

  lemma {:induction false} LeafCount(n: Node, k: nat, from: Point, to: Point, p: Point)
    requires n.Leaf? && Valid(n, k) && k < |from| && k < |to|
    ensures multiset(Query(n, from, to))[p] == if InBox(p, from, to, k + 1) then multiset(Elems(n))[p] else 0
    decreases n, 0
  {
    if n.coord < from[k] || n.coord > to[k] {
      NodeOutside(n, k, from, to, p);
    } else {
      QueryCount(n.inner, k - 1, from, to, p);
      NodeInside(n, k, from, to, p);
    }
  }

  lemma {:induction false} JointCount(n: Node, k: nat, from: Point, to: Point, p: Point)
    requires n.Joint? && Valid(n, k) && k < |from| && k < |to|
    ensures multiset(Query(n, from, to))[p] == if InBox(p, from, to, k + 1) then multiset(Elems(n))[p] else 0
    decreases n, 0
  {
    if n.min > to[k] || n.max < from[k] {
      NodeOutside(n, k, from, to, p);
    } else if n.min >= from[k] && n.max <= to[k] {
      QueryCount(n.inner, k - 1, from, to, p);
      NodeInside(n, k, from, to, p);
    } else {
      QueryCount(n.left, k, from, to, p);
      QueryCount(n.right, k, from, to, p);
      CountSplit(Query(n, from, to), Query(n.left, from, to), Query(n.right, from, to),
                 Elems(n), Elems(n.left), Elems(n.right), InBox(p, from, to, k + 1), p);
    }
  }

  /** `query` on a built node of dimension `k` returns exactly the points the brute-force
      filter keeps, each as often, in some order. */
  lemma QueryCorrect(n: Node, k: nat, from: Point, to: Point)
    requires Valid(n, k) && k < |from| && k < |to|
    ensures Dimension(n) == k
    ensures multiset(Query(n, from, to)) == multiset(Naive(Elems(n), from, to, k + 1))
  {
    ValidFacts(n, k);
    forall p ensures multiset(Query(n, from, to))[p] == multiset(Naive(Elems(n), from, to, k + 1))[p] {
      QueryPoint(n, k, from, to, p);
    }
    SameCounts(multiset(Query(n, from, to)), multiset(Naive(Elems(n), from, to, k + 1)));
  }

  /** Two multisets with the same multiplicities are equal. */
  lemma SameCounts(a: multiset<Point>, b: multiset<Point>)
    requires forall p :: a[p] == b[p]
    ensures a == b
  {
  }

  lemma QueryPoint(n: Node, k: nat, from: Point, to: Point, p: Point)
    requires Valid(n, k) && k < |from| && k < |to| && Wide(Elems(n), k + 1)
    ensures multiset(Query(n, from, to))[p] == multiset(Naive(Elems(n), from, to, k + 1))[p]
  {
    NaiveCount(Elems(n), from, to, k + 1, p);
    QueryCount(n, k, from, to, p);
  }
}
