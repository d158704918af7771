/** In-place sorting of a sub-range of the shared point array, as `List.sort` does on a
    `subList` view, and the framing facts about such sub-range permutations. */
module Sorting {
  import opened Points
  import opened Lists

  /** The two comparators the build sorts with: by one coordinate, or `POINT_COMPARATOR`. */
  datatype Order = ByCoord(dim: nat) | ByPoint

  predicate Fits(p: Point, ord: Order) {
    match ord
    case ByCoord(k) => k < |p|
    case ByPoint => true
  }

  /** Every point of `s[lo..hi]` can be compared by `ord`. */
  ghost predicate FitsIn(s: seq<Point>, lo: nat, hi: nat, ord: Order)
    requires lo <= hi <= |s|
  {
    forall x :: lo <= x < hi ==> Fits(s[x], ord)
  }

  /** The comparator's verdict on `p` against `q`: negative, zero or positive. */
  function Cmp(ord: Order, p: Point, q: Point): int
    requires Fits(p, ord) && Fits(q, ord)
  {
    match ord
    case ByCoord(k) => CompareCoord(p[k], q[k])
    case ByPoint => ComparePoints(p, q)
  }

  lemma CmpAntisymmetric(ord: Order, p: Point, q: Point)
    requires Fits(p, ord) && Fits(q, ord)
    ensures Cmp(ord, p, q) == -Cmp(ord, q, p)
  {
    if ord.ByPoint? {
      ComparePointsAntisymmetric(p, q);
    }
  }

  /** Calls the comparator. */
  method Compare(ord: Order, p: Point, q: Point) returns (c: int)
    requires Fits(p, ord) && Fits(q, ord)
    ensures c == Cmp(ord, p, q)
  {
    match ord {
      case ByCoord(k) =>
        c := CompareCoord(p[k], q[k]);
      case ByPoint =>
        c := PointComparator(p, q);
    }
  }

  /** `s[lo..hi]` is in comparator order: no neighbour pair compares greater. */
  ghost predicate SortedIn(s: seq<Point>, lo: nat, hi: nat, ord: Order)
    requires lo <= hi <= |s|
  {
    (forall i :: lo <= i < hi ==> Fits(s[i], ord)) &&
    forall i, j :: lo <= i && i + 1 == j < hi ==> Cmp(ord, s[i], s[j]) <= 0
  }

  /** Every point of `s[lo..hi]` has at least `n` coordinates. */
  ghost predicate WideIn(s: seq<Point>, lo: nat, hi: nat, n: nat) {
    forall i :: lo <= i < hi && i < |s| ==> n <= |s[i]|
  }

  /** The number of times `p` occurs in `s[x..y]`. */
  ghost function Occ(s: seq<Point>, x: nat, y: nat, p: Point): nat
    requires x <= y <= |s|
    decreases y - x
  {
    if x == y then 0 else (if s[x] == p then 1 else 0) + Occ(s, x + 1, y, p)
  }

  /** The number of times `p` occurs in `s`. */
  ghost function Count(s: seq<Point>, p: Point): nat {
    Occ(s, 0, |s|, p)
  }

  /** `t` holds exactly the points of `s[x..y]`: every point occurs as often in both. */
  ghost predicate Collects(t: seq<Point>, s: seq<Point>, x: nat, y: nat)
    requires x <= y <= |s|
  {
    forall p :: Count(t, p) == Occ(s, x, y, p)
  }

  lemma {:induction false} OccSplit(s: seq<Point>, x: nat, y: nat, z: nat, p: Point)
    requires x <= y <= z <= |s|
    ensures Occ(s, x, z, p) == Occ(s, x, y, p) + Occ(s, y, z, p)
    decreases y - x
  {
    if x < y {
      OccSplit(s, x + 1, y, z, p);
    }
  }

  /** Two sequences that agree on `[x, y)` have the same points there. */
  lemma {:induction false} OccSame(s: seq<Point>, t: seq<Point>, x: nat, y: nat, p: Point)
    requires x <= y <= |s| && y <= |t| && forall k :: x <= k < y ==> s[k] == t[k]
    ensures Occ(s, x, y, p) == Occ(t, x, y, p)
    decreases y - x
  {
    if x < y {
      OccSame(s, t, x + 1, y, p);
    }
  }

  /** `t[x..y]` is `s[d + x..d + y]`. */
  lemma {:induction false} OccShift(s: seq<Point>, t: seq<Point>, d: nat, x: nat, y: nat, p: Point)
    requires x <= y <= |t| && d + y <= |s| && forall k :: x <= k < y ==> t[k] == s[d + k]
    ensures Occ(t, x, y, p) == Occ(s, d + x, d + y, p)
    decreases y - x
  {
    if x < y {
      OccShift(s, t, d, x + 1, y, p);
    }
  }

  lemma {:induction false} OccIn(s: seq<Point>, x: nat, y: nat, k: nat)
    requires x <= k < y <= |s|
    ensures Occ(s, x, y, s[k]) > 0
    decreases k - x
  {
    if x < k {
      OccIn(s, x + 1, y, k);
    }
  }

  lemma {:induction false} OccMember(s: seq<Point>, x: nat, y: nat, p: Point) returns (k: nat)
    requires x <= y <= |s| && Occ(s, x, y, p) > 0
    ensures x <= k < y && s[k] == p
    decreases y - x
  {
    if s[x] == p {
      k := x;
    } else {
      k := OccMember(s, x + 1, y, p);
    }
  }

  /** The count of a suffix is its multiplicity in the suffix's multiset. */
  lemma {:induction false} OccMultiset(s: seq<Point>, x: nat, p: Point)
    requires x <= |s|
    ensures Occ(s, x, |s|, p) == multiset(s[x..])[p]
    decreases |s| - x
  {
    if x < |s| {
      OccMultiset(s, x + 1, p);
      assert s[x..] == [s[x]] + s[x + 1..];
    }
  }

  lemma CountMultiset(s: seq<Point>, p: Point)
    ensures Count(s, p) == multiset(s)[p]
  {
    OccMultiset(s, 0, p);
    assert s[0..] == s;
  }

  /** A slice holds the points of its range. */
  lemma SliceCollects(s: seq<Point>, x: nat, y: nat)
    requires x <= y <= |s|
    ensures Collects(s[x..y], s, x, y)
  {
    forall p ensures Count(s[x..y], p) == Occ(s, x, y, p) {
      OccShift(s, s[x..y], x, 0, y - x, p);
    }
  }

  /** A sequence holding the points of all of `s` has the multiset of `s`. */
  lemma CollectsAll(t: seq<Point>, s: seq<Point>)
    requires Collects(t, s, 0, |s|)
    ensures multiset(t) == multiset(s)
  {
    forall p ensures multiset(t)[p] == multiset(s)[p] {
      CountMultiset(t, p);
      CountMultiset(s, p);
    }
  }

  /** The points of two adjacent ranges are those of their union. */
  lemma CollectsSplit(t: seq<Point>, l: seq<Point>, r: seq<Point>, s: seq<Point>, x: nat, y: nat, z: nat)
    requires x <= y <= z <= |s| && Collects(t, s, x, z) && Collects(l, s, x, y) && Collects(r, s, y, z)
    ensures multiset(t) == multiset(l) + multiset(r)
  {
    forall p ensures multiset(t)[p] == multiset(l)[p] + multiset(r)[p] {
      OccSplit(s, x, y, z, p);
      CountMultiset(t, p);
      CountMultiset(l, p);
      CountMultiset(r, p);
    }
  }

  /** A sequence with the points of two sequences that hold adjacent ranges holds their union. */
  lemma CollectsJoin(t: seq<Point>, l: seq<Point>, r: seq<Point>, s: seq<Point>, x: nat, y: nat, z: nat)
    requires x <= y <= z <= |s| && Collects(l, s, x, y) && Collects(r, s, y, z)
    requires multiset(t) == multiset(l) + multiset(r)
    ensures Collects(t, s, x, z)
  {
    forall p ensures Count(t, p) == Occ(s, x, z, p) {
      OccSplit(s, x, y, z, p);
      CountMultiset(t, p);
      CountMultiset(l, p);
      CountMultiset(r, p);
    }
  }

  /** What a range holds does not depend on the rest of the sequence. */
  lemma CollectsSame(t: seq<Point>, s: seq<Point>, u: seq<Point>, x: nat, y: nat)
    requires x <= y <= |s| && y <= |u| && Collects(t, s, x, y) && forall k :: x <= k < y ==> s[k] == u[k]
    ensures Collects(t, u, x, y)
  {
    forall p ensures Count(t, p) == Occ(u, x, y, p) {
      OccSame(s, u, x, y, p);
    }
  }

  /** Every point of a sequence holding a range comes from the range. */
  lemma CollectsSource(t: seq<Point>, s: seq<Point>, x: nat, y: nat, i: nat) returns (k: nat)
    requires x <= y <= |s| && Collects(t, s, x, y) && i < |t|
    ensures x <= k < y && s[k] == t[i]
  {
    OccIn(t, 0, |t|, i);
    assert Count(t, t[i]) > 0;
    k := OccMember(s, x, y, t[i]);
  }

  /** `t` is `s` with only the elements of `[lo, hi)` rearranged. */
  ghost predicate PermutedWithin(s: seq<Point>, t: seq<Point>, lo: nat, hi: nat) {
    lo <= hi <= |s| && |t| == |s| &&
    (forall i :: 0 <= i < |s| && !(lo <= i < hi) ==> s[i] == t[i]) &&
    forall p :: Occ(s, lo, hi, p) == Occ(t, lo, hi, p)
  }

  /** What holds a range before its rearrangement holds it after. */
  lemma CollectsMoved(t: seq<Point>, s: seq<Point>, u: seq<Point>, x: nat, y: nat)
    requires PermutedWithin(s, u, x, y) && Collects(t, s, x, y)
    ensures Collects(t, u, x, y)
  {
  }

  /** What holds a range after its rearrangement held it before. */
  lemma CollectsBack(t: seq<Point>, s: seq<Point>, u: seq<Point>, x: nat, y: nat)
    requires PermutedWithin(s, u, x, y) && Collects(t, u, x, y)
    ensures Collects(t, s, x, y)
  {
  }

  lemma PermutedRefl(s: seq<Point>, lo: nat, hi: nat)
    requires lo <= hi <= |s|
    ensures PermutedWithin(s, s, lo, hi)
  {
  }

  lemma PermutedTrans(s: seq<Point>, t: seq<Point>, u: seq<Point>, lo: nat, hi: nat)
    requires PermutedWithin(s, t, lo, hi) && PermutedWithin(t, u, lo, hi)
    ensures PermutedWithin(s, u, lo, hi)
  {
  }

  /** A rearrangement inside `[x, y)` is one inside any enclosing `[lo, hi)`. */
  lemma PermutedWiden(s: seq<Point>, t: seq<Point>, lo: nat, x: nat, y: nat, hi: nat)
    requires lo <= x && y <= hi <= |s| && PermutedWithin(s, t, x, y)
    ensures PermutedWithin(s, t, lo, hi)
  {
    forall p ensures Occ(s, lo, hi, p) == Occ(t, lo, hi, p) {
      OccSplit(s, lo, x, hi, p);
      OccSplit(s, x, y, hi, p);
      OccSplit(t, lo, x, hi, p);
      OccSplit(t, x, y, hi, p);
      OccSame(s, t, lo, x, p);
      OccSame(s, t, y, hi, p);
    }
  }

  /** Every point of the rearranged range comes from the original range. */
  lemma PermutedSource(s: seq<Point>, t: seq<Point>, lo: nat, hi: nat, i: nat) returns (k: nat)
    requires PermutedWithin(s, t, lo, hi) && lo <= i < hi
    ensures lo <= k < hi && s[k] == t[i]
  {
    OccIn(t, lo, hi, i);
    k := OccMember(s, lo, hi, t[i]);
  }

  /** Widths survive a rearrangement. */
  lemma PermutedWide(s: seq<Point>, t: seq<Point>, lo: nat, hi: nat, n: nat)
    requires PermutedWithin(s, t, lo, hi) && WideIn(s, lo, hi, n)
    ensures WideIn(t, lo, hi, n)
  {
    forall i | lo <= i < hi ensures n <= |t[i]| {
      var k := PermutedSource(s, t, lo, hi, i);
    }
  }

  /** A coordinate value shared by the whole range survives a rearrangement. */
  lemma PermutedCoord(s: seq<Point>, t: seq<Point>, lo: nat, hi: nat, dim: nat, coord: int)
    requires PermutedWithin(s, t, lo, hi)
    requires forall i :: lo <= i < hi ==> dim < |s[i]| && s[i][dim] == coord
    ensures forall i :: lo <= i < hi ==> dim < |t[i]| && t[i][dim] == coord
  {
    forall i | lo <= i < hi ensures dim < |t[i]| && t[i][dim] == coord {
      var k := PermutedSource(s, t, lo, hi, i);
    }
  }

  /** Comparability survives a rearrangement. */
  lemma PermutedFits(s: seq<Point>, t: seq<Point>, lo: nat, hi: nat, ord: Order)
    requires PermutedWithin(s, t, lo, hi) && FitsIn(s, lo, hi, ord)
    ensures FitsIn(t, lo, hi, ord)
  {
    forall i | lo <= i < hi ensures Fits(t[i], ord) {
      var k := PermutedSource(s, t, lo, hi, i);
    }
  }

  /** Neighbour order on one coordinate is the pairwise order `SortedBy`. */
  lemma SortedInByCoord(s: seq<Point>, lo: nat, hi: nat, dim: nat)
    requires lo <= hi <= |s| && SortedIn(s, lo, hi, ByCoord(dim))
    ensures SortedBy(s[lo..hi], dim)
  {
    var t := s[lo..hi];
    forall i, j | 0 <= i < j < |t| ensures t[i][dim] <= t[j][dim] {
      var k := i;
      while k < j
        invariant i <= k <= j
        invariant t[i][dim] <= t[k][dim]
      {
        assert Cmp(ByCoord(dim), s[lo + k], s[lo + k + 1]) <= 0;
        k := k + 1;
      }
    }
  }

  /** `List.sort` on the view `a[lo..hi]`: an insertion sort by neighbour exchanges, which,
      like the library sort, is stable. */
  method SortRange(a: array<Point>, lo: nat, hi: nat, ord: Order)
    requires lo <= hi <= a.Length
    requires FitsIn(a[..], lo, hi, ord)
    modifies a
    ensures SortedIn(a[..], lo, hi, ord)
    ensures PermutedWithin(old(a[..]), a[..], lo, hi)
  {
    PermutedRefl(a[..], lo, hi);
    var i := lo;
    while i < hi
      invariant lo <= i <= hi
      invariant FitsIn(a[..], lo, hi, ord)
      invariant SortedIn(a[..], lo, i, ord)
      invariant PermutedWithin(old(a[..]), a[..], lo, hi)
    {
      ghost var before := a[..];
      Insert(a, lo, i, ord);
      PermutedWiden(before, a[..], lo, lo, i + 1, hi);
      PermutedFits(before, a[..], lo, hi, ord);
      PermutedTrans(old(a[..]), before, a[..], lo, hi);
      i := i + 1;
    }
  }

  /** The state of `Insert` with the moving element at `j`: the run before it and the run after
      it are in order, it is not greater than its right neighbour, and its two neighbours
      are in order with each other. */
  ghost predicate Sinking(s: seq<Point>, lo: nat, j: nat, i: nat, ord: Order)
    requires lo <= j <= i < |s| && FitsIn(s, lo, i + 1, ord)
  {
    (forall x :: lo <= x && x + 1 < j ==> Cmp(ord, s[x], s[x + 1]) <= 0) &&
    (forall x :: j < x < i ==> Cmp(ord, s[x], s[x + 1]) <= 0) &&
    (j < i ==> Cmp(ord, s[j], s[j + 1]) <= 0) &&
    (lo < j < i ==> Cmp(ord, s[j - 1], s[j + 1]) <= 0)
  }

  lemma SinkStep(s: seq<Point>, lo: nat, j: nat, i: nat, ord: Order)
    requires lo < j <= i < |s| && FitsIn(s, lo, i + 1, ord)
    requires Sinking(s, lo, j, i, ord) && Cmp(ord, s[j - 1], s[j]) > 0
    ensures FitsIn(s[j - 1 := s[j]][j := s[j - 1]], lo, i + 1, ord)
    ensures Sinking(s[j - 1 := s[j]][j := s[j - 1]], lo, j - 1, i, ord)
  {
    CmpAntisymmetric(ord, s[j - 1], s[j]);
  }

  lemma SinkDone(s: seq<Point>, lo: nat, j: nat, i: nat, ord: Order)
    requires lo <= j <= i < |s| && FitsIn(s, lo, i + 1, ord)
    requires Sinking(s, lo, j, i, ord) && (j == lo || Cmp(ord, s[j - 1], s[j]) <= 0)
    ensures SortedIn(s, lo, i + 1, ord)
  {
  }

  method Swap(a: array<Point>, j: nat)
    requires 0 < j < a.Length
    modifies a
    ensures a[..] == old(a[..])[j - 1 := old(a[j])][j := old(a[j - 1])]
  {
    a[j - 1], a[j] := a[j], a[j - 1];
  }

  /** The loop state of `Insert`: `s` rearranges `orig` inside `[lo, i]` and is `Sinking` at `j`. */
  ghost predicate InsertState(orig: seq<Point>, s: seq<Point>, lo: nat, j: nat, i: nat, ord: Order) {
    lo <= j <= i < |s| && PermutedWithin(orig, s, lo, i + 1) && FitsIn(s, lo, i + 1, ord) &&
    Sinking(s, lo, j, i, ord)
  }

  lemma InsertStep(orig: seq<Point>, s: seq<Point>, lo: nat, j: nat, i: nat, ord: Order)
    requires InsertState(orig, s, lo, j, i, ord) && lo < j
    requires Cmp(ord, s[j - 1], s[j]) > 0
    ensures InsertState(orig, s[j - 1 := s[j]][j := s[j - 1]], lo, j - 1, i, ord)
  {
    StepPerm(orig, s, lo, j, i);
    SinkStep(s, lo, j, i, ord);
  }

  lemma StepPerm(orig: seq<Point>, s: seq<Point>, lo: nat, j: nat, i: nat)
    requires lo < j <= i < |s| && PermutedWithin(orig, s, lo, i + 1)
    ensures PermutedWithin(orig, s[j - 1 := s[j]][j := s[j - 1]], lo, i + 1)
  {
    var t := s[j - 1 := s[j]][j := s[j - 1]];
    StepMultiset(orig, s, t, lo, j, i + 1);
    StepFrame(orig, s, t, lo, j, i + 1);
  }

  lemma StepFrame(orig: seq<Point>, s: seq<Point>, t: seq<Point>, lo: nat, j: nat, hi: nat)
    requires lo < j < hi <= |s| == |orig| && t == s[j - 1 := s[j]][j := s[j - 1]]
    requires forall k :: 0 <= k < |orig| && !(lo <= k < hi) ==> orig[k] == s[k]
    ensures |t| == |orig| && forall k :: 0 <= k < |orig| && !(lo <= k < hi) ==> orig[k] == t[k]
  {
  }

  lemma StepMultiset(orig: seq<Point>, s: seq<Point>, t: seq<Point>, lo: nat, j: nat, hi: nat)
    requires lo < j < hi <= |s| == |orig| && t == s[j - 1 := s[j]][j := s[j - 1]]
    requires forall p :: Occ(orig, lo, hi, p) == Occ(s, lo, hi, p)
    ensures forall p :: Occ(orig, lo, hi, p) == Occ(t, lo, hi, p)
  {
    forall p ensures Occ(s, lo, hi, p) == Occ(t, lo, hi, p) {
      SwapOcc(s, t, lo, j, hi, p);
    }
  }

  /** Exchanging two neighbours keeps every count. */
  lemma {:induction false} SwapOcc(s: seq<Point>, t: seq<Point>, lo: nat, j: nat, hi: nat, p: Point)
    requires lo < j < hi <= |s| && t == s[j - 1 := s[j]][j := s[j - 1]]
    ensures Occ(s, lo, hi, p) == Occ(t, lo, hi, p)
    decreases j - lo
  {
    if lo + 1 < j {
      SwapOcc(s, t, lo + 1, j, hi, p);
    } else {
      OccSplit(s, lo, lo + 2, hi, p);
      OccSplit(t, lo, lo + 2, hi, p);
      PairOcc(s, lo, p);
      PairOcc(t, lo, p);
      OccSame(s, t, lo + 2, hi, p);
    }
  }

  /** The count of a two-element range. */
  lemma PairOcc(s: seq<Point>, x: nat, p: Point)
    requires x + 2 <= |s|
    ensures Occ(s, x, x + 2, p) == (if s[x] == p then 1 else 0) + (if s[x + 1] == p then 1 else 0)
  {
    assert Occ(s, x + 2, x + 2, p) == 0;
  }

  /** Moves `a[i]` down into the ordered run `a[lo..i]`, exchanging it with each greater neighbour. */
  method Insert(a: array<Point>, lo: nat, i: nat, ord: Order)
    requires lo <= i < a.Length
    requires FitsIn(a[..], lo, i + 1, ord)
    requires SortedIn(a[..], lo, i, ord)
    modifies a
    ensures SortedIn(a[..], lo, i + 1, ord)
    ensures PermutedWithin(old(a[..]), a[..], lo, i + 1)
  {
    ghost var orig := a[..];
    PermutedRefl(orig, lo, i + 1);
    var j: nat := i;
    while j > lo
      invariant InsertState(orig, a[..], lo, j, i, ord)
    {
      assert Fits(a[..][j - 1], ord) && Fits(a[..][j], ord);
      var c := Compare(ord, a[j - 1], a[j]);
      if c <= 0 {
        break;
      }
      InsertStep(orig, a[..], lo, j, i, ord);
      Swap(a, j);
      j := j - 1;
    }
    SinkDone(a[..], lo, j, i, ord);
  }
}
