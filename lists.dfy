/** The list helpers of the range tree: `binSearch`, `merge`, `buildRef`, `concat`
    and the forward scan of a fully contained cascade node. */
module Lists {
  import opened Points

  /** `s` is ascending by coordinate `dim`. */
  ghost predicate SortedBy(s: seq<Point>, dim: nat) {
    Wide(s, dim + 1) && forall i, j :: 0 <= i < j < |s| ==> s[i][dim] <= s[j][dim]
  }

  /** The first index of `s` whose coordinate `dim` is at least `x` (`|s|` if there is none). */
  function LowerBound(s: seq<Point>, x: int, dim: nat): (r: nat)
    requires Wide(s, dim + 1)
    ensures r <= |s|
    ensures forall i :: 0 <= i < r ==> s[i][dim] < x
    ensures r < |s| ==> x <= s[r][dim]
  {
    if |s| == 0 || x <= s[0][dim] then 0 else 1 + LowerBound(s[1..], x, dim)
  }

  /** An index with everything before it below `x` and itself at least `x` is the lower bound. */
  lemma LowerBoundUnique(s: seq<Point>, x: int, dim: nat, r: nat)
    requires Wide(s, dim + 1) && r <= |s|
    requires forall i :: 0 <= i < r ==> s[i][dim] < x
    requires r < |s| ==> x <= s[r][dim]
    ensures LowerBound(s, x, dim) == r
  {
  }

  /** On a sorted sequence everything from the lower bound on is at least `x`. */
  lemma {:induction false} LowerBoundSorted(s: seq<Point>, x: int, dim: nat)
    requires SortedBy(s, dim)
    ensures forall i :: LowerBound(s, x, dim) <= i < |s| ==> x <= s[i][dim]
  {
    var r := LowerBound(s, x, dim);
    forall i | r <= i < |s| ensures x <= s[i][dim] {
      assert x <= s[r][dim] <= s[i][dim];
    }
  }

  /** `binSearch`: the index of the first point whose coordinate `dim` is at least `from[dim]`. */
  method BinSearch(points: seq<Point>, from: Point, dim: nat) returns (r: int)
    requires Wide(points, dim + 1) && dim < |from|
    ensures 0 <= r <= |points|
    ensures r > 0 ==> points[r - 1][dim] < from[dim]
    ensures r < |points| ==> from[dim] <= points[r][dim]
    ensures SortedBy(points, dim) ==> r == LowerBound(points, from[dim], dim)
  {
    var l := -1;
    r := |points|;
    ghost var sorted := SortedBy(points, dim);
    while r - l > 1
      invariant -1 <= l < r <= |points|
      invariant l >= 0 ==> points[l][dim] < from[dim]
      invariant r < |points| ==> from[dim] <= points[r][dim]
      invariant sorted ==> forall i :: 0 <= i <= l ==> points[i][dim] < from[dim]
    {
      var m := (l + r) / 2;
      if points[m][dim] >= from[dim] {
        r := m;
      } else {
        l := m;
      }
    }
    if sorted {
      LowerBoundUnique(points, from[dim], dim, r);
    }
  }

  /** The merge by coordinate `dim` of what remains of `left` from `l` and of `right` from
      `r`, one element per step of the loop of `merge`; on equal coordinates the left element
      goes first. */
  function MergedFrom(left: seq<Point>, right: seq<Point>, l: nat, r: nat, dim: nat): (m: seq<Point>)
    requires Wide(left, dim + 1) && Wide(right, dim + 1) && l <= |left| && r <= |right|
    ensures |m| == |left| - l + |right| - r
    decreases |left| - l + |right| - r
  {
    if l < |left| && r < |right| then
      if left[l][dim] <= right[r][dim] then [left[l]] + MergedFrom(left, right, l + 1, r, dim)
      else [right[r]] + MergedFrom(left, right, l, r + 1, dim)
    else if l < |left| then [left[l]] + MergedFrom(left, right, l + 1, r, dim)
    else if r < |right| then [right[r]] + MergedFrom(left, right, l, r + 1, dim)
    else []
  }

  /** The merge of two whole lists. */
  function Merged(left: seq<Point>, right: seq<Point>, dim: nat): seq<Point>
    requires Wide(left, dim + 1) && Wide(right, dim + 1)
  {
    MergedFrom(left, right, 0, 0, dim)
  }

  /** A merge holds every remaining element of both inputs, as often as they do. */
  lemma {:induction false} MergedFromCount(left: seq<Point>, right: seq<Point>, l: nat, r: nat, dim: nat, p: Point)
    requires Wide(left, dim + 1) && Wide(right, dim + 1) && l <= |left| && r <= |right|
    ensures multiset(MergedFrom(left, right, l, r, dim))[p] == multiset(left[l..])[p] + multiset(right[r..])[p]
    decreases |left| - l + |right| - r, 1
  {
    if l < |left| && (r == |right| || left[l][dim] <= right[r][dim]) {
      LeftCount(left, right, l, r, dim, p);
    } else if r < |right| {
      RightCount(left, right, l, r, dim, p);
    }
  }

  lemma {:induction false} LeftCount(left: seq<Point>, right: seq<Point>, l: nat, r: nat, dim: nat, p: Point)
    requires Wide(left, dim + 1) && Wide(right, dim + 1) && l < |left| && r <= |right|
    requires r == |right| || left[l][dim] <= right[r][dim]
    ensures multiset(MergedFrom(left, right, l, r, dim))[p] == multiset(left[l..])[p] + multiset(right[r..])[p]
    decreases |left| - l + |right| - r, 0
  {
    MergedFromCount(left, right, l + 1, r, dim, p);
    CountHead(MergedFrom(left, right, l, r, dim), MergedFrom(left, right, l + 1, r, dim), left, l, p);
  }

  lemma {:induction false} RightCount(left: seq<Point>, right: seq<Point>, l: nat, r: nat, dim: nat, p: Point)
    requires Wide(left, dim + 1) && Wide(right, dim + 1) && l <= |left| && r < |right|
    requires l == |left| || left[l][dim] > right[r][dim]
    ensures multiset(MergedFrom(left, right, l, r, dim))[p] == multiset(left[l..])[p] + multiset(right[r..])[p]
    decreases |left| - l + |right| - r, 0
  {
    MergedFromCount(left, right, l, r + 1, dim, p);
    CountHead(MergedFrom(left, right, l, r, dim), MergedFrom(left, right, l, r + 1, dim), right, r, p);
  }

  /** Counting a point in a list that starts with the element at `i` of `s`. */
  lemma CountHead(m: seq<Point>, tail: seq<Point>, s: seq<Point>, i: nat, p: Point)
    requires i < |s| && m == [s[i]] + tail
    ensures multiset(m)[p] + multiset(s[i + 1..])[p] == multiset(s[i..])[p] + multiset(tail)[p]
  {
    assert s[i..] == [s[i]] + s[i + 1..];
  }

  lemma MergedPerm(left: seq<Point>, right: seq<Point>, dim: nat)
    requires Wide(left, dim + 1) && Wide(right, dim + 1)
    ensures |Merged(left, right, dim)| == |left| + |right|
    ensures multiset(Merged(left, right, dim)) == multiset(left) + multiset(right)
  {
    assert left[0..] == left && right[0..] == right;
    forall p ensures multiset(Merged(left, right, dim))[p] == (multiset(left) + multiset(right))[p] {
      MergedFromCount(left, right, 0, 0, dim, p);
    }
  }

  /** Every element of a merge is at least `v` when every remaining element of both inputs is. */
  lemma {:induction false} MergedAbove(left: seq<Point>, right: seq<Point>, l: nat, r: nat, dim: nat, v: int)
    requires Wide(left, dim + 1) && Wide(right, dim + 1) && l <= |left| && r <= |right|
    requires forall i :: l <= i < |left| ==> v <= left[i][dim]
    requires forall i :: r <= i < |right| ==> v <= right[i][dim]
    ensures forall i :: 0 <= i < |left| - l + |right| - r ==>
              dim < |MergedFrom(left, right, l, r, dim)[i]| && v <= MergedFrom(left, right, l, r, dim)[i][dim]
    decreases |left| - l + |right| - r
  {
    if l < |left| && (r == |right| || left[l][dim] <= right[r][dim]) {
      MergedAbove(left, right, l + 1, r, dim, v);
    } else if r < |right| {
      MergedAbove(left, right, l, r + 1, dim, v);
    }
  }

  /** Merging what remains of two ascending lists gives an ascending list. */
  lemma {:induction false} MergedFromSorted(left: seq<Point>, right: seq<Point>, l: nat, r: nat, dim: nat)
    requires SortedBy(left, dim) && SortedBy(right, dim) && l <= |left| && r <= |right|
    ensures SortedBy(MergedFrom(left, right, l, r, dim), dim)
    decreases |left| - l + |right| - r, 1
  {
    if l < |left| && (r == |right| || left[l][dim] <= right[r][dim]) {
      LeftSorted(left, right, l, r, dim);
    } else if r < |right| {
      RightSorted(left, right, l, r, dim);
    }
  }

  lemma {:induction false} LeftSorted(left: seq<Point>, right: seq<Point>, l: nat, r: nat, dim: nat)
    requires SortedBy(left, dim) && SortedBy(right, dim) && l < |left| && r <= |right|
    requires r == |right| || left[l][dim] <= right[r][dim]
    ensures SortedBy(MergedFrom(left, right, l, r, dim), dim)
    decreases |left| - l + |right| - r, 0
  {
    MergedFromSorted(left, right, l + 1, r, dim);
    MergedAbove(left, right, l + 1, r, dim, left[l][dim]);
    SortedCons(MergedFrom(left, right, l, r, dim), left[l], MergedFrom(left, right, l + 1, r, dim), dim);
  }

  lemma {:induction false} RightSorted(left: seq<Point>, right: seq<Point>, l: nat, r: nat, dim: nat)
    requires SortedBy(left, dim) && SortedBy(right, dim) && l <= |left| && r < |right|
    requires l == |left| || left[l][dim] > right[r][dim]
    ensures SortedBy(MergedFrom(left, right, l, r, dim), dim)
    decreases |left| - l + |right| - r, 0
  {
    MergedFromSorted(left, right, l, r + 1, dim);
    MergedAbove(left, right, l, r + 1, dim, right[r][dim]);
    SortedCons(MergedFrom(left, right, l, r, dim), right[r], MergedFrom(left, right, l, r + 1, dim), dim);
  }

  /** An element no greater than anything in an ascending list may be put in front of it. */
  lemma SortedCons(m: seq<Point>, head: Point, rest: seq<Point>, dim: nat)
    requires m == [head] + rest && dim < |head| && SortedBy(rest, dim)
    requires forall i :: 0 <= i < |rest| ==> head[dim] <= rest[i][dim]
    ensures SortedBy(m, dim)
  {
    assert forall j :: 0 < j < |m| ==> m[j] == rest[j - 1];
  }

  lemma MergedSorted(left: seq<Point>, right: seq<Point>, dim: nat)
    requires SortedBy(left, dim) && SortedBy(right, dim)
    ensures SortedBy(Merged(left, right, dim), dim)
  {
    MergedFromSorted(left, right, 0, 0, dim);
  }

  /** Moving the head of what remains to the end of what is done keeps their concatenation. */
  lemma MoveHead(done: seq<Point>, x: Point, rest: seq<Point>, tail: seq<Point>)
    requires rest == [x] + tail
    ensures done + rest == (done + [x]) + tail
  {
  }

  /** `merge`: the loop that fills the result list from two cursors. */
  method Merge(left: seq<Point>, right: seq<Point>, dim: nat) returns (result: seq<Point>)
    requires Wide(left, dim + 1) && Wide(right, dim + 1)
    ensures result == Merged(left, right, dim)
  {
    result := [];
    var l, r := 0, 0;
    while l < |left| || r < |right|
      invariant 0 <= l <= |left| && 0 <= r <= |right|
      invariant result + MergedFrom(left, right, l, r, dim) == Merged(left, right, dim)
      decreases |left| - l + |right| - r
    {
      ghost var rest := MergedFrom(left, right, l, r, dim);
      if l < |left| && r < |right| {
        if left[l][dim] <= right[r][dim] {
          MoveHead(result, left[l], rest, MergedFrom(left, right, l + 1, r, dim));
          result := result + [left[l]];
          l := l + 1;
        } else {
          MoveHead(result, right[r], rest, MergedFrom(left, right, l, r + 1, dim));
          result := result + [right[r]];
          r := r + 1;
        }
      } else if l < |left| {
        MoveHead(result, left[l], rest, MergedFrom(left, right, l + 1, r, dim));
        result := result + [left[l]];
        l := l + 1;
      } else {
        MoveHead(result, right[r], rest, MergedFrom(left, right, l, r + 1, dim));
        result := result + [right[r]];
        r := r + 1;
      }
    }
  }

  /** `refs` bridges `points` to `subPoints`: entry `i` is the lower bound in `subPoints` of
      `points[i]` on coordinate 0, and a final sentinel entry holds `|subPoints|`. */
  ghost predicate IsBridge(refs: seq<int>, points: seq<Point>, subPoints: seq<Point>)
    requires Wide(points, 1) && Wide(subPoints, 1)
  {
    |refs| == |points| + 1 && refs[|points|] == |subPoints| &&
    forall i {:trigger refs[i]} :: 0 <= i < |points| ==> refs[i] == LowerBound(subPoints, points[i][0], 0)
  }

  /** `buildRef`: one cursor into `subPoints` advanced while it is below the current point. */
  method BuildRef(points: seq<Point>, subPoints: seq<Point>) returns (refs: seq<int>)
    requires Wide(points, 1) && Wide(subPoints, 1)
    ensures |refs| == |points| + 1 && refs[|points|] == |subPoints|
    ensures forall i :: 0 <= i < |refs| ==> 0 <= refs[i] <= |subPoints|
    ensures forall i, j :: 0 <= i < j < |refs| ==> refs[i] <= refs[j]
    ensures SortedBy(points, 0) ==> IsBridge(refs, points, subPoints)
  {
    var arr := new int[|points| + 1];
    arr[|points|] := |subPoints|;
    ghost var sorted := SortedBy(points, 0);
    var ref := 0;
    for i := 0 to |points|
      invariant 0 <= ref <= |subPoints|
      invariant arr[|points|] == |subPoints|
      invariant forall k :: 0 <= k < i ==> 0 <= arr[k] <= ref
      invariant forall k, m :: 0 <= k < m < i ==> arr[k] <= arr[m]
      invariant sorted ==> forall k :: 0 <= k < i ==> arr[k] == LowerBound(subPoints, points[k][0], 0)
      invariant sorted && i < |points| ==> forall j :: 0 <= j < ref ==> subPoints[j][0] < points[i][0]
    {
      ref := Advance(subPoints, ref, points[i][0]);
      arr[i] := ref;
      if sorted {
        LowerBoundUnique(subPoints, points[i][0], 0, ref);
      }
    }
    refs := arr[..];
  }

  /** The inner loop of `buildRef`: moves the cursor past the points of `subPoints` below `x`. */
  method Advance(subPoints: seq<Point>, ref0: nat, x: int) returns (ref: nat)
    requires Wide(subPoints, 1) && ref0 <= |subPoints|
    ensures ref0 <= ref <= |subPoints|
    ensures forall j :: ref0 <= j < ref ==> subPoints[j][0] < x
    ensures ref < |subPoints| ==> x <= subPoints[ref][0]
  {
    ref := ref0;
    while ref < |subPoints| && x > subPoints[ref][0]
      invariant ref0 <= ref <= |subPoints|
      invariant forall j :: ref0 <= j < ref ==> subPoints[j][0] < x
    {
      ref := ref + 1;
    }
  }

  /** The end of the forward scan from `i`: the first index at or after `i` whose coordinate 0
      is outside `[from0, to0]` (`|points|` if there is none). */
  function ScanEnd(points: seq<Point>, i: nat, from0: int, to0: int): (j: nat)
    requires i <= |points| && Wide(points, 1)
    ensures i <= j <= |points|
    ensures forall k :: i <= k < j ==> Inside(points[k][0], from0, to0)
    ensures j < |points| ==> !Inside(points[j][0], from0, to0)
    decreases |points| - i
  {
    if i < |points| && Inside(points[i][0], from0, to0) then ScanEnd(points, i + 1, from0, to0) else i
  }

  /** The loop of a fully contained cascade node: collect points from `hint` while coordinate 0 is inside. */
  method Scan(points: seq<Point>, hint: nat, from: Point, to: Point) returns (result: seq<Point>)
    requires hint <= |points| && Wide(points, 1) && 1 <= |from| && 1 <= |to|
    ensures result == points[hint..ScanEnd(points, hint, from[0], to[0])]
  {
    result := [];
    var i := hint;
    while i < |points| && Inside(points[i][0], from[0], to[0])
      invariant hint <= i <= |points|
      invariant result == points[hint..i]
      invariant ScanEnd(points, i, from[0], to[0]) == ScanEnd(points, hint, from[0], to[0])
    {
      result := result + [points[i]];
      i := i + 1;
    }
  }

  /** Two thresholds that split a sequence the same way have the same lower bound. */
  lemma LowerBoundCongruent(s: seq<Point>, x: int, y: int, dim: nat)
    requires Wide(s, dim + 1)
    requires forall i :: 0 <= i < |s| ==> (s[i][dim] < x <==> s[i][dim] < y)
    ensures LowerBound(s, x, dim) == LowerBound(s, y, dim)
  {
    LowerBoundUnique(s, y, dim, LowerBound(s, x, dim));
  }

  /** The bridge step of fractional cascading: at the lower bound of `x` in a sorted `points`,
      a bridge into any `subPoints` drawn from `points` holds the lower bound of `x` in `subPoints`. */
  lemma BridgeStep(refs: seq<int>, points: seq<Point>, subPoints: seq<Point>, x: int)
    requires SortedBy(points, 0) && Wide(subPoints, 1) && IsBridge(refs, points, subPoints)
    requires multiset(subPoints) <= multiset(points)
    ensures refs[LowerBound(points, x, 0)] == LowerBound(subPoints, x, 0)
  {
    LowerBoundSorted(points, x, 0);
    if LowerBound(points, x, 0) == |points| {
      BridgeEnd(points, subPoints, x);
    } else {
      BridgeInner(points, subPoints, x);
    }
  }

  /** An element of `subPoints` drawn from `points` sits at some index of `points`. */
  lemma DrawnFrom(points: seq<Point>, subPoints: seq<Point>, j: nat) returns (m: nat)
    requires multiset(subPoints) <= multiset(points) && j < |subPoints|
    ensures m < |points| && points[m] == subPoints[j]
  {
    assert subPoints[j] in multiset(points);
    m :| 0 <= m < |points| && points[m] == subPoints[j];
  }

  /** When every point is below `x`, so is every point drawn from them. */
  lemma BridgeEnd(points: seq<Point>, subPoints: seq<Point>, x: int)
    requires Wide(points, 1) && Wide(subPoints, 1) && multiset(subPoints) <= multiset(points)
    requires LowerBound(points, x, 0) == |points|
    ensures LowerBound(subPoints, x, 0) == |subPoints|
  {
    forall j | 0 <= j < |subPoints| ensures subPoints[j][0] < x {
      var m := DrawnFrom(points, subPoints, j);
    }
    LowerBoundUnique(subPoints, x, 0, |subPoints|);
  }

  /** Below the lower bound `h` of `x` in a sorted `points`, a point drawn from them is below
      `x` exactly when it is below `points[h]`. */
  lemma BridgeInner(points: seq<Point>, subPoints: seq<Point>, x: int)
    requires SortedBy(points, 0) && Wide(subPoints, 1) && multiset(subPoints) <= multiset(points)
    requires LowerBound(points, x, 0) < |points|
    requires forall i :: LowerBound(points, x, 0) <= i < |points| ==> x <= points[i][0]
    ensures LowerBound(subPoints, points[LowerBound(points, x, 0)][0], 0) == LowerBound(subPoints, x, 0)
  {
    var h := LowerBound(points, x, 0);
    var y := points[h][0];
    forall j | 0 <= j < |subPoints| ensures subPoints[j][0] < x <==> subPoints[j][0] < y {
      var m := DrawnFrom(points, subPoints, j);
      if m >= h {
        assert y <= points[m][0];
      }
    }
    LowerBoundCongruent(subPoints, x, y, 0);
  }

  /** On a sorted sequence the forward scan from the lower bound of `from[0]` yields exactly the
      points whose coordinate 0 lies in `[from[0], to[0]]`, in order. */
  lemma ScanFilters(points: seq<Point>, from: Point, to: Point)
    requires SortedBy(points, 0) && 1 <= |from| && 1 <= |to|
    ensures points[LowerBound(points, from[0], 0)..ScanEnd(points, LowerBound(points, from[0], 0), from[0], to[0])]
            == Naive(points, from, to, 1)
  {
    var h := LowerBound(points, from[0], 0);
    var e := ScanEnd(points, h, from[0], to[0]);
    ScanBefore(points, from, to, h);
    ScanWithin(points, from, to, h, e);
    ScanTail(points, from, to, h, e);
    NaiveSplit(points, from, to, 1, h, e);
  }

  /** Before the lower bound nothing lies in the range. */
  lemma ScanBefore(points: seq<Point>, from: Point, to: Point, h: nat)
    requires Wide(points, 1) && 1 <= |from| && 1 <= |to| && h == LowerBound(points, from[0], 0)
    ensures Naive(points[..h], from, to, 1) == []
  {
    var a := points[..h];
    forall i | 0 <= i < |a| ensures !Between(a[i], from, to, 1) {
      assert a[i] == points[i];
      assert !Inside(a[i][0], from[0], to[0]);
    }
    NaiveNone(a, from, to, 1);
  }

  /** Up to the end of the scan everything lies in the range. */
  lemma ScanWithin(points: seq<Point>, from: Point, to: Point, h: nat, e: nat)
    requires Wide(points, 1) && 1 <= |from| && 1 <= |to|
    requires h <= e <= |points| && forall k :: h <= k < e ==> Inside(points[k][0], from[0], to[0])
    ensures Naive(points[h..e], from, to, 1) == points[h..e]
  {
    var b := points[h..e];
    forall i | 0 <= i < |b| ensures Between(b[i], from, to, 1) {
      assert b[i] == points[h + i];
      assert Inside(b[i][0], from[0], to[0]);
    }
    NaiveAll(b, from, to, 1);
  }

  /** Past the end of the scan nothing of a sorted sequence lies in the range. */
  lemma ScanTail(points: seq<Point>, from: Point, to: Point, h: nat, e: nat)
    requires SortedBy(points, 0) && 1 <= |from| && 1 <= |to|
    requires h == LowerBound(points, from[0], 0) && e == ScanEnd(points, h, from[0], to[0])
    ensures Naive(points[e..], from, to, 1) == []
  {
    var c := points[e..];
    if e < |points| {
      LowerBoundSorted(points, from[0], 0);
      assert to[0] < points[e][0];
      forall i | 0 <= i < |c| ensures !Between(c[i], from, to, 1) {
        assert c[i] == points[e + i];
        assert points[e][0] <= points[e + i][0];
        assert !Inside(c[i][0], from[0], to[0]);
      }
    }
    NaiveNone(c, from, to, 1);
  }

  /** `concat`: the left collection followed by the right one. */
  function Concat(left: seq<Point>, right: seq<Point>): (r: seq<Point>)
    ensures |r| == |left| + |right|
    ensures multiset(r) == multiset(left) + multiset(right)
  {
    left + right
  }
}
