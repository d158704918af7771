/** Points, the brute-force range filter used as the specification of a query,
    and the lexicographic point order the tree is built from. */
module Points {

  /** A point is its coordinate vector; coordinate `i` is `p[i]`. */
  type Point = seq<int>

  /** Every point of `s` has at least `n` coordinates. */
  ghost predicate Wide(s: seq<Point>, n: nat) {
    forall i :: 0 <= i < |s| ==> n <= |s[i]|
  }

  /** `inside`: the closed interval test on one coordinate. */
  predicate Inside(coord: int, from: int, to: int) {
    from <= coord && coord <= to
  }

  /** The brute-force `between`: `p` lies in the closed box on dimensions `0 .. dims-1`. */
  predicate Between(p: Point, from: Point, to: Point, dims: nat)
    requires dims <= |p| && dims <= |from| && dims <= |to|
  {
    forall i :: 0 <= i < dims ==> Inside(p[i], from[i], to[i])
  }

  /** `p` has the coordinates `0 .. dims-1` and lies in the box on them. */
  predicate InBox(p: Point, from: Point, to: Point, dims: nat)
    requires dims <= |from| && dims <= |to|
  {
    dims <= |p| && Between(p, from, to, dims)
  }

  /** The brute-force `naive` filter: the points of `all` in the box, in order. */
  function Naive(all: seq<Point>, from: Point, to: Point, dims: nat): seq<Point>
    requires Wide(all, dims) && dims <= |from| && dims <= |to|
  {
    if |all| == 0 then []
    else (if Between(all[0], from, to, dims) then [all[0]] else []) + Naive(all[1..], from, to, dims)
  }

  lemma {:induction false} NaiveAppend(a: seq<Point>, b: seq<Point>, from: Point, to: Point, dims: nat)
    requires Wide(a, dims) && Wide(b, dims) && dims <= |from| && dims <= |to|
    ensures Wide(a + b, dims)
    ensures Naive(a + b, from, to, dims) == Naive(a, from, to, dims) + Naive(b, from, to, dims)
  {
    if |a| > 0 {
      assert (a + b)[1..] == a[1..] + b;
      NaiveAppend(a[1..], b, from, to, dims);
    } else {
      assert a + b == b;
    }
  }

  /** The filter of a sequence is the filters of three consecutive pieces of it, concatenated. */
  lemma NaiveSplit(s: seq<Point>, from: Point, to: Point, dims: nat, x: nat, y: nat)
    requires Wide(s, dims) && dims <= |from| && dims <= |to| && x <= y <= |s|
    ensures Naive(s, from, to, dims) ==
            Naive(s[..x], from, to, dims) + Naive(s[x..y], from, to, dims) + Naive(s[y..], from, to, dims)
  {
    assert s == s[..x] + s[x..];
    assert s[x..] == s[x..y] + s[y..];
    NaiveAppend(s[..x], s[x..], from, to, dims);
    NaiveAppend(s[x..y], s[y..], from, to, dims);
  }

  /** A point occurs in the filtered sequence as often as in the input when it is in the box, otherwise never. */
  lemma {:induction false} NaiveCount(s: seq<Point>, from: Point, to: Point, dims: nat, p: Point)
    requires Wide(s, dims) && dims <= |from| && dims <= |to|
    ensures multiset(Naive(s, from, to, dims))[p] == if InBox(p, from, to, dims) then multiset(s)[p] else 0
  {
    if |s| > 0 {
      NaiveCount(s[1..], from, to, dims, p);
      assert s == [s[0]] + s[1..];
    }
  }

  /** The filter only depends on the multiset of its input. */
  lemma NaivePerm(s: seq<Point>, t: seq<Point>, from: Point, to: Point, dims: nat)
    requires Wide(s, dims) && Wide(t, dims) && dims <= |from| && dims <= |to|
    requires multiset(s) == multiset(t)
    ensures multiset(Naive(s, from, to, dims)) == multiset(Naive(t, from, to, dims))
  {
    forall p ensures multiset(Naive(s, from, to, dims))[p] == multiset(Naive(t, from, to, dims))[p] {
      NaiveCount(s, from, to, dims, p);
      NaiveCount(t, from, to, dims, p);
    }
  }

  lemma {:induction false} NaiveNone(s: seq<Point>, from: Point, to: Point, dims: nat)
    requires Wide(s, dims) && dims <= |from| && dims <= |to|
    requires forall i :: 0 <= i < |s| ==> !Between(s[i], from, to, dims)
    ensures Naive(s, from, to, dims) == []
  {
    if |s| > 0 {
      NaiveNone(s[1..], from, to, dims);
    }
  }

  lemma {:induction false} NaiveAll(s: seq<Point>, from: Point, to: Point, dims: nat)
    requires Wide(s, dims) && dims <= |from| && dims <= |to|
    requires forall i :: 0 <= i < |s| ==> Between(s[i], from, to, dims)
    ensures Naive(s, from, to, dims) == s
  {
    if |s| > 0 {
      NaiveAll(s[1..], from, to, dims);
      assert s == [s[0]] + s[1..];
    }
  }

  /** When every point already satisfies the bound on dimension `k`, checking it changes nothing. */
  lemma {:induction false} NaiveDrop(s: seq<Point>, from: Point, to: Point, k: nat)
    requires Wide(s, k + 1) && k < |from| && k < |to|
    requires forall i :: 0 <= i < |s| ==> Inside(s[i][k], from[k], to[k])
    ensures Naive(s, from, to, k + 1) == Naive(s, from, to, k)
  {
    if |s| > 0 {
      NaiveDrop(s[1..], from, to, k);
      var p := s[0];
      assert Between(p, from, to, k + 1) == Between(p, from, to, k) by {
        if Between(p, from, to, k) {
          forall i | 0 <= i < k + 1 ensures Inside(p[i], from[i], to[i]) {
            if i < k { assert Inside(p[i], from[i], to[i]); }
          }
        }
      }
    }
  }

  /** A point within the bounds of dimension `k` is in the box on `0 .. k` exactly when it is
      in the box on `0 .. k-1`. */
  lemma InBoxStep(p: Point, from: Point, to: Point, k: nat)
    requires k < |p| && k < |from| && k < |to|
    requires Inside(p[k], from[k], to[k])
    ensures InBox(p, from, to, k + 1) == InBox(p, from, to, k)
  {
    if InBox(p, from, to, k) {
      forall i | 0 <= i < k + 1 ensures Inside(p[i], from[i], to[i]) {
        if i < k { assert Inside(p[i], from[i], to[i]); }
      }
    }
  }

  /** A point outside the bounds of dimension `k` is not in the box on `0 .. k`. */
  lemma InBoxOutside(p: Point, from: Point, to: Point, k: nat)
    requires k < |p| && k < |from| && k < |to|
    requires !Inside(p[k], from[k], to[k])
    ensures !InBox(p, from, to, k + 1)
  {
  }

  /** `Double.compare` on one pair of coordinates. */
  function CompareCoord(x: int, y: int): (c: int)
    ensures c < 0 <==> x < y
    ensures c == 0 <==> x == y
    ensures -1 <= c <= 1
  {
    if x < y then -1 else if x > y then 1 else 0
  }

  /** The coordinates `0 .. i-1` compared lexicographically from the highest index down. */
  function CompareFrom(a: Point, b: Point, i: nat): (c: int)
    requires i <= |a| && i <= |b|
    ensures -1 <= c <= 1
    ensures c == 0 <==> a[..i] == b[..i]
    decreases i
  {
    if i == 0 then 0
    else if a[i - 1] != b[i - 1] then CompareCoord(a[i - 1], b[i - 1])
    else
      assert a[..i] == a[..i - 1] + [a[i - 1]] && b[..i] == b[..i - 1] + [b[i - 1]];
      CompareFrom(a, b, i - 1)
  }

  /** `POINT_COMPARATOR`: by number of coordinates, then from the highest dimension down. */
  function ComparePoints(a: Point, b: Point): (c: int)
    ensures -1 <= c <= 1
    ensures c == 0 <==> a == b
  {
    if |a| != |b| then (if |a| < |b| then -1 else 1)
    else
      assert a[..|a|] == a && b[..|b|] == b;
      CompareFrom(a, b, |a|)
  }

  lemma {:induction false} CompareFromAntisymmetric(a: Point, b: Point, i: nat)
    requires i <= |a| && i <= |b|
    ensures CompareFrom(a, b, i) == -CompareFrom(b, a, i)
    decreases i
  {
    if i > 0 && a[i - 1] == b[i - 1] {
      CompareFromAntisymmetric(a, b, i - 1);
    }
  }

  lemma ComparePointsAntisymmetric(a: Point, b: Point)
    ensures ComparePoints(a, b) == -ComparePoints(b, a)
  {
    if |a| == |b| {
      CompareFromAntisymmetric(a, b, |a|);
    }
  }

  lemma {:induction false} CompareFromTransitive(a: Point, b: Point, c: Point, i: nat)
    requires i <= |a| && i <= |b| && i <= |c|
    requires CompareFrom(a, b, i) <= 0 && CompareFrom(b, c, i) <= 0
    ensures CompareFrom(a, c, i) <= 0
    decreases i
  {
    if i > 0 && a[i - 1] == b[i - 1] && b[i - 1] == c[i - 1] {
      CompareFromTransitive(a, b, c, i - 1);
    }
  }

  /** The point order is transitive, so with antisymmetry and `ComparePoints(a, a) == 0` it is
      the total order a `Comparator` must be. */
  lemma ComparePointsTransitive(a: Point, b: Point, c: Point)
    requires ComparePoints(a, b) <= 0 && ComparePoints(b, c) <= 0
    ensures ComparePoints(a, c) <= 0
  {
    if |a| == |b| == |c| {
      CompareFromTransitive(a, b, c, |a|);
    }
  }

  /** The loop of `POINT_COMPARATOR`, from the highest coordinate down. */
  method PointComparator(a: Point, b: Point) returns (c: int)
    ensures c == ComparePoints(a, b)
  {
    if |a| != |b| {
      return if |a| < |b| then -1 else 1;
    }
    for i := |a| downto 0
      invariant ComparePoints(a, b) == CompareFrom(a, b, i)
    {
      if a[i] != b[i] {
        return CompareCoord(a[i], b[i]);
      }
    }
    return 0;
  }
}
