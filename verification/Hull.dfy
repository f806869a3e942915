/** d3's convex hull: the monotone chain over points sorted by x. */
module Hull {
  import opened Basics

  datatype Point = Point(x: real, y: real)

  function Minus(a: Point, b: Point): Point { Point(a.x - b.x, a.y - b.y) }

  function Det(p: Point, q: Point): real { p.x * q.y - p.y * q.x }

  /** Twice the signed area of the triangle a, b, c. */
  function Cross2d(a: Point, b: Point, c: Point): real {
    (b.x - a.x) * (c.y - a.y) - (b.y - a.y) * (c.x - a.x)
  }

  lemma CrossIsDet(a: Point, b: Point, c: Point)
    ensures Cross2d(a, b, c) == Det(Minus(b, a), Minus(c, a)) == Det(Minus(b, a), Minus(c, b))
    ensures Cross2d(a, c, b) == -Cross2d(a, b, c)
    ensures Cross2d(b, c, a) == Cross2d(a, b, c)
  {
    assert (b.x - a.x) * (c.y - a.y) - (b.y - a.y) * (c.x - a.x)
        == (b.x - a.x) * (c.y - b.y) - (b.y - a.y) * (c.x - b.x);
  }

  // ---------------------------------------------------------------- directions

  /** Rightward, with vertical vectors pointing one way: up, or down in a mirrored copy. */
  predicate Forward(p: Point, up: bool) { p.x > 0.0 || (p.x == 0.0 && (if up then p.y >= 0.0 else p.y <= 0.0)) }

  const Zero := Point(0.0, 0.0)

  lemma Plucker(p: Point, q: Point, r: Point)
    ensures Det(p, r) * q.x == Det(q, r) * p.x + Det(p, q) * r.x
  {
  }

  /** Among forward vectors, turning left is transitive. */
  lemma Turn(p: Point, q: Point, r: Point, up: bool)
    requires Forward(p, up) && Forward(q, up) && Forward(r, up) && q != Zero
    requires Det(p, q) >= 0.0 && Det(q, r) >= 0.0
    ensures Det(p, r) >= 0.0
  {
    Plucker(p, q, r);
    if q.x == 0.0 {
      Vertical(p, q, r, up);
    } else {
      assert Det(q, r) * p.x >= 0.0 && Det(p, q) * r.x >= 0.0;
      SignOfFactor(Det(p, r), q.x);
    }
  }

  lemma SignOfFactor(d: real, x: real)
    requires x > 0.0 && d * x >= 0.0
    ensures d >= 0.0
  {
  }

  lemma Vertical(p: Point, q: Point, r: Point, up: bool)
    requires Forward(p, up) && Forward(q, up) && Forward(r, up) && q != Zero && q.x == 0.0
    requires Det(p, q) >= 0.0 && Det(q, r) >= 0.0
    ensures Det(p, r) >= 0.0
    ensures Det(p, q) == 0.0 || Det(q, r) == 0.0
  {
    if up {
      assert q.y > 0.0 && q.y * r.x <= 0.0;
      assert r.x == 0.0;
      assert p.x * r.y >= 0.0;
    } else {
      assert q.y < 0.0 && p.x * q.y >= 0.0;
      assert p.x == 0.0;
      assert p.y * r.x <= 0.0;
    }
  }

  lemma StrictTurn(p: Point, q: Point, r: Point, up: bool)
    requires Forward(p, up) && Forward(q, up) && Forward(r, up)
    requires Det(p, q) > 0.0 && Det(q, r) > 0.0
    ensures Det(p, r) > 0.0
  {
  }

  // ---------------------------------------------------------------- sorted points

  /** Sorted by x, and points with the same x all upwards or all downwards. */
  predicate Sorted(points: seq<Point>, up: bool) {
    forall i, j :: 0 <= i <= j < |points| ==> Forward(Minus(points[j], points[i]), up)
  }

  /** The turn at b from a to c, for three positions. */
  function Turns(points: seq<Point>, a: nat, b: nat, c: nat): real
    requires a < |points| && b < |points| && c < |points|
  {
    Cross2d(points[a], points[b], points[c])
  }

  /** No point up to n lies to the right of the edge from a to b. */
  ghost predicate Supports(points: seq<Point>, a: nat, b: nat, n: nat)
    requires a < |points| && b < |points| && n <= |points|
  {
    forall k :: 0 <= k < n ==> Turns(points, a, b, k) >= 0.0
  }

  /** A chain of increasing positions below n, strictly turning left, with no point to its right. */
  ghost predicate Chain(points: seq<Point>, h: seq<nat>, n: nat)
    requires n <= |points|
  {
    && (forall j :: 0 <= j < |h| ==> h[j] < n)
    && (forall i, j :: 0 <= i < j < |h| ==> h[i] < h[j])
    && (forall j :: 0 <= j < |h| - 2 ==> Turns(points, h[j], h[j + 1], h[j + 2]) > 0.0)
    && (forall j :: 0 <= j < |h| - 1 ==> Supports(points, h[j], h[j + 1], n))
  }

  /** Two edges that each turn left at their common end from a: so does the step over the middle one. */
  lemma LeftOfEarlier(points: seq<Point>, a: nat, b: nat, c: nat, i: nat, up: bool)
    requires Sorted(points, up) && a <= b <= c <= i < |points|
    requires Turns(points, a, b, c) > 0.0 && Turns(points, b, c, i) > 0.0
    ensures Turns(points, a, b, i) > 0.0
  {
    var A, B, C, I := points[a], points[b], points[c], points[i];
    CrossIsDet(A, B, C);
    CrossIsDet(B, C, I);
    CrossIsDet(A, B, I);
    StrictTurn(Minus(B, A), Minus(C, B), Minus(I, C), up);
    assert Det(Minus(B, A), Minus(I, B)) == Det(Minus(B, A), Minus(C, B)) + Det(Minus(B, A), Minus(I, C));
  }

  /** A new point left of the last edge is left of every edge. */
  lemma {:induction false} LeftOfAll(points: seq<Point>, h: seq<nat>, i: nat, j: nat, up: bool)
    requires Sorted(points, up) && i < |points| && Chain(points, h, i) && j < |h| - 1
    requires Turns(points, h[|h| - 2], h[|h| - 1], i) > 0.0
    ensures Turns(points, h[j], h[j + 1], i) > 0.0
    decreases |h| - j
  {
    hide Sorted, Turns, Supports;
    if j < |h| - 2 {
      LeftOfAll(points, h, i, j + 1, up);
      LeftOfEarlier(points, h[j], h[j + 1], h[j + 2], i, up);
    }
  }

  /** Dropping b from between a and i: everything left of the edge from a to b is left of that from a to i. */
  lemma Dropped(points: seq<Point>, a: nat, b: nat, i: nat, k: nat, up: bool)
    requires Sorted(points, up) && a <= b <= i < |points| && a <= k <= i
    requires Turns(points, a, b, i) <= 0.0 && Turns(points, a, b, k) >= 0.0
    requires b <= k ==> Turns(points, b, i, k) >= 0.0
    ensures Turns(points, a, i, k) >= 0.0
  {
    var A, B, I, K := points[a], points[b], points[i], points[k];
    CrossIsDet(A, B, I);
    CrossIsDet(A, B, K);
    CrossIsDet(A, I, K);
    if Minus(B, A) == Zero {
      if k < b {
        assert Forward(Minus(K, A), up) && Forward(Minus(B, K), up);
        assert K == A;
      }
    } else {
      Turn(Minus(I, A), Minus(B, A), Minus(K, A), up);
    }
  }

  /** Points before the last chain point stay to the left of a new edge that turns left there. */
  lemma Behind(points: seq<Point>, a: nat, b: nat, i: nat, k: nat, up: bool)
    requires Sorted(points, up) && a <= b <= i < |points| && k <= b
    requires Turns(points, a, b, i) > 0.0 && Turns(points, a, b, k) >= 0.0
    ensures Turns(points, b, i, k) >= 0.0
  {
    var A, B, I, K := points[a], points[b], points[i], points[k];
    CrossIsDet(A, B, I);
    CrossIsDet(A, B, K);
    CrossIsDet(B, I, K);
    assert Det(Minus(B, K), Minus(B, A)) == Det(Minus(B, A), Minus(K, B));
    Turn(Minus(B, K), Minus(B, A), Minus(I, B), up);
    assert Det(Minus(B, K), Minus(I, B)) == Det(Minus(I, B), Minus(K, B));
  }

  /** Every point from the last chain point to i lies left of, or on, the step from it to i. */
  ghost predicate Shadowed(points: seq<Point>, b: nat, i: nat)
    requires b < |points| && i < |points|
  {
    forall k :: b <= k < i ==> Turns(points, b, i, k) >= 0.0
  }

  lemma FirstShadow(points: seq<Point>, b: nat, i: nat)
    requires i < |points| && b == i - 1
    ensures Shadowed(points, b, i)
  {
    assert Turns(points, b, i, b) == 0.0;
  }

  lemma Pop(points: seq<Point>, h: seq<nat>, i: nat, up: bool)
    requires Sorted(points, up) && i < |points| && |h| > 1 && Chain(points, h, i)
    requires Shadowed(points, h[|h| - 1], i) && Turns(points, h[|h| - 2], h[|h| - 1], i) <= 0.0
    ensures Chain(points, h[..|h| - 1], i) && Shadowed(points, h[|h| - 2], i)
  {
    var a, b := h[|h| - 2], h[|h| - 1];
    assert Supports(points, a, b, i);
    forall k | a <= k < i ensures Turns(points, a, i, k) >= 0.0 {
      Dropped(points, a, b, i, k, up);
    }
  }

  lemma NewEdge(points: seq<Point>, h: seq<nat>, i: nat, up: bool)
    requires Sorted(points, up) && i < |points| && |h| > 0 && h[0] == 0 && Chain(points, h, i)
    requires Shadowed(points, h[|h| - 1], i)
    requires |h| > 1 ==> Turns(points, h[|h| - 2], h[|h| - 1], i) > 0.0
    ensures Supports(points, h[|h| - 1], i, i + 1)
  {
    hide Sorted;
    var b := h[|h| - 1];
    assert Turns(points, b, i, i) == 0.0;
    hide Turns;
    forall k | 0 <= k < i ensures Turns(points, b, i, k) >= 0.0 {
      if k < b {
        assert Supports(points, h[|h| - 2], b, i);
        Behind(points, h[|h| - 2], b, i, k, up);
      }
    }
  }

  lemma OldEdge(points: seq<Point>, h: seq<nat>, i: nat, j: nat, up: bool)
    requires Sorted(points, up) && i < |points| && Chain(points, h, i) && j < |h| - 1
    requires Turns(points, h[|h| - 2], h[|h| - 1], i) > 0.0
    ensures Supports(points, h[j], h[j + 1], i + 1)
  {
    hide Sorted, Turns;
    assert Supports(points, h[j], h[j + 1], i);
    LeftOfAll(points, h, i, j, up);
  }

  lemma Push(points: seq<Point>, h: seq<nat>, i: nat, up: bool)
    requires Sorted(points, up) && i < |points| && |h| > 0 && h[0] == 0 && Chain(points, h, i)
    requires Shadowed(points, h[|h| - 1], i)
    requires |h| > 1 ==> Turns(points, h[|h| - 2], h[|h| - 1], i) > 0.0
    ensures Chain(points, h + [i], i + 1)
  {
    hide Sorted, Turns, Supports, Shadowed;
    NewEdge(points, h, i, up);
    forall j | 0 <= j < |h| - 1 ensures Supports(points, h[j], h[j + 1], i + 1) {
      OldEdge(points, h, i, j, up);
    }
    var h' := h + [i];
    assert forall j :: 0 <= j < |h| ==> h'[j] == h[j];
  }

  /** `d3_geom_hullUpper`: the chain from the first to the last point that has every point on or to the
      left of each of its edges, and turns strictly left at each of its points. */
  method HullUpper(points: seq<Point>, ghost up: bool) returns (chain: seq<nat>)
    requires |points| >= 2 && Sorted(points, up)
    ensures |chain| >= 2 && chain[0] == 0 && chain[|chain| - 1] == |points| - 1
    ensures Chain(points, chain, |points|)
  {
    hide Chain, Shadowed, Sorted, Cross2d;
    var n := |points|;
    var hull := new nat[n];
    hull[0], hull[1] := 0, 1;
    var hs := 2;
    assert hull[..hs] == [0, 1];
    StartChain(points);
    for i := 2 to n
      invariant 2 <= hs <= i && hull[0] == 0 && hull[hs - 1] == i - 1
      invariant Chain(points, hull[..hs], i)
    {
      Below(points, hull[..hs], i);
      FirstShadow(points, i - 1, i);
      while hs > 1 && Cross2d(points[hull[hs - 2]], points[hull[hs - 1]], points[i]) <= 0.0
        invariant 1 <= hs <= i && hull[0] == 0
        invariant Chain(points, hull[..hs], i)
        invariant (forall j :: 0 <= j < hs ==> hull[j] < i) && Shadowed(points, hull[hs - 1], i)
      {
        Pop(points, hull[..hs], i, up);
        assert hull[..hs][..hs - 1] == hull[..hs - 1];
        hs := hs - 1;
      }
      Push(points, hull[..hs], i, up);
      ghost var h := hull[..hs];
      hull[hs] := i;
      hs := hs + 1;
      assert hull[..hs] == h + [i];
    }
    chain := hull[..hs];
  }

  lemma Below(points: seq<Point>, h: seq<nat>, n: nat)
    requires n <= |points| && Chain(points, h, n)
    ensures forall j :: 0 <= j < |h| ==> h[j] < n
  {
  }

  lemma StartChain(points: seq<Point>)
    requires |points| >= 2
    ensures Chain(points, [0, 1], 2)
  {
    assert Turns(points, 0, 1, 0) == 0.0 && Turns(points, 0, 1, 1) == 0.0;
    hide Cross2d;
  }

  // ---------------------------------------------------------------- the whole hull

  /** The points mirrored at the x axis. */
  function Flipped(points: seq<Point>): (r: seq<Point>)
    ensures |r| == |points|
  {
    seq(|points|, i requires 0 <= i < |points| => Point(points[i].x, -points[i].y))
  }

  lemma FlippedSorted(points: seq<Point>, up: bool)
    requires Sorted(points, up)
    ensures Sorted(Flipped(points), !up)
  {
  }

  /** Mirroring turns left turns into right turns. */
  lemma FlippedTurns(points: seq<Point>, a: nat, b: nat, c: nat)
    requires a < |points| && b < |points| && c < |points|
    ensures Turns(Flipped(points), a, b, c) == -Turns(points, a, b, c)
  {
  }

  /** No point lies to the left of the edge from a to b. */
  ghost predicate Bounds(points: seq<Point>, a: nat, b: nat)
    requires a < |points| && b < |points|
  {
    forall k :: 0 <= k < |points| ==> Turns(points, a, b, k) <= 0.0
  }

  /** The position after j on a closed line of n points. */
  function After(j: nat, n: nat): nat { if j + 1 == n then 0 else j + 1 }

  function Before(j: nat, n: nat): nat
    requires n > 0
  {
    if j == 0 then n - 1 else j - 1
  }

  /** All points are on one line. */
  ghost predicate Collinear(points: seq<Point>) {
    forall i, j, k :: 0 <= i < |points| && 0 <= j < |points| && 0 <= k < |points| ==> Turns(points, i, j, k) == 0.0
  }

  /** `hull`: the upper chain backwards and the lower one without its ends.  Going round it, every point
      lies on or to the right of every edge, and it goes round only once. */
  method ConvexHull(points: seq<Point>) returns (polygon: seq<nat>)
    requires Sorted(points, true)
    ensures |points| < 3 ==> polygon == []
    ensures |points| >= 3 ==> |polygon| >= 2 && (forall j :: 0 <= j < |polygon| ==> polygon[j] < |points|)
    ensures forall j :: 0 <= j < |polygon| ==> Bounds(points, polygon[j], polygon[After(j, |polygon|)])
    ensures Distinct(polygon)
    ensures |points| >= 3 && !Collinear(points) ==> |polygon| >= 3 && CornersApart(points, polygon)
    ensures |points| >= 3 && !Collinear(points) ==> forall j :: 0 <= j < |polygon| ==>
              Turns(points, polygon[Before(j, |polygon|)], polygon[j], polygon[After(j, |polygon|)]) < 0.0
  {
    hide Chain, Bounds, Sorted, Collinear, Cross2d, Distinct, CornersApart;
    if |points| < 3 {
      NoneTwice();
      return [];
    }
    var upper := HullUpper(points, true);
    FlippedSorted(points, true);
    var lower := HullUpper(Flipped(points), false);
    polygon := [];
    var i := |upper| - 1;
    while i >= 0
      invariant -1 <= i < |upper|
      invariant polygon == Reversed(upper)[..|upper| - 1 - i]
    {
      polygon := polygon + [upper[i]];
      i := i - 1;
    }
    assert polygon == Reversed(upper);
    var skipLeft := if lower[0] == upper[0] then 1 else 0;
    var skipRight := if lower[|lower| - 1] == upper[|upper| - 1] then 1 else 0;
    i := skipLeft;
    while i < |lower| - skipRight
      invariant 1 <= i <= |lower| - 1
      invariant polygon == Reversed(upper) + lower[1..i]
    {
      polygon := polygon + [lower[i]];
      i := i + 1;
    }
    PolygonTurns(points, upper, lower, polygon);
    PolygonDistinct(points, upper, lower, polygon);
    if !Collinear(points) { PolygonCorners(points, upper, lower, polygon); }
  }

  lemma NoneTwice()
    ensures Distinct<nat>([])
  {
  }

  lemma PolygonTurns(points: seq<Point>, upper: seq<nat>, lower: seq<nat>, polygon: seq<nat>)
    requires |points| >= 2 && |upper| >= 2 && |lower| >= 2
    requires Chain(points, upper, |points|) && Chain(Flipped(points), lower, |points|)
    requires upper[0] == lower[0] && upper[|upper| - 1] == lower[|lower| - 1]
    requires polygon == Reversed(upper) + lower[1..|lower| - 1]
    ensures forall j :: 0 <= j < |polygon| ==> polygon[j] < |points|
    ensures forall j :: 0 <= j < |polygon| ==> Bounds(points, polygon[j], polygon[After(j, |polygon|)])
  {
    var u, n := |upper|, |polygon|;
    forall j | 0 <= j < n ensures polygon[j] < |points| {
      if j >= u {
        assert polygon[j] == lower[j - u + 1];
      }
    }
    forall j | 0 <= j < n ensures Bounds(points, polygon[j], polygon[After(j, n)]) {
      if j < u - 1 {
        assert polygon[j] == upper[u - 1 - j] && polygon[j + 1] == upper[u - 2 - j];
        Backward(points, upper[u - 2 - j], upper[u - 1 - j]);
      } else {
        var m := j - u + 1;
        assert polygon[j] == lower[m] && polygon[After(j, n)] == lower[m + 1];
        Mirrored(points, lower[m], lower[m + 1]);
      }
    }
  }

  lemma Backward(points: seq<Point>, a: nat, b: nat)
    requires a < |points| && b < |points| && Supports(points, a, b, |points|)
    ensures Bounds(points, b, a)
  {
    forall k | 0 <= k < |points| ensures Turns(points, b, a, k) <= 0.0 {
      assert Turns(points, b, a, k) == -Turns(points, a, b, k);
    }
  }

  lemma Mirrored(points: seq<Point>, a: nat, b: nat)
    requires a < |points| && b < |points| && Supports(Flipped(points), a, b, |points|)
    ensures Bounds(points, a, b)
  {
    forall k | 0 <= k < |points| ensures Turns(points, a, b, k) <= 0.0 {
      FlippedTurns(points, a, b, k);
    }
  }

  // ---------------------------------------------------------------- the corners of the whole hull

  /** Where two forward vectors are parallel, what is not to the right of one and not to the left of the other is
      parallel to both. */
  lemma Parallel(p: Point, q: Point, r: Point)
    requires Forward(p, true) && Forward(q, true) && Forward(r, true) && p != Zero && q != Zero
    requires Det(p, q) == 0.0 && Det(p, r) >= 0.0 && Det(q, r) <= 0.0
    ensures Det(p, r) == 0.0
  {
    Plucker(p, q, r);
    if q.x == 0.0 || p.x == 0.0 {
      Upright(p, q);
      Upright(q, p);
      assert p.y * r.x <= 0.0;
      assert r.x == 0.0;
    } else {
      OppositeSigns(Det(p, r), q.x, Det(q, r), p.x);
    }
  }

  lemma Upright(p: Point, q: Point)
    requires Forward(p, true) && Forward(q, true) && p != Zero && q != Zero && Det(p, q) == 0.0
    ensures p.x == 0.0 ==> q.x == 0.0 && p.y > 0.0 && q.y > 0.0
  {
    if p.x == 0.0 {
      assert p.y * q.x == 0.0;
    }
  }

  lemma OppositeSigns(a: real, x: real, b: real, y: real)
    requires x > 0.0 && y > 0.0 && a >= 0.0 && b <= 0.0 && a * x == b * y
    ensures a == 0.0
  {
  }

  /** What is parallel to a vector is parallel to each other. */
  lemma AllParallel(p: Point, r: Point, t: Point)
    requires p != Zero && Det(p, r) == 0.0 && Det(p, t) == 0.0
    ensures Det(r, t) == 0.0
  {
    Plucker(r, p, t);
    if p.x == 0.0 {
      assert p.y * r.x == 0.0 && p.y * t.x == 0.0;
    }
  }

  lemma DetDifference(r: Point, s: Point, t: Point)
    ensures Det(Minus(s, r), Minus(t, r)) == Det(s, t) - Det(s, r) - Det(r, t)
  {
  }

  /** If all points lie in the same direction from one of them, they are on one line. */
  lemma OnOneLine(points: seq<Point>, b: nat, p: Point)
    requires b < |points| && p != Zero
    requires forall k :: 0 <= k < |points| ==> Det(p, Minus(points[k], points[b])) == 0.0
    ensures Collinear(points)
  {
    hide Det, Cross2d;
    forall i, j, k | 0 <= i < |points| && 0 <= j < |points| && 0 <= k < |points| ensures Turns(points, i, j, k) == 0.0 {
      var r, s, t := Minus(points[i], points[b]), Minus(points[j], points[b]), Minus(points[k], points[b]);
      AllParallel(p, s, t);
      AllParallel(p, s, r);
      AllParallel(p, r, t);
      DetDifference(r, s, t);
      CrossIsDet(points[i], points[j], points[k]);
      assert Minus(s, r) == Minus(points[j], points[i]) && Minus(t, r) == Minus(points[k], points[i]);
    }
  }

  ghost predicate AllSame(points: seq<Point>) {
    forall k, l :: 0 <= k < |points| && 0 <= l < |points| ==> points[k] == points[l]
  }

  lemma SameIsCollinear(points: seq<Point>)
    requires !Collinear(points)
    ensures !AllSame(points) && !AllSame(Flipped(points))
  {
    if AllSame(Flipped(points)) {
      forall k, l | 0 <= k < |points| && 0 <= l < |points| ensures points[k] == points[l] {
        assert Flipped(points)[k] == Flipped(points)[l];
      }
    }
  }

  /** What is between two equal points is equal to them. */
  lemma Between(points: seq<Point>, i: nat, k: nat, j: nat, up: bool)
    requires Sorted(points, up) && i <= k <= j < |points| && points[i] == points[j]
    ensures points[k] == points[i]
  {
    assert Forward(Minus(points[k], points[i]), up) && Forward(Minus(points[j], points[k]), up);
  }

  lemma SortedSame(points: seq<Point>, up: bool)
    requires points != [] && Sorted(points, up) && points[0] == points[|points| - 1]
    ensures AllSame(points)
  {
    hide Sorted;
    forall k | 0 <= k < |points| ensures points[k] == points[0] {
      Between(points, 0, k, |points| - 1, up);
    }
  }

  /** The edges of a chain have a length. */
  lemma EdgeHasLength(points: seq<Point>, h: seq<nat>, i: nat, up: bool)
    requires Sorted(points, up) && !AllSame(points) && |points| >= 2 && i < |h| - 1
    requires Chain(points, h, |points|) && h[0] == 0 && h[|h| - 1] == |points| - 1
    ensures points[h[i]] != points[h[i + 1]]
  {
    hide Sorted, AllSame, Supports, Cross2d;
    if |h| == 2 {
      if points[0] == points[|points| - 1] { SortedSame(points, up); }
    } else {
      var k := if i > 0 then i - 1 else 0;
      assert Turns(points, h[k], h[k + 1], h[k + 2]) > 0.0;
      StrictEdges(points[h[k]], points[h[k + 1]], points[h[k + 2]]);
    }
  }

  /** The points of a chain differ. */
  lemma ChainApart(points: seq<Point>, h: seq<nat>, i: nat, j: nat, up: bool)
    requires Sorted(points, up) && !AllSame(points) && |points| >= 2 && i < j < |h|
    requires Chain(points, h, |points|) && h[0] == 0 && h[|h| - 1] == |points| - 1
    ensures points[h[i]] != points[h[j]]
  {
    EdgeHasLength(points, h, i, up);
    hide Sorted, AllSame, Supports, Turns;
    if points[h[i]] == points[h[j]] {
      assert h[i + 1] <= h[j];
      Between(points, h[i], h[i + 1], h[j], up);
    }
  }

  lemma StrictEdges(a: Point, b: Point, c: Point)
    requires Cross2d(a, b, c) > 0.0
    ensures a != b && b != c
  {
    CrossIsDet(a, b, c);
  }

  /** The corner at the first point. */
  lemma LeftCorner(points: seq<Point>, a: nat, c: nat)
    requires Sorted(points, true) && !Collinear(points) && 0 < |points| && a < |points| && c < |points|
    requires Supports(points, 0, a, |points|) && Bounds(points, 0, c)
    requires points[a] != points[0] && points[c] != points[0]
    ensures Turns(points, a, 0, c) < 0.0
  {
    hide Cross2d, Det, Collinear;
    var p, q := Minus(points[a], points[0]), Minus(points[c], points[0]);
    CrossIsDet(points[0], points[a], points[c]);
    CrossIsDet(points[a], points[c], points[0]);
    assert Turns(points, 0, a, c) >= 0.0;
    if Det(p, q) == 0.0 {
      forall k | 0 <= k < |points| ensures Det(p, Minus(points[k], points[0])) == 0.0 {
        assert Turns(points, 0, a, k) >= 0.0 && Turns(points, 0, c, k) <= 0.0;
        CrossIsDet(points[0], points[a], points[k]);
        CrossIsDet(points[0], points[c], points[k]);
        Parallel(p, q, Minus(points[k], points[0]));
      }
      OnOneLine(points, 0, p);
    }
  }

  lemma DetNegated(p: Point, a: Point, b: Point)
    ensures Det(p, Minus(a, b)) == -Det(p, Minus(b, a))
  {
  }

  /** The corner at the last point. */
  lemma RightCorner(points: seq<Point>, a: nat, c: nat)
    requires Sorted(points, true) && !Collinear(points) && 0 < |points| && a < |points| && c < |points|
    requires Supports(points, c, |points| - 1, |points|) && Bounds(points, a, |points| - 1)
    requires points[a] != points[|points| - 1] && points[c] != points[|points| - 1]
    ensures Turns(points, a, |points| - 1, c) < 0.0
  {
    hide Cross2d, Det, Collinear;
    var b := |points| - 1;
    var p, q := Minus(points[b], points[a]), Minus(points[b], points[c]);
    CrossIsDet(points[a], points[b], points[c]);
    DetNegated(p, points[c], points[b]);
    assert Turns(points, a, b, c) <= 0.0;
    if Det(p, q) == 0.0 {
      forall k | 0 <= k < |points| ensures Det(p, Minus(points[k], points[b])) == 0.0 {
        assert Turns(points, c, b, k) >= 0.0 && Turns(points, a, b, k) <= 0.0;
        CrossIsDet(points[a], points[b], points[k]);
        CrossIsDet(points[c], points[b], points[k]);
        DetNegated(p, points[k], points[b]);
        DetNegated(q, points[k], points[b]);
        Parallel(p, q, Minus(points[b], points[k]));
      }
      OnOneLine(points, b, p);
    }
  }

  /** What there is in front of and behind a corner of the polygon. */
  lemma Neighbours(upper: seq<nat>, lower: seq<nat>, polygon: seq<nat>, j: nat)
    requires |upper| >= 2 && |lower| >= 2 && upper[0] == lower[0] && upper[|upper| - 1] == lower[|lower| - 1]
    requires polygon == Reversed(upper) + lower[1..|lower| - 1] && j < |polygon|
    ensures var u, l, a, b, c := |upper|, |lower|, polygon[Before(j, |polygon|)], polygon[j],
              polygon[After(j, |polygon|)];
            if j == 0 then (a, b, c) == (lower[l - 2], upper[u - 1], upper[u - 2])
            else if j < u - 1 then (a, b, c) == (upper[u - j], upper[u - 1 - j], upper[u - 2 - j])
            else if j == u - 1 then (a, b, c) == (upper[1], upper[0], lower[1])
            else (a, b, c) == (lower[j - u], lower[j - u + 1], lower[j - u + 2])
  {
  }

  /** The polygon turns strictly the same way at every corner. */
  lemma PolygonCorners(points: seq<Point>, upper: seq<nat>, lower: seq<nat>, polygon: seq<nat>)
    requires |points| >= 2 && |upper| >= 2 && |lower| >= 2 && Sorted(points, true) && !Collinear(points)
    requires Chain(points, upper, |points|) && Chain(Flipped(points), lower, |points|)
    requires upper[0] == lower[0] == 0 && upper[|upper| - 1] == lower[|lower| - 1] == |points| - 1
    requires polygon == Reversed(upper) + lower[1..|lower| - 1]
    requires forall j :: 0 <= j < |polygon| ==> polygon[j] < |points|
    ensures |polygon| >= 3 && CornersApart(points, polygon)
    ensures forall j :: 0 <= j < |polygon| ==>
              Turns(points, polygon[Before(j, |polygon|)], polygon[j], polygon[After(j, |polygon|)]) < 0.0
  {
    hide Cross2d, Chain, Sorted, Collinear, AllSame, CornersApart;
    PolygonApart(points, upper, lower, polygon);
    forall j | 0 <= j < |polygon|
      ensures Turns(points, polygon[Before(j, |polygon|)], polygon[j], polygon[After(j, |polygon|)]) < 0.0
    {
      Neighbours(upper, lower, polygon, j);
      Corner(points, upper, lower, j);
    }
    var n := |polygon|;
    CrossIsDet(points[polygon[n - 1]], points[polygon[0]], points[polygon[n - 1]]);
    assert Turns(points, polygon[Before(0, n)], polygon[0], polygon[After(0, n)]) < 0.0;
  }

  lemma Corner(points: seq<Point>, upper: seq<nat>, lower: seq<nat>, j: nat)
    requires |points| >= 2 && |upper| >= 2 && |lower| >= 2 && Sorted(points, true) && !Collinear(points)
    requires Chain(points, upper, |points|) && Chain(Flipped(points), lower, |points|)
    requires upper[0] == lower[0] == 0 && upper[|upper| - 1] == lower[|lower| - 1] == |points| - 1
    requires j < |upper| + |lower| - 2
    ensures var u, l := |upper|, |lower|;
            && (forall i :: 0 <= i < u ==> upper[i] < |points|) && (forall i :: 0 <= i < l ==> lower[i] < |points|)
            && (if j == 0 then Turns(points, lower[l - 2], upper[u - 1], upper[u - 2])
                else if j < u - 1 then Turns(points, upper[u - j], upper[u - 1 - j], upper[u - 2 - j])
                else if j == u - 1 then Turns(points, upper[1], upper[0], lower[1])
                else Turns(points, lower[j - u], lower[j - u + 1], lower[j - u + 2])) < 0.0
  {
    hide Turns, Collinear, Sorted, Chain;
    var u, l := |upper|, |lower|;
    Below(points, upper, |points|);
    Below(Flipped(points), lower, |points|);
    if j == 0 {
      LastCorner(points, upper, lower);
    } else if j < u - 1 {
      UpperCorner(points, upper, u - 2 - j);
    } else if j == u - 1 {
      FirstCorner(points, upper, lower);
    } else {
      LowerCorner(points, lower, j - u);
    }
  }

  lemma FirstCorner(points: seq<Point>, upper: seq<nat>, lower: seq<nat>)
    requires |points| >= 2 && |upper| >= 2 && |lower| >= 2 && Sorted(points, true) && !Collinear(points)
    requires Chain(points, upper, |points|) && Chain(Flipped(points), lower, |points|)
    requires upper[0] == lower[0] == 0 && upper[|upper| - 1] == lower[|lower| - 1] == |points| - 1
    ensures upper[1] < |points| && lower[1] < |points| && Turns(points, upper[1], upper[0], lower[1]) < 0.0
  {
    hide Turns, Collinear, AllSame, Sorted, Supports, Bounds;
    SameIsCollinear(points);
    FlippedSorted(points, true);
    EdgeHasLength(points, upper, 0, true);
    EdgeHasLength(Flipped(points), lower, 0, false);
    Mirrored(points, lower[0], lower[0 + 1]);
    LeftCorner(points, upper[1], lower[1]);
  }

  lemma LastCorner(points: seq<Point>, upper: seq<nat>, lower: seq<nat>)
    requires |points| >= 2 && |upper| >= 2 && |lower| >= 2 && Sorted(points, true) && !Collinear(points)
    requires Chain(points, upper, |points|) && Chain(Flipped(points), lower, |points|)
    requires upper[0] == lower[0] == 0 && upper[|upper| - 1] == lower[|lower| - 1] == |points| - 1
    ensures var u, l := |upper|, |lower|;
            lower[l - 2] < |points| && upper[u - 2] < |points|
            && Turns(points, lower[l - 2], |points| - 1, upper[u - 2]) < 0.0
  {
    hide Turns, Collinear, AllSame, Sorted, Supports, Bounds;
    var u, l := |upper|, |lower|;
    SameIsCollinear(points);
    FlippedSorted(points, true);
    EdgeHasLength(points, upper, u - 2, true);
    EdgeHasLength(Flipped(points), lower, l - 2, false);
    Mirrored(points, lower[l - 2], lower[l - 2 + 1]);
    RightCorner(points, lower[l - 2], upper[u - 2]);
  }

  lemma UpperCorner(points: seq<Point>, upper: seq<nat>, i: nat)
    requires Chain(points, upper, |points|) && i < |upper| - 2
    ensures upper[i] < |points| && upper[i + 1] < |points| && upper[i + 2] < |points|
    ensures Turns(points, upper[i + 2], upper[i + 1], upper[i]) < 0.0
  {
    hide Cross2d;
    CrossIsDet(points[upper[i]], points[upper[i + 1]], points[upper[i + 2]]);
    CrossIsDet(points[upper[i + 2]], points[upper[i + 1]], points[upper[i]]);
    CrossIsDet(points[upper[i]], points[upper[i + 2]], points[upper[i + 1]]);
  }

  lemma LowerCorner(points: seq<Point>, lower: seq<nat>, i: nat)
    requires Chain(Flipped(points), lower, |points|) && i < |lower| - 2
    ensures lower[i] < |points| && lower[i + 1] < |points| && lower[i + 2] < |points|
    ensures Turns(points, lower[i], lower[i + 1], lower[i + 2]) < 0.0
  {
    hide Cross2d;
    FlippedTurns(points, lower[i], lower[i + 1], lower[i + 2]);
  }

  // ---------------------------------------------------------------- once round

  /** No two corners are the same point, also where points occur several times. */
  ghost predicate CornersApart(points: seq<Point>, polygon: seq<nat>) {
    forall i, j :: 0 <= i < j < |polygon| && polygon[i] < |points| && polygon[j] < |points| ==>
                     points[polygon[i]] != points[polygon[j]]
  }

  lemma DetSwapped(p: Point, q: Point, a: Point, b: Point)
    ensures Det(p, q) == -Det(q, p) && Det(p, Minus(a, b)) == Det(Minus(b, a), p)
  {
  }

  /** An inner corner b of the upper chain, between a and c, is not one of the lower chain as well: the lower edge that
      comes from d to it would have to point like the edge to c, and d would be outside the edge from a. */
  lemma NotOnBoth(points: seq<Point>, a: nat, b: nat, c: nat, d: nat, other: nat)
    requires Sorted(points, true) && a <= b <= c < |points| && d <= other < |points|
    requires Turns(points, a, b, c) > 0.0 && Turns(points, a, b, d) >= 0.0 && Turns(points, b, c, d) >= 0.0
    requires Turns(points, d, other, c) <= 0.0 && points[d] != points[other]
    ensures points[b] != points[other]
  {
    hide Cross2d, Det;
    if points[b] == points[other] {
      var A, B, C, D := points[a], points[b], points[c], points[d];
      var p, q, s := Minus(B, A), Minus(C, B), Minus(B, D);
      CrossIsDet(A, B, C);
      CrossIsDet(A, B, D);
      CrossIsDet(B, C, D);
      CrossIsDet(D, B, C);
      DetSwapped(p, q, D, B);
      DetSwapped(q, s, D, B);
      assert s != Zero;
      Turn(q, s, p, true);
    }
  }

  lemma InnerApart(points: seq<Point>, upper: seq<nat>, lower: seq<nat>, i: nat, j: nat)
    requires Sorted(points, true) && Chain(points, upper, |points|) && Chain(Flipped(points), lower, |points|)
    requires 0 < i < |upper| - 1 && 0 < j < |lower| - 1
    ensures points[upper[i]] != points[lower[j]]
  {
    hide Sorted, Cross2d;
    var a, b, c, d, e := upper[i - 1], upper[i], upper[i + 1], lower[j - 1], lower[j];
    assert Supports(points, upper[i - 1], upper[i - 1 + 1], |points|) && Supports(points, b, upper[i + 1], |points|);
    assert Turns(points, upper[i - 1], upper[i - 1 + 1], upper[i - 1 + 2]) > 0.0;
    assert Supports(Flipped(points), lower[j - 1], lower[j - 1 + 1], |points|);
    assert Turns(Flipped(points), lower[j - 1], lower[j - 1 + 1], lower[j - 1 + 2]) > 0.0;
    FlippedTurns(points, d, e, c);
    StrictEdges(Flipped(points)[d], Flipped(points)[e], Flipped(points)[lower[j + 1]]);
    NotOnBoth(points, a, b, c, d, e);
  }

  /** Where a corner of the polygon stands in the two chains. */
  function CornerOf(upper: seq<nat>, lower: seq<nat>, j: nat): nat
    requires |lower| >= 2 && j < |upper| + |lower| - 2
  {
    if j < |upper| then upper[|upper| - 1 - j] else lower[j - |upper| + 1]
  }

  lemma PolygonIs(upper: seq<nat>, lower: seq<nat>, polygon: seq<nat>)
    requires |upper| >= 2 && |lower| >= 2 && polygon == Reversed(upper) + lower[1..|lower| - 1]
    ensures |polygon| == |upper| + |lower| - 2
    ensures forall j :: 0 <= j < |polygon| ==> polygon[j] == CornerOf(upper, lower, j)
  {
  }

  lemma Rises(points: seq<Point>, h: seq<nat>)
    requires Chain(points, h, |points|)
    ensures forall i, j :: 0 <= i < j < |h| ==> h[i] < h[j] < |points|
  {
  }

  /** The polygon takes no position twice. */
  lemma PolygonDistinct(points: seq<Point>, upper: seq<nat>, lower: seq<nat>, polygon: seq<nat>)
    requires |points| >= 2 && |upper| >= 2 && |lower| >= 2 && Sorted(points, true)
    requires Chain(points, upper, |points|) && Chain(Flipped(points), lower, |points|)
    requires upper[0] == lower[0] == 0 && upper[|upper| - 1] == lower[|lower| - 1] == |points| - 1
    requires polygon == Reversed(upper) + lower[1..|lower| - 1]
    ensures Distinct(polygon)
  {
    PolygonIs(upper, lower, polygon);
    Rises(points, upper);
    Rises(Flipped(points), lower);
    hide Sorted, Chain, Reversed;
    var u := |upper|;
    forall i, j | 0 <= i < j < |polygon| ensures polygon[i] != polygon[j] {
      if j >= u && 0 < i < u - 1 { InnerApart(points, upper, lower, u - 1 - i, j - u + 1); }
    }
  }

  lemma PolygonApart(points: seq<Point>, upper: seq<nat>, lower: seq<nat>, polygon: seq<nat>)
    requires |points| >= 2 && |upper| >= 2 && |lower| >= 2 && Sorted(points, true) && !Collinear(points)
    requires Chain(points, upper, |points|) && Chain(Flipped(points), lower, |points|)
    requires upper[0] == lower[0] == 0 && upper[|upper| - 1] == lower[|lower| - 1] == |points| - 1
    requires polygon == Reversed(upper) + lower[1..|lower| - 1]
    ensures CornersApart(points, polygon)
  {
    SameIsCollinear(points);
    FlippedSorted(points, true);
    PolygonIs(upper, lower, polygon);
    hide Sorted, Collinear, AllSame, Chain, Flipped, CornerOf, Reversed;
    forall i, j | 0 <= i < j < |polygon| && polygon[i] < |points| && polygon[j] < |points|
      ensures points[polygon[i]] != points[polygon[j]]
    {
      TwoCorners(points, upper, lower, i, j);
    }
  }

  lemma TwoCorners(points: seq<Point>, upper: seq<nat>, lower: seq<nat>, i: nat, j: nat)
    requires |points| >= 2 && |upper| >= 2 && |lower| >= 2 && Sorted(points, true) && i < j < |upper| + |lower| - 2
    requires Sorted(Flipped(points), false) && !AllSame(points) && !AllSame(Flipped(points))
    requires Chain(points, upper, |points|) && Chain(Flipped(points), lower, |points|)
    requires upper[0] == lower[0] == 0 && upper[|upper| - 1] == lower[|lower| - 1] == |points| - 1
    requires CornerOf(upper, lower, i) < |points| && CornerOf(upper, lower, j) < |points|
    ensures points[CornerOf(upper, lower, i)] != points[CornerOf(upper, lower, j)]
  {
    hide Sorted, AllSame, Chain, Flipped;
    var u := |upper|;
    if j < u {
      ChainApart(points, upper, u - 1 - j, u - 1 - i, true);
    } else if 0 < i < u - 1 {
      InnerApart(points, upper, lower, u - 1 - i, j - u + 1);
    } else {
      LowerApart(points, lower, if i == 0 then |lower| - 1 else if i == u - 1 then 0 else i - u + 1, j - u + 1);
    }
  }

  lemma LowerApart(points: seq<Point>, lower: seq<nat>, i: nat, j: nat)
    requires Sorted(Flipped(points), false) && !AllSame(Flipped(points)) && |points| >= 2
    requires Chain(Flipped(points), lower, |points|)
    requires i < |lower| && j < |lower| && i != j && lower[0] == 0 && lower[|lower| - 1] == |points| - 1
    requires lower[i] < |points| && lower[j] < |points|
    ensures points[lower[i]] != points[lower[j]]
  {
    hide Sorted, AllSame, Chain;
    ChainApart(Flipped(points), lower, if i < j then i else j, if i < j then j else i, false);
  }
}
