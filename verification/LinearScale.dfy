/** d3's piecewise linear scale: a bounded binary search picks a segment, and the segment's line is followed,
    beyond the ends as well. Numbers are reals. */
module LinearScale {
  import opened Basics

  // ---------------------------------------------------------------- interpolators

  /** `d3_interpolateNumber` */
  function InterpolateNumber(a: real, b: real): real -> real {
    t => a * (1.0 - t) + b * t
  }

  /** `d3_uninterpolateNumber`: an empty interval is divided by infinity. */
  function UninterpolateNumber(a: real, b: real): real -> real {
    x => if b - a == 0.0 then 0.0 else (x - a) / (b - a)
  }

  /** The line through (a, c) and (b, d). */
  function Line(a: real, b: real, c: real, d: real, x: real): real {
    InterpolateNumber(c, d)(UninterpolateNumber(a, b)(x))
  }

  lemma Product(p: real, q: real, r: real)
    ensures (p - q) * r == p * r - q * r
  {
  }

  lemma LineSlope(a: real, b: real, c: real, d: real, x: real)
    requires a != b
    ensures Line(a, b, c, d, x) == c + (d - c) * ((x - a) / (b - a))
    ensures (x - a) / (b - a) * (b - a) == x - a
  {
    var t := (x - a) / (b - a);
    Product(d, c, t);
  }

  lemma Quotient(p: real, q: real)
    requires q != 0.0
    ensures (q * p) / q == p
  {
  }

  /** Exchanging the axes inverts a line. */
  lemma LineInverse(a: real, b: real, c: real, d: real, x: real)
    requires a != b && c != d
    ensures Line(c, d, a, b, Line(a, b, c, d, x)) == x
  {
    var t := (x - a) / (b - a);
    var y := Line(a, b, c, d, x);
    LineSlope(a, b, c, d, x);
    LineSlope(c, d, a, b, y);
    Quotient(t, d - c);
    assert (y - c) / (d - c) == t;
  }

  lemma Spread(t: real, s: real, w: real)
    ensures (t + s - 1.0) * w == t * w + s * w - w
    ensures s * (-w) == -(s * w)
  {
  }

  /** Measured from the two ends of an interval, a position has complementary parts. */
  lemma Complement(w: real, p: real, q: real, t: real, s: real)
    requires w != 0.0 && t * w == p && s * (-w) == q && p - q == w
    ensures s == 1.0 - t
  {
    Spread(t, s, w);
    Cancel(t + s - 1.0, w);
  }

  lemma OtherEnd(c: real, d: real, t: real, s: real)
    requires s == 1.0 - t
    ensures d + (c - d) * s == c + (d - c) * t
  {
    Product(c, d, s);
    Product(d, c, t);
  }

  lemma Parts(a: real, b: real, x: real)
    requires a != b
    ensures (x - b) / (a - b) == 1.0 - (x - a) / (b - a)
  {
    var t, s := (x - a) / (b - a), (x - b) / (a - b);
    Whole(x - a, b - a);
    Whole(x - b, a - b);
    assert -(b - a) == a - b;
    Complement(b - a, x - a, x - b, t, s);
  }

  /** A line does not depend on the order of its two points. */
  lemma LineReversed(a: real, b: real, c: real, d: real, x: real)
    requires a != b
    ensures Line(b, a, d, c, x) == Line(a, b, c, d, x)
  {
    hide Line;
    LineSlope(a, b, c, d, x);
    LineSlope(b, a, d, c, x);
    Parts(a, b, x);
    OtherEnd(c, d, (x - a) / (b - a), (x - b) / (a - b));
  }

  lemma LineEnds(a: real, b: real, c: real, d: real)
    requires a != b
    ensures Line(a, b, c, d, a) == c && Line(a, b, c, d, b) == d
  {
    LineSlope(a, b, c, d, a);
    LineSlope(a, b, c, d, b);
  }

  lemma Ordered(t: real, u: real, w: real)
    requires w > 0.0
    ensures t <= u <==> t * w <= u * w
    ensures t <= u <==> w * t <= w * u
  {
  }

  // ---------------------------------------------------------------- binary search

  /** `d3.bisect` between two positions: everything just below the result is at most x, everything at it above. */
  method Bisect(a: seq<real>, x: real, lo: nat, hi: nat) returns (p: nat)
    requires lo <= hi <= |a|
    ensures lo <= p <= hi
    ensures p == lo || a[p - 1] <= x
    ensures p == hi || a[p] > x
  {
    var l, h := lo, hi;
    while l < h
      invariant lo <= l <= h <= hi
      invariant l == lo || a[l - 1] <= x
      invariant h == hi || a[h] > x
    {
      var mid := (l + h) / 2;
      if a[mid] > x {
        h := mid;
      } else {
        l := mid + 1;
      }
    }
    p := l;
  }

  // ---------------------------------------------------------------- the graph

  /** The segment that is followed for x: a half-open interval, the first and the last reaching beyond the ends. */
  predicate Bracket(domain: seq<real>, k: nat, x: real, j: nat)
    requires k < |domain|
  {
    j < k && (j == 0 || domain[j] <= x) && (j == k - 1 || x < domain[j + 1])
  }

  function Segment(domain: seq<real>, range: seq<real>, j: nat, x: real): real
    requires j + 1 < |domain| && j + 1 < |range|
  {
    Line(domain[j], domain[j + 1], range[j], range[j + 1], x)
  }

  ghost predicate FollowsAt(domain: seq<real>, range: seq<real>, x: real, y: real, j: nat)
    requires |domain| >= 2 && |range| >= 2
  {
    var k := Min(|domain|, |range|) - 1;
    Bracket(domain, k, x, j) && y == Segment(domain, range, j, x)
  }

  ghost predicate Falls(domain: seq<real>, range: seq<real>)
    requires |domain| >= 2 && |range| >= 2
  {
    domain[Min(|domain|, |range|) - 1] < domain[0]
  }

  /** What a scale with this domain and range makes of x. A domain that ends below its start is turned around,
      and the range with it, if there are more than two points. */
  ghost predicate Maps(domain: seq<real>, range: seq<real>, x: real, y: real)
    requires |domain| >= 2 && |range| >= 2
  {
    if Min(|domain|, |range|) == 2 then y == Segment(domain, range, 0, x)
    else if Falls(domain, range) then exists j :: FollowsAt(Reversed(domain), Reversed(range), x, y, j)
    else exists j :: FollowsAt(domain, range, x, y, j)
  }

  // ---------------------------------------------------------------- inversion

  ghost predicate Rising(s: seq<real>) {
    forall i, j :: 0 <= i < j < |s| ==> s[i] < s[j]
  }

  ghost predicate Falling(s: seq<real>) {
    forall i, j :: 0 <= i < j < |s| ==> s[i] > s[j]
  }

  ghost predicate Monotone(s: seq<real>) { Rising(s) || Falling(s) }

  /** The segment contains x, whichever way the points run; both segments at an inner point contain it. */
  ghost predicate Within(s: seq<real>, x: real, j: nat) {
    && j + 1 < |s|
    && (j > 0 ==> if s[0] < s[1] then s[j] <= x else x <= s[j])
    && (j + 2 < |s| ==> if s[0] < s[1] then x <= s[j + 1] else s[j + 1] <= x)
  }

  /** The point (x, y) is on the line of segment j, which contains x. */
  ghost predicate OnLine(domain: seq<real>, range: seq<real>, x: real, y: real, j: nat) {
    |domain| == |range| && Within(domain, x, j) && y == Segment(domain, range, j, x)
  }

  lemma MapsOnLine(domain: seq<real>, range: seq<real>, x: real, y: real) returns (j: nat)
    requires |domain| == |range| >= 2 && Monotone(domain) && Maps(domain, range, x, y)
    ensures OnLine(domain, range, x, y, j)
  {
    hide Line;
    var k := |domain| - 1;
    if k == 1 {
      j := 0;
    } else if Falls(domain, range) {
      hide FollowsAt, OnLine;
      var i :| FollowsAt(Reversed(domain), Reversed(range), x, y, i);
      FallingOnLine(domain, range, x, y, i);
      j := k - 1 - i;
    } else {
      j :| FollowsAt(domain, range, x, y, j);
      assert domain[0] < domain[k];
    }
  }

  lemma FallingOnLine(domain: seq<real>, range: seq<real>, x: real, y: real, i: nat)
    requires |domain| == |range| >= 3 && Monotone(domain) && Falls(domain, range)
    requires FollowsAt(Reversed(domain), Reversed(range), x, y, i)
    ensures i + 2 <= |domain| && OnLine(domain, range, x, y, |domain| - 2 - i)
  {
    hide Line;
    var j := |domain| - 2 - i;
    assert domain[0] > domain[|domain| - 1] && domain[j] > domain[j + 1];
    LineReversed(domain[j], domain[j + 1], range[j], range[j + 1], x);
  }

  /** Along a rising or falling line the segment that contains x gives a value within the same segment of the range. */
  lemma OnLineInverse(domain: seq<real>, range: seq<real>, x: real, y: real, j: nat)
    requires Monotone(domain) && Monotone(range) && OnLine(domain, range, x, y, j)
    ensures OnLine(range, domain, y, x, j)
  {
    var a, b, c, d := domain[j], domain[j + 1], range[j], range[j + 1];
    assert a != b && c != d;
    LineInverse(a, b, c, d, x);
    LineEnds(a, b, c, d);
    LineOrder(a, b, c, d, a, x);
    LineOrder(a, b, c, d, x, b);
  }

  /** A line keeps the order or turns it around. */
  lemma LineOrder(a: real, b: real, c: real, d: real, x: real, z: real)
    requires a != b && c != d
    ensures (a < b <==> c < d) ==> (x <= z <==> Line(a, b, c, d, x) <= Line(a, b, c, d, z))
    ensures !(a < b <==> c < d) ==> (x <= z <==> Line(a, b, c, d, z) <= Line(a, b, c, d, x))
  {
    LineSlope(a, b, c, d, x);
    LineSlope(a, b, c, d, z);
    var t, u := (x - a) / (b - a), (z - a) / (b - a);
    if a < b { Ordered(t, u, b - a); } else { Ordered(u, t, a - b); }
    if c < d { Ordered(t, u, d - c); } else { Ordered(u, t, c - d); }
  }

  /** Two segments that contain x agree on it. */
  lemma OnLineUnique(domain: seq<real>, range: seq<real>, x: real, y: real, z: real, i: nat, j: nat)
    requires Monotone(domain) && OnLine(domain, range, x, y, i) && OnLine(domain, range, x, z, j) && i <= j
    ensures y == z
  {
    if i < j {
      assert domain[i + 1] == domain[j] == x && i + 1 == j;
      LineEnds(domain[i], domain[j], range[i], range[j]);
      LineEnds(domain[j], domain[j + 1], range[j], range[j + 1]);
    }
  }

  /** Where the domain and the range are strictly monotone, inverting gives back every number. */
  lemma InvertScale(domain: seq<real>, range: seq<real>, x: real, y: real, z: real)
    requires |domain| == |range| >= 2 && Monotone(domain) && Monotone(range)
    ensures Maps(domain, range, x, y) && Maps(range, domain, y, z) ==> z == x
  {
    if Maps(domain, range, x, y) && Maps(range, domain, y, z) {
      var i := MapsOnLine(domain, range, x, y);
      var j := MapsOnLine(range, domain, y, z);
      OnLineInverse(domain, range, x, y, i);
      if i <= j {
        OnLineUnique(range, domain, y, x, z, i, j);
      } else {
        OnLineUnique(range, domain, y, z, x, j, i);
      }
    }
  }

  /** A scale meets its points. */
  lemma ScaleMeetsPoints(domain: seq<real>, range: seq<real>, y: real, i: nat)
    requires |domain| == |range| >= 2 && Monotone(domain) && i < |domain| && Maps(domain, range, domain[i], y)
    ensures y == range[i]
  {
    var l := if i + 1 < |domain| then i else i - 1;
    var z := Segment(domain, range, l, domain[i]);
    LineEnds(domain[l], domain[l + 1], range[l], range[l + 1]);
    assert OnLine(domain, range, domain[i], z, l);
    hide OnLine, Maps, Monotone, Segment;
    var j := MapsOnLine(domain, range, domain[i], y);
    if l <= j {
      OnLineUnique(domain, range, domain[i], z, y, l, j);
    } else {
      OnLineUnique(domain, range, domain[i], y, z, j, l);
    }
  }

  /** Along a segment equal steps of x are equal steps of y, in proportion to its two sides; the first and the last
      segment go on beyond the ends. */
  lemma Proportional(domain: seq<real>, range: seq<real>, x: real, y: real) returns (j: nat)
    requires |domain| == |range| >= 2 && Monotone(domain) && Maps(domain, range, x, y)
    ensures Within(domain, x, j)
    ensures (y - range[j]) * (domain[j + 1] - domain[j]) == (range[j + 1] - range[j]) * (x - domain[j])
  {
    hide Maps, Line;
    j := MapsOnLine(domain, range, x, y);
    LineProportional(domain[j], domain[j + 1], range[j], range[j + 1], x);
  }

  lemma LineProportional(a: real, b: real, c: real, d: real, x: real)
    requires a != b
    ensures (Line(a, b, c, d, x) - c) * (b - a) == (d - c) * (x - a)
  {
    hide Line;
    LineSlope(a, b, c, d, x);
    Regroup(d - c, (x - a) / (b - a), b - a);
  }

  lemma Regroup(p: real, q: real, r: real)
    ensures p * q * r == p * (q * r)
  {
  }

  /** Where two points of the domain are one, its segment keeps to the first value. */
  lemma Flat(a: real, c: real, d: real, x: real)
    ensures Line(a, a, c, d, x) == c
  {
  }

  // ---------------------------------------------------------------- the scale

  /** What `d3_scale_bilinear` and `d3_scale_polylinear` close over. */
  datatype Piecewise =
    | Bilinear(u: real -> real, i: real -> real)
    | Polylinear(domain: seq<real>, k: nat, us: seq<real -> real>, vs: seq<real -> real>)

  /** The closure was made for this domain and range. */
  ghost predicate Built(p: Piecewise, domain: seq<real>, range: seq<real>)
    requires |domain| >= 2 && |range| >= 2
  {
    match p
    case Bilinear(u, i) =>
      && Min(|domain|, |range|) == 2
      && u == UninterpolateNumber(domain[0], domain[1]) && i == InterpolateNumber(range[0], range[1])
    case Polylinear(d, k, us, vs) =>
      && Min(|domain|, |range|) > 2 && k == Min(|domain|, |range|) - 1
      && d == (if Falls(domain, range) then Reversed(domain) else domain)
      && Pieces(d, if Falls(domain, range) then Reversed(range) else range, k, us, vs)
  }

  ghost predicate Pieces(domain: seq<real>, range: seq<real>, k: nat, us: seq<real -> real>, vs: seq<real -> real>) {
    && k < |domain| && k < |range| && |us| == |vs| == k
    && forall j :: 0 <= j < k ==>
                     us[j] == UninterpolateNumber(domain[j], domain[j + 1])
                       && vs[j] == InterpolateNumber(range[j], range[j + 1])
  }

  /** The choice between the two, and the loop that builds the pieces. */
  method Build(domain: seq<real>, range: seq<real>) returns (p: Piecewise)
    requires |domain| >= 2 && |range| >= 2
    ensures Built(p, domain, range)
  {
    if Min(|domain|, |range|) <= 2 {
      return Bilinear(UninterpolateNumber(domain[0], domain[1]), InterpolateNumber(range[0], range[1]));
    }
    var k := Min(|domain|, |range|) - 1;
    var d, r := domain, range;
    if d[k] < d[0] {
      d, r := Reversed(d), Reversed(r);
    }
    var us: seq<real -> real>, vs: seq<real -> real> := [], [];
    for j := 1 to k + 1
      invariant Pieces(d, r, j - 1, us, vs)
    {
      us := us + [UninterpolateNumber(d[j - 1], d[j])];
      vs := vs + [InterpolateNumber(r[j - 1], r[j])];
    }
    p := Polylinear(d, k, us, vs);
  }

  lemma PieceFollows(domain: seq<real>, range: seq<real>, us: seq<real -> real>, vs: seq<real -> real>, x: real, j: nat)
    requires |domain| >= 2 && |range| >= 2
    requires Pieces(domain, range, Min(|domain|, |range|) - 1, us, vs)
               && Bracket(domain, Min(|domain|, |range|) - 1, x, j)
    ensures FollowsAt(domain, range, x, vs[j](us[j](x)), j)
  {
  }

  method Apply(p: Piecewise, ghost domain: seq<real>, ghost range: seq<real>, x: real) returns (y: real)
    requires |domain| >= 2 && |range| >= 2 && Built(p, domain, range)
    ensures Maps(domain, range, x, y)
  {
    hide Pieces, FollowsAt;
    match p {
      case Bilinear(u, i) => y := i(u(x));
      case Polylinear(d, k, us, vs) =>
        ghost var r := if Falls(domain, range) then Reversed(range) else range;
        y := Follow(d, k, us, vs, r, x);
    }
  }

  /** The closure that `d3_scale_polylinear` returns. */
  method Follow(d: seq<real>, k: nat, us: seq<real -> real>, vs: seq<real -> real>, ghost r: seq<real>, x: real)
    returns (y: real)
    requires |d| >= 2 && |r| >= 2 && k == Min(|d|, |r|) - 1 && Pieces(d, r, k, us, vs)
    ensures exists j :: FollowsAt(d, r, x, y, j)
  {
    hide Pieces, FollowsAt;
    PieceCount(d, r, k, us, vs);
    var j := Bisect(d, x, 1, k);
    j := j - 1;
    y := vs[j](us[j](x));
    PieceFollows(d, r, us, vs, x, j);
  }

  lemma PieceCount(domain: seq<real>, range: seq<real>, k: nat, us: seq<real -> real>, vs: seq<real -> real>)
    requires Pieces(domain, range, k, us, vs)
    ensures k < |domain| && |us| == |vs| == k
  {
  }

  /** `d3_scale_linear`, unclamped and interpolating numbers. */
  class Scale {
    var domain: seq<real>
    var range: seq<real>
    var output: Piecewise
    var input: Piecewise

    ghost predicate Valid()
      reads this
    {
      |domain| >= 2 && |range| >= 2 && Built(output, domain, range) && Built(input, range, domain)
    }

    constructor (domain: seq<real>, range: seq<real>)
      requires |domain| >= 2 && |range| >= 2
      ensures Valid() && this.domain == domain && this.range == range
    {
      this.domain, this.range := domain, range;
      new;
      Rescale();
    }

    method Rescale()
      requires |domain| >= 2 && |range| >= 2
      modifies this`output, this`input
      ensures Valid()
    {
      output := Build(domain, range);
      input := Build(range, domain);
    }

    method SetDomain(domain: seq<real>)
      requires |domain| >= 2 && Valid()
      modifies this`domain, this`output, this`input
      ensures Valid() && this.domain == domain
    {
      this.domain := domain;
      Rescale();
    }

    method SetRange(range: seq<real>)
      requires |range| >= 2 && Valid()
      modifies this`range, this`output, this`input
      ensures Valid() && this.range == range
    {
      this.range := range;
      Rescale();
    }

    method Map(x: real) returns (y: real)
      requires Valid()
      ensures Maps(domain, range, x, y)
    {
      y := Apply(output, domain, range, x);
    }

    method Invert(y: real) returns (x: real)
      requires Valid()
      ensures Maps(range, domain, y, x)
    {
      x := Apply(input, range, domain, y);
    }

    /** There and back along strictly monotone points: every number comes back. */
    method MapAndInvert(x: real) returns (z: real)
      requires Valid() && |domain| == |range| && Monotone(domain) && Monotone(range)
      ensures z == x
    {
      hide Valid, Maps;
      Points();
      var y := Map(x);
      z := Invert(y);
      InvertScale(domain, range, x, y, z);
    }

    lemma Points()
      requires Valid()
      ensures |domain| >= 2 && |range| >= 2
    {
    }
  }
}
