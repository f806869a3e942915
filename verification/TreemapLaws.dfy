/** What the treemap's areas and scores mean: where nothing is rounded every child gets exactly its area, and the score
    of a row is the worst aspect ratio in it. */
module TreemapLaws {
  import opened Basics
  import opened TreemapSpec

  // ---------------------------------------------------------------- areas add up

  function Sum(areas: seq<real>): real { if areas == [] then 0.0 else areas[0] + Sum(areas[1..]) }

  lemma {:induction false} SumNonNegative(areas: seq<real>)
    requires AllNonNegative(areas)
    ensures Sum(areas) >= 0.0
  {
    if areas != [] {
      SumNonNegative(areas[1..]);
    }
  }

  function Finites(areas: seq<real>): (numbers: seq<Number>)
    ensures |numbers| == |areas| && forall i :: 0 <= i < |areas| ==> numbers[i] == Finite(areas[i])
  {
    seq(|areas|, i requires 0 <= i < |areas| => Finite(areas[i]))
  }

  lemma {:induction false} FinitesTotal(areas: seq<real>)
    ensures Total(Finites(areas)) == Finite(Sum(areas))
  {
    if areas != [] {
      FinitesTotal(areas[1..]);
      assert Finites(areas)[1..] == Finites(areas[1..]);
    }
  }

  lemma FinitesAppend(a: seq<real>, b: seq<real>)
    ensures Finites(a + b) == Finites(a) + Finites(b)
  {
  }

  function ScaledBy(values: seq<real>, k: real): (areas: seq<real>)
    ensures |areas| == |values| && forall i :: 0 <= i < |values| ==> areas[i] == Scaled(values[i], k)
  {
    seq(|values|, i requires 0 <= i < |values| => Scaled(values[i], k))
  }

  lemma ScaledFinites(values: seq<real>, k: real)
    ensures ScaledAreas(values, Finite(k)) == Finites(ScaledBy(values, k))
  {
    hide Scaled;
  }

  /** The area of a child in every case: in proportion to its value where it and the node's value are positive, infinite
      where only the child has a value and the node an area, and otherwise none. */
  lemma AreaOf(value: real, nodeValue: real, rect: Rect)
    requires rect.dx * rect.dy >= 0.0
    ensures var area := ScaledArea(value, Density(nodeValue, rect));
            && (value > 0.0 && nodeValue > 0.0 ==> area == Finite(value * (rect.dx * rect.dy / nodeValue)))
            && (value > 0.0 && nodeValue == 0.0 && rect.dx * rect.dy > 0.0 ==> area == Infinity)
            && (value <= 0.0 || nodeValue < 0.0 || rect.dx * rect.dy == 0.0 ==> area == Finite(0.0))
  {
    hide Scaled;
    var size := rect.dx * rect.dy;
    if nodeValue != 0.0 {
      DensitySign(size, nodeValue);
      ScaledSign(value, size / nodeValue);
    }
  }

  lemma DensitySign(size: real, nodeValue: real)
    requires size >= 0.0 && nodeValue != 0.0
    ensures nodeValue > 0.0 ==> size / nodeValue >= 0.0
    ensures nodeValue < 0.0 ==> size / nodeValue <= 0.0
    ensures size == 0.0 ==> size / nodeValue == 0.0
  {
    var k := size / nodeValue;
    Whole(size, nodeValue);
    if size == 0.0 { Cancel(k, nodeValue); }
    if k < 0.0 && nodeValue > 0.0 { NegativeProduct(k, nodeValue); }
    if k > 0.0 && nodeValue < 0.0 { NegativeProduct(nodeValue, k); }
  }

  lemma ScaledSign(value: real, k: real)
    ensures k >= 0.0 && value > 0.0 ==> Scaled(value, k) == value * k
    ensures k <= 0.0 || value <= 0.0 ==> Scaled(value, k) == 0.0
  {
    AreaSign(value, if k < 0.0 then 0.0 else k);
  }

  lemma AreaSign(value: real, k: real)
    requires k >= 0.0
    ensures value > 0.0 ==> value * k >= 0.0
    ensures value <= 0.0 ==> value * k <= 0.0
    ensures k == 0.0 ==> value * k == 0.0
  {
  }

  /** Where a node's value is the sum of its children's, their areas add up to its own. */
  lemma AreasFillNode(values: seq<real>, area: real)
    requires AllNonNegative(values) && area >= 0.0 && Sum(values) > 0.0
    ensures Sum(ScaledBy(values, area / Sum(values))) == area
  {
    var k := area / Sum(values);
    Ratio(area, Sum(values));
    ScaledSum(values, k);
  }

  lemma Ratio(a: real, b: real)
    requires a >= 0.0 && b > 0.0
    ensures a / b >= 0.0 && b * (a / b) == a
  {
    NegativeProduct(a / b, b);
  }

  lemma NegativeProduct(a: real, b: real)
    ensures a < 0.0 && b > 0.0 ==> b * a < 0.0
  {
  }

  lemma {:induction false} ScaledSum(values: seq<real>, k: real)
    requires AllNonNegative(values) && k >= 0.0
    ensures Sum(ScaledBy(values, k)) == Sum(values) * k
  {
    if values != [] {
      ScaledSum(values[1..], k);
      assert ScaledBy(values, k)[1..] == ScaledBy(values[1..], k);
      Expand(values[0], Sum(values[1..]), k);
    }
  }

  lemma Expand(a: real, b: real, k: real)
    requires a >= 0.0 && k >= 0.0
    ensures (a + b) * k == a * k + b * k && a * k >= 0.0
  {
  }

  lemma {:induction false} SumAppend(a: seq<real>, b: seq<real>)
    ensures Sum(a + b) == Sum(a) + Sum(b)
  {
    if a == [] {
      assert a + b == b;
    } else {
      SumAppend(a[1..], b);
      assert (a + b)[1..] == a[1..] + b;
    }
  }

  lemma {:induction false} SumReversed(areas: seq<real>)
    ensures Sum(Reversed(areas)) == Sum(areas)
  {
    if areas != [] {
      SumReversed(areas[1..]);
      SumAppend(Reversed(areas[1..]), [areas[0]]);
      assert Reversed(areas) == Reversed(areas[1..]) + [areas[0]];
      assert [areas[0]][1..] == [];
    }
  }

  // ---------------------------------------------------------------- exact areas

  function Size(r: Rect): real { r.dx * r.dy }

  /** Nothing is rounded. */
  ghost predicate Exact(round: real -> real) { forall r :: round(r) == r }

  ghost predicate Sizes(rects: seq<Rect>, areas: seq<real>) {
    |rects| == |areas| && forall i :: 0 <= i < |areas| ==> Size(rects[i]) == areas[i]
  }

  lemma SizesAppend(a: seq<Rect>, b: seq<Rect>, v: seq<real>, w: seq<real>)
    requires Sizes(a, v) && Sizes(b, w)
    ensures Sizes(a + b, v + w)
  {
    hide Size;
  }

  lemma Larger(a: real, b: real, c: real)
    requires a > b && c > 0.0
    ensures a * c > b * c
  {
  }

  /** A width that an area takes in a strip wide enough for it. */
  lemma WidthExact(area: real, sum: real, x: real, end: real, v: real, round: real -> real)
    requires 0.0 <= area <= sum && sum == (end - x) * v && v >= 0.0 && x <= end && Exact(round)
    ensures var w := Width(Finite(area), x, end, v, round);
            w * v == area && x + w <= end && sum - area == (end - (x + w)) * v
  {
    if v != 0.0 {
      Whole(area, v);
      if area / v > end - x { Larger(area / v, end - x, v); }
    }
  }

  lemma {:induction false} StripExact(areas: seq<real>, x: real, end: real, y: real, v: real, round: real -> real)
    requires areas != [] && AllNonNegative(areas) && Sum(areas) == (end - x) * v
    requires v >= 0.0 && x <= end && Exact(round)
    ensures Sizes(Strip(Finites(areas), x, end, y, v, round), areas)
  {
    hide Width, Strip, Sizes, Sum;
    SumNonNegative(areas[1..]);
    SumStep(areas);
    WidthExact(areas[0], Sum(areas), x, end, v, round);
    StripIs(areas, x, end, y, v, round);
    var w := Width(Finite(areas[0]), x, end, v, round);
    if |areas| == 1 {
      assert areas == [areas[0]] && areas[1..] == [];
      OneSize(Rect(x, y, w + (end - (x + w)), v), areas[0]);
    } else {
      StripExact(areas[1..], x + w, end, y, v, round);
      OneSize(Rect(x, y, w, v), areas[0]);
      SizesAppend([Rect(x, y, w, v)], Strip(Finites(areas[1..]), x + w, end, y, v, round), [areas[0]], areas[1..]);
      assert areas == [areas[0]] + areas[1..];
    }
  }

  lemma SumStep(areas: seq<real>)
    requires areas != []
    ensures Sum(areas) == areas[0] + Sum(areas[1..]) && (|areas| == 1 ==> Sum(areas) == areas[0])
  {
  }

  lemma OneSize(r: Rect, area: real)
    requires Size(r) == area
    ensures Sizes([r], [area])
  {
  }

  lemma StripIs(areas: seq<real>, x: real, end: real, y: real, v: real, round: real -> real)
    requires areas != []
    ensures var w := Width(Finite(areas[0]), x, end, v, round);
            Strip(Finites(areas), x, end, y, v, round) ==
            if |areas| == 1 then [Rect(x, y, w + (end - (x + w)), v)]
            else [Rect(x, y, w, v)] + Strip(Finites(areas[1..]), x + w, end, y, v, round)
  {
    assert Finites(areas)[1..] == Finites(areas[1..]);
  }

  lemma TransposedExact(rects: seq<Rect>, areas: seq<real>)
    requires Sizes(rects, areas)
    ensures Sizes(TransposedAll(rects), areas)
  {
    hide Cover, TransposedAll;
    TransposedCover(rects, 0.0, 0.0);
  }

  /** The thickness of a row is what its area takes, and at most what there is. */
  lemma ThicknessExact(sum: real, u: real, most: real, flush: bool, round: real -> real)
    requires 0.0 <= sum <= u * most && u >= 0.0 && most >= 0.0 && Exact(round) && (flush ==> sum == u * most)
    ensures var v := Thickness(Finite(sum), u, most, flush, round); v * u == sum && 0.0 <= v <= most
  {
    if u != 0.0 && !flush {
      Whole(sum, u);
      var v := sum / u;
      if v > most { Larger(v, most, u); }
      if v < 0.0 { Larger(0.0, v, u); }
    }
  }

  lemma Less(a: real, b: real, c: real)
    ensures a * (b - c) == a * b - a * c && (b - c) * a == a * b - c * a
  {
  }

  lemma AcrossExact(areas: seq<real>, rect: Rect, h: real, round: real -> real)
    requires areas != [] && AllNonNegative(areas) && Exact(round) && rect.dx >= 0.0
    requires 0.0 <= h && Sum(areas) == rect.dx * h
    ensures Sizes(Strips(true, Finites(areas), rect.x, rect.x + rect.dx, rect.y, h, round), areas)
    ensures rect.dx * (rect.dy - h) == Size(rect) - Sum(areas)
  {
    hide Strip, Sum, Sizes;
    StripExact(areas, rect.x, rect.x + rect.dx, rect.y, h, round);
    Less(rect.dx, rect.dy, h);
  }

  lemma DownExact(areas: seq<real>, rect: Rect, w: real, round: real -> real)
    requires areas != [] && AllNonNegative(areas) && Exact(round) && rect.dy >= 0.0
    requires 0.0 <= w && Sum(areas) == rect.dy * w
    ensures Sizes(Strips(false, Finites(areas), rect.y, rect.y + rect.dy, rect.x, w, round), areas)
    ensures (rect.dx - w) * rect.dy == Size(rect) - Sum(areas)
  {
    hide Strip, Sum, Sizes;
    StripExact(areas, rect.y, rect.y + rect.dy, rect.x, w, round);
    TransposedExact(Strip(Finites(areas), rect.y, rect.y + rect.dy, rect.x, w, round), areas);
    Less(rect.dy, rect.dx, w);
  }

  /** A row takes exactly its areas, and leaves the rest of the rectangle. */
  lemma PositionExact(areas: seq<real>, u: real, rect: Rect, flush: bool, round: real -> real)
    requires areas != [] && AllNonNegative(areas) && NonNegative(rect) && Exact(round)
    requires u == rect.dx || u == rect.dy
    requires if flush then Sum(areas) == Size(rect) else Sum(areas) <= Size(rect)
    ensures Total(Finites(areas)).Finite?
    ensures var p := Position(Finites(areas), u, rect, flush, round);
            Sizes(p.rects, areas) && NonNegative(p.rest) && Size(p.rest) == Size(rect) - Sum(areas)
  {
    hide Strips, Thickness, Total;
    SumNonNegative(areas);
    if u == rect.dx {
      PositionAcross(areas, rect, flush, round);
    } else {
      PositionDown(areas, rect, flush, round);
    }
  }

  lemma PositionAcross(areas: seq<real>, rect: Rect, flush: bool, round: real -> real)
    requires areas != [] && AllNonNegative(areas) && NonNegative(rect) && Exact(round) && Sum(areas) >= 0.0
    requires if flush then Sum(areas) == Size(rect) else Sum(areas) <= Size(rect)
    ensures Total(Finites(areas)).Finite?
    ensures var p := Position(Finites(areas), rect.dx, rect, flush, round);
            Sizes(p.rects, areas) && NonNegative(p.rest) && Size(p.rest) == Size(rect) - Sum(areas)
  {
    hide Strips, Sum, Sizes, Exact, AllNonNegative, Thickness, Total;
    FinitesTotal(areas);
    ThicknessExact(Sum(areas), rect.dx, rect.dy, flush, round);
    AcrossExact(areas, rect, Thickness(Finite(Sum(areas)), rect.dx, rect.dy, flush, round), round);
  }

  lemma PositionDown(areas: seq<real>, rect: Rect, flush: bool, round: real -> real)
    requires areas != [] && AllNonNegative(areas) && NonNegative(rect) && Exact(round) && Sum(areas) >= 0.0
    requires if flush then Sum(areas) == Size(rect) else Sum(areas) <= Size(rect)
    requires rect.dx != rect.dy
    ensures Total(Finites(areas)).Finite?
    ensures var p := Position(Finites(areas), rect.dy, rect, flush, round);
            Sizes(p.rects, areas) && NonNegative(p.rest) && Size(p.rest) == Size(rect) - Sum(areas)
  {
    hide Strips, Sum, Sizes, Exact, AllNonNegative, Thickness, Total;
    FinitesTotal(areas);
    ThicknessExact(Sum(areas), rect.dy, rect.dx, flush, round);
    DownExact(areas, rect, Thickness(Finite(Sum(areas)), rect.dy, rect.dx, flush, round), round);
  }

  lemma SumParts(row: seq<real>, queue: seq<real>)
    requires AllNonNegative(row) && AllNonNegative(queue)
    ensures Sum(row + queue) == Sum(row) + Sum(queue) && Sum(row) >= 0.0 && Sum(queue) >= 0.0
  {
    SumAppend(row, queue);
    SumNonNegative(row);
    SumNonNegative(queue);
  }

  /** Where nothing is rounded and the areas fill the rectangle, each child's rectangle has exactly its area. */
  lemma {:induction false} FillExact(row: seq<real>, best: Number, queue: seq<real>, rect: Rect, u: real, mode: Mode,
                                     ratio: real, round: real -> real)
    requires row == [] ==> best == Infinity
    requires row + queue != [] && AllNonNegative(row) && AllNonNegative(queue) && NonNegative(rect) && Exact(round)
    requires (u == rect.dx || u == rect.dy) && Sum(row + queue) == Size(rect)
    ensures var layout := Fill(Finites(row), best, Finites(queue), rect, u, mode, ratio, round);
            layout.Some? ==> Sizes(layout.value, row + queue)
    decreases |queue|, |row|
  {
    hide Position, Sum, Sizes, Size, Worst, Total, Finites, AllNonNegative, NonNegative, AtMost, Exact;
    SumParts(row, queue);
    if queue == [] {
      assert row + queue == row;
      PositionExact(row, u, rect, true, round);
    } else {
      NextFinite(row, queue);
      var score := Worst(Finites(row + [queue[0]]), u, ratio);
      if mode != Squarify || AtMost(score, best) {
        FillExact(row + [queue[0]], score, queue[1..], rect, u, mode, ratio, round);
      } else if row != [] {
        PositionExact(row, u, rect, false, round);
        var p := Position(Finites(row), u, rect, false, round);
        NoFinites(queue);
        FillExact([], Infinity, queue, p.rest, Least(p.rest.dx, p.rest.dy), mode, ratio, round);
        var rest := Fill([], Infinity, Finites(queue), p.rest, Least(p.rest.dx, p.rest.dy), mode, ratio, round);
        if rest.Some? { SizesAppend(p.rects, rest.value, row, queue); }
      }
    }
  }

  lemma NoFinites(queue: seq<real>)
    ensures Finites([]) == [] && AllNonNegative([]) && [] + queue == queue
  {
  }

  lemma NextFinite(row: seq<real>, queue: seq<real>)
    requires queue != []
    ensures Finites(queue) != [] && Finites(queue)[0] == Finite(queue[0]) && Finites(queue)[1..] == Finites(queue[1..])
    ensures Finites(row + [queue[0]]) == Finites(row) + [Finite(queue[0])]
    ensures row + [queue[0]] + queue[1..] == row + queue
    ensures AllNonNegative(row) && AllNonNegative(queue) ==>
              AllNonNegative(row + [queue[0]]) && AllNonNegative(queue[1..])
  {
  }

  // ---------------------------------------------------------------- the score

  lemma Positive(p: real, q: real)
    requires p > 0.0 && q > 0.0
    ensures p / q > 0.0 && p * q > 0.0
  {
    Whole(p, q);
    if p / q <= 0.0 { NegativeOrNone(p / q, q); }
  }

  lemma NegativeOrNone(a: real, b: real)
    requires a <= 0.0 && b > 0.0
    ensures a * b <= 0.0
  {
  }

  /** How far a piece of a row is from the wanted shape, either way: it is as thick as the row, sum / u, and as long as
      its area takes. */
  function Distortion(area: real, sum: real, u: real, ratio: real): (d: real)
    requires area > 0.0 && sum > 0.0 && u > 0.0 && ratio > 0.0
  {
    Positive(sum, u);
    Positive(area, sum / u);
    Positive(area / (sum / u), ratio);
    var thick, long := sum / u, area / (sum / u);
    Greater(ratio * long / thick, thick / (long * ratio))
  }

  function Greater(a: real, b: real): real { if a < b then b else a }

  function Most(areas: seq<real>): real {
    if areas == [] then 0.0 else
      var r, m := areas[|areas| - 1], Most(areas[..|areas| - 1]);
      if r != 0.0 && r > m then r else m
  }

  lemma FinitesInit(areas: seq<real>)
    requires areas != []
    ensures Finites(areas)[..|areas| - 1] == Finites(areas[..|areas| - 1])
    ensures forall i :: 0 <= i < |areas| ==> i == |areas| - 1 || areas[i] == areas[..|areas| - 1][i]
  {
  }

  lemma {:induction false} MostIsLargest(areas: seq<real>)
    requires AllNonNegative(areas)
    ensures Largest(Finites(areas)) == Finite(Most(areas)) && Most(areas) >= 0.0
    ensures forall i :: 0 <= i < |areas| ==> areas[i] <= Most(areas)
    ensures Most(areas) > 0.0 ==> Most(areas) in areas
  {
    if areas != [] {
      MostIsLargest(areas[..|areas| - 1]);
      FinitesInit(areas);
    }
  }

  /** The two extremes of a row are among its areas that are not zero. */
  lemma {:induction false} Extremes(areas: seq<real>)
    requires AllNonNegative(areas)
    ensures Largest(Finites(areas)) == Finite(Most(areas)) && Most(areas) >= 0.0
    ensures forall i :: 0 <= i < |areas| ==> areas[i] <= Most(areas)
    ensures Most(areas) > 0.0 ==> Most(areas) in areas
    ensures var least := Smallest(Finites(areas));
            && !least.NaN? && (least.Infinity? <==> Most(areas) == 0.0)
            && (least.Finite? ==> least.value > 0.0 && least.value in areas)
            && (least.Finite? ==> forall i :: 0 <= i < |areas| && areas[i] > 0.0 ==> least.value <= areas[i])
  {
    MostIsLargest(areas);
    if areas != [] {
      hide Largest;
      Extremes(areas[..|areas| - 1]);
      FinitesInit(areas);
    }
  }

  lemma CrossEqual(p: real, q: real, r: real, t: real)
    requires q != 0.0 && t != 0.0 && p * t == r * q
    ensures p / q == r / t
  {
    Whole(p, q);
    Whole(r, t);
    Factors(p / q, q, r / t, t);
    Cancel(p / q - r / t, q * t);
  }

  lemma Factors(x: real, q: real, y: real, t: real)
    ensures x * q * t == x * (q * t) && y * t * q == y * (q * t)
    ensures (x - y) * (q * t) == x * (q * t) - y * (q * t)
  {
    Less(q * t, x, y);
  }

  lemma Wide(u: real, l: real, v: real, ratio: real)
    ensures u * u * (l * v) * ratio * v == ratio * l * ((v * u) * (v * u))
    ensures v * (u * u * (l * v) * ratio) == (v * u) * (v * u) * (l * ratio)
  {
    var p := u * u * (l * v) * ratio * v;
    assert u * u * (l * v) * ratio == (u * u * l * ratio) * v;
    assert (v * u) * (v * u) == v * v * (u * u);
  }

  lemma Forms(u: real, l: real, v: real, ratio: real)
    requires u > 0.0 && l > 0.0 && v > 0.0 && ratio > 0.0
    ensures u * u * (l * v) * ratio > 0.0 && (v * u) * (v * u) > 0.0 && l * ratio > 0.0
    ensures ratio * l / v == u * u * (l * v) * ratio / ((v * u) * (v * u))
    ensures v / (l * ratio) == (v * u) * (v * u) / (u * u * (l * v) * ratio)
  {
    Times(u, u, u * u);
    Times(l, v, l * v);
    Times(v, u, v * u);
    Times(v * u, v * u, (v * u) * (v * u));
    Times(u * u, l * v, u * u * (l * v));
    Times(u * u * (l * v), ratio, u * u * (l * v) * ratio);
    Times(l, ratio, l * ratio);
    Wide(u, l, v, ratio);
    Cross(ratio * l, v, u * u * (l * v) * ratio, (v * u) * (v * u));
    Cross(v, l * ratio, (v * u) * (v * u), u * u * (l * v) * ratio);
  }

  lemma Cross(p: real, q: real, r: real, t: real)
    requires q > 0.0 && t > 0.0
    ensures p * t == r * q ==> p / q == r / t
  {
    if p * t == r * q { CrossEqual(p, q, r, t); }
  }

  /** The product has a name of its own, which also serves for squares. */
  lemma Times(p: real, q: real, r: real)
    requires p > 0.0 && q > 0.0 && r == p * q
    ensures r > 0.0
  {
    Positive(p, q);
  }

  lemma Factor(area: real, u: real, ratio: real)
    requires area > 0.0 && u > 0.0 && ratio > 0.0
    ensures u * u * area * ratio > 0.0
  {
    Times(u, u, u * u);
    Positive(u * u, area);
    Positive(u * u * area, ratio);
  }

  /** The two bounds that `worst` computes. */
  function Long(area: real, sum: real, u: real, ratio: real): real
    requires area > 0.0 && sum > 0.0 && u > 0.0 && ratio > 0.0
  {
    Times(sum, sum, sum * sum);
    u * u * area * ratio / (sum * sum)
  }

  function Thin(area: real, sum: real, u: real, ratio: real): real
    requires area > 0.0 && sum > 0.0 && u > 0.0 && ratio > 0.0
  {
    Factor(area, u, ratio);
    sum * sum / (u * u * area * ratio)
  }

  /** They are the two sides of the aspect ratio. */
  lemma DistortionIs(area: real, sum: real, u: real, ratio: real)
    requires area > 0.0 && sum > 0.0 && u > 0.0 && ratio > 0.0
    ensures Distortion(area, sum, u, ratio) == Greater(Long(area, sum, u, ratio), Thin(area, sum, u, ratio))
  {
    Positive(sum, u);
    Positive(area, sum / u);
    Whole(sum, u);
    Whole(area, sum / u);
    var v, l := sum / u, area / (sum / u);
    Forms(u, l, v, ratio);
    assert l * v == area && v * u == sum;
    assert ratio * l / v == Long(area, sum, u, ratio);
    assert v / (l * ratio) == Thin(area, sum, u, ratio);
    hide Greater, Long, Thin;
  }

  lemma Monotone(a: real, b: real, c: real, s: real)
    requires 0.0 < a <= b && c > 0.0 && s > 0.0
    ensures 0.0 < c * a <= c * b && c * a / s <= c * b / s && s / (c * b) <= s / (c * a)
  {
    Positive(c, a);
    Less(c, b, a);
    NotNegative(b - a, c);
    Quotients(c * a, c * b, s);
  }

  lemma NotNegative(a: real, b: real)
    requires a >= 0.0 && b >= 0.0
    ensures a * b >= 0.0 && b * a >= 0.0
  {
  }

  lemma Quotients(p: real, q: real, s: real)
    requires 0.0 < p <= q && s > 0.0
    ensures p / s <= q / s && s / q <= s / p
  {
    Whole(p, s);
    Whole(q, s);
    if p / s > q / s { Larger(p / s, q / s, s); }
    Whole(s, p);
    Whole(s, q);
    Positive(s, p);
    NotNegative(q - p, s / p);
    Less(s / p, q, p);
    if s / q > s / p { Larger(s / q, s / p, q); }
  }

  lemma {:induction false} SumOfNothing(areas: seq<real>)
    requires forall i :: 0 <= i < |areas| ==> areas[i] == 0.0
    ensures Sum(areas) == 0.0
  {
    if areas != [] { SumOfNothing(areas[1..]); }
  }

  lemma SomeArea(areas: seq<real>)
    requires AllNonNegative(areas)
    ensures Sum(areas) > 0.0 ==> Most(areas) > 0.0
  {
    Extremes(areas);
    if Most(areas) == 0.0 { SumOfNothing(areas); }
  }

  lemma ScoreIs(sum: real, largest: real, smallest: real, u: real, ratio: real)
    requires sum > 0.0 && u > 0.0 && ratio > 0.0 && 0.0 < smallest <= largest
    ensures Aspect(Finite(sum), Finite(largest), Finite(smallest), u, ratio) ==
            Finite(Greater(Long(largest, sum, u, ratio), Thin(smallest, sum, u, ratio)))
  {
    Times(sum, sum, sum * sum);
    Factor(smallest, u, ratio);
  }

  lemma Between(a: real, b: real, sum: real, u: real, ratio: real)
    requires 0.0 < a <= b && sum > 0.0 && u > 0.0 && ratio > 0.0
    ensures Long(a, sum, u, ratio) <= Long(b, sum, u, ratio)
    ensures Thin(b, sum, u, ratio) <= Thin(a, sum, u, ratio)
  {
    Times(sum, sum, sum * sum);
    Times(u, u, u * u);
    Positive(u * u, ratio);
    Monotone(a, b, u * u * ratio, sum * sum);
    Commute(u * u, ratio, a);
    Commute(u * u, ratio, b);
  }

  lemma Commute(a: real, b: real, c: real)
    ensures a * b * c == a * c * b
  {
  }

  /** The score of a row is the worst aspect ratio in it: no piece that has an area is further from the wanted shape,
      and one is as far. */
  lemma WorstIsReached(areas: seq<real>, u: real, ratio: real)
    requires AllNonNegative(areas) && Sum(areas) > 0.0 && u > 0.0 && ratio > 0.0
    ensures Worst(Finites(areas), u, ratio).Finite?
    ensures forall i :: 0 <= i < |areas| && areas[i] > 0.0 ==>
                          Distortion(areas[i], Sum(areas), u, ratio) <= Worst(Finites(areas), u, ratio).value
    ensures exists i :: 0 <= i < |areas| && areas[i] > 0.0
                        && Distortion(areas[i], Sum(areas), u, ratio) == Worst(Finites(areas), u, ratio).value
  {
    SomeArea(areas);
    Extremes(areas);
    FinitesTotal(areas);
    hide Aspect, Largest, Smallest, Sum, Distortion, Long, Thin, Finites;
    var sum, most, least := Sum(areas), Most(areas), Smallest(Finites(areas)).value;
    var i :| 0 <= i < |areas| && areas[i] == most;
    var j :| 0 <= j < |areas| && areas[j] == least;
    ScoreIs(sum, most, least, u, ratio);
    forall k | 0 <= k < |areas| && areas[k] > 0.0
      ensures Distortion(areas[k], sum, u, ratio) <= Worst(Finites(areas), u, ratio).value
    {
      Between(least, areas[k], sum, u, ratio);
      Between(areas[k], most, sum, u, ratio);
      DistortionIs(areas[k], sum, u, ratio);
    }
    Between(least, most, sum, u, ratio);
    DistortionIs(most, sum, u, ratio);
    DistortionIs(least, sum, u, ratio);
    assert Distortion(areas[i], sum, u, ratio) == Worst(Finites(areas), u, ratio).value
        || Distortion(areas[j], sum, u, ratio) == Worst(Finites(areas), u, ratio).value;
  }

  // ---------------------------------------------------------------- the rows

  /** Seen so that the row lies across. */
  function Turned(across: bool, r: Rect): Rect { if across then r else Transposed(r) }

  /** The rectangles stand side by side along a whole side of the space, from its corner on, and are equally thick. */
  ghost predicate RowLaid(rects: seq<Rect>, space: Rect, across: bool) {
    var whole := Turned(across, space);
    && rects != [] && Turned(across, rects[0]).x == whole.x
    && (forall j :: 0 <= j < |rects| ==>
          Turned(across, rects[j]).y == whole.y && Turned(across, rects[j]).dy == Turned(across, rects[0]).dy)
    && (forall i, j :: 0 <= i && j == i + 1 < |rects| ==>
          Turned(across, rects[j]).x == Turned(across, rects[i]).x + Turned(across, rects[i]).dx)
    && Turned(across, rects[|rects| - 1]).x + Turned(across, rects[|rects| - 1]).dx == whole.x + whole.dx
  }

  /** The space without a row along its side. */
  function Without(space: Rect, first: Rect, across: bool): Rect {
    if across then Rect(space.x, space.y + first.dy, space.dx, space.dy - first.dy)
    else Rect(space.x + first.dx, space.y, space.dx - first.dx, space.dy)
  }

  lemma {:induction false} StripLaid(areas: seq<Number>, x: real, end: real, y: real, v: real, round: real -> real)
    requires areas != []
    ensures RowLaid(Strip(areas, x, end, y, v, round), Rect(x, y, end - x, v), true)
    ensures Strip(areas, x, end, y, v, round)[0].dy == v
  {
    if |areas| > 1 {
      StripLaid(areas[1..], x + Width(areas[0], x, end, v, round), end, y, v, round);
    }
  }

  lemma StripsLaid(across: bool, areas: seq<Number>, space: Rect, v: real, round: real -> real)
    requires areas != []
    ensures var rects := if across then Strips(true, areas, space.x, space.x + space.dx, space.y, v, round)
                         else Strips(false, areas, space.y, space.y + space.dy, space.x, v, round);
            RowLaid(rects, space, across) && v == if across then rects[0].dy else rects[0].dx
  {
    hide Strip, Cover;
    if across {
      StripLaid(areas, space.x, space.x + space.dx, space.y, v, round);
    } else {
      StripLaid(areas, space.y, space.y + space.dy, space.x, v, round);
      TransposedCover(Strip(areas, space.y, space.y + space.dy, space.x, v, round), 0.0, 0.0);
    }
  }

  /** A row is laid along the side of length u, and its thickness is cut off the space. */
  lemma PositionLaid(areas: seq<Number>, u: real, space: Rect, flush: bool, round: real -> real)
    requires areas != [] && (flush || Total(areas).Finite?)
    ensures var p := Position(areas, u, space, flush, round);
            RowLaid(p.rects, space, u == space.dx) && p.rest == Without(space, p.rects[0], u == space.dx)
  {
    hide Strips, RowLaid, Thickness, Total;
    var most := if u == space.dx then space.dy else space.dx;
    StripsLaid(u == space.dx, areas, space, Thickness(Total(areas), u, most, flush, round), round);
  }

  /** In the modes other than squarify there is a single row: across the node in slices, down it when diced. A square
      node is sliced whatever the mode. */
  lemma {:induction false} SingleRow(row: seq<Number>, best: Number, queue: seq<Number>, space: Rect, u: real,
                                     mode: Mode, ratio: real, round: real -> real)
    requires row == [] ==> best == Infinity
    requires row + queue != [] && mode != Squarify
    ensures var layout := Fill(row, best, queue, space, u, mode, ratio, round);
            layout.Some? && RowLaid(layout.value, space, u == space.dx)
    decreases |queue|, |row|
  {
    hide Worst, Position, RowLaid;
    if queue == [] {
      assert row + queue == row;
      PositionLaid(row, u, space, true, round);
    } else {
      assert row + [queue[0]] + queue[1..] == row + queue;
      SingleRow(row + [queue[0]], Worst(row + [queue[0]], u, ratio), queue[1..], space, u, mode, ratio, round);
    }
  }

  /** No piece that has an area is further from the wanted shape than some piece was before. */
  ghost predicate NoWorse(before: seq<real>, after: seq<real>, u: real, ratio: real) {
    Sum(before) > 0.0 && Sum(after) > 0.0 && u > 0.0 && ratio > 0.0 ==>
      forall j :: 0 <= j < |after| && after[j] > 0.0 ==>
        exists i :: 0 <= i < |before| && before[i] > 0.0
                    && Distortion(after[j], Sum(after), u, ratio) <= Distortion(before[i], Sum(before), u, ratio)
  }

  /** The first n areas make a row: each of them joined without making the worst piece worse, and the next one would
      have made it worse. */
  ghost predicate MakeRow(areas: seq<real>, n: nat, u: real, ratio: real)
    requires n <= |areas|
  {
    && (forall k :: 0 < k < n ==> NoWorse(areas[..k], areas[..k + 1], u, ratio))
    && (n < |areas| ==> !NoWorse(areas[..n], areas[..n + 1], u, ratio))
  }

  /** The areas are laid out in rows of these lengths, each along the shorter side of the space that is left. */
  ghost predicate SquareRows(areas: seq<real>, rects: seq<Rect>, space: Rect, rows: seq<nat>, ratio: real)
    decreases |rows|
  {
    && |rects| == |areas|
    && if rows == [] then areas == []
       else
         var n, across := rows[0], space.dx <= space.dy;
         && 0 < n <= |areas| && MakeRow(areas, n, if across then space.dx else space.dy, ratio)
         && RowLaid(rects[..n], space, across)
         && SquareRows(areas[n..], rects[n..], Without(space, rects[0], across), rows[1..], ratio)
  }

  lemma {:induction false} NothingIsZero(areas: seq<real>)
    requires AllNonNegative(areas) && Sum(areas) == 0.0
    ensures forall i :: 0 <= i < |areas| ==> areas[i] == 0.0
  {
    if areas != [] {
      SumNonNegative(areas[1..]);
      NothingIsZero(areas[1..]);
    }
  }

  /** The score says whether a further area makes the worst piece worse. */
  lemma ScoreOrder(before: seq<real>, after: seq<real>, u: real, ratio: real)
    requires AllNonNegative(before) && AllNonNegative(after) && Sum(after) >= Sum(before) >= 0.0
    requires u >= 0.0 && ratio > 0.0
    ensures AtMost(Worst(Finites(after), u, ratio), Worst(Finites(before), u, ratio)) <==>
              NoWorse(before, after, u, ratio)
  {
    ScoreIsNumber(Finites(after), u, ratio);
    if Sum(before) > 0.0 && u > 0.0 {
      hide Worst, Distortion, AllNonNegative, Sum;
      WorstIsReached(before, u, ratio);
      WorstIsReached(after, u, ratio);
    } else {
      NoScore(before, u, ratio);
    }
  }

  lemma NoScore(areas: seq<real>, u: real, ratio: real)
    requires AllNonNegative(areas) && (Sum(areas) == 0.0 || (Sum(areas) > 0.0 && u == 0.0))
    ensures Worst(Finites(areas), u, ratio) == Infinity
  {
    hide Total, Largest, Smallest, Sum, Most, Finites, Aspect, AllNonNegative;
    FinitesTotal(areas);
    Extremes(areas);
    SomeArea(areas);
    if Sum(areas) == 0.0 {
      NoSum(Most(areas), Smallest(Finites(areas)), u, ratio);
    } else {
      NoSide(Sum(areas), Most(areas), Smallest(Finites(areas)).value, ratio);
    }
  }

  lemma NoSum(largest: real, smallest: Number, u: real, ratio: real)
    ensures Aspect(Finite(0.0), Finite(largest), smallest, u, ratio) == Infinity
  {
  }

  lemma NoSide(sum: real, largest: real, smallest: real, ratio: real)
    requires sum > 0.0
    ensures Aspect(Finite(sum), Finite(largest), Finite(smallest), 0.0, ratio) == Infinity
  {
    Times(sum, sum, sum * sum);
  }

  lemma Joined(row: seq<real>, a: real, u: real, ratio: real)
    requires AllNonNegative(row) && a >= 0.0 && u >= 0.0 && ratio > 0.0
    ensures AllNonNegative(row + [a]) && Sum(row + [a]) >= Sum(row) >= 0.0
    ensures AtMost(Worst(Finites(row + [a]), u, ratio), Worst(Finites(row), u, ratio)) <==>
              NoWorse(row, row + [a], u, ratio)
    ensures AtMost(Worst(Finites(row + [a]), u, ratio), Infinity)
  {
    SumParts(row, [a]);
    ScoreOrder(row, row + [a], u, ratio);
    ScoreIsNumber(Finites(row + [a]), u, ratio);
  }

  /** What the loop has found out about the row that it is filling. */
  ghost predicate Grown(row: seq<real>, u: real, ratio: real) {
    forall k :: 0 < k < |row| ==> NoWorse(row[..k], row[..k + 1], u, ratio)
  }

  lemma GrownOn(row: seq<real>, a: real, u: real, ratio: real)
    requires Grown(row, u, ratio) && (row == [] || NoWorse(row, row + [a], u, ratio))
    ensures Grown(row + [a], u, ratio)
  {
    hide NoWorse;
    var longer := row + [a];
    forall k | 0 < k < |longer| ensures NoWorse(longer[..k], longer[..k + 1], u, ratio) {
      if k < |row| {
        assert longer[..k] == row[..k] && longer[..k + 1] == row[..k + 1];
      } else {
        assert longer[..k] == row && longer[..k + 1] == longer;
      }
    }
  }

  lemma RowMade(row: seq<real>, queue: seq<real>, u: real, ratio: real)
    requires Grown(row, u, ratio) && (queue == [] || !NoWorse(row, row + [queue[0]], u, ratio))
    ensures MakeRow(row + queue, |row|, u, ratio) && (row + queue)[|row|..] == queue
  {
    hide NoWorse;
    var areas := row + queue;
    forall k | 0 < k < |row| ensures NoWorse(areas[..k], areas[..k + 1], u, ratio) {
      assert areas[..k] == row[..k] && areas[..k + 1] == row[..k + 1];
    }
    assert areas[..|row|] == row;
    if queue != [] { assert areas[..|row| + 1] == row + [queue[0]]; }
  }

  lemma RowsBehind(row: seq<real>, queue: seq<real>, laid: seq<Rect>, rest: seq<Rect>, space: Rect, rows: seq<nat>,
                   ratio: real)
    requires row != [] && |laid| == |row|
    requires var across := space.dx <= space.dy;
             && MakeRow(row + queue, |row|, if across then space.dx else space.dy, ratio)
             && RowLaid(laid, space, across)
             && SquareRows(queue, rest, Without(space, laid[0], across), rows, ratio)
    ensures SquareRows(row + queue, laid + rest, space, [|row|] + rows, ratio)
  {
    hide MakeRow, RowLaid, Without;
    assert (row + queue)[|row|..] == queue;
    assert (laid + rest)[..|row|] == laid && (laid + rest)[|row|..] == rest;
    assert ([|row|] + rows)[1..] == rows;
  }

  /** The rows of a squarified layout: along the shorter side, and as long as the worst shape does not get worse. */
  lemma {:induction false} FillSquares(row: seq<real>, best: Number, queue: seq<real>, space: Rect, ratio: real,
                                       round: real -> real) returns (rows: seq<nat>)
    requires best == if row == [] then Infinity else Worst(Finites(row), Least(space.dx, space.dy), ratio)
    requires row + queue != [] && AllNonNegative(row) && AllNonNegative(queue) && NonNegative(space) && ratio > 0.0
    requires Rounding(round) && Grown(row, Least(space.dx, space.dy), ratio)
    requires Fill(Finites(row), best, Finites(queue), space, Least(space.dx, space.dy), Squarify, ratio, round).Some?
    ensures SquareRows(row + queue,
                       Fill(Finites(row), best, Finites(queue), space, Least(space.dx, space.dy), Squarify, ratio,
                            round).value, space, rows, ratio)
    decreases |queue|, |row|
  {
    hide Position, Sum, Worst, Total, Finites, AllNonNegative, AtMost, Rounding, NoWorse, Grown, MakeRow, RowLaid,
         SquareRows, Without;
    var u := Least(space.dx, space.dy);
    if queue == [] {
      PositionLaid(Finites(row), u, space, true, round);
      RowMade(row, queue, u, ratio);
      NoRows(Without(space, Position(Finites(row), u, space, true, round).rects[0], space.dx <= space.dy), ratio);
      RowsBehind(row, [], Position(Finites(row), u, space, true, round).rects, [], space, [], ratio);
      assert Position(Finites(row), u, space, true, round).rects + []
          == Position(Finites(row), u, space, true, round).rects;
      rows := [|row|] + [];
    } else {
      NextFinite(row, queue);
      FirstArea(queue);
      Joined(row, queue[0], u, ratio);
      var score := Worst(Finites(row + [queue[0]]), u, ratio);
      if AtMost(score, best) {
        GrownOn(row, queue[0], u, ratio);
        rows := FillSquares(row + [queue[0]], score, queue[1..], space, ratio, round);
      } else {
        RowMade(row, queue, u, ratio);
        var p := Position(Finites(row), u, space, false, round);
        PositionLaid(Finites(row), u, space, false, round);
        FinitesAreas(row);
        PositionTiles(Finites(row), u, space, false, round);
        NoFinites(queue);
        Ungrown(Least(p.rest.dx, p.rest.dy), ratio);
        rows := FillSquares([], Infinity, queue, p.rest, ratio, round);
        var rest := Fill([], Infinity, Finites(queue), p.rest, Least(p.rest.dx, p.rest.dy), Squarify, ratio, round);
        RowsBehind(row, queue, p.rects, rest.value, space, rows, ratio);
        rows := [|row|] + rows;
      }
    }
  }

  lemma Ungrown(u: real, ratio: real)
    ensures Grown([], u, ratio)
  {
  }

  lemma FinitesAreas(areas: seq<real>)
    requires AllNonNegative(areas)
    ensures AllAreas(Finites(areas)) && Total(Finites(areas)) == Finite(Sum(areas))
  {
    FinitesTotal(areas);
  }

  lemma FirstArea(queue: seq<real>)
    requires queue != [] && AllNonNegative(queue)
    ensures queue[0] >= 0.0
  {
  }

  lemma NoRows(space: Rect, ratio: real)
    ensures SquareRows([], [], space, [], ratio)
  {
  }

  function Reals(areas: seq<Number>): (r: seq<real>)
    ensures |r| == |areas| && forall i :: 0 <= i < |areas| ==> r[i] == if areas[i].Finite? then areas[i].value else 0.0
  {
    seq(|areas|, i requires 0 <= i < |areas| => if areas[i].Finite? then areas[i].value else 0.0)
  }

  lemma RealsOf(areas: seq<Number>)
    requires AllFinite(areas) && AllAreas(areas)
    ensures Finites(Reals(areas)) == areas && AllNonNegative(Reals(areas))
  {
  }

  /** A node's children in the squarified mode, whenever the program gets through. */
  lemma LayoutSquares(value: real, depth: nat, values: seq<real>, rect: Rect, ratio: real,
                      round: real -> real) returns (rows: seq<nat>)
    requires values != [] && NonNegative(rect) && Rounding(round) && ratio > 0.0
    requires Layout(value, depth, values, rect, Squarify, ratio, round).Some?
    ensures SquareRows(Reals(ScaledAreas(values, Density(value, rect))),
                       Layout(value, depth, values, rect, Squarify, ratio, round).value, rect, rows, ratio)
  {
    hide Fill, SquareRows, Finites, Reals, ScaledAreas, Density;
    var areas := ScaledAreas(values, Density(value, rect));
    FillFails([], Infinity, areas, rect, Side(rect, depth, Squarify), Squarify, ratio, round);
    RealsOf(areas);
    NoFinites(Reals(areas));
    Ungrown(Least(rect.dx, rect.dy), ratio);
    rows := FillSquares([], Infinity, Reals(areas), rect, ratio, round);
  }

  /** In the other modes: slices stand next to each other, dice below each other, alternating with the depth in the
      last mode; but where a node is square, they always stand next to each other. */
  lemma LayoutSlices(value: real, depth: nat, values: seq<real>, rect: Rect, mode: Mode, ratio: real,
                     round: real -> real)
    requires values != [] && mode != Squarify
    ensures var layout := Layout(value, depth, values, rect, mode, ratio, round);
            && layout.Some?
            && RowLaid(layout.value, rect,
                       mode.Slice? || (mode.SliceDice? && depth % 2 == 0) || rect.dx == rect.dy)
  {
    hide Fill, RowLaid;
    var areas := ScaledAreas(values, Density(value, rect));
    assert [] + areas == areas;
    SingleRow([], Infinity, areas, rect, Side(rect, depth, mode), mode, ratio, round);
  }
}
