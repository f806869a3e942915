/** The squarified treemap on values: areas in, rectangles out. */
module TreemapSpec {
  import opened Basics

  /** A number of the program: a real one, infinity, as from a division by zero, or none at all. */
  datatype Number = Finite(value: real) | Infinity | NaN

  datatype Rect = Rect(x: real, y: real, dx: real, dy: real)

  predicate NonNegative(r: Rect) { r.dx >= 0.0 && r.dy >= 0.0 }

  /** The rectangle covers the point (px, py); its right and bottom edges belong to the next one. */
  predicate Covers(r: Rect, px: real, py: real) { r.x <= px < r.x + r.dx && r.y <= py < r.y + r.dy }

  function Bit(b: bool): nat { if b then 1 else 0 }

  /** How many rectangles cover a point. */
  function Cover(rects: seq<Rect>, px: real, py: real): nat {
    if rects == [] then 0 else Bit(Covers(rects[0], px, py)) + Cover(rects[1..], px, py)
  }

  /** The rectangles have non-negative sides, overlap nowhere and cover exactly the area of r. */
  ghost predicate Tiles(rects: seq<Rect>, r: Rect) {
    && (forall i :: 0 <= i < |rects| ==> NonNegative(rects[i]))
    && (forall px, py :: Cover(rects, px, py) == Bit(Covers(r, px, py)))
  }

  lemma {:induction false} CoverAppend(a: seq<Rect>, b: seq<Rect>, px: real, py: real)
    ensures Cover(a + b, px, py) == Cover(a, px, py) + Cover(b, px, py)
  {
    if a == [] {
      assert a + b == b;
    } else {
      CoverAppend(a[1..], b, px, py);
      assert (a + b)[1..] == a[1..] + b;
    }
  }

  function Least(a: real, b: real): real { if a < b then a else b }

  // ---------------------------------------------------------------- one row

  function Transposed(r: Rect): Rect { Rect(r.y, r.x, r.dy, r.dx) }

  function TransposedAll(rects: seq<Rect>): (r: seq<Rect>)
    ensures |r| == |rects|
  {
    if rects == [] then [] else [Transposed(rects[0])] + TransposedAll(rects[1..])
  }

  lemma {:induction false} TransposedCover(rects: seq<Rect>, px: real, py: real)
    ensures Cover(TransposedAll(rects), px, py) == Cover(rects, py, px)
    ensures forall i :: 0 <= i < |rects| ==> TransposedAll(rects)[i] == Transposed(rects[i])
  {
    if rects != [] {
      TransposedCover(rects[1..], px, py);
      assert TransposedAll(rects)[1..] == TransposedAll(rects[1..]);
    }
  }

  predicate AllNonNegative(areas: seq<real>) { forall i :: 0 <= i < |areas| ==> areas[i] >= 0.0 }

  predicate IsArea(n: Number) { n.Infinity? || (n.Finite? && n.value >= 0.0) }

  predicate AllAreas(areas: seq<Number>) { forall i :: 0 <= i < |areas| ==> IsArea(areas[i]) }

  /** Any rounding of sizes that keeps them non-negative. */
  ghost predicate Rounding(round: real -> real) { forall r :: r >= 0.0 ==> round(r) >= 0.0 }

  /** What an area takes of a strip from x to end; an infinite one takes all that is left. */
  function Width(area: Number, x: real, end: real, v: real, round: real -> real): real {
    if v == 0.0 then Least(end - x, 0.0)
    else if area.Finite? then Least(end - x, round(area.value / v))
    else end - x
  }

  /** A strip of thickness v from x to end, cut by area; the last piece takes what is left. */
  function Strip(areas: seq<Number>, x: real, end: real, y: real, v: real, round: real -> real): (r: seq<Rect>)
    ensures |r| == |areas|
  {
    if areas == [] then []
    else
      var w := Width(areas[0], x, end, v, round);
      if |areas| == 1 then [Rect(x, y, w + (end - (x + w)), v)]
      else [Rect(x, y, w, v)] + Strip(areas[1..], x + w, end, y, v, round)
  }

  /** A piece of a strip; a strip lies across a rectangle, or down it. */
  function Piece(across: bool, x: real, y: real, w: real, v: real): Rect {
    if across then Rect(x, y, w, v) else Rect(y, x, v, w)
  }

  function Strips(across: bool, areas: seq<Number>, x: real, end: real, y: real, v: real,
                  round: real -> real): (r: seq<Rect>)
    ensures |r| == |areas|
  {
    if across then Strip(areas, x, end, y, v, round) else TransposedAll(Strip(areas, x, end, y, v, round))
  }

  /** The pieces `done` end at x, and completing them gives the strip `whole`: with the remaining areas,
      or, when none remain, by stretching the last piece to the end. */
  ghost predicate Progress(across: bool, done: seq<Rect>, areas: seq<Number>, x: real, end: real, y: real, v: real,
                           round: real -> real, whole: seq<Rect>) {
    && |done| <= |areas|
    && (|done| < |areas| ==> done + Strips(across, areas[|done|..], x, end, y, v, round) == whole)
    && (|done| == |areas| > 0 ==> done[..|done| - 1] + [Stretched(across, done[|done| - 1], end - x)] == whole)
  }

  function Stretched(across: bool, r: Rect, extra: real): Rect {
    if across then r.(dx := r.dx + extra) else r.(dy := r.dy + extra)
  }

  lemma StartStrip(across: bool, areas: seq<Number>, x: real, end: real, y: real, v: real, round: real -> real)
    requires areas != []
    ensures Progress(across, [], areas, x, end, y, v, round, Strips(across, areas, x, end, y, v, round))
  {
    assert areas[0..] == areas;
    var whole := Strips(across, areas, x, end, y, v, round);
    assert [] + whole == whole;
  }

  lemma StripsStep(across: bool, areas: seq<Number>, x: real, end: real, y: real, v: real, round: real -> real)
    requires areas != []
    ensures var w := Width(areas[0], x, end, v, round);
            var p := Piece(across, x, y, w, v);
            Strips(across, areas, x, end, y, v, round) ==
            if |areas| == 1 then [Stretched(across, p, end - (x + w))]
            else [p] + Strips(across, areas[1..], x + w, end, y, v, round)
  {
    var strip := Strip(areas, x, end, y, v, round);
    if |areas| == 1 {
      assert strip[1..] == [];
    } else {
      assert strip[1..] == Strip(areas[1..], x + Width(areas[0], x, end, v, round), end, y, v, round);
    }
  }

  lemma ExtendStrip(across: bool, done: seq<Rect>, areas: seq<Number>, x: real, end: real, y: real, v: real,
                    round: real -> real, whole: seq<Rect>)
    requires Progress(across, done, areas, x, end, y, v, round, whole) && |done| < |areas|
    ensures var w := Width(areas[|done|], x, end, v, round);
            Progress(across, done + [Piece(across, x, y, w, v)], areas, x + w, end, y, v, round, whole)
  {
    hide Strips, Width, Piece, Stretched;
    var rest := areas[|done|..];
    StripsStep(across, rest, x, end, y, v, round);
    var p := Piece(across, x, y, Width(rest[0], x, end, v, round), v);
    assert rest[1..] == areas[|done| + 1..];
    assert (done + [p])[..|done|] == done;
    if |rest| > 1 {
      Reassociate(done, p, Strips(across, rest[1..], x + Width(rest[0], x, end, v, round), end, y, v, round));
    }
  }

  lemma Reassociate(a: seq<Rect>, p: Rect, b: seq<Rect>)
    ensures a + ([p] + b) == a + [p] + b
  {
  }

  lemma {:induction false} StripTiles(areas: seq<Number>, x: real, end: real, y: real, v: real, round: real -> real)
    requires areas != [] && x <= end && v >= 0.0 && Rounding(round)
    requires AllAreas(areas)
    ensures Tiles(Strip(areas, x, end, y, v, round), Rect(x, y, end - x, v))
  {
    var rects := Strip(areas, x, end, y, v, round);
    var w := Width(areas[0], x, end, v, round);
    assert w >= 0.0 by {
      if v != 0.0 && areas[0].Finite? { assert areas[0].value / v >= 0.0; }
    }
    if |areas| > 1 {
      var rest := Strip(areas[1..], x + w, end, y, v, round);
      StripTiles(areas[1..], x + w, end, y, v, round);
      assert rects[1..] == rest;
      forall px, py ensures Cover(rects, px, py) == Bit(Covers(Rect(x, y, end - x, v), px, py)) {
        assert Cover(rest, px, py) == Bit(Covers(Rect(x + w, y, end - (x + w), v), px, py));
      }
    } else {
      assert rects == [Rect(x, y, end - x, v)];
      forall px, py ensures Cover(rects, px, py) == Bit(Covers(rects[0], px, py)) {
        assert rects[1..] == [];
      }
    }
  }

  function Plus(a: Number, b: Number): Number {
    if a.NaN? || b.NaN? then NaN
    else if a.Finite? && b.Finite? then Finite(a.value + b.value)
    else Infinity
  }

  /** Subtraction, not defined here where the difference is minus infinity. */
  function Minus(a: Number, b: Number): Number
    requires a.Finite? ==> !b.Infinity?
  {
    if a.NaN? || b.NaN? || b.Infinity? then NaN
    else if a.Finite? then Finite(a.value - b.value)
    else Infinity
  }

  function Total(areas: seq<Number>): Number {
    if areas == [] then Finite(0.0) else Plus(areas[0], Total(areas[1..]))
  }

  datatype Placement = Placement(rects: seq<Rect>, rest: Rect)

  /** How thick a row is: as its area asks for, but not thicker than what is left, and all of that if it is the last. */
  function Thickness(total: Number, u: real, most: real, flush: bool, round: real -> real): real
    requires flush || total.Finite?
  {
    if flush then most
    else
      var v := if u != 0.0 then round(total.value / u) else 0.0;
      if v > most then most else v
  }

  /** `position`: lay a row along the side of length u, and what is left of the rectangle. */
  function Position(areas: seq<Number>, u: real, rect: Rect, flush: bool, round: real -> real): (p: Placement)
    requires flush || Total(areas).Finite?
    ensures |p.rects| == |areas|
  {
    if u == rect.dx then
      var h := Thickness(Total(areas), u, rect.dy, flush, round);
      Placement(Strips(true, areas, rect.x, rect.x + rect.dx, rect.y, h, round),
                Rect(rect.x, rect.y + h, rect.dx, rect.dy - h))
    else
      var w := Thickness(Total(areas), u, rect.dx, flush, round);
      Placement(Strips(false, areas, rect.y, rect.y + rect.dy, rect.x, w, round),
                Rect(rect.x + w, rect.y, rect.dx - w, rect.dy))
  }

  lemma {:induction false} TotalIsArea(areas: seq<Number>)
    requires AllAreas(areas)
    ensures IsArea(Total(areas))
    ensures Total(areas).Infinity? <==> exists i :: 0 <= i < |areas| && areas[i].Infinity?
  {
    if areas != [] {
      TotalIsArea(areas[1..]);
      if Total(areas[1..]).Infinity? {
        var i :| 0 <= i < |areas[1..]| && areas[1..][i].Infinity?;
        assert areas[i + 1].Infinity?;
      }
    }
  }

  lemma ThicknessFits(total: Number, u: real, most: real, flush: bool, round: real -> real)
    requires (flush || total.Finite?) && IsArea(total) && u >= 0.0 && most >= 0.0 && Rounding(round)
    ensures 0.0 <= Thickness(total, u, most, flush, round) <= most
    ensures flush ==> Thickness(total, u, most, flush, round) == most
  {
    if !flush && u != 0.0 { assert total.value / u >= 0.0; }
  }

  /** A row and what it leaves tile the rectangle; a flushed row leaves nothing. */
  lemma PositionTiles(areas: seq<Number>, u: real, rect: Rect, flush: bool, round: real -> real)
    requires areas != [] && NonNegative(rect) && u >= 0.0 && Rounding(round)
    requires AllAreas(areas) && (flush || Total(areas).Finite?)
    ensures var p := Position(areas, u, rect, flush, round);
            && NonNegative(p.rest) && Tiles(p.rects + [p.rest], rect)
            && (flush ==> Tiles(p.rects, rect))
  {
    hide Strips, Tiles, Thickness, Total;
    var p := Position(areas, u, rect, flush, round);
    TotalIsArea(areas);
    if u == rect.dx {
      var h := Thickness(Total(areas), u, rect.dy, flush, round);
      ThicknessFits(Total(areas), u, rect.dy, flush, round);
      StripsTile(true, areas, rect.x, rect.x + rect.dx, rect.y, h, round);
      CutTiles(p.rects, Rect(rect.x, rect.y, rect.dx, h), p.rest, rect);
    } else {
      var w := Thickness(Total(areas), u, rect.dx, flush, round);
      ThicknessFits(Total(areas), u, rect.dx, flush, round);
      StripsTile(false, areas, rect.y, rect.y + rect.dy, rect.x, w, round);
      CutTiles(p.rects, Rect(rect.x, rect.y, w, rect.dy), p.rest, rect);
    }
  }

  lemma StripsTile(across: bool, areas: seq<Number>, x: real, end: real, y: real, v: real, round: real -> real)
    requires areas != [] && x <= end && v >= 0.0 && Rounding(round) && AllAreas(areas)
    ensures Tiles(Strips(across, areas, x, end, y, v, round), Piece(across, x, y, end - x, v))
  {
    hide Tiles, Strip;
    StripTiles(areas, x, end, y, v, round);
    if !across { TransposedTiles(Strip(areas, x, end, y, v, round), Rect(x, y, end - x, v)); }
  }

  lemma TransposedTiles(rects: seq<Rect>, r: Rect)
    requires Tiles(rects, r)
    ensures Tiles(TransposedAll(rects), Transposed(r))
  {
    forall px, py ensures Cover(TransposedAll(rects), px, py) == Bit(Covers(Transposed(r), px, py)) {
      TransposedCover(rects, px, py);
      assert Cover(rects, py, px) == Bit(Covers(r, py, px));
    }
    TransposedCover(rects, 0.0, 0.0);
  }

  /** A rectangle cut in two along a side, the first part tiled. */
  lemma CutTiles(rects: seq<Rect>, part: Rect, rest: Rect, whole: Rect)
    requires Tiles(rects, part) && NonNegative(part) && NonNegative(rest)
    requires (part.x == rest.x == whole.x && part.dx == rest.dx == whole.dx && part.y == whole.y
              && rest.y == part.y + part.dy && rest.dy == whole.dy - part.dy)
          || (part.y == rest.y == whole.y && part.dy == rest.dy == whole.dy && part.x == whole.x
              && rest.x == part.x + part.dx && rest.dx == whole.dx - part.dx)
    ensures Tiles(rects + [rest], whole)
    ensures part == whole ==> Tiles(rects, whole)
  {
    forall px, py ensures Cover(rects + [rest], px, py) == Bit(Covers(whole, px, py)) {
      CoverAppend(rects, [rest], px, py);
      assert Cover(rects, px, py) == Bit(Covers(part, px, py));
      assert [rest][1..] == [];
    }
  }

  // ---------------------------------------------------------------- the rows of a node

  predicate Under(a: Number, b: Number) {
    a.Finite? && (b.Infinity? || (b.Finite? && a.value < b.value))
  }

  function Largest(areas: seq<Number>): Number {
    if areas == [] then Finite(0.0) else
      var r, m := areas[|areas| - 1], Largest(areas[..|areas| - 1]);
      if r != Finite(0.0) && Under(m, r) then r else m
  }

  /** The least area that is not zero, if there is one. */
  function Smallest(areas: seq<Number>): Number {
    if areas == [] then Infinity else
      var r, m := areas[|areas| - 1], Smallest(areas[..|areas| - 1]);
      if r != Finite(0.0) && Under(r, m) then r else m
  }

  /** `worst`: the largest aspect ratio in a row, relative to the wanted one. */
  function Worst(areas: seq<Number>, u: real, ratio: real): Number {
    Aspect(Total(areas), Largest(areas), Smallest(areas), u, ratio)
  }

  /** The worse of the two extreme aspect ratios; a division by zero counts as infinite. A row of infinite area has an
      infinite piece, and infinity by infinity is no number. */
  function Aspect(sum: Number, largest: Number, smallest: Number, u: real, ratio: real): Number {
    if !sum.Finite? || !largest.Finite? then NaN
    else
      var s, u2 := sum.value * sum.value, u * u;
      if s == 0.0 then Infinity
      else
        var a := u2 * largest.value * ratio / s;
        if !smallest.Finite? then Finite(if a < 0.0 then 0.0 else a)
        else if u2 * smallest.value * ratio == 0.0 then Infinity
        else
          var b := s / (u2 * smallest.value * ratio);
          Finite(if a < b then b else a)
  }

  /** No comparison holds of what is no number. */
  predicate AtMost(a: Number, b: Number) {
    !a.NaN? && (b.Infinity? || (a.Finite? && b.Finite? && a.value <= b.value))
  }

  datatype Mode = Squarify | Slice | Dice | SliceDice

  /** The loop of `squarify` over the areas still to place, last child first. It fails where a row is closed in front of
      an infinite area. The area of that row is then no number, as infinity was taken from infinity, and if the row has
      pieces, the space that they leave has a side that is no number either. The infinite area alone still scores no
      number, so that the next row is closed while it is empty, and there is no last node to be stretched. */
  function Fill(row: seq<Number>, best: Number, queue: seq<Number>, rect: Rect, u: real, mode: Mode, ratio: real,
                round: real -> real): (r: Option<seq<Rect>>)
    requires row == [] ==> best == Infinity
    ensures r.Some? ==> |r.value| == |row| + |queue|
    decreases |queue|, |row|
  {
    if queue == [] then
      Some(if row == [] then [] else Position(row, u, rect, true, round).rects)
    else
      var score := Worst(row + [queue[0]], u, ratio);
      if mode != Squarify || AtMost(score, best) then
        Fill(row + [queue[0]], score, queue[1..], rect, u, mode, ratio, round)
      else if !Closes(row, queue[0]) then None
      else
        var p := Position(row, u, rect, false, round);
        Behind(p.rects, Fill([], Infinity, queue, p.rest, Least(p.rest.dx, p.rest.dy), mode, ratio, round))
  }

  function Behind(done: seq<Rect>, rest: Option<seq<Rect>>): Option<seq<Rect>> {
    if rest.None? then None else Some(done + rest.value)
  }

  /** The row can be closed after an area that it does not take: it has pieces, and an area. */
  predicate Closes(row: seq<Number>, next: Number) { row != [] && next.Finite? && Total(row).Finite? }

  lemma {:induction false} TotalSnoc(areas: seq<Number>, a: Number)
    ensures Total(areas + [a]) == Plus(Total(areas), a)
  {
    if areas == [] {
      assert ([] + [a])[1..] == [];
    } else {
      assert (areas + [a])[1..] == areas[1..] + [a];
      TotalSnoc(areas[1..], a);
    }
  }

  lemma SliceGrows<T>(s: seq<T>, p: nat, q: nat)
    requires p <= q < |s|
    ensures s[p..q] + [s[q]] == s[p..q + 1]
  {
  }

  lemma TotalGrows(areas: seq<Number>, p: nat, q: nat)
    requires p <= q < |areas|
    ensures Total(areas[p..q + 1]) == Plus(Total(areas[p..q]), areas[q])
  {
    SliceGrows(areas, p, q);
    TotalSnoc(areas[p..q], areas[q]);
  }

  lemma FillEnds(areas: seq<Number>, p: nat, best: Number, rect: Rect, u: real, mode: Mode, ratio: real,
                 round: real -> real)
    requires p <= |areas| && (p == |areas| ==> best == Infinity)
    ensures p < |areas| ==> Fill(areas[p..|areas|], best, areas[|areas|..], rect, u, mode, ratio, round)
                            == Some(Position(areas[p..|areas|], u, rect, true, round).rects)
  {
    assert areas[|areas|..] == [];
  }

  /** One round of the loop, for the row areas[p..q]: area q joins the row, or the row is closed before it, or cannot
      be closed. */
  lemma FillStep(areas: seq<Number>, p: nat, q: nat, best: Number, rect: Rect, u: real, mode: Mode, ratio: real,
                 round: real -> real)
    requires p <= q < |areas| && (p == q ==> best == Infinity)
    ensures var score := Worst(areas[p..q + 1], u, ratio);
            var fill := Fill(areas[p..q], best, areas[q..], rect, u, mode, ratio, round);
            if mode != Squarify || AtMost(score, best) then
              fill == Fill(areas[p..q + 1], score, areas[q + 1..], rect, u, mode, ratio, round)
            else if !Closes(areas[p..q], areas[q]) then fill == None
            else
              var r := Position(areas[p..q], u, rect, false, round);
              fill == Behind(r.rects, Fill(areas[q..q], Infinity, areas[q..], r.rest, Least(r.rest.dx, r.rest.dy), mode,
                                           ratio, round))
  {
    assert areas[p..q + 1] == areas[p..q] + [areas[q]];
    assert areas[q..][1..] == areas[q + 1..] && areas[q..][0] == areas[q] && areas[q..q] == [];
  }

  predicate AllFinite(areas: seq<Number>) { forall i :: 0 <= i < |areas| ==> areas[i].Finite? }

  lemma {:induction false} TotalFinite(areas: seq<Number>)
    ensures Total(areas).Finite? <==> AllFinite(areas)
  {
    if areas != [] {
      TotalFinite(areas[1..]);
      assert AllFinite(areas) <==> areas[0].Finite? && AllFinite(areas[1..]);
    }
  }

  lemma {:induction false} LargestFinite(areas: seq<Number>)
    requires AllFinite(areas)
    ensures Largest(areas).Finite?
  {
    if areas != [] { LargestFinite(areas[..|areas| - 1]); }
  }

  /** A row scores a number if its areas are finite; then an empty row takes the next area. */
  lemma ScoreIsNumber(areas: seq<Number>, u: real, ratio: real)
    ensures Worst(areas, u, ratio).NaN? <==> !AllFinite(areas)
  {
    hide Total, Largest, Smallest;
    TotalFinite(areas);
    if AllFinite(areas) { LargestFinite(areas); }
  }

  /** In the squarified mode an infinite area, and nothing else, makes the layout of a node fail. */
  lemma {:induction false} FillFails(row: seq<Number>, best: Number, queue: seq<Number>, rect: Rect, u: real,
                                     mode: Mode, ratio: real, round: real -> real)
    requires row == [] ==> best == Infinity
    requires mode == Squarify ==> AllFinite(row)
    ensures Fill(row, best, queue, rect, u, mode, ratio, round).None? <==> mode == Squarify && !AllFinite(queue)
    decreases |queue|, |row|
  {
    hide Worst, Position, Total;
    if queue != [] {
      var longer := row + [queue[0]];
      ScoreIsNumber(longer, u, ratio);
      TotalFinite(row);
      assert longer[|row|] == queue[0];
      assert AllFinite(queue) <==> queue[0].Finite? && AllFinite(queue[1..]);
      var score := Worst(longer, u, ratio);
      if mode != Squarify || AtMost(score, best) {
        FillFails(longer, score, queue[1..], rect, u, mode, ratio, round);
      } else if Closes(row, queue[0]) {
        var p := Position(row, u, rect, false, round);
        FillFails([], Infinity, queue, p.rest, Least(p.rest.dx, p.rest.dy), mode, ratio, round);
      }
    }
  }

  /** Whatever the scores are, the rows tile the rectangle. */
  lemma {:induction false} FillTiles(row: seq<Number>, best: Number, queue: seq<Number>, rect: Rect, u: real,
                                     mode: Mode, ratio: real, round: real -> real)
    requires row == [] ==> best == Infinity
    requires row + queue != [] && NonNegative(rect) && u >= 0.0 && Rounding(round)
    requires AllAreas(row) && AllAreas(queue)
    ensures var layout := Fill(row, best, queue, rect, u, mode, ratio, round);
            layout.Some? ==> Tiles(layout.value, rect)
    decreases |queue|, |row|
  {
    hide Tiles, Position, Worst, Total;
    if queue == [] {
      assert row + queue == row;
      PositionTiles(row, u, rect, true, round);
    } else {
      var score := Worst(row + [queue[0]], u, ratio);
      if mode != Squarify || AtMost(score, best) {
        assert row + [queue[0]] + queue[1..] == row + queue;
        FillTiles(row + [queue[0]], score, queue[1..], rect, u, mode, ratio, round);
      } else if Closes(row, queue[0]) {
        var p := Position(row, u, rect, false, round);
        var rest := Fill([], Infinity, queue, p.rest, Least(p.rest.dx, p.rest.dy), mode, ratio, round);
        PositionTiles(row, u, rect, false, round);
        assert [] + queue == queue;
        FillTiles([], Infinity, queue, p.rest, Least(p.rest.dx, p.rest.dy), mode, ratio, round);
        if rest.Some? { ReplaceLast(p.rects, p.rest, rest.value, rect); }
      }
    }
  }

  /** Tiling the last tile refines a tiling. */
  lemma ReplaceLast(rects: seq<Rect>, last: Rect, tiles: seq<Rect>, whole: Rect)
    requires Tiles(rects + [last], whole) && Tiles(tiles, last)
    ensures Tiles(rects + tiles, whole)
  {
    forall px, py ensures Cover(rects + tiles, px, py) == Bit(Covers(whole, px, py)) {
      CoverAppend(rects, tiles, px, py);
      CoverAppend(rects, [last], px, py);
      assert [last][1..] == [];
      assert Cover(rects + [last], px, py) == Bit(Covers(whole, px, py));
      assert Cover(tiles, px, py) == Bit(Covers(last, px, py));
    }
    assert forall i :: 0 <= i < |rects| ==> rects[i] == (rects + [last])[i];
  }

  /** The rectangles of several tilings, in order. */
  function Concat(parts: seq<seq<Rect>>): seq<Rect> {
    if parts == [] then [] else parts[0] + Concat(parts[1..])
  }

  /** Tiling every tile refines a tiling. */
  lemma TilesRefine(rects: seq<Rect>, parts: seq<seq<Rect>>, whole: Rect)
    requires Tiles(rects, whole) && |parts| == |rects|
    requires forall i :: 0 <= i < |rects| ==> Tiles(parts[i], rects[i])
    ensures Tiles(Concat(parts), whole)
  {
    ConcatNonNegative(parts);
    forall px, py ensures Cover(Concat(parts), px, py) == Bit(Covers(whole, px, py)) {
      ConcatCover(rects, parts, px, py);
      assert Cover(rects, px, py) == Bit(Covers(whole, px, py));
    }
  }

  lemma {:induction false} ConcatNonNegative(parts: seq<seq<Rect>>)
    requires forall i, j :: 0 <= i < |parts| && 0 <= j < |parts[i]| ==> NonNegative(parts[i][j])
    ensures forall j :: 0 <= j < |Concat(parts)| ==> NonNegative(Concat(parts)[j])
  {
    if parts != [] {
      ConcatNonNegative(parts[1..]);
    }
  }

  lemma {:induction false} ConcatCover(rects: seq<Rect>, parts: seq<seq<Rect>>, px: real, py: real)
    requires |parts| == |rects| && forall i :: 0 <= i < |rects| ==> Tiles(parts[i], rects[i])
    ensures Cover(Concat(parts), px, py) == Cover(rects, px, py)
  {
    if rects != [] {
      ConcatCover(rects[1..], parts[1..], px, py);
      CoverAppend(parts[0], Concat(parts[1..]), px, py);
      assert Cover(parts[0], px, py) == Bit(Covers(rects[0], px, py));
    }
  }

  // ---------------------------------------------------------------- areas

  /** The area of a child with this value; negative areas become empty. */
  function Scaled(value: real, k: real): (area: real)
    ensures area >= 0.0
  {
    var area := value * (if k < 0.0 then 0.0 else k);
    if area <= 0.0 then 0.0 else area
  }

  /** How much area a unit of value gets. Zero divided by zero is no number; infinity below zero, of a rectangle of
      negative area, does not occur. */
  function Density(value: real, rect: Rect): Number {
    if value != 0.0 then Finite(rect.dx * rect.dy / value)
    else if rect.dx * rect.dy > 0.0 then Infinity
    else NaN
  }

  /** What `scale` makes of a value: what is no number, as zero times infinity is none, or not positive becomes zero. */
  function ScaledArea(value: real, k: Number): (area: Number)
    ensures IsArea(area)
  {
    match k
    case Finite(density) => Finite(Scaled(value, density))
    case Infinity => if value > 0.0 then Infinity else Finite(0.0)
    case NaN => Finite(0.0)
  }

  function ScaledAreas(values: seq<real>, k: Number): (areas: seq<Number>)
    ensures |areas| == |values| && forall i :: 0 <= i < |values| ==> areas[i] == ScaledArea(values[i], k)
  {
    seq(|values|, i requires 0 <= i < |values| => ScaledArea(values[i], k))
  }

  // ---------------------------------------------------------------- one node

  /** The side along which the first row is laid. */
  function Side(rect: Rect, depth: nat, mode: Mode): real {
    match mode
    case Slice => rect.dx
    case Dice => rect.dy
    case SliceDice => if depth % 2 == 1 then rect.dy else rect.dx
    case Squarify => Least(rect.dx, rect.dy)
  }

  /** The rectangles of a node's children, last child first like the values here; None where the program throws. */
  function Layout(value: real, depth: nat, values: seq<real>, rect: Rect, mode: Mode, ratio: real,
                  round: real -> real): (r: Option<seq<Rect>>)
    ensures r.Some? ==> |r.value| == |values|
  {
    Fill([], Infinity, ScaledAreas(values, Density(value, rect)), rect, Side(rect, depth, mode), mode, ratio, round)
  }

  /** A node cannot be laid out exactly if it is to be squarified, has an area but no value, and a child has one. */
  predicate Impossible(value: real, values: seq<real>, rect: Rect, mode: Mode) {
    mode == Squarify && value == 0.0 && rect.dx * rect.dy > 0.0 && exists i :: 0 <= i < |values| && values[i] > 0.0
  }

  /** When the layout of a node fails, for all values, modes and roundings. */
  lemma LayoutFails(value: real, depth: nat, values: seq<real>, rect: Rect, mode: Mode, ratio: real,
                    round: real -> real)
    ensures Layout(value, depth, values, rect, mode, ratio, round).None? <==> Impossible(value, values, rect, mode)
  {
    hide Fill;
    var k := Density(value, rect);
    var areas := ScaledAreas(values, k);
    FillFails([], Infinity, areas, rect, Side(rect, depth, mode), mode, ratio, round);
    assert forall i :: 0 <= i < |values| ==> (areas[i].Infinity? <==> k.Infinity? && values[i] > 0.0);
  }

  /** Where it does not fail, the children tile the node. */
  lemma LayoutTiles(value: real, depth: nat, values: seq<real>, rect: Rect, mode: Mode, ratio: real,
                    round: real -> real)
    requires values != [] && NonNegative(rect) && Rounding(round)
    ensures var layout := Layout(value, depth, values, rect, mode, ratio, round);
            layout.Some? ==> Tiles(layout.value, rect)
  {
    hide Fill, Tiles;
    var areas := ScaledAreas(values, Density(value, rect));
    assert [] + areas == areas;
    FillTiles([], Infinity, areas, rect, Side(rect, depth, mode), mode, ratio, round);
  }

  /** Such a node: its children's values 1 and -1 add up to nothing, and it is a unit square. */
  lemma OneAndMinusOne(depth: nat, ratio: real, round: real -> real)
    ensures Layout(0.0, depth, [1.0, -1.0], Rect(0.0, 0.0, 1.0, 1.0), Squarify, ratio, round).None?
    ensures Layout(0.0, depth, [-1.0, 1.0], Rect(0.0, 0.0, 1.0, 1.0), Squarify, ratio, round).None?
  {
    hide Layout;
    LayoutFails(0.0, depth, [1.0, -1.0], Rect(0.0, 0.0, 1.0, 1.0), Squarify, ratio, round);
    LayoutFails(0.0, depth, [-1.0, 1.0], Rect(0.0, 0.0, 1.0, 1.0), Squarify, ratio, round);
    assert [1.0, -1.0][0] > 0.0 && [-1.0, 1.0][1] > 0.0;
  }
}
