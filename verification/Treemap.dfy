/** d3's treemap layout in place: nodes that receive their rectangles. */
module Treemap {
  import opened Basics
  import opened TreemapSpec
  import opened TreemapLaws

  /** A node of the hierarchy; `height` and `repr` describe the fixed shape below it. */
  class MapNode {
    const value: real
    const children: seq<MapNode>
    const depth: nat
    ghost const height: nat
    ghost const repr: set<MapNode>
    var area: Number
    var x: real
    var y: real
    var dx: real
    var dy: real
    var z: bool

    constructor (value: real, depth: nat, children: seq<MapNode>, ghost height: nat)
      requires forall c :: c in children ==> c.Shape() && c.height < height
      requires forall i, j :: 0 <= i < j < |children| ==> children[i].repr !! children[j].repr
      ensures Shape() && this.value == value && this.children == children
    {
      this.value, this.depth, this.children, this.height := value, depth, children, height;
      this.repr := {this} + set c, n | c in children && n in c.repr :: n;
      area, x, y, dx, dy, z := Finite(0.0), 0.0, 0.0, 0.0, 0.0, false;
    }

    /** The nodes below this one form a tree. */
    ghost predicate Shape()
      decreases height
    {
      && this in repr
      && (forall c :: c in children ==> c.height < height && c.Shape() && c.repr <= repr && this !in c.repr)
      && (forall i, j :: 0 <= i < j < |children| ==> children[i].repr !! children[j].repr)
    }

    function Rectangle(): Rect
      reads `x, `y, `dx, `dy
    {
      Rect(x, y, dx, dy)
    }
  }

  function Rectangles(nodes: seq<MapNode>): (r: seq<Rect>)
    reads nodes`x, nodes`y, nodes`dx, nodes`dy
    ensures |r| == |nodes|
  {
    if nodes == [] then [] else [nodes[0].Rectangle()] + Rectangles(nodes[1..])
  }

  function Areas(nodes: seq<MapNode>): (r: seq<Number>)
    reads nodes`area
    ensures |r| == |nodes|
    ensures forall i :: 0 <= i < |nodes| ==> r[i] == nodes[i].area
  {
    if nodes == [] then [] else [nodes[0].area] + Areas(nodes[1..])
  }

  lemma RectanglesAre(nodes: seq<MapNode>, rects: seq<Rect>)
    requires |nodes| == |rects| && forall j :: 0 <= j < |nodes| ==> nodes[j].Rectangle() == rects[j]
    ensures Rectangles(nodes) == rects
  {
    if nodes != [] {
      RectanglesAre(nodes[1..], rects[1..]);
    }
  }


  /** The rectangle object that `position` cuts rows off. */
  class Space {
    var x: real
    var y: real
    var dx: real
    var dy: real

    constructor (r: Rect)
      ensures Rectangle() == r
    {
      x, y, dx, dy := r.x, r.y, r.dx, r.dy;
    }

    function Rectangle(): Rect
      reads this
    {
      Rect(x, y, dx, dy)
    }
  }

  /** The loop of `position` that lays a row out horizontally; the last piece is not stretched yet. */
  method LoopAcross(row: seq<MapNode>, rect: Rect, v: real, round: real -> real, ghost areas: seq<Number>)
    returns (x: real, ghost done: seq<Rect>)
    requires row != [] && Distinct(row) && |areas| == |row| && forall j :: 0 <= j < |row| ==> row[j].area == areas[j]
    modifies row`x, row`y, row`dx, row`dy
    ensures |done| == |row| && forall j :: 0 <= j < |row| ==> row[j].Rectangle() == done[j]
    ensures var end := rect.x + rect.dx;
            Progress(true, done, areas, x, end, rect.y, v, round, Strips(true, areas, rect.x, end, rect.y, v, round))
  {
    hide Strips, Progress;
    var end := rect.x + rect.dx;
    x, done := rect.x, [];
    ghost var whole := Strips(true, areas, x, end, rect.y, v, round);
    StartStrip(true, areas, x, end, rect.y, v, round);
    for i := 0 to |row|
      invariant |done| == i && forall j :: 0 <= j < i ==> row[j].Rectangle() == done[j]
      invariant Progress(true, done, areas, x, end, rect.y, v, round, whole)
    {
      ExtendStrip(true, done, areas, x, end, rect.y, v, round, whole);
      var o := row[i];
      o.x, o.y, o.dy := x, rect.y, v;
      o.dx := Width(o.area, x, end, v, round);
      done := done + [o.Rectangle()];
      x := x + o.dx;
    }
  }

  /** The part of `position` that lays a row out horizontally. */
  method LayAcross(row: seq<MapNode>, rect: Rect, v: real, round: real -> real)
    requires row != [] && Distinct(row)
    modifies row`x, row`y, row`dx, row`dy, row`z
    ensures Rectangles(row) == Strips(true, Areas(row), rect.x, rect.x + rect.dx, rect.y, v, round)
    ensures row[|row| - 1].z
  {
    hide Strips, Progress, Distinct, Areas, Rectangles;
    LastApart(row);
    ghost var areas, end := Areas(row), rect.x + rect.dx;
    ghost var done;
    var x;
    x, done := LoopAcross(row, rect, v, round, areas);
    Finish(true, done, areas, x, end, rect.y, v, round, Strips(true, areas, rect.x, end, rect.y, v, round));
    var o := row[|row| - 1];
    o.z := true;
    o.dx := o.dx + (rect.x + rect.dx - x);
    RectanglesAre(row, Strips(true, areas, rect.x, end, rect.y, v, round));
    assert Areas(row) == areas;
  }

  /** The loop of `position` that lays a column out vertically; the last piece is not stretched yet. */
  method LoopDown(row: seq<MapNode>, rect: Rect, v: real, round: real -> real, ghost areas: seq<Number>)
    returns (y: real, ghost done: seq<Rect>)
    requires row != [] && Distinct(row) && |areas| == |row| && forall j :: 0 <= j < |row| ==> row[j].area == areas[j]
    modifies row`x, row`y, row`dx, row`dy
    ensures |done| == |row| && forall j :: 0 <= j < |row| ==> row[j].Rectangle() == done[j]
    ensures var end := rect.y + rect.dy;
            Progress(false, done, areas, y, end, rect.x, v, round, Strips(false, areas, rect.y, end, rect.x, v, round))
  {
    hide Strips, Progress;
    var end := rect.y + rect.dy;
    y, done := rect.y, [];
    ghost var whole := Strips(false, areas, y, end, rect.x, v, round);
    StartStrip(false, areas, y, end, rect.x, v, round);
    for i := 0 to |row|
      invariant |done| == i && forall j :: 0 <= j < i ==> row[j].Rectangle() == done[j]
      invariant Progress(false, done, areas, y, end, rect.x, v, round, whole)
    {
      ExtendStrip(false, done, areas, y, end, rect.x, v, round, whole);
      var o := row[i];
      o.y, o.x, o.dx := y, rect.x, v;
      o.dy := Width(o.area, y, end, v, round);
      done := done + [o.Rectangle()];
      y := y + o.dy;
    }
  }

  /** The part of `position` that lays a column out vertically. */
  method LayDown(row: seq<MapNode>, rect: Rect, v: real, round: real -> real)
    requires row != [] && Distinct(row)
    modifies row`x, row`y, row`dx, row`dy, row`z
    ensures Rectangles(row) == Strips(false, Areas(row), rect.y, rect.y + rect.dy, rect.x, v, round)
    ensures !row[|row| - 1].z
  {
    hide Strips, Progress, Distinct, Areas, Rectangles;
    LastApart(row);
    ghost var areas, end := Areas(row), rect.y + rect.dy;
    ghost var done;
    var y;
    y, done := LoopDown(row, rect, v, round, areas);
    Finish(false, done, areas, y, end, rect.x, v, round, Strips(false, areas, rect.y, end, rect.x, v, round));
    var o := row[|row| - 1];
    o.z := false;
    o.dy := o.dy + (rect.y + rect.dy - y);
    RectanglesAre(row, Strips(false, areas, rect.y, end, rect.x, v, round));
    assert Areas(row) == areas;
  }

  lemma LastApart(row: seq<MapNode>)
    requires row != [] && Distinct(row)
    ensures forall j :: 0 <= j < |row| - 1 ==> row[j] != row[|row| - 1]
  {
  }

  lemma Finish(across: bool, done: seq<Rect>, areas: seq<Number>, x: real, end: real, y: real, v: real,
               round: real -> real, whole: seq<Rect>)
    requires Progress(across, done, areas, x, end, y, v, round, whole) && |done| == |areas| > 0
    ensures |whole| == |done| && whole[|done| - 1] == Stretched(across, done[|done| - 1], end - x)
    ensures forall j :: 0 <= j < |done| - 1 ==> whole[j] == done[j]
  {
  }

  /** `position`: lay a row along the side of length u and cut it off the space. Where the row's area is infinite it is
      the last one, and what its thickness would be does not matter. */
  method Position(row: seq<MapNode>, rowArea: Number, u: real, rect: Space, flush: bool, round: real -> real)
    requires row != [] && Distinct(row) && rowArea == Total(Areas(row)) && (flush || rowArea.Finite?)
    modifies row`x, row`y, row`dx, row`dy, row`z, rect
    ensures var p := TreemapSpec.Position(Areas(row), u, old(rect.Rectangle()), flush, round);
            Rectangles(row) == p.rects && rect.Rectangle() == p.rest
    ensures row[|row| - 1].z <==> u == old(rect.dx)
  {
    hide Strips, Rectangles, Distinct, Total, Areas;
    var v := if u != 0.0 && rowArea.Finite? then round(rowArea.value / u) else 0.0;
    if u == rect.dx {
      if flush || v > rect.dy { v := rect.dy; }
      LayAcross(row, rect.Rectangle(), v, round);
      rect.y := rect.y + v;
      rect.dy := rect.dy - v;
    } else {
      if flush || v > rect.dx { v := rect.dx; }
      LayDown(row, rect.Rectangle(), v, round);
      rect.x := rect.x + v;
      rect.dx := rect.dx - v;
    }
  }

  /** `worst`: score a row whose areas add up to rowArea. */
  method Score(row: seq<MapNode>, rowArea: Number, u: real, ratio: real) returns (score: Number)
    requires rowArea == Total(Areas(row))
    ensures score == Worst(Areas(row), u, ratio)
  {
    var rmax, rmin := Finite(0.0), Infinity;
    ghost var areas := Areas(row);
    for i := 0 to |row|
      invariant rmax == Largest(areas[..i]) && rmin == Smallest(areas[..i])
    {
      var r := row[i].area;
      assert areas[..i + 1][..i] == areas[..i];
      if r != Finite(0.0) {
        if Under(r, rmin) { rmin := r; }
        if Under(rmax, r) { rmax := r; }
      }
    }
    assert areas[..|row|] == areas;
    score := Aspect(rowArea, rmax, rmin, u, ratio);
  }

  lemma AreasSlice(order: seq<MapNode>, areas: seq<Number>, a: nat, b: nat)
    requires a <= b <= |order| && areas == Areas(order)
    ensures Areas(order[a..b]) == areas[a..b]
  {
    hide Areas;
  }

  /** The first nodes have these rectangles. */
  ghost predicate Laid(order: seq<MapNode>, done: seq<Rect>)
    reads order`x, order`y, order`dx, order`dy
  {
    |done| <= |order| && forall j :: 0 <= j < |done| ==> order[j].Rectangle() == done[j]
  }

  /** Close the row order[p..q] and record its rectangles. */
  method CloseRow(ghost order: seq<MapNode>, ghost p: nat, ghost q: nat, row: seq<MapNode>, rowArea: Number, u: real,
                  rect: Space, flush: bool, round: real -> real, ghost done: seq<Rect>) returns (ghost done': seq<Rect>)
    requires p < q <= |order| && Distinct(order) && row == order[p..q] && rowArea == Total(Areas(order)[p..q])
    requires |done| == p && Laid(order, done) && (flush || rowArea.Finite?)
    modifies order`x, order`y, order`dx, order`dy, order`z, rect
    ensures var r := TreemapSpec.Position(Areas(order)[p..q], u, old(rect.Rectangle()), flush, round);
            done' == done + r.rects && rect.Rectangle() == r.rest
    ensures |done'| == q && Laid(order, done')
  {
    hide TreemapSpec.Position, Areas, Total, Rectangles, Distinct;
    AreasSlice(order, Areas(order), p, q);
    RowApart(order, p, q);
    Position(row, rowArea, u, rect, flush, round);
    ghost var rects := Rectangles(row);
    RectanglesAt(row);
    done' := done + rects;
    hide MapNode.Rectangle;
    LaidOn(order, done, rects);
  }

  lemma LaidOn(order: seq<MapNode>, done: seq<Rect>, rects: seq<Rect>)
    requires |done| + |rects| <= |order|
    requires forall j :: 0 <= j < |done| ==> order[j].Rectangle() == done[j]
    requires forall j :: 0 <= j < |rects| ==>
               order[|done|..|done| + |rects|][j].Rectangle() == rects[j]
    ensures Laid(order, done + rects)
  {
    hide MapNode.Rectangle;
    forall j | 0 <= j < |done| + |rects| ensures order[j].Rectangle() == (done + rects)[j] {
      assert j >= |done| ==> order[j] == order[|done|..|done| + |rects|][j - |done|];
    }
  }

  lemma RowApart(order: seq<MapNode>, p: nat, q: nat)
    requires p < q <= |order| && Distinct(order)
    ensures Distinct(order[p..q]) && forall j :: 0 <= j < p ==> order[j] !in order[p..q]
  {
  }

  lemma RectanglesAt(nodes: seq<MapNode>)
    ensures forall j :: 0 <= j < |nodes| ==> Rectangles(nodes)[j] == nodes[j].Rectangle()
  {
    if nodes != [] {
      RectanglesAt(nodes[1..]);
    }
  }

  /** Push the next child onto the row, and score it. */
  method Offer(row: seq<MapNode>, rowArea: Number, child: MapNode, u: real, ratio: real, ghost order: seq<MapNode>,
               ghost p: nat, ghost q: nat)
    returns (row': seq<MapNode>, rowArea': Number, score: Number)
    requires p <= q < |order| && row == order[p..q] && child == order[q] && rowArea == Total(Areas(order)[p..q])
    ensures row' == order[p..q + 1]
    ensures rowArea' == Total(Areas(order)[p..q + 1]) == Plus(rowArea, child.area)
    ensures score == Worst(Areas(order)[p..q + 1], u, ratio)
  {
    hide Total, Worst, Areas;
    ghost var areas := Areas(order);
    RowGrows(order, areas, p, q);
    row', rowArea' := row + [child], Plus(rowArea, child.area);
    score := Score(row', rowArea', u, ratio);
  }

  lemma RowGrows(order: seq<MapNode>, areas: seq<Number>, p: nat, q: nat)
    requires p <= q < |order| && areas == Areas(order)
    ensures order[p..q] + [order[q]] == order[p..q + 1] && Areas(order[p..q + 1]) == areas[p..q + 1]
    ensures Total(areas[p..q + 1]) == Plus(Total(areas[p..q]), order[q].area)
  {
    hide Total, Areas;
    AreasSlice(order, areas, p, q + 1);
    SliceGrows(order, p, q);
    TotalGrows(areas, p, q);
  }

  lemma ReversedFacts(nodes: seq<MapNode>)
    requires Distinct(nodes)
    ensures Distinct(Reversed(nodes)) && forall i :: 0 <= i < |nodes| ==> Reversed(nodes)[i] == nodes[|nodes| - 1 - i]
    ensures forall n :: n in Reversed(nodes) ==> n in nodes
  {
  }

  /** What the loop of `squarify` keeps: the first p areas are placed as `done`, those from p to q are in the
      row, and finishing from here gives the layout `whole`. */
  ghost predicate Filling(areas: seq<Number>, p: nat, q: nat, best: Number, done: seq<Rect>, rect: Rect,
                          u: real, mode: Mode, ratio: real, round: real -> real, whole: Option<seq<Rect>>)
  {
    && p <= q <= |areas| && (p == q ==> best == Infinity)
    && Behind(done, Fill(areas[p..q], best, areas[q..], rect, u, mode, ratio, round)) == whole
  }

  /** The loop of `squarify`: take the children from the last one on, and close a row when another child would make it
      worse. The program throws when it would close a row whose area is no number, or rather one row later, when that
      row is empty. */
  method FillLoop(children: seq<MapNode>, rect: Space, u0: real, mode: Mode, ratio: real, round: real -> real,
                  ghost order: seq<MapNode>)
    returns (ok: bool, row: seq<MapNode>, rowArea: Number, u: real, ghost best: Number, ghost done: seq<Rect>,
             ghost p: nat)
    requires children != [] && Distinct(order) && order == Reversed(children)
    modifies order`x, order`y, order`dx, order`dy, order`z, rect
    ensures !ok ==> Fill([], Infinity, Areas(order), old(rect.Rectangle()), u0, mode, ratio, round) == None
    ensures ok ==> p < |order| && row == order[p..|order|] && rowArea == Total(Areas(order)[p..|order|])
    ensures ok ==> |done| == p && Laid(order, done)
    ensures ok ==> Filling(Areas(order), p, |order|, best, done, rect.Rectangle(), u, mode, ratio, round,
                           Fill([], Infinity, Areas(order), old(rect.Rectangle()), u0, mode, ratio, round))
  {
    hide Filling, Total, Areas, Worst, Distinct, Fill, TreemapSpec.Position;
    var remaining, worst := children, Infinity;
    ok, row, rowArea, u := true, [], Finite(0.0), u0;
    ghost var areas, q := Areas(order), 0;
    done, p := [], 0;
    ghost var whole := Fill([], Infinity, areas, rect.Rectangle(), u0, mode, ratio, round);
    FillingStarts(areas, rect.Rectangle(), u, mode, ratio, round);
    while |remaining| > 0
      invariant 0 <= p <= q == |order| - |remaining| && areas == Areas(order)
      invariant remaining == children[..|remaining|] && row == order[p..q] && (remaining == [] ==> p < q)
      invariant rowArea == Total(areas[p..q]) && (p == q ==> worst == Infinity)
      invariant |done| == p && Laid(order, done)
      invariant Filling(areas, p, q, worst, done, rect.Rectangle(), u, mode, ratio, round, whole)
      decreases |remaining|, |row|
    {
      FillingStep(areas, p, q, worst, done, rect.Rectangle(), u, mode, ratio, round, whole);
      var child := remaining[|remaining| - 1];
      var score;
      row, rowArea, score := Offer(row, rowArea, child, u, ratio, order, p, q);
      if mode != Squarify || AtMost(score, worst) {
        remaining, worst, q := remaining[..|remaining| - 1], score, q + 1;
      } else {
        row, rowArea := row[..|row| - 1], Minus(rowArea, child.area);
        if row == [] || !rowArea.Finite? {
          return false, row, rowArea, u, worst, done, p;
        }
        done := CloseRow(order, p, q, row, rowArea, u, rect, false, round, done);
        p := q;
        u := Least(rect.dx, rect.dy);
        row, rowArea, worst := [], Finite(0.0), Infinity;
      }
    }
    best := worst;
  }

  lemma FillingStarts(areas: seq<Number>, rect: Rect, u: real, mode: Mode, ratio: real, round: real -> real)
    ensures Filling(areas, 0, 0, Infinity, [], rect, u, mode, ratio, round,
                    Fill([], Infinity, areas, rect, u, mode, ratio, round))
    ensures Total(areas[0..0]) == Finite(0.0)
  {
    assert areas[0..0] == [] && areas[0..] == areas;
    var whole := Fill([], Infinity, areas, rect, u, mode, ratio, round);
    if whole.Some? { assert [] + whole.value == whole.value; }
  }

  lemma FillingStep(areas: seq<Number>, p: nat, q: nat, best: Number, done: seq<Rect>, rect: Rect, u: real,
                    mode: Mode, ratio: real, round: real -> real, whole: Option<seq<Rect>>)
    requires q < |areas| && Filling(areas, p, q, best, done, rect, u, mode, ratio, round, whole)
    ensures var score := Worst(areas[p..q + 1], u, ratio);
            if mode != Squarify || AtMost(score, best) then
              Filling(areas, p, q + 1, score, done, rect, u, mode, ratio, round, whole)
            else if !Closes(areas[p..q], areas[q]) then whole == None
            else
              var r := TreemapSpec.Position(areas[p..q], u, rect, false, round);
              p < q && Filling(areas, q, q, Infinity, done + r.rects, r.rest, Least(r.rest.dx, r.rest.dy), mode, ratio,
                               round, whole)
    ensures Total(areas[p..q + 1]) == Plus(Total(areas[p..q]), areas[q]) && Total(areas[q..q]) == Finite(0.0)
  {
    hide TreemapSpec.Position, Fill, Worst;
    FillStep(areas, p, q, best, rect, u, mode, ratio, round);
    TotalGrows(areas, p, q);
    assert areas[q..q] == [];
    if !(mode != Squarify || AtMost(Worst(areas[p..q + 1], u, ratio), best)) && Closes(areas[p..q], areas[q]) {
      var r := TreemapSpec.Position(areas[p..q], u, rect, false, round);
      var rest := Fill(areas[q..q], Infinity, areas[q..], r.rest, Least(r.rest.dx, r.rest.dy), mode, ratio, round);
      if rest.Some? { assert done + (r.rects + rest.value) == done + r.rects + rest.value; }
    }
  }

  /** Place all children of a node in a space, the last one first. */
  method FillRows(children: seq<MapNode>, rect: Space, u0: real, mode: Mode, ratio: real, round: real -> real)
    returns (ok: bool)
    requires children != [] && Distinct(children)
    modifies children`x, children`y, children`dx, children`dy, children`z, rect
    ensures var layout :=
              Fill([], Infinity, Areas(Reversed(children)), old(rect.Rectangle()), u0, mode, ratio, round);
            ok == layout.Some? && (ok ==> Rectangles(Reversed(children)) == layout.value)
  {
    hide Fill, Total, Areas, Rectangles, TreemapSpec.Position, Distinct, Reversed;
    ghost var order := Reversed(children);
    ReversedFacts(children);
    var row, rowArea, u;
    ghost var best, done, p;
    ok, row, rowArea, u, best, done, p := FillLoop(children, rect, u0, mode, ratio, round, order);
    if ok {
      FillEnds(Areas(order), p, best, rect.Rectangle(), u, mode, ratio, round);
      done := CloseRow(order, p, |order|, row, rowArea, u, rect, true, round, done);
      RectanglesAre(order, done);
    }
  }

  // ---------------------------------------------------------------- the whole layout

  /** The rectangles of the leaves below a node. */
  ghost function LeafRects(node: MapNode): seq<Rect>
    requires node.Shape()
    reads node.repr
    decreases node.height, 1, 0
  {
    if node.children == [] then [node.Rectangle()]
    else Concat(LeafRectsBelow(Reversed(node.children), node))
  }

  ghost function LeafRectsBelow(nodes: seq<MapNode>, parent: MapNode): (r: seq<seq<Rect>>)
    requires parent.Shape() && forall n :: n in nodes ==> n in parent.children
    reads parent.repr
    ensures |r| == |nodes|
    decreases parent.height, 0, |nodes|
  {
    if nodes == [] then [] else [LeafRects(nodes[0])] + LeafRectsBelow(nodes[1..], parent)
  }

  lemma {:induction false} LeafRectsAt(nodes: seq<MapNode>, parent: MapNode, i: nat)
    requires parent.Shape() && (forall n :: n in nodes ==> n in parent.children) && i < |nodes|
    ensures LeafRectsBelow(nodes, parent)[i] == LeafRects(nodes[i])
    decreases |nodes|
  {
    if i > 0 {
      LeafRectsAt(nodes[1..], parent, i - 1);
    }
  }

  /** `scale`: areas in proportion to the values, never negative. */
  method Scale(children: seq<MapNode>, k: Number)
    modifies children`area
    ensures forall i :: 0 <= i < |children| ==> children[i].area == ScaledArea(children[i].value, k)
  {
    for i := 0 to |children|
      invariant forall j :: 0 <= j < i ==> children[j].area == ScaledArea(children[j].value, k)
    {
      var child := children[i];
      match k {
        case Finite(d) =>
          var area := child.value * (if d < 0.0 then 0.0 else d);
          child.area := Finite(if area <= 0.0 then 0.0 else area);
        case Infinity => child.area := if child.value <= 0.0 then Finite(0.0) else Infinity;
        case NaN => child.area := Finite(0.0);
      }
    }
  }

  function Values(nodes: seq<MapNode>): (values: seq<real>)
    ensures |values| == |nodes| && forall i :: 0 <= i < |nodes| ==> values[i] == nodes[i].value
  {
    seq(|nodes|, i requires 0 <= i < |nodes| => nodes[i].value)
  }

  lemma AreasScaled(nodes: seq<MapNode>, k: Number)
    requires forall n :: n in nodes ==> n.area == ScaledArea(n.value, k)
    ensures Areas(nodes) == ScaledAreas(Values(nodes), k)
  {
    hide Areas, ScaledArea, ScaledAreas, Values;
  }

  /** Where the children of a node go that has the rectangle `rect`, the last child first. */
  function ChildRects(node: MapNode, rect: Rect, mode: Mode, ratio: real, round: real -> real): (r: Option<seq<Rect>>)
    ensures r.Some? ==> |r.value| == |node.children|
  {
    Layout(node.value, node.depth, Values(Reversed(node.children)), rect, mode, ratio, round)
  }

  /** Place the children of a node, in areas proportional to their values. The program throws exactly if the mode is
      squarify and the node has an area, no value, and a child of positive value; otherwise the children tile it. */
  method PlaceChildren(node: MapNode, mode: Mode, ratio: real, round: real -> real) returns (ok: bool)
    requires node.Shape() && node.children != [] && Rounding(round) && NonNegative(node.Rectangle())
    modifies node.children
    ensures ok <==> !Impossible(node.value, Values(node.children), node.Rectangle(), mode)
    ensures ok ==> Tiles(Rectangles(Reversed(node.children)), node.Rectangle())
    ensures node.Rectangle() == old(node.Rectangle())
    ensures forall c :: c in node.children ==> c.area == ScaledArea(c.value, Density(node.value, node.Rectangle()))
    ensures var layout := ChildRects(node, node.Rectangle(), mode, ratio, round);
            ok == layout.Some? && (ok ==> Rectangles(Reversed(node.children)) == layout.value)
    ensures ok && mode == Squarify && ratio > 0.0 ==>
              exists rows :: SquareRows(Reals(Areas(Reversed(node.children))), Rectangles(Reversed(node.children)),
                                        node.Rectangle(), rows, ratio)
    ensures mode != Squarify ==>
              RowLaid(Rectangles(Reversed(node.children)), node.Rectangle(),
                      mode.Slice? || (mode.SliceDice? && node.depth % 2 == 0) || node.dx == node.dy)
    ensures ValuesAddUp(node) && Exact(round) ==> ok && forall c :: c in node.children ==>
              c.area == Finite(Size(c.Rectangle())) && Size(c.Rectangle()) == c.value * Unit(node)
  {
    hide *;
    ok := FillNode(node, mode, ratio, round);
    Placed(node, mode, ratio, round);
    if ok { Arranged(node, mode, ratio, round); }
    if ValuesAddUp(node) && Exact(round) {
      ValuedSucceeds(node, mode);
      ExactChildren(node, mode, ratio, round);
    }
  }

  /** The area for a unit of value, where there is value. */
  ghost function Unit(node: MapNode): real
    reads node`dx, node`dy
  {
    if node.value == 0.0 then 0.0 else node.dx * node.dy / node.value
  }

  method FillNode(node: MapNode, mode: Mode, ratio: real, round: real -> real) returns (ok: bool)
    requires node.Shape() && node.children != [] && Rounding(round) && NonNegative(node.Rectangle())
    modifies node.children
    ensures node.Rectangle() == old(node.Rectangle())
    ensures forall c :: c in node.children ==> c.area == ScaledArea(c.value, Density(node.value, node.Rectangle()))
    ensures var layout := ChildRects(node, node.Rectangle(), mode, ratio, round);
            ok == layout.Some? && (ok ==> Rectangles(Reversed(node.children)) == layout.value)
  {
    hide Fill, Rectangles, Tiles, ScaledArea, ScaledAreas, Areas, Reversed, MapNode.Rectangle, Distinct, Density;
    ChildrenApart(node);
    ReversedFacts(node.children);
    ghost var k := Density(node.value, node.Rectangle());
    Scale(node.children, Density(node.value, node.Rectangle()));
    AreasScaled(Reversed(node.children), k);
    ok := PlaceRows(node, mode, ratio, round);
  }

  lemma Placed(node: MapNode, mode: Mode, ratio: real, round: real -> real)
    requires node.children != [] && Rounding(round) && NonNegative(node.Rectangle())
    ensures var layout := ChildRects(node, node.Rectangle(), mode, ratio, round);
            && (layout.Some? <==> !Impossible(node.value, Values(node.children), node.Rectangle(), mode))
            && (mode != Squarify ==> layout.Some?)
            && (layout.Some? ==> Tiles(layout.value, node.Rectangle()))
  {
    hide Layout, Tiles, Impossible, Values, Reversed;
    var values := Values(Reversed(node.children));
    LayoutFails(node.value, node.depth, values, node.Rectangle(), mode, ratio, round);
    LayoutTiles(node.value, node.depth, values, node.Rectangle(), mode, ratio, round);
    ImpossibleReversed(node, node.Rectangle(), mode);
    if mode != Squarify { OtherModes(node.value, Values(node.children), node.Rectangle(), mode); }
  }

  lemma OtherModes(value: real, values: seq<real>, rect: Rect, mode: Mode)
    requires mode != Squarify
    ensures !Impossible(value, values, rect, mode)
  {
  }

  /** Along which sides the children are laid. */
  lemma Arranged(node: MapNode, mode: Mode, ratio: real, round: real -> real)
    requires node.children != [] && Rounding(round) && NonNegative(node.Rectangle())
    requires forall c :: c in node.children ==> c.area == ScaledArea(c.value, Density(node.value, node.Rectangle()))
    requires ChildRects(node, node.Rectangle(), mode, ratio, round) == Some(Rectangles(Reversed(node.children)))
    ensures mode == Squarify && ratio > 0.0 ==>
              exists rows :: SquareRows(Reals(Areas(Reversed(node.children))), Rectangles(Reversed(node.children)),
                                        node.Rectangle(), rows, ratio)
    ensures mode != Squarify ==>
              RowLaid(Rectangles(Reversed(node.children)), node.Rectangle(),
                      mode.Slice? || (mode.SliceDice? && node.depth % 2 == 0) || node.dx == node.dy)
  {
    hide Layout, SquareRows, RowLaid, Areas, Rectangles, Values, Reversed, ScaledArea, Density;
    var order := Reversed(node.children);
    ReversedIn(node.children);
    AreasScaled(order, Density(node.value, node.Rectangle()));
    if mode != Squarify {
      LayoutSlices(node.value, node.depth, Values(order), node.Rectangle(), mode, ratio, round);
    } else if ratio > 0.0 {
      var rows := LayoutSquares(node.value, node.depth, Values(order), node.Rectangle(), ratio, round);
    }
  }

  lemma ImpossibleReversed(node: MapNode, rect: Rect, mode: Mode)
    ensures Impossible(node.value, Values(Reversed(node.children)), rect, mode)
       <==> Impossible(node.value, Values(node.children), rect, mode)
  {
    var order, n := Reversed(node.children), |node.children|;
    forall i | 0 <= i < n ensures Values(order)[i] == Values(node.children)[n - 1 - i] {}
    forall i | 0 <= i < n ensures Values(order)[n - 1 - i] == Values(node.children)[i] {}
  }

  /** The value of a node is the sum of its children's values, as the hierarchy makes it. */
  ghost predicate ValuesAddUp(node: MapNode) {
    node.value > 0.0 && AllNonNegative(Values(node.children)) && Sum(Values(node.children)) == node.value
  }

  lemma ValuesReversed(nodes: seq<MapNode>)
    requires AllNonNegative(Values(nodes))
    ensures Sum(Values(Reversed(nodes))) == Sum(Values(nodes)) && AllNonNegative(Values(Reversed(nodes)))
  {
    assert Values(Reversed(nodes)) == Reversed(Values(nodes));
    SumReversed(Values(nodes));
  }

  /** Where nothing is rounded, the children's rectangles have exactly the areas that their values ask for. */
  lemma ExactChildren(node: MapNode, mode: Mode, ratio: real, round: real -> real)
    requires node.children != [] && NonNegative(node.Rectangle()) && ValuesAddUp(node) && Exact(round)
    requires forall c :: c in node.children ==> c.area == ScaledArea(c.value, Density(node.value, node.Rectangle()))
    requires ChildRects(node, node.Rectangle(), mode, ratio, round) == Some(Rectangles(Reversed(node.children)))
    ensures forall c :: c in node.children ==>
              c.area == Finite(Size(c.Rectangle())) && Size(c.Rectangle()) == c.value * Unit(node)
  {
    hide *;
    var order := Reversed(node.children);
    ExactSizes(node, mode, ratio, round);
    forall c | c in node.children
      ensures c.area == Finite(Size(c.Rectangle())) && Size(c.Rectangle()) == c.value * Unit(node)
    {
      OrderIn(node.children, c);
      var i :| 0 <= i < |order| && order[i] == c;
      ExactPiece(node, c, i);
    }
  }

  lemma ExactSizes(node: MapNode, mode: Mode, ratio: real, round: real -> real)
    requires node.children != [] && NonNegative(node.Rectangle()) && ValuesAddUp(node) && Exact(round)
    requires ChildRects(node, node.Rectangle(), mode, ratio, round) == Some(Rectangles(Reversed(node.children)))
    ensures var areas := ScaledBy(Values(Reversed(node.children)), Unit(node));
            forall i :: 0 <= i < |areas| ==> Size(Reversed(node.children)[i].Rectangle()) == areas[i]
  {
    hide Fill, Rectangles, Values, Sum, Reversed, Exact, Sizes, Finites, ScaledAreas, ScaledBy;
    var order, k := Reversed(node.children), Unit(node);
    var values := Values(order);
    ValuesReversed(node.children);
    assert Sum(values) == node.value && k == Size(node.Rectangle()) / Sum(values);
    AreasFillNode(values, Size(node.Rectangle()));
    ScaledFinites(values, k);
    assert [] + ScaledBy(values, k) == ScaledBy(values, k);
    SideLength(node, mode);
    NoFinites(ScaledBy(values, k));
    AreasOf(values, k);
    FillExact([], Infinity, ScaledBy(values, k), node.Rectangle(), Side(node.Rectangle(), node.depth, mode), mode,
              ratio, round);
    assert Density(node.value, node.Rectangle()) == Finite(k);
    assert ChildRects(node, node.Rectangle(), mode, ratio, round) ==
           Fill([], Infinity, Finites(ScaledBy(values, k)), node.Rectangle(),
                Side(node.Rectangle(), node.depth, mode), mode, ratio, round);
    SizesAre(order, ScaledBy(values, k));
  }

  lemma AreasOf(values: seq<real>, k: real)
    ensures AllNonNegative(ScaledBy(values, k))
  {
    hide Scaled;
  }

  /** The piece of a child in its place of the order. */
  lemma ExactPiece(node: MapNode, c: MapNode, i: nat)
    requires NonNegative(node.Rectangle()) && ValuesAddUp(node) && i < |node.children|
    requires c == Reversed(node.children)[i] && c in node.children
    requires c.area == ScaledArea(c.value, Density(node.value, node.Rectangle()))
    requires Size(c.Rectangle()) == ScaledBy(Values(Reversed(node.children)), Unit(node))[i]
    ensures c.area == Finite(Size(c.Rectangle())) && Size(c.Rectangle()) == c.value * Unit(node)
  {
    hide Size, Scaled, Sum;
    assert c == node.children[|node.children| - 1 - i];
    assert c.value == Values(node.children)[|node.children| - 1 - i];
    Ratio(node.dx * node.dy, node.value);
    ScaledExactly(c.value, Unit(node));
  }

  lemma OrderIn(nodes: seq<MapNode>, n: MapNode)
    ensures n in Reversed(nodes) <==> n in nodes
  {
    if n in nodes {
      var i :| 0 <= i < |nodes| && nodes[i] == n;
      assert Reversed(nodes)[|nodes| - 1 - i] == n;
    }
  }

  lemma SizesAre(order: seq<MapNode>, areas: seq<real>)
    requires Sizes(Rectangles(order), areas)
    ensures forall i :: 0 <= i < |order| ==> Size(order[i].Rectangle()) == areas[i]
  {
    hide Rectangles, Size;
    RectanglesAt(order);
  }

  lemma ScaledExactly(value: real, k: real)
    requires value >= 0.0 && k >= 0.0
    ensures Scaled(value, k) == value * k
  {
    Expand(value, 0.0, k);
  }

  lemma SideLength(node: MapNode, mode: Mode)
    requires NonNegative(node.Rectangle())
    ensures var u := Side(node.Rectangle(), node.depth, mode); u >= 0.0 && (u == node.dx || u == node.dy)
  {
  }

  lemma ValuedSucceeds(node: MapNode, mode: Mode)
    ensures ValuesAddUp(node) ==> !Impossible(node.value, Values(node.children), node.Rectangle(), mode)
  {
  }

  /** The space is a copy of the node's rectangle. */
  method PlaceRows(node: MapNode, mode: Mode, ratio: real, round: real -> real) returns (ok: bool)
    requires node.children != [] && Distinct(node.children) && node !in node.children
    modifies node.children`x, node.children`y, node.children`dx, node.children`dy, node.children`z
    ensures var layout := Fill([], Infinity, Areas(Reversed(node.children)), node.Rectangle(),
                               Side(node.Rectangle(), node.depth, mode), mode, ratio, round);
            ok == layout.Some? && (ok ==> Rectangles(Reversed(node.children)) == layout.value)
  {
    hide Fill, Rectangles, Areas, Reversed, Distinct;
    var rect := new Space(node.Rectangle());
    ok := FillRows(node.children, rect, Side(node.Rectangle(), node.depth, mode), mode, ratio, round);
  }

  lemma ChildrenApart(node: MapNode)
    requires node.Shape()
    ensures Distinct(node.children) && node !in node.children
    ensures forall c :: c in node.children ==> c in node.repr && c in c.repr
  {
    forall i, j | 0 <= i < j < |node.children| ensures node.children[i] != node.children[j] {
      assert node.children[i] in node.children[i].repr && node.children[j] in node.children[j].repr;
    }
  }

  /** No node of a subtree whose root has the rectangle `rect` makes the program throw. */
  ghost predicate Succeeds(node: MapNode, rect: Rect, mode: Mode, ratio: real, round: real -> real)
    requires node.Shape()
    decreases node.height
  {
    var children, layout := node.children, ChildRects(node, rect, mode, ratio, round);
    children != [] ==>
      && !Impossible(node.value, Values(children), rect, mode) && layout.Some?
      && forall i :: 0 <= i < |children| ==>
           Succeeds(children[i], layout.value[|children| - 1 - i], mode, ratio, round)
  }

  /** A node of no value has no child of positive value: values are not negative, or do not cancel out. */
  ghost predicate Valued(node: MapNode) {
    node.value == 0.0 ==> forall c :: c in node.children ==> c.value <= 0.0
  }

  /** Whole trees without such nodes, and all trees in the other modes, are laid out. */
  lemma {:induction false} ValuedTreesSucceed(node: MapNode, rect: Rect, mode: Mode, ratio: real, round: real -> real)
    requires node.Shape() && (mode != Squarify || forall n :: n in node.repr ==> Valued(n))
    ensures Succeeds(node, rect, mode, ratio, round)
    decreases node.height
  {
    hide Layout, Reversed;
    ImpossibleReversed(node, rect, mode);
    LayoutFails(node.value, node.depth, Values(Reversed(node.children)), rect, mode, ratio, round);
    var layout := ChildRects(node, rect, mode, ratio, round);
    if node.children != [] {
      assert layout.Some?;
      forall i | 0 <= i < |node.children|
        ensures Succeeds(node.children[i], layout.value[|node.children| - 1 - i], mode, ratio, round)
      {
        ValuedTreesSucceed(node.children[i], layout.value[|node.children| - 1 - i], mode, ratio, round);
      }
    }
  }

  /** `squarify`, for a whole subtree: unless the program throws, the leaves below a node tile its rectangle, whatever
      the areas, the mode, the ratio and the rounding are. */
  method SquarifyNode(node: MapNode, mode: Mode, ratio: real, round: real -> real) returns (ok: bool)
    requires node.Shape() && Rounding(round) && NonNegative(node.Rectangle())
    modifies node.repr - {node}
    ensures node.Rectangle() == old(node.Rectangle())
    ensures ok <==> Succeeds(node, node.Rectangle(), mode, ratio, round)
    ensures ok ==> Tiles(LeafRects(node), node.Rectangle())
    ensures ok && node.children != [] ==> Tiles(Rectangles(Reversed(node.children)), node.Rectangle())
    decreases node.height, 2
  {
    hide *;
    if node.children == [] {
      OneTile(node.Rectangle());
      LeafFacts(node, mode, ratio, round);
      return true;
    }
    ChildrenApart(node);
    ok := PlaceChildren(node, mode, ratio, round);
    SucceedsStep(node, node.Rectangle(), mode, ratio, round);
    if ok { ok := SquarifyPlaced(node, mode, ratio, round); }
  }

  lemma LeafFacts(node: MapNode, mode: Mode, ratio: real, round: real -> real)
    requires node.Shape() && node.children == []
    ensures LeafRects(node) == [node.Rectangle()] && Succeeds(node, node.Rectangle(), mode, ratio, round)
  {
  }

  /** The rest of `squarify`, once the children of the node are placed. */
  method SquarifyPlaced(node: MapNode, mode: Mode, ratio: real, round: real -> real) returns (ok: bool)
    requires node.Shape() && Rounding(round) && node.children != []
    requires Tiles(Rectangles(Reversed(node.children)), node.Rectangle())
    modifies node.repr - {node}
    ensures node.Rectangle() == old(node.Rectangle())
    ensures ok <==> AllSucceed(node, old(Rectangles(Reversed(node.children))), |node.children|, mode, ratio, round)
    ensures ok ==> Tiles(LeafRects(node), node.Rectangle())
    ensures ok ==> Tiles(Rectangles(Reversed(node.children)), node.Rectangle())
    decreases node.height, 1
  {
    hide Tiles, Rectangles, Reversed, NonNegative, LeafRects, LeafRectsBelow, AllSucceed;
    ChildrenApart(node);
    ghost var order := Reversed(node.children);
    ghost var rects := Rectangles(order);
    RectanglesAt(order);
    TilesNonNegative(rects, node.Rectangle());
    ok := SquarifyChildren(node, mode, ratio, round, rects);
    if ok {
      RectanglesAre(order, rects);
      LeavesTile(node, rects);
    }
  }

  /** The first n children, whose rectangles come last child first, make nothing throw. */
  ghost predicate AllSucceed(node: MapNode, rects: seq<Rect>, n: nat, mode: Mode, ratio: real, round: real -> real)
    requires node.Shape() && |rects| == |node.children| >= n
  {
    forall i :: 0 <= i < n ==> Succeeds(node.children[i], rects[|rects| - 1 - i], mode, ratio, round)
  }

  lemma NextSucceeds(node: MapNode, rects: seq<Rect>, n: nat, mode: Mode, ratio: real, round: real -> real)
    requires node.Shape() && |rects| == |node.children| > n
    ensures var next := Succeeds(node.children[n], rects[|rects| - 1 - n], mode, ratio, round);
            && (AllSucceed(node, rects, n + 1, mode, ratio, round) <==>
                  AllSucceed(node, rects, n, mode, ratio, round) && next)
            && (!next ==> !AllSucceed(node, rects, |rects|, mode, ratio, round))
  {
    hide Succeeds;
  }

  lemma NoneSoFar(node: MapNode, rects: seq<Rect>, mode: Mode, ratio: real, round: real -> real)
    requires node.Shape() && |rects| == |node.children|
    ensures AllSucceed(node, rects, 0, mode, ratio, round)
  {
  }

  lemma SucceedsStep(node: MapNode, rect: Rect, mode: Mode, ratio: real, round: real -> real)
    requires node.Shape() && node.children != []
    ensures var layout := ChildRects(node, rect, mode, ratio, round);
            Succeeds(node, rect, mode, ratio, round) <==>
              && !Impossible(node.value, Values(node.children), rect, mode) && layout.Some?
              && AllSucceed(node, layout.value, |layout.value|, mode, ratio, round)
  {
    hide ChildRects, Impossible;
  }

  /** Where the children tile a node, and leaves tile the children, leaves tile the node. */
  lemma LeavesTile(node: MapNode, rects: seq<Rect>)
    requires node.Shape() && node.children != [] && |rects| == |node.children| && Tiles(rects, node.Rectangle())
    requires forall j :: 0 <= j < |rects| ==> Tiles(LeafRects(Reversed(node.children)[j]), rects[j])
    ensures Tiles(LeafRects(node), node.Rectangle())
  {
    hide Tiles, LeafRectsBelow;
    var order := Reversed(node.children);
    ReversedIn(node.children);
    var parts := LeafRectsBelow(order, node);
    forall i | 0 <= i < |order| ensures Tiles(parts[i], rects[i]) {
      LeafRectsAt(order, node, i);
    }
    TilesRefine(rects, parts, node.Rectangle());
  }

  lemma ReversedIn(nodes: seq<MapNode>)
    ensures forall n :: n in Reversed(nodes) ==> n in nodes
  {
  }

  lemma OneTile(r: Rect)
    requires NonNegative(r)
    ensures Tiles([r], r)
  {
    assert [r][1..] == [];
  }

  lemma TilesNonNegative(rects: seq<Rect>, r: Rect)
    requires Tiles(rects, r)
    ensures forall i :: 0 <= i < |rects| ==> NonNegative(rects[i])
  {
  }

  /** `children.forEach(squarify)`, which ends at the first child that makes the program throw; rects are the rectangles
      of the children, last child first. */
  method SquarifyChildren(node: MapNode, mode: Mode, ratio: real, round: real -> real, ghost rects: seq<Rect>)
    returns (ok: bool)
    requires node.Shape() && Rounding(round) && |rects| == |node.children|
    requires forall j :: 0 <= j < |rects| ==>
               Reversed(node.children)[j].Rectangle() == rects[j] && NonNegative(rects[j])
    modifies node.repr - {node}
    ensures ok <==> AllSucceed(node, rects, |rects|, mode, ratio, round)
    ensures ok ==> forall j :: 0 <= j < |rects| ==>
              Reversed(node.children)[j].Rectangle() == rects[j]
                && Tiles(LeafRects(Reversed(node.children)[j]), rects[j])
    decreases node.height, 0
  {
    hide Tiles, Rectangles, Reversed, NonNegative, Succeeds, AllSucceed;
    var children := node.children;
    ghost var order := Reversed(children);
    NoneSoFar(node, rects, mode, ratio, round);
    ChildrenApart(node);
    ReversedFacts(children);
    assert forall j :: 0 <= j < |children| ==> children[j] == order[|children| - 1 - j];
    var i := 0;
    while i < |children|
      invariant 0 <= i <= |children|
      invariant forall j :: 0 <= j < |children| ==> children[j].Rectangle() == rects[|children| - 1 - j]
      invariant forall j :: 0 <= j < i ==> Tiles(LeafRects(children[j]), rects[|children| - 1 - j])
      invariant AllSucceed(node, rects, i, mode, ratio, round)
    {
      NextSucceeds(node, rects, i, mode, ratio, round);
      ok := SquarifyNode(children[i], mode, ratio, round);
      if !ok { return; }
      i := i + 1;
    }
    ok := true;
  }
}
