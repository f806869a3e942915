/** d3's quadtree in place: nodes that grow by insertion, and the nearest-item search. */
module Quadtree {
  import opened Basics
  import opened QuadtreeSpec

  class QuadNode {
    var leaf: bool
    var item: Option<Item>
    var nodes: seq<QuadNode?>
    ghost var tree: Tree
    ghost var repr: set<object>

    /** This node and the nodes below it form the shape `tree` and share no part. */
    ghost predicate Valid()
      reads this, repr
      ensures Valid() ==> this in repr && |nodes| == 4 && tree.Node?
      decreases repr
    {
      && this in repr && |nodes| == 4 && tree.Node? && tree.item == item && leaf == IsLeaf(tree)
      && KidValid(0) && KidValid(1) && KidValid(2) && KidValid(3)
      && (forall i, j :: 0 <= i < j < 4 && nodes[i] != null && nodes[j] != null ==> nodes[i].repr !! nodes[j].repr)
    }

    ghost predicate KidValid(i: Quadrant)
      requires this in repr && |nodes| == 4 && tree.Node?
      reads this, repr
      decreases repr, 0
    {
      if nodes[i] == null then Kid(tree, i).Nil?
      else
        nodes[i] in repr && nodes[i].repr <= repr && this !in nodes[i].repr && nodes[i].Valid()
          && nodes[i].tree == Kid(tree, i)
    }

    constructor ()
      ensures Valid() && fresh(repr) && tree == NewLeaf
    {
      leaf, item, nodes := true, None, [null, null, null, null];
      tree, repr := NewLeaf, {this};
    }

    method Insert(p: Item, b: Box)
      requires Valid() && Square(b) && Inside(p, b) && Placed(tree, b)
      modifies repr
      ensures Valid() && fresh(repr - old(repr)) && tree == QuadtreeSpec.Insert(old(tree), p, b)
      decreases Height(tree), Cells(b), if tree.item.Some? then 1 else 0, 1
    {
      ghost var i := QuadrantOf(p, b);
      QuarterCells(b, i);
      if leaf {
        if item.None? {
          item := Some(p);
          tree := tree.(item := item);
          assert forall j: Quadrant :: Kid(tree, j) == Kid(old(tree), j);
        } else if Coincide(item.value, p) {
          ChildHeight(tree, i);
          InsertChild(p, b);
        } else {
          var far := item.value;
          HalvingShrinks(b, far, p, i);
          HalvingShrinks(b, far, p, QuadrantOf(far, b));
          PushedIsInsertKid(tree, b);
          PushedPlaced(tree, b);
          PushedHeight(tree, b, i);
          ChildHeight(tree.(item := None), QuadrantOf(far, b));
          item := None;
          tree := tree.(item := None);
          assert forall j: Quadrant :: Kid(tree, j) == Kid(old(tree), j);
          InsertChild(far, b);
          InsertChild(p, b);
        }
      } else {
        ChildHeight(tree, i);
        InsertChild(p, b);
      }
    }

    method InsertChild(p: Item, b: Box)
      requires Valid() && Square(b) && Inside(p, b) && Placed(tree, b)
      modifies repr
      ensures Valid() && fresh(repr - old(repr)) && tree == InsertKid(old(tree), p, b)
      decreases Height(Child(tree, QuadrantOf(p, b))), Cells(QuarterOf(p, b)),
                  if Child(tree, QuadrantOf(p, b)).item.Some? then 1 else 0, 3
    {
      var i := QuadrantOf(p, b);
      QuarterInside(p, b);
      var child := Open(i);
      WithKidFacts(old(tree), i, Child(old(tree), i));
      Descend(i, child, p, b);
    }

    /** Insert into the child in quadrant i. */
    method Descend(i: Quadrant, child: QuadNode, p: Item, b: Box)
      requires Valid() && nodes[i] == child && Kid(tree, i).Node?
      requires Square(Quarter(b, i)) && Inside(p, Quarter(b, i)) && Placed(Kid(tree, i), Quarter(b, i))
      modifies repr
      ensures Valid() && fresh(repr - old(repr))
      ensures tree == WithKid(old(tree), i, QuadtreeSpec.Insert(Kid(old(tree), i), p, Quarter(b, i)))
      decreases Height(Kid(tree, i)), Cells(Quarter(b, i)), if Kid(tree, i).item.Some? then 1 else 0, 2
    {
      hide Kid, WithKid, IsLeaf, Placed, QuadtreeSpec.Insert;
      assert KidValid(i);
      child.Insert(p, Quarter(b, i));
      WithKidFacts(tree, i, child.tree);
      repr := repr + child.repr;
      tree := WithKid(tree, i, child.tree);
    }

    /** The child in a quadrant, made if need be. */
    method Open(i: Quadrant) returns (child: QuadNode)
      requires Valid()
      modifies this
      ensures Valid() && fresh(repr - old(repr)) && nodes[i] == child
      ensures tree == WithKid(old(tree), i, Child(old(tree), i))
    {
      hide Kid, WithKid, IsLeaf;
      WithKidFacts(tree, i, Child(tree, i));
      assert KidValid(i);
      leaf := false;
      if nodes[i] == null {
        child := new QuadNode();
        nodes := nodes[i := child];
        tree, repr := WithKid(tree, i, NewLeaf), repr + child.repr;
      } else {
        child := nodes[i];
      }
    }
  }

  /** The closure variables of `find`: the window still worth looking at and the closest item so far. */
  class Search {
    const x: real
    const y: real
    const sqrt: real -> real
    ghost const extent: Box
    var x0: real
    var y0: real
    var x3: real
    var y3: real
    var minDistance2: Option<real>
    var closest: Option<Item>

    constructor (x: real, y: real, sqrt: real -> real, b: Box)
      requires RootOf(sqrt)
      ensures Valid() && this.x == x && this.y == y && extent == b && minDistance2 == None
    {
      this.x, this.y, this.sqrt, extent := x, y, sqrt, b;
      x0, y0, x3, y3 := b.x1, b.y1, b.x2, b.y2;
      minDistance2, closest := None, None;
    }

    predicate Reached(q: Item)
      reads this
    {
      minDistance2.Some? && minDistance2.value <= Dist2(x, y, q)
    }

    /** Whatever in the extent would still be closer is in the window. */
    ghost predicate Valid()
      reads this
    {
      && RootOf(sqrt)
      && (minDistance2.None? <==> closest.None?)
      && (closest.Some? ==> minDistance2.value == Dist2(x, y, closest.value))
      && (forall q :: Inside(q, extent) && !Reached(q) ==> x0 <= q.x <= x3 && y0 <= q.y <= y3)
    }

    /** Look at one item. */
    method Consider(p: Item)
      requires Valid()
      modifies this
      ensures Valid() && Reached(p) && NotFarther(minDistance2, old(minDistance2))
      ensures closest == old(closest) || closest == Some(p)
    {
      hide Dist2;
      var dx, dy := x - p.x, y - p.y;
      Dist2Sum(x, y, p, dx, dy);
      var distance2 := dx * dx + dy * dy;
      if minDistance2.None? || distance2 < minDistance2.value {
        minDistance2 := Some(distance2);
        var distance := sqrt(distance2);
        x0, y0 := x - distance, y - distance;
        x3, y3 := x + distance, y + distance;
        closest := Some(p);
        forall q | !Reached(q) ensures x0 <= q.x <= x3 && y0 <= q.y <= y3 {
          InWindow(x, y, q, distance2, distance);
        }
      }
    }

    /** `find` below one node: afterwards no item of its subtree is closer than the closest so far. */
    method Visit(node: QuadNode, b: Box)
      requires Valid() && this !in node.repr && node.Valid() && Square(b) && Within(b, extent) && Placed(node.tree, b)
      modifies this
      ensures Valid() && NoneCloser(node.tree, x, y, minDistance2) && NotFarther(minDistance2, old(minDistance2))
      ensures closest == old(closest)
           || (closest.Some? && Truthy(closest.value) && Count(node.tree, closest.value) > 0)
      decreases node.tree, 1
    {
      hide Dist2, Count, Truthy;
      if b.x1 > x3 || b.y1 > y3 || b.x2 < x0 || b.y2 < y0 {
        forall q | Count(node.tree, q) > 0 ensures Reached(q) {
          PlacedInside(node.tree, b, q);
        }
        return;
      }
      if node.item.Some? && Truthy(node.item.value) { Consider(node.item.value); }
      ghost var own := minDistance2;
      var start := (if y >= MidY(b) then 2 else 0) + (if x >= MidX(b) then 1 else 0);
      VisitChildren(node, b, start);
      WholeTree(node.tree, x, y, own, minDistance2);
      if closest.Some? { CountKid(node.tree, closest.value); }
    }

    /** Visit the quadrants, beginning with the one (x, y) is in. */
    method VisitChildren(node: QuadNode, b: Box, start: Quadrant)
      requires Valid() && this !in node.repr && node.Valid() && Square(b) && Within(b, extent) && Placed(node.tree, b)
      modifies this
      ensures Valid() && NotFarther(minDistance2, old(minDistance2))
      ensures forall k: Quadrant :: NoneCloser(Kid(node.tree, k), x, y, minDistance2)
      ensures closest == old(closest) || InKids(node.tree, closest)
      decreases node.tree, 0
    {
      hide Valid, Placed, Kid, NoneCloser, InKids, Within, Square, QuadNode.Valid;
      var i: int := start;
      while i < start + 4
        invariant start <= i <= start + 4
        invariant Valid() && node.Valid() && NotFarther(minDistance2, old(minDistance2))
        invariant forall k: Quadrant :: (k + 4 - start) % 4 < i - start ==>
                    NoneCloser(Kid(node.tree, k), x, y, minDistance2)
        invariant closest == old(closest) || InKids(node.tree, closest)
      {
        var k: Quadrant := i % 4;
        ghost var before := minDistance2;
        VisitQuadrant(node, b, k);
        forall j: Quadrant | NoneCloser(Kid(node.tree, j), x, y, before)
          ensures NoneCloser(Kid(node.tree, j), x, y, minDistance2)
        {
          StillNone(Kid(node.tree, j), x, y, before, minDistance2);
        }
        i := i + 1;
      }
    }

    /** One quadrant, if there is a node. */
    method VisitQuadrant(node: QuadNode, b: Box, k: Quadrant)
      requires Valid() && this !in node.repr && node.Valid() && Square(b) && Within(b, extent) && Placed(node.tree, b)
      modifies this
      ensures Valid() && NoneCloser(Kid(node.tree, k), x, y, minDistance2)
                && NotFarther(minDistance2, old(minDistance2))
      ensures closest == old(closest) || InKids(node.tree, closest)
      decreases node.tree, 0, 0
    {
      hide Valid, Placed, Kid, NoneCloser, Within, Square;
      var child := node.nodes[k];
      assert node.KidValid(k);
      if child != null {
        QuarterWithin(b, extent, k);
        PlacedKid(node.tree, b, k);
        KidSmaller(node.tree, k);
        Visit(child, Quarter(b, k));
      } else {
        NilEmpty(x, y, minDistance2);
      }
    }
  }

  /** A distance has not grown. */
  predicate NotFarther(d: Option<real>, e: Option<real>) { e.Some? ==> d.Some? && d.value <= e.value }

  /** No item of a tree is closer than the distance, of those whose datum does not count as false. */
  ghost predicate NoneCloser(t: Tree, x: real, y: real, d: Option<real>) {
    forall q :: Truthy(q) && Count(t, q) > 0 ==> d.Some? && d.value <= Dist2(x, y, q)
  }

  ghost predicate InKids(t: Tree, c: Option<Item>)
    requires t.Node?
  {
    c.Some? && Truthy(c.value) && exists k: Quadrant :: Count(Kid(t, k), c.value) > 0
  }

  lemma StillNone(t: Tree, x: real, y: real, d: Option<real>, e: Option<real>)
    requires NoneCloser(t, x, y, d) && NotFarther(e, d)
    ensures NoneCloser(t, x, y, e)
  {
    hide Count, Dist2;
  }

  lemma WholeTree(t: Tree, x: real, y: real, own: Option<real>, d: Option<real>)
    requires t.Node? && NotFarther(d, own)
    requires t.item.Some? && Truthy(t.item.value) ==> own.Some? && own.value <= Dist2(x, y, t.item.value)
    requires forall k: Quadrant :: NoneCloser(Kid(t, k), x, y, d)
    ensures NoneCloser(t, x, y, d)
  {
    hide Count, Dist2, Kid, Truthy;
    forall q | Truthy(q) && Count(t, q) > 0 ensures d.Some? && d.value <= Dist2(x, y, q) {
      CountKid(t, q);
    }
  }

  lemma KidSmaller(t: Tree, i: Quadrant)
    requires t.Node?
    ensures Kid(t, i) < t
  {
  }

  lemma NilEmpty(x: real, y: real, d: Option<real>)
    ensures NoneCloser(Nil, x, y, d)
  {
  }

  /** `find`: an item as close to (x, y) as any in the tree, and none exactly if there is none; items whose datum counts
      as false are passed over. */
  method Find(root: QuadNode, x: real, y: real, sqrt: real -> real, b: Box) returns (closest: Option<Item>)
    requires root.Valid() && Square(b) && Placed(root.tree, b) && RootOf(sqrt)
    ensures closest.None? <==> forall q: Item :: q.datum != "" ==> Count(root.tree, q) == 0
    ensures closest.Some? ==> closest.value.datum != "" && Count(root.tree, closest.value) > 0
    ensures closest.Some? ==> forall q: Item :: q.datum != "" && Count(root.tree, q) > 0 ==>
                                            Dist2(x, y, closest.value) <= Dist2(x, y, q)
  {
    hide Count, Dist2;
    var s := new Search(x, y, sqrt, b);
    s.Visit(root, b);
    closest := s.closest;
    if closest.None? {
      forall q | Truthy(q) ensures Count(root.tree, q) == 0 {
        assert !s.Reached(q);
      }
    }
  }

  /** The least square that starts at the least x and y of the data and holds all of it. */
  method Extent(data: seq<Item>) returns (b: Box)
    requires data != []
    ensures Square(b) && forall p :: p in data ==> Inside(p, b)
    ensures (exists p :: p in data && p.x == b.x1) && (exists p :: p in data && p.y == b.y1)
    ensures exists p :: p in data && (p.x == b.x2 || p.y == b.y2)
  {
    var p0 := data[0];
    b := Box(p0.x, p0.y, p0.x, p0.y);
    ghost var west, north, east, south := p0, p0, p0, p0;
    for i := 1 to |data|
      invariant b.x1 <= b.x2 && b.y1 <= b.y2
      invariant forall k :: 0 <= k < i ==> Inside(data[k], b)
      invariant west in data && north in data && east in data && south in data
      invariant west.x == b.x1 && north.y == b.y1 && east.x == b.x2 && south.y == b.y2
    {
      var d := data[i];
      if d.x < b.x1 { b, west := b.(x1 := d.x), d; }
      if d.y < b.y1 { b, north := b.(y1 := d.y), d; }
      if d.x > b.x2 { b, east := b.(x2 := d.x), d; }
      if d.y > b.y2 { b, south := b.(y2 := d.y), d; }
    }
    var dx, dy := b.x2 - b.x1, b.y2 - b.y1;
    if dx > dy { b := b.(y2 := b.y1 + dx); } else { b := b.(x2 := b.x1 + dy); }
    assert east.x == b.x2 || south.y == b.y2;
  }

  /** The tree stores exactly these data. */
  ghost predicate Stores(t: Tree, data: seq<Item>) { forall q :: Count(t, q) == multiset(data)[q] }

  lemma StoresNothing(b: Box)
    ensures Stores(NewLeaf, []) && Placed(NewLeaf, b)
  {
    LeafPlaced(NewLeaf, b);
  }

  lemma StoresMore(t: Tree, t': Tree, data: seq<Item>, i: nat)
    requires i < |data| && Stores(t, data[..i]) && Adds(t, t', data[i])
    ensures Stores(t', data[..i + 1])
  {
    hide Count;
    assert data[..i + 1] == data[..i] + [data[i]];
  }

  /** `quadtree(data)`: insert every item into an empty root. */
  method Build(data: seq<Item>, b: Box) returns (root: QuadNode)
    requires Square(b) && forall p :: p in data ==> Inside(p, b)
    ensures root.Valid() && fresh(root.repr) && Placed(root.tree, b)
    ensures Stores(root.tree, data)
  {
    hide QuadNode.Valid, Placed, Stores, Count, Inside, QuadtreeSpec.Insert, Adds;
    root := new QuadNode();
    StoresNothing(b);
    var i := 0;
    while i < |data|
      invariant 0 <= i <= |data|
      invariant root.Valid() && fresh(root.repr) && Placed(root.tree, b)
      invariant Stores(root.tree, data[..i])
    {
      InsertPlaced(root.tree, data[i], b);
      StoresMore(root.tree, QuadtreeSpec.Insert(root.tree, data[i], b), data, i);
      root.Insert(data[i], b);
      i := i + 1;
    }
    assert data[..i] == data;
  }

  /** The search on a tree built from data finds a datum as near as a scan of all the data would, which passes over the
      data that count as false as well. */
  method NearestOf(data: seq<Item>, x: real, y: real, sqrt: real -> real) returns (closest: Option<Item>)
    requires data != [] && RootOf(sqrt)
    ensures closest.None? <==> forall q :: q in data ==> q.datum == ""
    ensures closest.Some? ==> closest.value in data && closest.value.datum != ""
    ensures closest.Some? ==> forall q :: q in data && q.datum != "" ==> Dist2(x, y, closest.value) <= Dist2(x, y, q)
  {
    hide Count, Dist2, QuadNode.Valid, Placed;
    var b := Extent(data);
    var root := Build(data, b);
    assert forall q :: Count(root.tree, q) > 0 <==> q in data;
    closest := Find(root, x, y, sqrt, b);
  }
}
