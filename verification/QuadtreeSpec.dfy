/** d3's quadtree on values: shapes, boxes, insertion and its termination measure. */
module QuadtreeSpec {
  import opened Basics

  /** A stored datum and its position. The empty string stands for the data that count as false, such as 0. */
  datatype Item = Item(datum: string, x: real, y: real)

  predicate Truthy(p: Item) { p.datum != "" }

  /** A square box. */
  datatype Box = Box(x1: real, y1: real, x2: real, y2: real)

  /** A node: an item it keeps itself, and four subtrees, any of which may be missing.  A node with no
      subtree is a leaf. */
  datatype Tree = Nil | Node(item: Option<Item>, k0: Tree, k1: Tree, k2: Tree, k3: Tree)

  const NewLeaf := Node(None, Nil, Nil, Nil, Nil)

  type Quadrant = i: int | 0 <= i < 4

  function Kid(t: Tree, i: Quadrant): Tree
    requires t.Node?
  {
    if i == 0 then t.k0 else if i == 1 then t.k1 else if i == 2 then t.k2 else t.k3
  }

  function WithKid(t: Tree, i: Quadrant, k: Tree): Tree
    requires t.Node?
  {
    if i == 0 then t.(k0 := k) else if i == 1 then t.(k1 := k) else if i == 2 then t.(k2 := k) else t.(k3 := k)
  }

  lemma WithKidFacts(t: Tree, i: Quadrant, k: Tree)
    requires t.Node?
    ensures Kid(WithKid(t, i, k), i) == k && WithKid(t, i, Kid(t, i)) == t
    ensures forall j: Quadrant :: j != i ==> Kid(WithKid(t, i, k), j) == Kid(t, j)
    ensures WithKid(t, i, k).Node? && WithKid(t, i, k).item == t.item
    ensures k.Node? ==> !IsLeaf(WithKid(t, i, k))
    ensures Kid(t, i).Node? ==> !IsLeaf(t)
  {
  }

  predicate IsLeaf(t: Tree) { t.Node? && t.k0.Nil? && t.k1.Nil? && t.k2.Nil? && t.k3.Nil? }

  // ---------------------------------------------------------------- boxes

  predicate Square(b: Box) { b.x1 <= b.x2 && b.x2 - b.x1 == b.y2 - b.y1 }

  predicate Inside(p: Item, b: Box) { b.x1 <= p.x <= b.x2 && b.y1 <= p.y <= b.y2 }

  function MidX(b: Box): real { (b.x1 + b.x2) * 0.5 }

  function MidY(b: Box): real { (b.y1 + b.y2) * 0.5 }

  /** `below << 1 | right`. */
  function QuadrantOf(p: Item, b: Box): Quadrant {
    (if p.y >= MidY(b) then 2 else 0) + (if p.x >= MidX(b) then 1 else 0)
  }

  function Quarter(b: Box, i: Quadrant): Box {
    Box(if i == 1 || i == 3 then MidX(b) else b.x1, if i >= 2 then MidY(b) else b.y1,
        if i == 1 || i == 3 then b.x2 else MidX(b), if i >= 2 then b.y2 else MidY(b))
  }

  lemma QuarterSquare(b: Box, i: Quadrant)
    requires Square(b)
    ensures Square(Quarter(b, i)) && Quarter(b, i).x2 - Quarter(b, i).x1 == (b.x2 - b.x1) * 0.5
  {
  }

  // ---------------------------------------------------------------- contents

  /** How often an item is stored in t. */
  function Count(t: Tree, p: Item): nat {
    match t
    case Nil => 0
    case Node(item, k0, k1, k2, k3) =>
      (if item == Some(p) then 1 else 0) + Count(k0, p) + Count(k1, p) + Count(k2, p) + Count(k3, p)
  }

  /** Every item of t belongs into quadrant i of b. */
  ghost predicate AllIn(t: Tree, b: Box, i: Quadrant) {
    forall p :: Count(t, p) > 0 ==> QuadrantOf(p, b) == i
  }

  /** Every item below t lies in b, and in the quarter of each node on the way down to it. */
  ghost predicate Placed(t: Tree, b: Box)
    decreases t
  {
    match t
    case Nil => true
    case Node(item, k0, k1, k2, k3) =>
      && (item.Some? ==> Inside(item.value, b))
      && AllIn(k0, b, 0) && AllIn(k1, b, 1) && AllIn(k2, b, 2) && AllIn(k3, b, 3)
      && Placed(k0, Quarter(b, 0)) && Placed(k1, Quarter(b, 1)) && Placed(k2, Quarter(b, 2))
           && Placed(k3, Quarter(b, 3))
  }

  function Height(t: Tree): nat {
    match t
    case Nil => 0
    case Node(_, k0, k1, k2, k3) => 1 + Max(Max(Height(k0), Height(k1)), Max(Height(k2), Height(k3)))
  }

  /** How many cells of half a hundredth a side of b spans. */
  function Cells(b: Box): nat
    requires Square(b)
  {
    ((b.x2 - b.x1) / 0.005).Floor
  }

  /** Two distinct positions in a box leave it room to be halved. */
  lemma HalvingShrinks(b: Box, p: Item, q: Item, i: Quadrant)
    requires Square(b) && Inside(p, b) && Inside(q, b) && !Coincide(p, q)
    ensures Square(Quarter(b, i)) && Cells(Quarter(b, i)) < Cells(b)
  {
    var side := b.x2 - b.x1;
    QuarterSquare(b, i);
    assert side >= 0.005;
    var c := side / 0.005;
    assert side * 0.5 / 0.005 == c * 0.5;
    assert c >= 1.0;
  }

  function Abs(r: real): real { if r < 0.0 then -r else r }

  predicate Coincide(p: Item, q: Item) { Abs(p.x - q.x) + Abs(p.y - q.y) < 0.01 }

  lemma QuarterInside(p: Item, b: Box)
    requires Square(b) && Inside(p, b)
    ensures Inside(p, Quarter(b, QuadrantOf(p, b)))
  {
  }

  lemma QuarterCells(b: Box, i: Quadrant)
    requires Square(b)
    ensures Square(Quarter(b, i)) && Cells(Quarter(b, i)) <= Cells(b)
  {
    var side := b.x2 - b.x1;
    QuarterSquare(b, i);
    assert side * 0.5 / 0.005 <= side / 0.005;
  }

  // ---------------------------------------------------------------- insertion

  /** The subtree in a quadrant, or a new leaf if there is none. */
  function Child(t: Tree, i: Quadrant): (r: Tree)
    requires t.Node?
    ensures r.Node?
  {
    if Kid(t, i).Nil? then NewLeaf else Kid(t, i)
  }

  /** A leaf whose own item has been pushed one level down. */
  function Pushed(t: Tree, b: Box): Tree
    requires IsLeaf(t) && t.item.Some?
  {
    WithKid(t.(item := None), QuadrantOf(t.item.value, b), NewLeaf.(item := t.item))
  }

  lemma LeafPlaced(t: Tree, b: Box)
    requires IsLeaf(t) && (t.item.Some? ==> Inside(t.item.value, b))
    ensures Placed(t, b)
  {
    forall b': Box ensures Placed(Nil, b') {}
  }

  lemma PushedPlaced(t: Tree, b: Box)
    requires Square(b) && IsLeaf(t) && t.item.Some? && Placed(t, b)
    ensures Placed(Pushed(t, b), b)
    ensures forall q :: Count(Pushed(t, b), q) == Count(t, q)
  {
    var p, i := t.item.value, QuadrantOf(t.item.value, b);
    var k := NewLeaf.(item := t.item);
    QuarterInside(p, b);
    LeafPlaced(k, Quarter(b, i));
    assert AllIn(k, b, i);
    LeafPlaced(t.(item := None), b);
    WithKidPlaced(t.(item := None), i, k, p, b);
  }

  lemma ChildHeight(t: Tree, i: Quadrant)
    requires t.Node?
    ensures IsLeaf(t) ==> Child(t, i) == NewLeaf && Height(t) == 1
    ensures !IsLeaf(t) ==> Height(Child(t, i)) < Height(t)
  {
    assert Height(Nil) == 0 && Height(NewLeaf) == 1;
  }

  lemma PushedHeight(t: Tree, b: Box, i: Quadrant)
    requires IsLeaf(t) && t.item.Some?
    ensures Height(Child(Pushed(t, b), i)) == 1 == Height(t)
  {
    var k := NewLeaf.(item := t.item);
    assert Height(Nil) == 0 && Height(NewLeaf) == 1 && Height(k) == 1 && Height(t) == 1;
    assert Kid(Pushed(t, b), i) == if i == QuadrantOf(t.item.value, b) then k else Nil;
  }

  /** `insert`: a leaf takes the item if it is free; a leaf with a distant item pushes that one down
      first; otherwise, and from an inner node, the item goes one level down. */
  ghost function Insert(t: Tree, p: Item, b: Box): Tree
    requires t.Node? && Square(b) && Inside(p, b) && Placed(t, b)
    decreases Height(t), Cells(b), if t.item.Some? then 1 else 0, 1
  {
    var i := QuadrantOf(p, b);
    QuarterCells(b, i);
    if IsLeaf(t) && t.item.None? then t.(item := Some(p))
    else if IsLeaf(t) && !Coincide(t.item.value, p) then
      HalvingShrinks(b, t.item.value, p, i);
      PushedPlaced(t, b);
      PushedHeight(t, b, i);
      InsertKid(Pushed(t, b), p, b)
    else
      ChildHeight(t, i);
      InsertKid(t, p, b)
  }

  /** `insertChild`: insert into the quadrant the item belongs to. */
  ghost function InsertKid(t: Tree, p: Item, b: Box): Tree
    requires t.Node? && Square(b) && Inside(p, b) && Placed(t, b)
    decreases Height(Child(t, QuadrantOf(p, b))), Cells(QuarterOf(p, b)),
                if Child(t, QuadrantOf(p, b)).item.Some? then 1 else 0, 2
  {
    var i := QuadrantOf(p, b);
    QuarterInside(p, b);
    WithKid(t, i, Insert(Child(t, i), p, Quarter(b, i)))
  }

  function QuarterOf(p: Item, b: Box): (r: Box)
    requires Square(b)
    ensures Square(r)
  {
    QuarterSquare(b, QuadrantOf(p, b));
    Quarter(b, QuadrantOf(p, b))
  }

  /** Two items share a node exactly if their distances along the two axes come to less than a hundredth; otherwise both
      go down. */
  lemma TwoItems(p: Item, q: Item, b: Box)
    requires Square(b) && Inside(p, b) && Inside(q, b)
    ensures Placed(NewLeaf.(item := Some(p)), b)
    ensures var t := Insert(NewLeaf.(item := Some(p)), q, b);
            var dx, dy := p.x - q.x, p.y - q.y;
            var near := dx + dy < 0.01 && dx - dy < 0.01 && dy - dx < 0.01 && -dx - dy < 0.01;
            t.Node? && t.item == if near then Some(p) else None
  {
    var leaf := NewLeaf.(item := Some(p));
    LeafPlaced(leaf, b);
    if Coincide(p, q) {
      KidAdded(leaf, q, b);
    } else {
      PushedPlaced(leaf, b);
      KidAdded(Pushed(leaf, b), q, b);
    }
  }

  lemma KidAdded(t: Tree, p: Item, b: Box)
    requires t.Node? && Square(b) && Inside(p, b) && Placed(t, b)
    ensures InsertKid(t, p, b).Node? && InsertKid(t, p, b).item == t.item
  {
    hide Placed;
    var i := QuadrantOf(p, b);
    QuarterInside(p, b);
    assert InsertKid(t, p, b) == WithKid(t, i, Kid(InsertKid(t, p, b), i));
  }

  /** The four subtrees hold what is left and above the middle, right and above, left and below, right and below. */
  lemma Quadrants(t: Tree, b: Box, p: Item)
    requires t.Node? && Placed(t, b)
    ensures Count(t.k0, p) > 0 ==> 2.0 * p.x < b.x1 + b.x2 && 2.0 * p.y < b.y1 + b.y2
    ensures Count(t.k1, p) > 0 ==> 2.0 * p.x >= b.x1 + b.x2 && 2.0 * p.y < b.y1 + b.y2
    ensures Count(t.k2, p) > 0 ==> 2.0 * p.x < b.x1 + b.x2 && 2.0 * p.y >= b.y1 + b.y2
    ensures Count(t.k3, p) > 0 ==> 2.0 * p.x >= b.x1 + b.x2 && 2.0 * p.y >= b.y1 + b.y2
  {
    hide Count;
    assert AllIn(t.k0, b, 0) && AllIn(t.k1, b, 1) && AllIn(t.k2, b, 2) && AllIn(t.k3, b, 3);
  }

  /** t' holds what t holds, and p once more. */
  ghost predicate Adds(t: Tree, t': Tree, p: Item) {
    forall q :: Count(t', q) == Count(t, q) + if q == p then 1 else 0
  }

  /** Pushing a leaf's own item down is inserting it one level down. */
  lemma PushedIsInsertKid(t: Tree, b: Box)
    requires Square(b) && IsLeaf(t) && t.item.Some? && Placed(t, b)
    ensures Placed(t.(item := None), b) && InsertKid(t.(item := None), t.item.value, b) == Pushed(t, b)
  {
    LeafPlaced(t.(item := None), b);
    var i := QuadrantOf(t.item.value, b);
    QuarterInside(t.item.value, b);
    LeafPlaced(NewLeaf, Quarter(b, i));
    assert Insert(NewLeaf, t.item.value, Quarter(b, i)) == NewLeaf.(item := t.item);
  }

  /** Insertion keeps every item in its box and adds exactly the new one. */
  lemma {:induction false} InsertPlaced(t: Tree, p: Item, b: Box)
    requires t.Node? && Square(b) && Inside(p, b) && Placed(t, b)
    ensures Placed(Insert(t, p, b), b) && Adds(t, Insert(t, p, b), p)
    decreases Height(t), Cells(b), if t.item.Some? then 1 else 0, 1
  {
    var i := QuadrantOf(p, b);
    QuarterCells(b, i);
    if IsLeaf(t) && t.item.None? {
    } else if IsLeaf(t) && !Coincide(t.item.value, p) {
      HalvingShrinks(b, t.item.value, p, i);
      PushedPlaced(t, b);
      PushedHeight(t, b, i);
      InsertKidPlaced(Pushed(t, b), p, b);
    } else {
      ChildHeight(t, i);
      InsertKidPlaced(t, p, b);
    }
  }

  lemma {:induction false} InsertKidPlaced(t: Tree, p: Item, b: Box)
    requires t.Node? && Square(b) && Inside(p, b) && Placed(t, b)
    ensures Placed(InsertKid(t, p, b), b) && Adds(t, InsertKid(t, p, b), p)
    decreases Height(Child(t, QuadrantOf(p, b))), Cells(QuarterOf(p, b)),
                if Child(t, QuadrantOf(p, b)).item.Some? then 1 else 0, 2
  {
    var i := QuadrantOf(p, b);
    QuarterInside(p, b);
    QuarterSquare(b, i);
    var k := Child(t, i);
    assert Placed(k, Quarter(b, i)) && forall q :: Count(k, q) == Count(Kid(t, i), q);
    InsertPlaced(k, p, Quarter(b, i));
    var k' := Insert(k, p, Quarter(b, i));
    assert Adds(Kid(t, i), k', p);
    assert AllIn(Kid(t, i), b, i);
    assert AllIn(k', b, i);
    WithKidPlaced(t, i, k', p, b);
  }

  lemma WithKidPlaced(t: Tree, i: Quadrant, k: Tree, p: Item, b: Box)
    requires t.Node? && Placed(t, b) && Placed(k, Quarter(b, i)) && AllIn(k, b, i) && Adds(Kid(t, i), k, p)
    ensures Placed(WithKid(t, i, k), b) && Adds(t, WithKid(t, i, k), p)
  {
    hide AllIn;
    WithKidAdds(t, i, k, p);
    if i == 0 {
    } else if i == 1 {
    } else if i == 2 {
    } else {
    }
  }

  lemma WithKidAdds(t: Tree, i: Quadrant, k: Tree, p: Item)
    requires t.Node? && Adds(Kid(t, i), k, p)
    ensures Adds(t, WithKid(t, i, k), p)
  {
    forall q ensures Count(WithKid(t, i, k), q) == Count(t, q) + if q == p then 1 else 0 {
      assert Count(k, q) == Count(Kid(t, i), q) + if q == p then 1 else 0;
      if i == 0 {
      } else if i == 1 {
      } else if i == 2 {
      } else {
      }
    }
  }

  // ---------------------------------------------------------------- search

  predicate Within(b: Box, e: Box) { e.x1 <= b.x1 && b.x2 <= e.x2 && e.y1 <= b.y1 && b.y2 <= e.y2 }

  lemma QuarterWithin(b: Box, e: Box, i: Quadrant)
    requires Square(b) && Within(b, e)
    ensures Square(Quarter(b, i)) && Within(Quarter(b, i), e)
  {
  }

  /** Placed items lie in the node's box. */
  lemma {:induction false} PlacedInside(t: Tree, b: Box, p: Item)
    requires Square(b) && Placed(t, b) && Count(t, p) > 0
    ensures Inside(p, b)
    decreases t
  {
    if t.item != Some(p) {
      var i: Quadrant := if Count(t.k0, p) > 0 then 0 else if Count(t.k1, p) > 0 then 1
        else if Count(t.k2, p) > 0 then 2 else 3;
      QuarterSquare(b, i);
      PlacedInside(Kid(t, i), Quarter(b, i), p);
    }
  }

  lemma PlacedKid(t: Tree, b: Box, i: Quadrant)
    requires t.Node? && Placed(t, b)
    ensures Placed(Kid(t, i), Quarter(b, i))
  {
  }

  /** What t stores is its own item and what its kids store. */
  lemma CountKid(t: Tree, p: Item)
    requires t.Node?
    ensures Count(t, p) > 0 <==> t.item == Some(p) || exists i: Quadrant :: Count(Kid(t, i), p) > 0
  {
    assert Kid(t, 0) == t.k0 && Kid(t, 1) == t.k1 && Kid(t, 2) == t.k2 && Kid(t, 3) == t.k3;
  }

  function Dist2(x: real, y: real, p: Item): real {
    (x - p.x) * (x - p.x) + (y - p.y) * (y - p.y)
  }

  lemma Larger(a: real, d: real)
    ensures 0.0 <= d < a ==> a * a >= d * d
  {
  }

  lemma BoundedByRoot(a: real, c: real, d: real)
    requires a * a + c * c < d * d && d >= 0.0
    ensures -d <= a <= d && -d <= c <= d
  {
    Larger(a, d);
    Larger(-a, d);
    Larger(c, d);
    Larger(-c, d);
    assert a * a >= 0.0 && c * c >= 0.0 && (-a) * (-a) == a * a && (-c) * (-c) == c * c;
  }

  /** Whatever is closer than the window's half side lies in the window. */
  lemma InWindow(x: real, y: real, q: Item, r: real, d: real)
    requires d >= 0.0 && r <= d * d
    ensures Dist2(x, y, q) < r ==> x - d <= q.x <= x + d && y - d <= q.y <= y + d
  {
    if Dist2(x, y, q) < r {
      BoundedByRoot(x - q.x, y - q.y, d);
    }
  }

  lemma Dist2Sum(x: real, y: real, p: Item, dx: real, dy: real)
    requires dx == x - p.x && dy == y - p.y
    ensures dx * dx + dy * dy == Dist2(x, y, p) && Dist2(x, y, p) >= 0.0
  {
    assert dx * dx >= 0.0 && dy * dy >= 0.0;
  }

  /** The square root, or any function that errs only upwards. */
  ghost predicate RootOf(sqrt: real -> real) {
    forall r :: r >= 0.0 ==> sqrt(r) >= 0.0 && sqrt(r) * sqrt(r) >= r
  }
}
