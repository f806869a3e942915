/** d3's threaded, intrusive red-black tree, in place on linked nodes. */
module RedBlackHeap {
  import opened Basics
  import opened RedBlackSpec

  /** The six link fields every tree member carries: parent, colour (true is red), children, and the
      neighbours in order.  A circle event adds its key, the point (x, y). */
  class Node {
    var U: Node?
    var C: bool
    var L: Node?
    var R: Node?
    var P: Node?
    var N: Node?
    var x: real
    var y: real

    constructor ()
      ensures U == null && !C && L == null && R == null && P == null && N == null
      ensures x == 0.0 && y == 0.0
    {
      U, C, L, R, P, N := null, false, null, null, null, null;
      x, y := 0.0, 0.0;
    }
  }

  // ---------------------------------------------------------------- nodes of a shape

  ghost function Elements(t: Tree<Node>): set<Node> {
    match t
    case Leaf => {}
    case Bin(l, n, _, r) => Elements(l) + {n} + Elements(r)
  }

  ghost function Around(c: Ctx<Node>): set<Node> {
    match c
    case Top => {}
    case LeftOf(up, n, _, s) => Around(up) + {n} + Elements(s)
    case RightOf(up, s, n, _) => Around(up) + {n} + Elements(s)
  }

  ghost function Root(t: Tree<Node>): Node? { if t.Leaf? then null else t.node }

  ghost function Parent(c: Ctx<Node>, above: Node?): Node? { if c.Top? then above else c.node }

  /** No node occurs twice in t. */
  ghost predicate Apart(t: Tree<Node>) {
    match t
    case Leaf => true
    case Bin(l, n, _, r) =>
      n !in Elements(l) && n !in Elements(r) && Elements(l) !! Elements(r) && Apart(l) && Apart(r)
  }

  ghost predicate ApartAround(c: Ctx<Node>) {
    match c
    case Top => true
    case LeftOf(up, n, _, s) =>
      n !in Elements(s) && n !in Around(up) && Elements(s) !! Around(up) && Apart(s) && ApartAround(up)
    case RightOf(up, s, n, _) =>
      n !in Elements(s) && n !in Around(up) && Elements(s) !! Around(up) && Apart(s) && ApartAround(up)
  }

  ghost predicate Separate(c: Ctx<Node>, t: Tree<Node>) {
    Apart(t) && ApartAround(c) && Elements(t) !! Around(c)
  }

  lemma {:induction false} PlugElements(c: Ctx<Node>, t: Tree<Node>)
    ensures Elements(Plug(c, t)) == Elements(t) + Around(c)
    ensures Apart(Plug(c, t)) <==> Separate(c, t)
  {
    match c
    case Top =>
    case LeftOf(up, n, red, s) => PlugElements(up, Bin(t, n, red, s));
    case RightOf(up, s, n, red) => PlugElements(up, Bin(s, n, red, t));
  }

  lemma PlugBin(c: Ctx<Node>, t: Tree<Node>)
    ensures t.Bin? || !c.Top? ==> Plug(c, t).Bin?
    ensures !c.Top? ==> Plug(c, t).node in Around(c)
  {
  }

  lemma RotateApart(t: Tree<Node>)
    requires Apart(t) && t.Bin?
    ensures t.right.Bin? ==> Apart(RotateLeft(t)) && Elements(RotateLeft(t)) == Elements(t)
    ensures t.left.Bin? ==> Apart(RotateRight(t)) && Elements(RotateRight(t)) == Elements(t)
  {
    if t.right.Bin? {
      var q := t.right;
      assert Elements(q) == Elements(q.left) + {q.node} + Elements(q.right);
      assert Apart(q);
      assert Apart(Bin(t.left, t.node, t.red, q.left));
    }
    if t.left.Bin? {
      var q := t.left;
      assert Elements(q) == Elements(q.left) + {q.node} + Elements(q.right);
      assert Apart(q);
      assert Apart(Bin(q.right, t.node, t.red, t.right));
    }
  }

  ghost function Depth(c: Ctx<Node>): nat { if c.Top? then 0 else 1 + Depth(c.up) }

  // ---------------------------------------------------------------- links

  /** The fields of the nodes of t hold exactly the shape t, hung below `above`. */
  ghost predicate Linked(t: Tree<Node>, above: Node?)
    reads Elements(t)`U, Elements(t)`C, Elements(t)`L, Elements(t)`R
  {
    match t
    case Leaf => true
    case Bin(l, n, red, r) =>
      && n.U == above && n.C == red && n.L == Root(l) && n.R == Root(r)
      && Linked(l, n) && Linked(r, n)
  }

  /** The fields of the nodes around a focus hold exactly the context c, with `child` at the focus
      and `top` the outermost node, hung below `above`. */
  ghost predicate LinkedAround(c: Ctx<Node>, child: Node?, top: Node?, above: Node?)
    reads Around(c)`U, Around(c)`C, Around(c)`L, Around(c)`R
  {
    match c
    case Top => child == top
    case LeftOf(up, n, red, s) =>
      && n.U == Parent(up, above) && n.C == red && n.L == child && n.R == Root(s)
      && Linked(s, n) && LinkedAround(up, n, top, above)
    case RightOf(up, s, n, red) =>
      && n.U == Parent(up, above) && n.C == red && n.L == Root(s) && n.R == child
      && Linked(s, n) && LinkedAround(up, n, top, above)
  }

  lemma {:induction false} PlugLinked(c: Ctx<Node>, t: Tree<Node>, top: Node?, above: Node?)
    ensures (Linked(Plug(c, t), above) && top == Root(Plug(c, t)))
       <==> (Linked(t, Parent(c, above)) && LinkedAround(c, Root(t), top, above))
  {
    match c
    case Top =>
    case LeftOf(up, n, red, s) => PlugLinked(up, Bin(t, n, red, s), top, above);
    case RightOf(up, s, n, red) => PlugLinked(up, Bin(s, n, red, t), top, above);
  }

  lemma {:induction false} InOrderElements(t: Tree<Node>)
    ensures forall n :: n in Elements(t) <==> n in InOrder(t)
  {
    match t
    case Leaf =>
    case Bin(l, n, _, r) =>
      InOrderElements(l);
      InOrderElements(r);
  }

  /** The nodes of t are distinct as nodes of the tree exactly when they are as a sequence. */
  lemma {:induction false} ApartInOrder(t: Tree<Node>)
    ensures Apart(t) <==> Distinct(InOrder(t))
  {
    match t
    case Leaf =>
    case Bin(l, n, _, r) =>
      ApartInOrder(l);
      ApartInOrder(r);
      InOrderElements(l);
      InOrderElements(r);
      DistinctParts(InOrder(l), n, InOrder(r));
      DisjointMembers(Elements(l), InOrder(l), Elements(r), InOrder(r));
  }

  lemma DisjointMembers(A: set<Node>, a: seq<Node>, B: set<Node>, b: seq<Node>)
    requires (forall n :: n in A <==> n in a) && (forall n :: n in B <==> n in b)
    ensures A !! B <==> (forall x :: x in a ==> x !in b)
  {
    if A !! B {
      forall x | x in a ensures x !in b { assert x in A; }
    }
    if forall x :: x in a ==> x !in b {
      forall x | x in A ensures x !in B { assert x in a; }
    }
  }

  lemma DistinctParts(a: seq<Node>, n: Node, b: seq<Node>)
    ensures Distinct(a + [n] + b) <==>
              Distinct(a) && Distinct(b) && n !in a && n !in b && (forall x :: x in a ==> x !in b)
  {
    var s := a + [n] + b;
    assert s[..|a|] == a && s[|a|] == n && s[|a| + 1..] == b;
    if Distinct(s) {
      DistinctSplit(s, |a|);
    }
    if Distinct(a) && Distinct(b) && n !in a && n !in b && (forall x :: x in a ==> x !in b) {
      forall i, j | 0 <= i < j < |s| ensures s[i] != s[j] {
        if i < |a| {
          assert s[i] == a[i] && a[i] in a;
        } else if i > |a| {
          assert s[i] == b[i - |a| - 1];
        }
        if j > |a| {
          assert s[j] == b[j - |a| - 1] && b[j - |a| - 1] in b;
        }
      }
    }
  }

  lemma DistinctSplit(s: seq<Node>, k: nat)
    requires Distinct(s) && k < |s|
    ensures Distinct(s[..k]) && Distinct(s[k + 1..]) && s[k] !in s[..k] && s[k] !in s[k + 1..]
    ensures forall x :: x in s[..k] ==> x !in s[k + 1..]
  {
    forall x | x in s[..k] ensures x !in s[k + 1..] {
      var i :| 0 <= i < k && s[i] == x;
    }
  }

  ghost function OnlyChild(t: Tree<Node>): Tree<Node>
    requires t.Bin?
  {
    if t.left.Leaf? then t.right else t.left
  }

  lemma CutApart(c: Ctx<Node>, t: Tree<Node>)
    requires Separate(c, t) && t.Bin? && (t.left.Leaf? || t.right.Leaf?)
    ensures Separate(c, OnlyChild(t)) && Elements(OnlyChild(t)) + Around(c) == (Elements(t) + Around(c)) - {t.node}
    ensures t.node in Elements(t) && t.node !in Around(c) && Apart(t) && ApartAround(c) && Elements(t) !! Around(c)
  {
  }

  lemma PromoteApart(c: Ctx<Node>, t: Tree<Node>)
    requires Separate(c, t) && t.Bin? && t.right.Bin? && t.right.left.Leaf?
    ensures var t' := Bin(t.left, t.right.node, t.red, t.right.right);
            Separate(c, t') && Elements(t') + Around(c) == (Elements(t) + Around(c)) - {t.node}
    ensures t.node in Elements(t) && t.node !in Around(c) && Apart(t) && ApartAround(c) && Elements(t) !! Around(c)
  {
    assert Elements(t.right) == {t.right.node} + Elements(t.right.right) && Apart(t.right);
  }

  lemma SubstituteApart(c: Ctx<Node>, t: Tree<Node>, next: Node)
    requires Separate(c, t) && t.Bin? && next !in Elements(t) + Around(c)
    ensures var t' := Bin(t.left, next, t.red, t.right);
            Separate(c, t') && Elements(t') + Around(c) == (Elements(t) + Around(c)) - {t.node} + {next}
    ensures t.node in Elements(t) && t.node !in Around(c) && Apart(t) && ApartAround(c) && Elements(t) !! Around(c)
  {
  }

  lemma FirstNodeIn(t: Tree<Node>)
    requires t.Bin?
    ensures FirstNode(t) in Elements(t)
  {
  }

  /** A focus at node n. */
  lemma {:induction false} Locate(w: Tree<Node>, n: Node) returns (c: Ctx<Node>, t: Tree<Node>)
    requires n in Elements(w)
    ensures Plug(c, t) == w && t.Bin? && t.node == n
  {
    c, t := LocateBelow(Top, w, n);
  }

  lemma {:induction false} LocateBelow(up: Ctx<Node>, w: Tree<Node>, n: Node) returns (c: Ctx<Node>, t: Tree<Node>)
    requires n in Elements(w)
    ensures Plug(c, t) == Plug(up, w) && t.Bin? && t.node == n
    decreases w
  {
    if w.node == n {
      c, t := up, w;
    } else if n in Elements(w.left) {
      c, t := LocateBelow(LeftOf(up, w.node, w.red, w.right), w.left, n);
    } else {
      c, t := LocateBelow(RightOf(up, w.left, w.node, w.red), w.right, n);
    }
  }

  lemma PlaceFits(c: Ctx<Node>, w: Tree<Node>)
    requires Plug(c, Leaf) == w && RedBlack(w)
    ensures Before(c) + After(c) == InOrder(w) && Accepts(c, 0, false)
  {
    InOrderOfPlug(c, Leaf);
    assert InOrder<Node>(Leaf) == [];
    FocusBalanced(c, Leaf);
  }

  lemma SplitBehind(s: seq<Node>, b: seq<Node>, a: seq<Node>, after: Node?)
    requires s == b + a && Distinct(s) && after == if b == [] then null else b[|b| - 1]
    ensures forall i :: 0 <= i < |s| && s[i] == after ==> s[..i + 1] == b && s[i + 1..] == a
  {
    forall i | 0 <= i < |s| && s[i] == after ensures s[..i + 1] == b && s[i + 1..] == a {
      assert s[|b| - 1] == after;
      assert i == |b| - 1;
    }
  }

  /** Removing the root of t at c leaves the other nodes of s, in order. */
  lemma RemoveLaws(c: Ctx<Node>, t: Tree<Node>, s: seq<Node>) returns (i: nat)
    requires t.Bin? && s == InOrder(Plug(c, t)) && Distinct(s)
    ensures i < |s| && s[i] == t.node && InOrder(RemoveRoot(c, t)) == s[..i] + s[i + 1..]
    ensures forall j :: 0 <= j < |s| && s[j] == t.node ==> j == i
    ensures forall n :: n in s[..i] + s[i + 1..] <==> n in s && n != t.node
  {
    hide InOrder, Before, After, Plug, RemoveRoot;
    var b, l, r, a := Before(c), InOrder(t.left), InOrder(t.right), After(c);
    i := |b| + |l|;
    RemoveRootOrder(c, t);
    Cut(b, l, t.node, r, a);
    CutMembers(s, i);
  }

  lemma Cut(b: seq<Node>, l: seq<Node>, n: Node, r: seq<Node>, a: seq<Node>)
    ensures var s, i := b + (l + [n] + r) + a, |b| + |l|;
            s[i] == n && s[..i] == b + l && s[i + 1..] == r + a && b + (l + r) + a == s[..i] + s[i + 1..]
  {
    var s, i := b + (l + [n] + r) + a, |b| + |l|;
    assert s[..i] == b + l;
    assert s[i + 1..] == r + a;
  }

  lemma CutMembers(s: seq<Node>, i: nat)
    requires Distinct(s) && i < |s|
    ensures forall n :: n in s[..i] + s[i + 1..] <==> n in s && n != s[i]
  {
    assert s == s[..i] + [s[i]] + s[i + 1..];
    DistinctSplit(s, i);
  }

  lemma InsertLaws(c: Ctx<Node>, t: Tree<Node>)
    requires Accepts(c, 0, false) && t.Bin? && t == Bin(Leaf, t.node, true, Leaf)
    ensures InOrder(FixInsert(c, t)) == Before(c) + [t.node] + After(c)
    ensures RedBlack(FixInsert(c, t))
    ensures forall n :: n in Elements(FixInsert(c, t)) <==> n in Before(c) + [t.node] + After(c)
  {
    FixInsertOrder(c, t);
    InOrderOfPlug(c, t);
    assert InOrder(t) == [t.node];
    assert Balanced(t.left, 0);
    FixInsertRedBlack(c, t, 0);
    InOrderElements(FixInsert(c, t));
  }

  /** The node at position i of s, or null outside it. */
  ghost function Nth(s: seq<Node>, i: int): Node? { if 0 <= i < |s| then s[i] else null }

  /** s is the doubly linked list of its nodes through P and N. */
  ghost predicate Threaded(s: seq<Node>)
    reads s`P, s`N
  {
    forall i :: 0 <= i < |s| ==> s[i].P == Nth(s, i - 1) && s[i].N == Nth(s, i + 1)
  }

  class RedBlackTree {
    var root: Node?
    ghost var nodes: set<Node>
    ghost var shape: Tree<Node>
    ghost var order: seq<Node>

    /** The tree's invariant; `order` is its contents, as an in-order sequence. */
    ghost predicate Valid()
      reads this, nodes`U, nodes`C, nodes`L, nodes`R, nodes`P, nodes`N
    {
      && nodes == (set n | n in order) && Threaded(order)
      && Elements(shape) == nodes && Is(shape) && order == InOrder(shape) && RedBlack(shape)
    }

    lemma Invariant()
      requires Valid()
      ensures Is(shape) && Elements(shape) == nodes && order == InOrder(shape) && RedBlack(shape)
      ensures Threaded(order) && Distinct(order) && (forall n :: n in order <==> n in nodes)
    {
      ApartInOrder(shape);
    }

    lemma Validate()
      requires Is(shape) && order == InOrder(shape) && RedBlack(shape)
      requires Threaded(order) && (forall n :: n in order <==> n in nodes)
      ensures Valid()
    {
      InOrderElements(shape);
    }

    constructor ()
      ensures Valid() && order == []
    {
      root, nodes, shape, order := null, {}, Leaf, [];
    }

    /** The links spell out the tree w. */
    ghost predicate Is(w: Tree<Node>)
      reads `root, `nodes, Elements(w)`U, Elements(w)`C, Elements(w)`L, Elements(w)`R
    {
      Elements(w) == nodes && Apart(w) && Linked(w, null) && root == Root(w)
    }

    /** What the links are around any focus of the tree they spell out. */
    ghost predicate At(c: Ctx<Node>, t: Tree<Node>)
      reads `root, `nodes, Elements(t)`U, Elements(t)`C, Elements(t)`L, Elements(t)`R
      reads Around(c)`U, Around(c)`C, Around(c)`L, Around(c)`R
    {
      && Elements(t) + Around(c) == nodes
      && Separate(c, t) && Linked(t, Parent(c, null)) && LinkedAround(c, Root(t), root, null)
    }

    lemma Focus(c: Ctx<Node>, t: Tree<Node>)
      ensures Elements(Plug(c, t)) == Elements(t) + Around(c)
      ensures Is(Plug(c, t)) <==> At(c, t)
    {
      PlugLinked(c, t, root, null);
      PlugElements(c, t);
    }

    /** The fields next to a focus. */
    lemma Fields(c: Ctx<Node>, t: Tree<Node>)
      requires Is(Plug(c, t))
      ensures t.Bin? ==> t.node in nodes && t.node.U == Parent(c, null) && t.node.C == t.red
                         && t.node.L == Root(t.left) && t.node.R == Root(t.right)
      ensures !c.Top? ==> c.node in nodes && c.node.C == c.red && c.node.U == Parent(c.up, null)
      ensures c.LeftOf? ==> c.node.L == Root(t) && c.node.R == Root(c.sibling)
      ensures c.RightOf? ==> c.node.L == Root(c.sibling) && c.node.R == Root(t)
      ensures c.Top? <==> root == Root(t)
      ensures t.Bin? || !c.Top? ==> Plug(c, t).Bin? && root == Plug(c, t).node && root in nodes
      ensures !c.Top? && c.sibling.Bin? ==>
                c.sibling.node in nodes && c.sibling.node.C == c.sibling.red && c.sibling.node != Root(t)
                && c.sibling.node.L == Root(c.sibling.left) && c.sibling.node.R == Root(c.sibling.right)
    {
      Focus(c, t);
      PlugBin(c, t);
    }

    /** Put `child` where `node` hangs below `parent`, or at the root. */
    method Replace(node: Node, parent: Node?, child: Node?, ghost c: Ctx<Node>)
      requires ApartAround(c) && node !in Around(c) && parent == Parent(c, null)
      requires LinkedAround(c, node, root, null)
      modifies this`root, Around(c)`L, Around(c)`R
      ensures LinkedAround(c, child, root, null)
    {
      if parent != null {
        if parent.L == node { parent.L := child; } else { parent.R := child; }
      } else {
        root := child;
      }
    }

    method RotateLeft(node: Node, ghost c: Ctx<Node>, ghost t: Tree<Node>)
      requires t.Bin? && t.node == node && t.right.Bin? && Is(Plug(c, t))
      modifies this`root, nodes`U, nodes`L, nodes`R
      ensures Is(Plug(c, RedBlackSpec.RotateLeft(t)))
    {
      Focus(c, t);
      RotateApart(t);
      var p, q, parent := node, node.R, node.U;
      Replace(p, parent, q, c);
      RelinkLeft(p, q, parent, t);
      Focus(c, RedBlackSpec.RotateLeft(t));
    }

    static method RelinkLeft(p: Node, q: Node, parent: Node?, ghost t: Tree<Node>)
      requires t.Bin? && t.right.Bin? && t.node == p && t.right.node == q
      requires Apart(t) && Linked(t, parent)
      modifies Elements(t)`U, Elements(t)`L, Elements(t)`R
      ensures Linked(RedBlackSpec.RotateLeft(t), parent)
    {
      hide Linked, Elements, Apart;
      ApartParts(t);
      ApartParts(t.right);
      RootIn(t.right.left);
      LinkedParts(t, parent);
      LinkedParts(t.right, p);
      q.U := parent;
      p.U := q;
      p.R := q.L;
      if p.R != null { AdoptInner(p.R, p, t.right.left, t.left, t.right.right, q, p, q); }
      q.L := p;
      LinkedLeaf(t.right.left, p);
      LinkedNode(t.left, p, t.red, t.right.left, q);
      LinkedNode(Bin(t.left, p, t.red, t.right.left), q, t.right.red, t.right.right, parent);
    }

    method RotateRight(node: Node, ghost c: Ctx<Node>, ghost t: Tree<Node>)
      requires t.Bin? && t.node == node && t.left.Bin? && Is(Plug(c, t))
      modifies this`root, nodes`U, nodes`L, nodes`R
      ensures Is(Plug(c, RedBlackSpec.RotateRight(t)))
    {
      Focus(c, t);
      RotateApart(t);
      var p, q, parent := node, node.L, node.U;
      Replace(p, parent, q, c);
      RelinkRight(p, q, parent, t);
      Focus(c, RedBlackSpec.RotateRight(t));
    }

    static method RelinkRight(p: Node, q: Node, parent: Node?, ghost t: Tree<Node>)
      requires t.Bin? && t.left.Bin? && t.node == p && t.left.node == q
      requires Apart(t) && Linked(t, parent)
      modifies Elements(t)`U, Elements(t)`L, Elements(t)`R
      ensures Linked(RedBlackSpec.RotateRight(t), parent)
    {
      hide Linked, Elements, Apart;
      ApartParts(t);
      ApartParts(t.left);
      RootIn(t.left.right);
      LinkedParts(t, parent);
      LinkedParts(t.left, p);
      q.U := parent;
      p.U := q;
      p.L := q.R;
      if p.L != null { AdoptInner(p.L, p, t.left.right, t.right, t.left.left, q, p, q); }
      q.R := p;
      LinkedLeaf(t.left.right, p);
      LinkedNode(t.left.right, p, t.red, t.right, q);
      LinkedNode(t.left.left, q, t.left.red, Bin(t.left.right, p, t.red, t.right), parent);
    }

    /** Hang the subtree t below `parent`, two others staying where they are. */
    static method AdoptInner(child: Node, parent: Node, ghost t: Tree<Node>, ghost s: Tree<Node>, ghost r: Tree<Node>,
                             ghost above: Node, ghost above': Node, ghost above'': Node)
      requires Apart(t) && Linked(t, above) && Root(t) == child
      requires Linked(s, above') && Linked(r, above'') && Elements(t) !! Elements(s) && Elements(t) !! Elements(r)
      modifies child`U
      ensures Linked(t, parent) && Linked(s, above') && Linked(r, above'')
    {
      hide Linked, Elements, Apart;
      ApartParts(t);
      RootIn(t);
      LinkedParts(t, above);
      child.U := parent;
      LinkedNode(t.left, child, t.red, t.right, parent);
    }

    static lemma ApartParts(t: Tree<Node>)
      requires t.Bin? && Apart(t)
      ensures Apart(t.left) && Apart(t.right) && Elements(t.left) !! Elements(t.right)
      ensures t.node !in Elements(t.left) && t.node !in Elements(t.right)
      ensures Elements(t) == Elements(t.left) + {t.node} + Elements(t.right)
    {
    }

    static lemma RootIn(t: Tree<Node>)
      ensures t.Bin? ==> t.node in Elements(t)
    {
    }

    static lemma LinkedLeaf(t: Tree<Node>, above: Node?)
      ensures t.Leaf? ==> Linked(t, above)
    {
    }

    method SetColour(node: Node, red: bool, ghost c: Ctx<Node>, ghost t: Tree<Node>)
      requires Is(Plug(c, t)) && t.Bin? && t.node == node
      modifies node`C
      ensures Is(Plug(c, Paint(t, red)))
    {
      Focus(c, t);
      node.C := red;
      Focus(c, Paint(t, red));
    }

    // -------------------------------------------------------------- insertion

    /** The first node in order below `node`. */
    method First(node: Node, ghost c: Ctx<Node>, ghost t: Tree<Node>) returns (r: Node, ghost c': Ctx<Node>,
                 ghost t': Tree<Node>)
      requires Is(Plug(c, t)) && t.Bin? && t.node == node
      ensures Plug(c', t') == Plug(c, t) && Is(Plug(c', t')) && t'.Bin? && t'.left.Leaf? && t'.node == r
      ensures FirstPlace(c, t) == LeftOf(c', r, t'.red, t'.right)
      ensures r == FirstNode(t)
    {
      hide Is;
      Fields(c, t);
      r, c', t' := node, c, t;
      while r.L != null
        invariant Is(Plug(c', t')) && Plug(c', t') == Plug(c, t)
        invariant t'.Bin? && t'.node == r && r.L == Root(t'.left)
        invariant FirstPlace(c', t') == FirstPlace(c, t)
        decreases t'
      {
        assert Plug(LeftOf(c', r, t'.red, t'.right), t'.left) == Plug(c', t');
        r, c', t' := r.L, LeftOf(c', r, t'.red, t'.right), t'.left;
        Fields(c', t');
      }
      FirstNodeFocus(c, t);
    }

    /** The loop invariant of `insert`: a red subtree sits where a black one of its height belongs. */
    ghost predicate Rising(c: Ctx<Node>, t: Tree<Node>, h: nat) {
      IsRed(t) && Balanced(t, h) && Accepts(c, h, false)
    }

    /** One round of the loop of `insert` when the parent is a left child. */
    method ClimbLeft(node: Node, parent: Node, ghost c: Ctx<Node>, ghost t: Tree<Node>, ghost h: nat)
      returns (after: Node, ghost c': Ctx<Node>, ghost t': Tree<Node>, ghost h': nat)
      requires Is(Plug(c, t)) && Rising(c, t, h) && t.node == node && !c.Top? && c.node == parent && c.red
      requires c.up.LeftOf?
      modifies this`root, nodes`U, nodes`C, nodes`L, nodes`R
      ensures Is(Plug(c', t')) && Rising(c', t', h') && t'.node == after
      ensures FixInsert(c', t') == FixInsert(c, t) && Depth(c') < Depth(c)
    {
      hide Is;
      ghost var g := c.up;
      ghost var p := if c.LeftOf? then Bin(t, parent, true, c.sibling) else Bin(c.sibling, parent, true, t);
      ghost var u := g.sibling;
      Fields(c, t);
      Fields(g, p);
      var grandpa := parent.U;
      assert Accepts(g, h, true);
      assert g == LeftOf(g.up, grandpa, false, u) && Depth(c) == 2 + Depth(g.up);
      var uncle := grandpa.R;
      if uncle != null && uncle.C {
        SetColour(parent, false, g, p);
        SetColour(uncle, false, RightOf(g.up, Paint(p, false), grandpa, false), u);
        SetColour(grandpa, true, g.up, Bin(Paint(p, false), grandpa, false, Paint(u, false)));
        after := grandpa;
        c', t', h' := g.up, Bin(Paint(p, false), grandpa, true, Paint(u, false)), h + 1;
        assert Rising(c', t', h') by { assert Balanced(Paint(p, false), h + 1) && Balanced(Paint(u, false), h + 1); }
      } else {
        var top := parent;
        c', t', h' := LeftOf(g.up, parent, false, Bin(c.sibling, grandpa, true, u)), t, h;
        after := node;
        if node == parent.R {
          RotateLeft(parent, g, p);
          p := RedBlackSpec.RotateLeft(p);
          after := parent;
          top := node;
          c', t' := LeftOf(g.up, node, false, Bin(t.right, grandpa, true, u)), Bin(c.sibling, parent, true, t.left);
        }
        SetColour(top, false, g, p);
        SetColour(grandpa, true, g.up, Bin(Paint(p, false), grandpa, false, u));
        RotateRight(grandpa, g.up, Bin(Paint(p, false), grandpa, true, u));
        assert Rising(c', t', h') by { assert Balanced(c'.sibling, h) && Balanced(t', h); }
      }
    }

    /** One round of the loop of `insert` when the parent is a right child. */
    method ClimbRight(node: Node, parent: Node, ghost c: Ctx<Node>, ghost t: Tree<Node>, ghost h: nat)
      returns (after: Node, ghost c': Ctx<Node>, ghost t': Tree<Node>, ghost h': nat)
      requires Is(Plug(c, t)) && Rising(c, t, h) && t.node == node && !c.Top? && c.node == parent && c.red
      requires c.up.RightOf?
      modifies this`root, nodes`U, nodes`C, nodes`L, nodes`R
      ensures Is(Plug(c', t')) && Rising(c', t', h') && t'.node == after
      ensures FixInsert(c', t') == FixInsert(c, t) && Depth(c') < Depth(c)
    {
      hide Is;
      ghost var g := c.up;
      ghost var p := if c.LeftOf? then Bin(t, parent, true, c.sibling) else Bin(c.sibling, parent, true, t);
      ghost var u := g.sibling;
      Fields(c, t);
      Fields(g, p);
      var grandpa := parent.U;
      assert Accepts(g, h, true);
      assert g == RightOf(g.up, u, grandpa, false) && Depth(c) == 2 + Depth(g.up);
      var uncle := grandpa.L;
      if uncle != null && uncle.C {
        SetColour(parent, false, g, p);
        SetColour(uncle, false, LeftOf(g.up, grandpa, false, Paint(p, false)), u);
        SetColour(grandpa, true, g.up, Bin(Paint(u, false), grandpa, false, Paint(p, false)));
        after := grandpa;
        c', t', h' := g.up, Bin(Paint(u, false), grandpa, true, Paint(p, false)), h + 1;
        assert Rising(c', t', h') by { assert Balanced(Paint(p, false), h + 1) && Balanced(Paint(u, false), h + 1); }
      } else {
        var top := parent;
        c', t', h' := RightOf(g.up, Bin(u, grandpa, true, c.sibling), parent, false), t, h;
        after := node;
        if node == parent.L {
          RotateRight(parent, g, p);
          p := RedBlackSpec.RotateRight(p);
          after := parent;
          top := node;
          c', t' := RightOf(g.up, Bin(u, grandpa, true, t.left), node, false), Bin(t.right, parent, true, c.sibling);
        }
        SetColour(top, false, g, p);
        SetColour(grandpa, true, g.up, Bin(u, grandpa, false, Paint(p, false)));
        RotateLeft(grandpa, g.up, Bin(u, grandpa, true, Paint(p, false)));
        assert Rising(c', t', h') by { assert Balanced(c'.sibling, h) && Balanced(t', h); }
      }
    }

    /** The loop of `insert`: recolour and rotate upwards from a red node. */
    method Climb(node: Node, ghost c0: Ctx<Node>)
      requires Is(Plug(c0, Bin(Leaf, node, true, Leaf))) && Accepts(c0, 0, false)
      modifies this`root, nodes`U, nodes`C, nodes`L, nodes`R
      ensures Is(FixInsert(c0, Bin(Leaf, node, true, Leaf)))
    {
      hide Is;
      ghost var c, t, h: nat := c0, Bin(Leaf, node, true, Leaf), 0;
      assert Balanced(t.left, 0);
      Fields(c, t);
      var after, parent := node, node.U;
      while parent != null && parent.C
        invariant Is(Plug(c, t)) && Rising(c, t, h) && t.node == after && parent == Parent(c, null)
        invariant !c.Top? ==> parent.C == c.red
        invariant FixInsert(c, t) == FixInsert(c0, Bin(Leaf, node, true, Leaf))
        decreases Depth(c)
      {
        Fields(c, t);
        assert Accepts(c.up, h, true);
        Fields(c.up, if c.LeftOf? then Bin(t, parent, true, c.sibling) else Bin(c.sibling, parent, true, t));
        var grandpa := parent.U;
        if parent == grandpa.L {
          after, c, t, h := ClimbLeft(after, parent, c, t, h);
        } else {
          after, c, t, h := ClimbRight(after, parent, c, t, h);
        }
        Fields(c, t);
        parent := after.U;
      }
      Fields(c, t);
      RootBlack(Plug(c, t));
    }

    /** `this._.C = false`. */
    method RootBlack(ghost w: Tree<Node>)
      requires Is(w) && w.Bin?
      modifies root`C
      ensures Is(Paint(w, false))
    {
      SetColour(root, false, Top, w);
    }

    /** The list part of `insert`: thread a node in behind position i - 1. */
    static method Thread(before: Node?, after: Node?, node: Node, ghost s: seq<Node>, ghost i: nat)
      requires Threaded(s) && Distinct(s) && node !in s && i <= |s|
      requires before == Nth(s, i - 1) && after == Nth(s, i)
      modifies node`P, node`N, s`P, s`N
      ensures Threaded(s[..i] + [node] + s[i..])
    {
      hide Threaded, Distinct;
      forall j | 0 <= j < |s| ensures s[j].P == Nth(s, j - 1) && s[j].N == Nth(s, j + 1) { ThreadLinks(s, j); }
      NoOther(s, i);
      NoOther(s, i - 1);
      node.P := before;
      node.N := after;
      if after != null { after.P := node; }
      if before != null { before.N := node; }
      ThreadedBetween(s, i, node);
    }

    static lemma NoOther(s: seq<Node>, i: int)
      requires Distinct(s)
      ensures 0 <= i < |s| ==> forall j :: 0 <= j < |s| && j != i ==> s[j] != s[i]
    {
    }

    static lemma ThreadedBetween(s: seq<Node>, i: nat, node: Node)
      requires i <= |s| && node.P == Nth(s, i - 1) && node.N == Nth(s, i)
      requires forall j {:trigger s[j]} :: 0 <= j < |s| ==>
        s[j].P == (if j == i then node else Nth(s, j - 1)) && s[j].N == (if j == i - 1 then node else Nth(s, j + 1))
      ensures Threaded(s[..i] + [node] + s[i..])
    {
      var s' := s[..i] + [node] + s[i..];
      forall j | 0 <= j < |s'|
        ensures s'[j].P == Nth(s', j - 1) && s'[j].N == Nth(s', j + 1)
      {
        if j < i {
          assert s'[j] == s[j];
        } else if j > i {
          assert s'[j] == s[j - 1];
        }
      }
    }

    /** Link `node` into the empty place c, as a red leaf. */
    method Seat(node: Node, parent: Node?, left: bool, ghost c: Ctx<Node>)
      requires Is(Plug(c, Leaf)) && node !in nodes && parent == Parent(c, null) && left == c.LeftOf?
      modifies this`root, this`nodes, node`U, node`C, node`L, node`R, nodes`L, nodes`R
      ensures nodes == old(nodes) + {node} && Is(Plug(c, Bin(Leaf, node, true, Leaf)))
    {
      hide Is, Linked, LinkedAround, ApartAround;
      Focus(c, Leaf);
      assert At(c, Leaf);
      Attach(node, parent, left, c);
      NewLeaf(node, parent);
      nodes := nodes + {node};
      assert Elements(Bin(Leaf, node, true, Leaf)) == {node} && Apart(Bin(Leaf, node, true, Leaf));
      assert At(c, Bin(Leaf, node, true, Leaf));
      Focus(c, Bin(Leaf, node, true, Leaf));
    }

    static method NewLeaf(node: Node, parent: Node?)
      modifies node`U, node`C, node`L, node`R
      ensures Linked(Bin(Leaf, node, true, Leaf), parent)
    {
      node.L, node.R := null, null;
      node.U := parent;
      node.C := true;
    }

    method Attach(node: Node, parent: Node?, left: bool, ghost c: Ctx<Node>)
      requires ApartAround(c) && parent == Parent(c, null) && left == c.LeftOf?
      requires LinkedAround(c, null, root, null)
      modifies this`root, Around(c)`L, Around(c)`R
      ensures LinkedAround(c, node, root, null)
    {
      if parent == null {
        root := node;
      } else if left {
        parent.L := node;
      } else {
        parent.R := node;
      }
    }

    /** Thread `node` into the list behind `after`, and find the empty place that comes next. */
    method SlotAfter(after: Node, node: Node) returns (parent: Node, left: bool, ghost c: Ctx<Node>)
      requires Valid() && node !in nodes && after in nodes
      modifies node`P, node`N, nodes`P, nodes`N
      ensures Is(shape) && Plug(c, Leaf) == shape && parent == Parent(c, null) && left == c.LeftOf?
      ensures Threaded(Before(c) + [node] + After(c))
      ensures Before(c) != [] && Before(c)[|Before(c)| - 1] == after
    {
      hide Is, Valid, Threaded, RedBlack, InOrder, Elements;
      Invariant();
      ghost var d, t := Locate(shape, after);
      FirstPlacePlug(RightOf(d, t.left, after, t.red), t.right);
      c := FirstPlace(RightOf(d, t.left, after, t.red), t.right);
      Fields(d, t);
      Fields(RightOf(d, t.left, after, t.red), t.right);
      parent, left := after, after.R != null;
      if after.R != null {
        ghost var d', t';
        parent, d', t' := First(after.R, RightOf(d, t.left, after, t.red), t.right);
      }
      ThreadAt(after, after.N, node, c);
    }

    /** The same before the first node; the empty tree has only one place. */
    method SlotFirst(node: Node) returns (parent: Node?, left: bool, ghost c: Ctx<Node>)
      requires Valid() && node !in nodes
      modifies node`P, node`N, nodes`P, nodes`N
      ensures Is(shape) && Plug(c, Leaf) == shape && parent == Parent(c, null) && left == c.LeftOf?
      ensures Threaded(Before(c) + [node] + After(c)) && Before(c) == []
    {
      hide Is, Valid, Threaded, RedBlack, Elements;
      Invariant();
      FirstPlacePlug(Top, shape);
      c := FirstPlace(Top, shape);
      Fields(Top, shape);
      parent, left := null, root != null;
      if root != null {
        ghost var d', t';
        parent, d', t' := First(root, Top, shape);
        assert After(c) == [parent] + InOrder(t'.right) + After(d');
      }
      ThreadAt(null, parent, node, c);
    }

    /** The list part of `insert` for the place c of this tree. */
    method ThreadAt(before: Node?, after: Node?, node: Node, ghost c: Ctx<Node>)
      requires Valid() && node !in nodes && Plug(c, Leaf) == shape
      requires before == Nth(Before(c), |Before(c)| - 1)
      requires if before == null then after == Nth(After(c), 0) else after == before.N
      modifies node`P, node`N, nodes`P, nodes`N
      ensures Threaded(Before(c) + [node] + After(c))
    {
      hide Is, Valid, Threaded, RedBlack, InOrder, Elements, Plug, Before, After, Distinct;
      Invariant();
      PlaceFits(c, shape);
      ghost var i := |Before(c)|;
      assert order[..i] == Before(c) && order[i..] == After(c);
      assert i > 0 ==> before == order[i - 1];
      if before != null { ThreadLinks(order, i - 1); }
      Thread(before, after, node, order, i);
    }

    static lemma ThreadLinks(s: seq<Node>, i: nat)
      requires Threaded(s) && i < |s|
      ensures s[i].P == Nth(s, i - 1) && s[i].N == Nth(s, i + 1)
    {
    }

    /** The tree part of `insert`, once `node` is threaded in. */
    method Grow(node: Node, parent: Node?, left: bool, ghost c: Ctx<Node>, ghost s: seq<Node>)
      requires s == Before(c) + [node] + After(c)
      requires Is(shape) && RedBlack(shape) && Plug(c, Leaf) == shape && node !in nodes
      requires parent == Parent(c, null) && left == c.LeftOf?
      requires Threaded(s) && (forall n :: n in s <==> n in nodes || n == node)
      modifies this, node`U, node`C, node`L, node`R, nodes`U, nodes`C, nodes`L, nodes`R
      ensures Valid() && nodes == old(nodes) + {node} && order == s
    {
      hide Is, Valid, FixInsert, InOrder, RedBlack, Elements, Accepts, Before, After, Plug, Parent, Threaded;
      PlaceFits(c, shape);
      Seat(node, parent, left, c);
      Climb(node, c);
      shape := FixInsert(c, Bin(Leaf, node, true, Leaf));
      order := s;
      InsertLaws(c, Bin(Leaf, node, true, Leaf));
      assert Threaded(order);
      Validate();
    }

    /** Put `node` into the tree directly behind `after`, or first when `after` is null. */
    method Insert(after: Node?, node: Node)
      requires Valid() && node !in nodes && (after != null ==> after in nodes)
      modifies this, node`U, node`C, node`L, node`R, node`P, node`N
      modifies nodes`U, nodes`C, nodes`L, nodes`R, nodes`P, nodes`N
      ensures Valid() && nodes == old(nodes) + {node}
      ensures after == null ==> order == [node] + old(order)
      ensures forall i :: 0 <= i < |old(order)| && old(order)[i] == after ==>
                order == old(order)[..i + 1] + [node] + old(order)[i + 1..]
    {
      hide Is, Valid, FixInsert, InOrder, RedBlack, Elements, Threaded, Before, After, Plug, Distinct;
      Invariant();
      var parent: Node?, left;
      ghost var c;
      if after != null {
        parent, left, c := SlotAfter(after, node);
      } else {
        parent, left, c := SlotFirst(node);
      }
      PlaceFits(c, shape);
      ghost var s := Before(c) + [node] + After(c);
      assert order == Before(c) + After(c);
      assert forall n :: n in s <==> n in order || n == node;
      SplitBehind(order, Before(c), After(c), after);
      Grow(node, parent, left, c, s);
      assert order == s;
    }

    // -------------------------------------------------------------- removal

    static method RelinkOnly(node: Node, child: Node?, parent: Node?, ghost t: Tree<Node>)
      requires t.Bin? && t.node == node && (t.left.Leaf? || t.right.Leaf?) && child == Root(OnlyChild(t))
      requires Apart(t) && Linked(t, parent)
      modifies Elements(t)`U
      ensures Linked(OnlyChild(t), parent)
    {
      ghost var s := OnlyChild(t);
      if s.Bin? {
        assert Linked(s, node) && Apart(s) && Linked(s.left, child) && Linked(s.right, child);
        assert Elements(s) == Elements(s.left) + {child} + Elements(s.right);
      }
      if child != null { child.U := parent; }
    }

    /** Cut out a node with at most one child. */
    method CutOut(node: Node, child: Node?, ghost c: Ctx<Node>, ghost t: Tree<Node>)
      requires Is(Plug(c, t)) && t.Bin? && t.node == node && (t.left.Leaf? || t.right.Leaf?)
      requires child == Root(OnlyChild(t))
      modifies this`root, this`nodes, nodes`U, nodes`L, nodes`R
      ensures nodes == old(nodes) - {node} && Is(Plug(c, OnlyChild(t)))
    {
      hide Is, Separate, Linked, LinkedAround, Elements, Apart, ApartAround;
      var parent := node.U;
      Focus(c, t);
      CutApart(c, t);
      LinkedParts(t, Parent(c, null));
      Replace(node, parent, child, c);
      RelinkOnly(node, child, parent, t);
      nodes := nodes - {node};
      Focus(c, OnlyChild(t));
    }

    static lemma LinkedParts(t: Tree<Node>, above: Node?)
      requires t.Bin? && Linked(t, above)
      ensures t.node.U == above && t.node.C == t.red && t.node.L == Root(t.left) && t.node.R == Root(t.right)
      ensures Linked(t.left, t.node) && Linked(t.right, t.node)
    {
    }

    /** Put `next`, the first node of the right subtree and its root, in the place of `node`. */
    method Promote(node: Node, next: Node, ghost c: Ctx<Node>, ghost t: Tree<Node>)
      requires Is(Plug(c, t)) && t.Bin? && t.node == node && t.left.Bin?
      requires t.right.Bin? && t.right.node == next && t.right.left.Leaf?
      modifies this`root, this`nodes, nodes`U, nodes`C, nodes`L, nodes`R
      ensures nodes == old(nodes) - {node} && Is(Plug(c, Bin(t.left, next, t.red, t.right.right)))
    {
      hide Is, Separate, Linked, LinkedAround, Elements, Apart, ApartAround;
      var parent := node.U;
      Focus(c, t);
      PromoteApart(c, t);
      LinkedParts(t, Parent(c, null));
      Replace(node, parent, next, c);
      RelinkNext(node, next, parent, t);
      nodes := nodes - {node};
      Focus(c, Bin(t.left, next, t.red, t.right.right));
    }

    static method RelinkNext(node: Node, next: Node, parent: Node?, ghost t: Tree<Node>)
      requires t.Bin? && t.node == node && t.left.Bin? && t.right.Bin? && t.right.node == next && t.right.left.Leaf?
      requires Apart(t) && Linked(t, parent)
      modifies Elements(t)`U, Elements(t)`C, Elements(t)`L
      ensures Linked(Bin(t.left, next, t.red, t.right.right), parent)
    {
      hide Linked, Elements, Apart;
      ApartParts(t);
      ApartParts(t.right);
      RootIn(t.left);
      LinkedParts(t, parent);
      LinkedParts(t.right, node);
      next.C := node.C;
      next.L := node.L;
      AdoptInner(node.L, next, t.left, t.right.right, t.right.right, node, next, next);
      next.U := parent;
      LinkedNode(t.left, next, t.red, t.right.right, parent);
    }

    /** Put `next`, a node outside the tree, in the place of `node`. */
    method Substitute(node: Node, next: Node, ghost c: Ctx<Node>, ghost t: Tree<Node>)
      requires Is(Plug(c, t)) && t.Bin? && t.node == node && t.left.Bin? && t.right.Bin? && next !in nodes
      modifies this`root, this`nodes, nodes`U, nodes`L, nodes`R, next`U, next`C, next`L, next`R
      ensures nodes == old(nodes) - {node} + {next} && Is(Plug(c, Bin(t.left, next, t.red, t.right)))
    {
      hide Is, Separate, Linked, LinkedAround, Elements, Apart, ApartAround;
      var parent := node.U;
      Focus(c, t);
      SubstituteApart(c, t, next);
      LinkedParts(t, Parent(c, null));
      Replace(node, parent, next, c);
      RelinkOther(node, next, parent, t);
      nodes := nodes - {node} + {next};
      Focus(c, Bin(t.left, next, t.red, t.right));
    }

    static method RelinkOther(node: Node, next: Node, parent: Node?, ghost t: Tree<Node>)
      requires t.Bin? && t.node == node && t.left.Bin? && t.right.Bin? && next !in Elements(t)
      requires Apart(t) && Linked(t, parent)
      modifies Elements(t)`U, next`U, next`C, next`L, next`R
      ensures Linked(Bin(t.left, next, t.red, t.right), parent)
    {
      hide Linked;
      LinkedParts(t, parent);
      next.C, next.L, next.R, next.U := node.C, node.L, node.R, parent;
      Adopt(next.L, next, t.left, t.right, node, node);
      Adopt(next.R, next, t.right, t.left, node, next);
      LinkedNode(t.left, next, t.red, t.right, parent);
    }

    /** Hang the subtree t below `parent`, its sibling s staying where it is. */
    static method Adopt(child: Node, parent: Node, ghost t: Tree<Node>, ghost s: Tree<Node>, ghost above: Node,
                        ghost above': Node)
      requires t.Bin? && child == t.node && Apart(t) && Linked(t, above)
      requires Linked(s, above') && child !in Elements(s)
      modifies child`U
      ensures Linked(t, parent) && Linked(s, above')
    {
      assert Linked(t.left, child) && Linked(t.right, child);
      child.U := parent;
    }

    static lemma LinkedNode(l: Tree<Node>, n: Node, red: bool, r: Tree<Node>, above: Node?)
      requires n.U == above && n.C == red && n.L == Root(l) && n.R == Root(r) && Linked(l, n) && Linked(r, n)
      ensures Linked(Bin(l, n, red, r), above)
    {
    }

    /** The sibling of a short left child gets a red right child, if it has only a red left one. */
    method TurnLeft(sibling: Node, parent: Node, ghost up: Ctx<Node>, ghost t: Tree<Node>, ghost pr: bool,
                    ghost s: Tree<Node>)
      returns (sibling': Node, ghost s': Tree<Node>)
      requires Is(Plug(up, Bin(t, parent, pr, s)))
      requires s.Bin? && s.node == sibling && !s.red && (IsRed(s.left) || IsRed(s.right))
      modifies this`root, nodes`U, nodes`C, nodes`L, nodes`R
      ensures Is(Plug(up, Bin(t, parent, pr, s')))
      ensures s'.Bin? && s'.node == sibling' && IsRed(s'.right)
      ensures SettleLeft(up, t, parent, pr, s)
                == Paint(Plug(up, Bin(Bin(t, parent, false, s'.left), sibling', pr, Paint(s'.right, false))), false)
    {
      hide Is;
      ghost var c := RightOf(up, t, parent, pr);
      assert Plug(c, s) == Plug(up, Bin(t, parent, pr, s));
      Fields(c, s);
      Fields(RightOf(c, s.left, s.node, s.red), s.right);
      sibling', s' := sibling, s;
      if sibling.R == null || !sibling.R.C {
        SetColour(sibling.L, false, LeftOf(c, sibling, false, s.right), s.left);
        s' := Bin(Paint(s.left, false), sibling, false, s.right);
        SetColour(sibling, true, c, s');
        RotateRight(sibling, c, Paint(s', true));
        s' := RedBlackSpec.RotateRight(Paint(s', true));
        assert Plug(c, s') == Plug(up, Bin(t, parent, pr, s'));
        Fields(LeftOf(up, parent, pr, s'), t);
        sibling' := parent.R;
      }
    }

    /** The rotations that end a removal when the short side is the left child of `parent` and its
        sibling has a red child. */
    method BorrowLeft(sibling: Node, parent: Node, ghost up: Ctx<Node>, ghost t: Tree<Node>, ghost pr: bool,
                      ghost s: Tree<Node>)
      returns (ghost w: Tree<Node>)
      requires Is(Plug(up, Bin(t, parent, pr, s)))
      requires s.Bin? && s.node == sibling && !s.red && (IsRed(s.left) || IsRed(s.right))
      modifies this`root, nodes`U, nodes`C, nodes`L, nodes`R
      ensures Is(w) && w.Bin? && Paint(w, false) == SettleLeft(up, t, parent, pr, s)
    {
      hide Is, SettleLeft;
      ghost var s';
      var q;
      q, s' := TurnLeft(sibling, parent, up, t, pr, s);
      ghost var c := RightOf(up, t, parent, pr);
      assert Plug(c, s') == Plug(up, Bin(t, parent, pr, s'));
      Fields(c, s');
      Fields(RightOf(c, s'.left, q, s'.red), s'.right);
      SetColour(q, parent.C, c, s');
      SetColour(parent, false, up, Bin(t, parent, pr, Paint(s', pr)));
      ghost var d := RightOf(RightOf(up, t, parent, false), s'.left, q, pr);
      assert Plug(d, s'.right) == Plug(up, Bin(t, parent, false, Paint(s', pr)));
      SetColour(q.R, false, d, s'.right);
      ghost var x := Bin(t, parent, false, Bin(s'.left, q, pr, Paint(s'.right, false)));
      assert Plug(d, Paint(s'.right, false)) == Plug(up, x);
      RotateLeft(parent, up, x);
      w := Plug(up, RedBlackSpec.RotateLeft(x));
      PlugBin(up, RedBlackSpec.RotateLeft(x));
    }

    /** The sibling of a short right child gets a red left child, if it has only a red right one. */
    method TurnRight(sibling: Node, parent: Node, ghost up: Ctx<Node>, ghost t: Tree<Node>, ghost pr: bool,
                     ghost s: Tree<Node>)
      returns (sibling': Node, ghost s': Tree<Node>)
      requires Is(Plug(up, Bin(s, parent, pr, t)))
      requires s.Bin? && s.node == sibling && !s.red && (IsRed(s.left) || IsRed(s.right))
      modifies this`root, nodes`U, nodes`C, nodes`L, nodes`R
      ensures Is(Plug(up, Bin(s', parent, pr, t)))
      ensures s'.Bin? && s'.node == sibling' && IsRed(s'.left)
      ensures SettleRight(up, s, parent, pr, t)
                == Paint(Plug(up, Bin(Paint(s'.left, false), sibling', pr, Bin(s'.right, parent, false, t))), false)
    {
      hide Is;
      ghost var c := LeftOf(up, parent, pr, t);
      assert Plug(c, s) == Plug(up, Bin(s, parent, pr, t));
      Fields(c, s);
      Fields(LeftOf(c, s.node, s.red, s.right), s.left);
      sibling', s' := sibling, s;
      if sibling.L == null || !sibling.L.C {
        SetColour(sibling.R, false, RightOf(c, s.left, sibling, false), s.right);
        s' := Bin(s.left, sibling, false, Paint(s.right, false));
        SetColour(sibling, true, c, s');
        RotateLeft(sibling, c, Paint(s', true));
        s' := RedBlackSpec.RotateLeft(Paint(s', true));
        assert Plug(c, s') == Plug(up, Bin(s', parent, pr, t));
        Fields(RightOf(up, s', parent, pr), t);
        sibling' := parent.L;
      }
    }

    /** The rotations that end a removal when the short side is the right child of `parent` and its
        sibling has a red child. */
    method BorrowRight(sibling: Node, parent: Node, ghost up: Ctx<Node>, ghost t: Tree<Node>, ghost pr: bool,
                       ghost s: Tree<Node>)
      returns (ghost w: Tree<Node>)
      requires Is(Plug(up, Bin(s, parent, pr, t)))
      requires s.Bin? && s.node == sibling && !s.red && (IsRed(s.left) || IsRed(s.right))
      modifies this`root, nodes`U, nodes`C, nodes`L, nodes`R
      ensures Is(w) && w.Bin? && Paint(w, false) == SettleRight(up, s, parent, pr, t)
    {
      hide Is, SettleRight;
      ghost var s';
      var q;
      q, s' := TurnRight(sibling, parent, up, t, pr, s);
      ghost var c := LeftOf(up, parent, pr, t);
      assert Plug(c, s') == Plug(up, Bin(s', parent, pr, t));
      Fields(c, s');
      Fields(LeftOf(c, q, s'.red, s'.right), s'.left);
      SetColour(q, parent.C, c, s');
      SetColour(parent, false, up, Bin(Paint(s', pr), parent, pr, t));
      ghost var d := LeftOf(LeftOf(up, parent, false, t), q, pr, s'.right);
      assert Plug(d, s'.left) == Plug(up, Bin(Paint(s', pr), parent, false, t));
      SetColour(q.L, false, d, s'.left);
      ghost var x := Bin(Bin(Paint(s'.left, false), q, pr, s'.right), parent, false, t);
      assert Plug(d, Paint(s'.left, false)) == Plug(up, x);
      RotateRight(parent, up, x);
      w := Plug(up, RedBlackSpec.RotateRight(x));
      PlugBin(up, RedBlackSpec.RotateRight(x));
    }

    /** The loop invariant of `remove`: the subtree at the focus is one black node too low. */
    ghost predicate Short(c: Ctx<Node>, t: Tree<Node>, h: nat) {
      !IsRed(t) && Balanced(t, h) && Accepts(c, h + 1, false)
    }

    /** A short left child with a red sibling gets a black one. */
    method BlackenLeft(sibling: Node, parent: Node, ghost c: Ctx<Node>, ghost t: Tree<Node>, ghost h: nat)
      returns (sibling': Node, ghost c': Ctx<Node>)
      requires Is(Plug(c, t)) && Short(c, t, h) && c.LeftOf? && c.node == parent && c.sibling.Bin?
                 && c.sibling.node == sibling
      modifies this`root, nodes`U, nodes`C, nodes`L, nodes`R
      ensures Is(Plug(c', t)) && c'.LeftOf? && c'.node == parent
      ensures c'.sibling.Bin? && c'.sibling.node == sibling' && !c'.sibling.red && Balanced(c'.sibling, h + 1)
      ensures if c.sibling.red then c'.red && FixRemove(c, t) == SettleLeft(c'.up, t, parent, true, c'.sibling)
                else c' == c
    {
      hide Is;
      ghost var up, s := c.up, c.sibling;
      Fields(c, t);
      sibling', c' := sibling, c;
      if sibling.C {
        ghost var x := Bin(t, parent, true, Paint(s, false));
        SetColour(sibling, false, RightOf(up, t, parent, c.red), s);
        SetColour(parent, true, up, Bin(t, parent, c.red, Paint(s, false)));
        assert Balanced(s.left, h + 1) && Balanced(s.right, h + 1);
        RotateLeft(parent, up, x);
        c' := LeftOf(LeftOf(up, sibling, false, s.right), parent, true, s.left);
        assert Plug(c', t) == Plug(up, RedBlackSpec.RotateLeft(x));
        Fields(c', t);
        sibling' := parent.R;
      }
    }

    /** One round of the loop of `remove` when the short side is the left child. */
    method RoundLeft(node: Node?, parent: Node, ghost c: Ctx<Node>, ghost t: Tree<Node>, ghost h: nat)
      returns (node': Node?, parent': Node?, done: bool, ghost c': Ctx<Node>, ghost t': Tree<Node>)
      requires Is(Plug(c, t)) && Short(c, t, h) && node == Root(t) && c.LeftOf? && c.node == parent
      modifies this`root, nodes`U, nodes`C, nodes`L, nodes`R
      ensures Is(Plug(c', t')) && node' == Root(t') && parent' == Parent(c', null)
      ensures done ==> t'.Bin? && FixRemove(c, t) == Plug(c', Paint(t', false))
      ensures !done ==> Short(c', t', h + 1) && FixRemove(c', t') == FixRemove(c, t) && Depth(c') < Depth(c)
    {
      hide Is;
      Fields(c, t);
      var sibling := parent.R;
      ghost var d;
      sibling, d := BlackenLeft(sibling, parent, c, t, h);
      ghost var s := d.sibling;
      Fields(d, t);
      Fields(RightOf(RightOf(d.up, t, parent, d.red), s.left, sibling, false), s.right);
      if (sibling.L != null && sibling.L.C) || (sibling.R != null && sibling.R.C) {
        ghost var w := BorrowLeft(sibling, parent, d.up, t, d.red, s);
        c', t' := Top, w;
        Fields(Top, w);
        node', parent', done := root, null, true;
      } else {
        SetColour(sibling, true, RightOf(d.up, t, parent, d.red), s);
        c', t' := d.up, Bin(t, parent, d.red, Paint(s, true));
        Fields(c', t');
        node', parent', done := parent, parent.U, parent.C;
        assert Balanced(s.left, h) && Balanced(s.right, h) && Balanced(Paint(s, true), h);
        assert !done ==> d == c && Balanced(t', h + 1);
      }
    }

    /** A short right child with a red sibling gets a black one. */
    method BlackenRight(sibling: Node, parent: Node, ghost c: Ctx<Node>, ghost t: Tree<Node>, ghost h: nat)
      returns (sibling': Node, ghost c': Ctx<Node>)
      requires Is(Plug(c, t)) && Short(c, t, h) && c.RightOf? && c.node == parent && c.sibling.Bin?
                 && c.sibling.node == sibling
      modifies this`root, nodes`U, nodes`C, nodes`L, nodes`R
      ensures Is(Plug(c', t)) && c'.RightOf? && c'.node == parent
      ensures c'.sibling.Bin? && c'.sibling.node == sibling' && !c'.sibling.red && Balanced(c'.sibling, h + 1)
      ensures if c.sibling.red then c'.red && FixRemove(c, t) == SettleRight(c'.up, c'.sibling, parent, true, t)
                else c' == c
    {
      hide Is;
      ghost var up, s := c.up, c.sibling;
      Fields(c, t);
      sibling', c' := sibling, c;
      if sibling.C {
        ghost var x := Bin(Paint(s, false), parent, true, t);
        SetColour(sibling, false, LeftOf(up, parent, c.red, t), s);
        SetColour(parent, true, up, Bin(Paint(s, false), parent, c.red, t));
        assert Balanced(s.left, h + 1) && Balanced(s.right, h + 1);
        RotateRight(parent, up, x);
        c' := RightOf(RightOf(up, s.left, sibling, false), s.right, parent, true);
        assert Plug(c', t) == Plug(up, RedBlackSpec.RotateRight(x));
        Fields(c', t);
        sibling' := parent.L;
      }
    }

    /** One round of the loop of `remove` when the short side is the right child. */
    method RoundRight(node: Node?, parent: Node, ghost c: Ctx<Node>, ghost t: Tree<Node>, ghost h: nat)
      returns (node': Node?, parent': Node?, done: bool, ghost c': Ctx<Node>, ghost t': Tree<Node>)
      requires Is(Plug(c, t)) && Short(c, t, h) && node == Root(t) && c.RightOf? && c.node == parent
      modifies this`root, nodes`U, nodes`C, nodes`L, nodes`R
      ensures Is(Plug(c', t')) && node' == Root(t') && parent' == Parent(c', null)
      ensures done ==> t'.Bin? && FixRemove(c, t) == Plug(c', Paint(t', false))
      ensures !done ==> Short(c', t', h + 1) && FixRemove(c', t') == FixRemove(c, t) && Depth(c') < Depth(c)
    {
      hide Is;
      Fields(c, t);
      var sibling := parent.L;
      ghost var d;
      sibling, d := BlackenRight(sibling, parent, c, t, h);
      ghost var s := d.sibling;
      Fields(d, t);
      Fields(LeftOf(LeftOf(d.up, parent, d.red, t), sibling, false, s.right), s.left);
      if (sibling.L != null && sibling.L.C) || (sibling.R != null && sibling.R.C) {
        ghost var w := BorrowRight(sibling, parent, d.up, t, d.red, s);
        c', t' := Top, w;
        Fields(Top, w);
        node', parent', done := root, null, true;
      } else {
        SetColour(sibling, true, LeftOf(d.up, parent, d.red, t), s);
        c', t' := d.up, Bin(Paint(s, true), parent, d.red, t);
        Fields(c', t');
        node', parent', done := parent, parent.U, parent.C;
        assert Balanced(s.left, h) && Balanced(s.right, h) && Balanced(Paint(s, true), h);
        assert !done ==> d == c && Balanced(t', h + 1);
      }
    }

    /** The loop of `remove`. */
    method Rebalance(node0: Node?, parent0: Node?, ghost c0: Ctx<Node>, ghost t0: Tree<Node>, ghost h0: nat)
      requires Is(Plug(c0, t0)) && Short(c0, t0, h0) && node0 == Root(t0) && parent0 == Parent(c0, null)
      modifies this`root, nodes`U, nodes`C, nodes`L, nodes`R
      ensures Is(FixRemove(c0, t0))
    {
      hide Is;
      var node, parent := node0, parent0;
      ghost var c, t, h := c0, t0, h0;
      while true
        invariant Is(Plug(c, t)) && Short(c, t, h) && node == Root(t) && parent == Parent(c, null)
        invariant FixRemove(c, t) == FixRemove(c0, t0)
        decreases Depth(c)
      {
        Fields(c, t);
        if node == root { break; }
        var done;
        if node == parent.L {
          node, parent, done, c, t := RoundLeft(node, parent, c, t, h);
        } else {
          node, parent, done, c, t := RoundRight(node, parent, c, t, h);
        }
        if done { break; }
        h := h + 1;
      }
      assert FixRemove(c0, t0) == Plug(c, Paint(t, false));
      Fields(c, t);
      if node != null { SetColour(node, false, c, t); }
    }

    /** Cut `node` out; with two children its successor takes its place and colour. */
    method SpliceOut(node: Node, ghost c: Ctx<Node>, ghost t: Tree<Node>) returns (child: Node?, parent: Node?,
                     red: bool)
      requires Is(Plug(c, t)) && t.Bin? && t.node == node
      modifies this`root, this`nodes, nodes`U, nodes`C, nodes`L, nodes`R
      ensures var g := Splice(c, t);
              Is(Plug(g.ctx, g.tree)) && child == Root(g.tree) && parent == Parent(g.ctx, null) && red == g.red
      ensures nodes == old(nodes) - {node}
    {
      hide Is;
      Fields(c, t);
      var left, right := node.L, node.R;
      if left == null || right == null {
        child, parent, red := if left == null then right else left, node.U, node.C;
        CutOut(node, child, c, t);
      } else {
        child, parent, red := SpliceInner(node, right, c, t);
      }
    }

    method SpliceInner(node: Node, right: Node, ghost c: Ctx<Node>, ghost t: Tree<Node>)
      returns (child: Node?, parent: Node, red: bool)
      requires Is(Plug(c, t)) && t.Bin? && t.node == node && t.left.Bin? && t.right.Bin? && t.right.node == right
      modifies this`root, this`nodes, nodes`U, nodes`C, nodes`L, nodes`R
      ensures var g := Splice(c, t);
              Is(Plug(g.ctx, g.tree)) && child == Root(g.tree) && parent == Parent(g.ctx, null) && red == g.red
      ensures nodes == old(nodes) - {node}
    {
      hide Is;
      ghost var d, r := RightOf(c, t.left, node, t.red), t.right;
      assert Plug(d, r) == Plug(c, t);
      ghost var c', t', base;
      var next;
      next, c', t' := First(right, d, r);
      base := RightOf(c, t.left, next, t.red);
      Fields(c', t');
      FirstNodeFocus(d, r);
      FirstNodeFocus(base, r);
      FirstPlaceRebase(base, d, r);
      FirstPlaceRebase(d, base, r);
      FirstInside(c, t);
      child, red := next.R, next.C;
      if next != right {
        parent := next.U;
        CutOut(next, child, c', t');
        assert Plug(d, DropFirst(r)) == Plug(c, Bin(t.left, node, t.red, DropFirst(r)));
        Substitute(node, next, c, Bin(t.left, node, t.red, DropFirst(r)));
      } else {
        parent := next;
        Promote(node, next, c, t);
      }
    }

    lemma FirstInside(c: Ctx<Node>, t: Tree<Node>)
      requires Is(Plug(c, t)) && t.Bin? && t.right.Bin?
      ensures FirstNode(t.right) in nodes && FirstNode(t.right) != t.node
      ensures FirstNode(t.right) == t.right.node <==> t.right.left.Leaf?
    {
      Focus(c, t);
      FirstNodeIn(t.right);
      if t.right.left.Bin? {
        FirstNodeIn(t.right.left);
        assert Apart(t.right);
      }
    }

    /** The list part of `remove`. */
    static method Unthread(node: Node, ghost s: seq<Node>, ghost i: nat)
      requires Threaded(s) && Distinct(s) && i < |s| && s[i] == node
      modifies s`P, s`N
      ensures Threaded(s[..i] + s[i + 1..]) && node.P == null && node.N == null
    {
      if node.N != null { node.N.P := node.P; }
      if node.P != null { node.P.N := node.N; }
      node.N, node.P := null, null;
      ghost var s' := s[..i] + s[i + 1..];
      forall j | 0 <= j < |s'|
        ensures s'[j].P == Nth(s', j - 1) && s'[j].N == Nth(s', j + 1)
      {
        if j < i {
          assert s'[j] == s[j] && old(s[j].P) == Nth(s, j - 1) && old(s[j].N) == Nth(s, j + 1);
        } else {
          assert s'[j] == s[j + 1] && old(s[j + 1].P) == Nth(s, j) && old(s[j + 1].N) == Nth(s, j + 2);
        }
      }
    }

    /** Take `node` out of the tree. */
    method Remove(node: Node)
      requires Valid() && node in nodes
      modifies this, nodes`U, nodes`C, nodes`L, nodes`R, nodes`P, nodes`N
      ensures Valid() && nodes == old(nodes) - {node} && node.P == null && node.N == null
      ensures forall i :: 0 <= i < |old(order)| && old(order)[i] == node ==>
                order == old(order)[..i] + old(order)[i + 1..]
    {
      hide Is, Valid, FixRemove, InOrder, RedBlack, Elements, Threaded, Before, After, Plug, Distinct, RemoveRoot;
      Invariant();
      ghost var c, t := Locate(shape, node);
      ghost var i := RemoveLaws(c, t, order);
      ghost var s := order[..i] + order[i + 1..];
      Unthread(node, order, i);
      Shrink(node, c, t, s);
    }

    /** The tree part of `remove`, once `node` is out of the list. */
    method Shrink(node: Node, ghost c: Ctx<Node>, ghost t: Tree<Node>, ghost s: seq<Node>)
      requires Is(shape) && RedBlack(shape) && Plug(c, t) == shape && t.Bin? && t.node == node && node in nodes
      requires s == InOrder(RemoveRoot(c, t)) && Threaded(s) && (forall n :: n in s <==> n in nodes && n != node)
      modifies this, nodes`U, nodes`C, nodes`L, nodes`R
      ensures Valid() && nodes == old(nodes) - {node} && order == s
    {
      hide Is, Valid, RemoveRoot, InOrder, RedBlack, Elements, Plug;
      RemoveRootRedBlack(c, t);
      CutAndRestore(node, c, t);
      shape, order := RemoveRoot(c, t), s;
      assert Threaded(order);
      Validate();
    }

    method CutAndRestore(node: Node, ghost c: Ctx<Node>, ghost t: Tree<Node>)
      requires Is(Plug(c, t)) && RedBlack(Plug(c, t)) && t.Bin? && t.node == node
      modifies this`root, this`nodes, nodes`U, nodes`C, nodes`L, nodes`R
      ensures Is(RemoveRoot(c, t)) && nodes == old(nodes) - {node}
    {
      hide Is, FixRemove, RedBlack, Accepts, Balanced, Plug, Parent, Splice;
      ghost var g := Splice(c, t);
      ghost var h := SpliceBalanced(c, t);
      var child, parent, red := SpliceOut(node, c, t);
      if red { return; }
      Fields(g.ctx, g.tree);
      if child != null && child.C {
        SetColour(child, false, g.ctx, g.tree);
      } else {
        Rebalance(child, parent, g.ctx, g.tree, h);
      }
    }
  }
}
