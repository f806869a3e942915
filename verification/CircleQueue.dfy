/** The queue of circle events of d3's Voronoi layout: a red-black tree of circles sorted by y and
    then x, with its first circle cached. */
module CircleQueue {
  import opened Basics
  import opened RedBlackSpec
  import opened RedBlackHeap

  /** The circle (x, y) comes before or level with n in sweep order. */
  predicate NotAfter(x: real, y: real, n: Node)
    reads n`x, n`y
  {
    y < n.y || (y == n.y && x <= n.x)
  }

  ghost predicate Sorted(s: seq<Node>)
    reads s`x, s`y
  {
    forall i, j :: 0 <= i < j < |s| ==> NotAfter(s[i].x, s[i].y, s[j])
  }

  class Circles {
    var tree: RedBlackTree
    var first: Node?
    var pool: seq<Node>

    /** The tree is sorted, `first` is its least circle (or null), and pooled circles are free. */
    ghost predicate Valid()
      reads this, tree, tree.nodes, pool
    {
      && tree.Valid()
      && (forall n :: n in tree.order ==> n in tree.nodes)
      && Sorted(tree.order) && first == Nth(tree.order, 0)
      && Distinct(pool) && (forall n :: n in pool ==> n !in tree.nodes)
    }

    lemma Order()
      requires Valid()
      ensures tree.Valid() && tree.Is(tree.shape) && tree.order == InOrder(tree.shape) && Threaded(tree.order)
      ensures Sorted(tree.order) && Distinct(tree.order) && (forall n :: n in tree.order <==> n in tree.nodes)
      ensures first == Nth(tree.order, 0) && Distinct(pool) && (forall n :: n in pool ==> n !in tree.nodes)
    {
      tree.Invariant();
    }

    constructor ()
      ensures Valid() && tree.order == [] && fresh(tree)
    {
      tree := new RedBlackTree();
      first, pool := null, [];
      new;
      tree.Invariant();
    }

    /** The last circle strictly before (x, y), or null. */
    method Predecessor(x: real, y: real) returns (before: Node?, ghost k: nat)
      requires Valid()
      ensures k <= |tree.order| && before == Nth(tree.order, k - 1)
      ensures Splits(tree.order, k, x, y)
      ensures Precedes(before, tree.order, x, y)
    {
      hide Valid, Splits, Sorted, Precedes;
      before, k := Descend(x, y);
      Order();
      SplitPrecedes(tree.order, k, before, x, y);
    }

    /** The descent of `attachCircle`. */
    method Descend(x: real, y: real) returns (before: Node?, ghost k: nat)
      requires Valid()
      ensures k <= |tree.order| && before == Nth(tree.order, k - 1)
      ensures Splits(tree.order, k, x, y)
    {
      hide RedBlackTree.Is, RedBlackTree.Valid, Valid, Plug, InOrder, Before, Below, NotBelow, Sorted, Threaded,
             RedBlack, Elements;
      Order();
      before, k := null, 0;
      var node := tree.root;
      ghost var s, c, t, lo: nat, hi := tree.order, Top, tree.shape, 0, |tree.order|;
      Start(s, t, x, y);
      tree.Fields(c, t);
      while node != null
        invariant tree.Is(Plug(c, t)) && Plug(c, t) == tree.shape && node == Root(t)
        invariant lo == |Before(c)| && hi == lo + |InOrder(t)| <= |s|
        invariant Below(s, lo, x, y) && NotBelow(s, hi, x, y)
        invariant t.Leaf? ==> s == [] && k == 0
        decreases t
      {
        tree.Fields(c, t);
        ghost var m := Middle(c, t, s);
        RedBlackTree.ThreadLinks(s, m);
        if NotAfter(x, y, node) {
          Downward(s, m, x, y);
          if node.L != null {
            node := node.L;
            c, t, hi := LeftOf(c, t.node, t.red, t.right), t.left, m;
            tree.Fields(c, t);
          } else {
            before, k := node.P, m;
            break;
          }
        } else {
          Upward(s, m, x, y);
          if node.R != null {
            node := node.R;
            c, t, lo := RightOf(c, t.left, t.node, t.red), t.right, m + 1;
            tree.Fields(c, t);
          } else {
            before, k := node, m + 1;
            break;
          }
        }
      }
    }

    /** A free circle from the pool, or a new one. */
    method Take(x: real, y: real) returns (circle: Node)
      requires Valid()
      modifies `pool, pool`x, pool`y
      ensures Valid() && circle !in tree.nodes && circle !in pool && circle.x == x && circle.y == y
      ensures fresh(circle) || circle in old(pool)
      ensures forall n :: n in pool ==> n in old(pool)
    {
      hide RedBlackTree.Valid, Valid, Sorted, Threaded, RedBlackTree.Is, RedBlack, InOrder;
      Order();
      if |pool| > 0 {
        circle := pool[|pool| - 1];
        pool := pool[..|pool| - 1];
      } else {
        circle := new Node();
      }
      assert circle !in tree.nodes && Sorted(tree.order);
      circle.x, circle.y := x, y;
      assert Sorted(tree.order);
      Validate();
    }

    /** Put a free circle into the tree behind its predecessor. */
    method Enter(before: Node?, circle: Node, ghost k: nat)
      requires Valid() && circle !in tree.nodes && circle !in pool
      requires k <= |tree.order| && before == Nth(tree.order, k - 1) && Splits(tree.order, k, circle.x, circle.y)
      modifies this, tree, tree.nodes`U, tree.nodes`C, tree.nodes`L, tree.nodes`R, tree.nodes`P, tree.nodes`N
      modifies circle`U, circle`C, circle`L, circle`R, circle`P, circle`N
      ensures Valid() && tree == old(tree)
      ensures tree.order == old(tree.order)[..k] + [circle] + old(tree.order)[k..]
    {
      hide RedBlackTree.Valid, Valid, Splits, Sorted, Threaded, RedBlackTree.Is, RedBlack, InOrder, Distinct, Nth;
      Order();
      ghost var s, s' := tree.order, tree.order[..k] + [circle] + tree.order[k..];
      SortedAround(s, k, circle);
      NewFirst(s, k, before, circle);
      tree.Insert(before, circle);
      assert tree.order == s';
      if before == null { first := circle; }
      Validate();
    }

    /** Queue a new circle event at (x, y), behind every circle strictly before it. */
    method Attach(x: real, y: real) returns (circle: Node, ghost k: nat)
      requires Valid()
      modifies this, tree, pool, tree.nodes`U, tree.nodes`C, tree.nodes`L, tree.nodes`R, tree.nodes`P, tree.nodes`N
      ensures Valid() && tree == old(tree) && circle.x == x && circle.y == y && circle !in old(tree.nodes)
      ensures k <= |old(tree.order)| && Splits(old(tree.order), k, x, y)
      ensures tree.order == old(tree.order)[..k] + [circle] + old(tree.order)[k..]
    {
      hide RedBlackTree.Valid, Valid, Sorted, Threaded, RedBlackTree.Is, RedBlack, InOrder, Distinct, Splits;
      Order();
      circle := Take(x, y);
      var before;
      before, k := Predecessor(x, y);
      ghost var s := tree.order;
      Order();
      Enter(before, circle, k);
    }

    /** Put a free circle back into the pool, its links cleared. */
    method Recycle(circle: Node)
      requires Valid() && circle !in tree.nodes && circle !in pool
      modifies `pool, circle`U, circle`C, circle`L, circle`R, circle`P, circle`N
      ensures Valid() && pool == old(pool) + [circle]
    {
      hide RedBlackTree.Valid, Valid, Sorted, Distinct, Threaded, RedBlackTree.Is, RedBlack, InOrder;
      Order();
      Pooled(pool, circle);
      pool := pool + [circle];
      circle.U, circle.C, circle.L, circle.R, circle.P, circle.N := null, false, null, null, null, null;
      Validate();
    }

    /** Take a circle out of the tree. */
    method Leave(circle: Node)
      requires Valid() && circle in tree.nodes
      modifies `first, tree, tree.nodes`U, tree.nodes`C, tree.nodes`L, tree.nodes`R, tree.nodes`P, tree.nodes`N
      ensures Valid() && tree.nodes == old(tree.nodes) - {circle}
      ensures forall i :: 0 <= i < |old(tree.order)| && old(tree.order)[i] == circle ==>
                tree.order == old(tree.order)[..i] + old(tree.order)[i + 1..]
    {
      hide RedBlackTree.Valid, Valid, Sorted, Threaded, RedBlackTree.Is, RedBlack, InOrder, Distinct;
      Order();
      ghost var s := tree.order;
      ghost var i: nat :| i < |s| && s[i] == circle;
      RedBlackTree.ThreadLinks(s, i);
      SortedWithout(s, i);
      if circle.P == null { first := circle.N; }
      tree.Remove(circle);
      Validate();
    }

    /** Take a queued circle out and put it back into the pool. */
    method Detach(circle: Node)
      requires Valid() && circle in tree.nodes
      modifies this, tree, tree.nodes`U, tree.nodes`C, tree.nodes`L, tree.nodes`R, tree.nodes`P, tree.nodes`N
      ensures Valid() && tree == old(tree) && tree.nodes == old(tree.nodes) - {circle} && pool == old(pool) + [circle]
      ensures forall i :: 0 <= i < |old(tree.order)| && old(tree.order)[i] == circle ==>
                tree.order == old(tree.order)[..i] + old(tree.order)[i + 1..]
    {
      hide RedBlackTree.Valid, Valid;
      Order();
      Leave(circle);
      Recycle(circle);
    }

    lemma Validate()
      requires tree.Valid() && Sorted(tree.order) && first == Nth(tree.order, 0)
      requires Distinct(pool) && (forall n :: n in pool ==> n !in tree.nodes)
      ensures Valid()
    {
      tree.Invariant();
    }
  }

  lemma Pooled(s: seq<Node>, n: Node)
    requires Distinct(s) && n !in s
    ensures Distinct(s + [n])
  {
  }

  lemma NewFirst(s: seq<Node>, k: nat, before: Node?, n: Node)
    requires k <= |s| && before == Nth(s, k - 1)
    ensures Nth(s[..k] + [n] + s[k..], 0) == if before == null then n else Nth(s, 0)
    ensures if before == null then k == 0 && s[..k] + [n] + s[k..] == [n] + s else 0 < k && s[k - 1] == before
  {
    if k == 0 {
      assert s[..k] + [n] + s[k..] == [n] + s;
    }
  }

  /** Every circle of s that was sorted stays sorted around a new one put at its split. */
  lemma SortedAround(s: seq<Node>, k: nat, n: Node)
    requires Sorted(s) && k <= |s| && Splits(s, k, n.x, n.y)
    ensures Sorted(s[..k] + [n] + s[k..])
  {
    var s' := s[..k] + [n] + s[k..];
    forall i, j | 0 <= i < j < |s'| ensures NotAfter(s'[i].x, s'[i].y, s'[j]) {
      if i < k {
        assert s'[i] == s[i];
      } else if i > k {
        assert s'[i] == s[i - 1];
      }
      if j < k {
        assert s'[j] == s[j];
      } else if j > k {
        assert s'[j] == s[j - 1];
      }
    }
  }

  lemma SortedWithout(s: seq<Node>, i: nat)
    requires Sorted(s) && i < |s|
    ensures Sorted(s[..i] + s[i + 1..])
  {
    var s' := s[..i] + s[i + 1..];
    forall a, b | 0 <= a < b < |s'| ensures NotAfter(s'[a].x, s'[a].y, s'[b]) {
      assert s'[a] == s[if a < i then a else a + 1] && s'[b] == s[if b < i then b else b + 1];
    }
  }

  /** The first of a sorted sequence is its least circle. */
  lemma FirstIsLeast(s: seq<Node>, n: Node)
    requires Sorted(s) && n in s
    ensures s[0].y < n.y || (s[0].y == n.y && s[0].x <= n.x)
  {
  }

  ghost predicate Below(s: seq<Node>, lo: nat, x: real, y: real)
    requires lo <= |s|
    reads s`x, s`y
  {
    forall i :: 0 <= i < lo ==> !NotAfter(x, y, s[i])
  }

  ghost predicate NotBelow(s: seq<Node>, hi: nat, x: real, y: real)
    requires hi <= |s|
    reads s`x, s`y
  {
    forall i :: hi <= i < |s| ==> NotAfter(x, y, s[i])
  }

  /** Exactly the first k circles of s come strictly before (x, y). */
  ghost predicate Splits(s: seq<Node>, k: nat, x: real, y: real)
    requires k <= |s|
    reads s`x, s`y
  {
    Below(s, k, x, y) && NotBelow(s, k, x, y)
  }

  /** The last circle strictly before (x, y); null if there is none. */
  ghost predicate Precedes(before: Node?, s: seq<Node>, x: real, y: real)
    reads s`x, s`y
  {
    if before == null then forall n :: n in s ==> NotAfter(x, y, n)
    else before in s && !NotAfter(x, y, before)
         && forall n :: n in s ==> NotAfter(x, y, n) || NotAfter(n.x, n.y, before)
  }

  lemma SplitPrecedes(s: seq<Node>, k: nat, before: Node?, x: real, y: real)
    requires Sorted(s) && k <= |s| && before == Nth(s, k - 1) && Splits(s, k, x, y)
    ensures Precedes(before, s, x, y)
  {
    forall n | n in s && !NotAfter(x, y, n) ensures before != null && NotAfter(n.x, n.y, before) {
      var i :| 0 <= i < |s| && s[i] == n;
      assert i < k;
      assert i == k - 1 || NotAfter(s[i].x, s[i].y, s[k - 1]);
    }
  }

  lemma Downward(s: seq<Node>, m: nat, x: real, y: real)
    requires Sorted(s) && m < |s| && NotAfter(x, y, s[m])
    ensures NotBelow(s, m, x, y)
  {
  }

  lemma Upward(s: seq<Node>, m: nat, x: real, y: real)
    requires Sorted(s) && m < |s| && !NotAfter(x, y, s[m])
    ensures Below(s, m + 1, x, y)
  {
    forall i | 0 <= i < m + 1 ensures !NotAfter(x, y, s[i]) {
      assert i < m ==> NotAfter(s[i].x, s[i].y, s[m]);
    }
  }

  lemma Start(s: seq<Node>, t: Tree<Node>, x: real, y: real)
    requires s == InOrder(t)
    ensures Before<Node>(Top) == [] && Plug(Top, t) == t && (t.Leaf? <==> s == [])
    ensures Below(s, 0, x, y) && NotBelow(s, |s|, x, y)
  {
  }

  /** The position of a focused node, and what is left to search on either side of it. */
  lemma Middle(c: Ctx<Node>, t: Tree<Node>, s: seq<Node>) returns (m: nat)
    requires t.Bin? && s == InOrder(Plug(c, t))
    ensures m == |Before(c)| + |InOrder(t.left)| && m < |s| && s[m] == t.node
    ensures m + 1 + |InOrder(t.right)| == |Before(c)| + |InOrder(t)|
    ensures t.left.Leaf? ==> |InOrder(t.left)| == 0
    ensures t.right.Leaf? ==> |InOrder(t.right)| == 0
    ensures var l := LeftOf(c, t.node, t.red, t.right);
            Plug(l, t.left) == Plug(c, t) && Before(l) == Before(c)
    ensures var r := RightOf(c, t.left, t.node, t.red);
            Plug(r, t.right) == Plug(c, t) && |Before(r)| == m + 1
  {
    InOrderOfPlug(c, t);
    m := |Before(c)| + |InOrder(t.left)|;
  }
}
