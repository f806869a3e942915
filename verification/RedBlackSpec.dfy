/** The value-level reading of d3's red-black tree.

    A `Tree` is the shape a linked tree of nodes has; a `Ctx` is the rest of that shape
    around one focused subtree, innermost frame first.  The fix-up loops of `insert` and
    `remove` climb from a node to the root, so they are read as functions on a (Ctx, Tree)
    pair, and every law of the data structure is proved about those functions. */
module RedBlackSpec {
  import opened Basics

  datatype Tree<T> = Leaf | Bin(left: Tree<T>, node: T, red: bool, right: Tree<T>)

  /** `LeftOf(up, p, r, s)`: the focus is the left child of p, whose colour is r and whose right
      subtree is s; `RightOf(up, s, p, r)` is the mirror image. */
  datatype Ctx<T> =
    | Top
    | LeftOf(up: Ctx<T>, node: T, red: bool, sibling: Tree<T>)
    | RightOf(up: Ctx<T>, sibling: Tree<T>, node: T, red: bool)

  function InOrder<T>(t: Tree<T>): seq<T> {
    match t
    case Leaf => []
    case Bin(l, n, _, r) => InOrder(l) + [n] + InOrder(r)
  }

  function Before<T>(c: Ctx<T>): seq<T> {
    match c
    case Top => []
    case LeftOf(up, _, _, _) => Before(up)
    case RightOf(up, s, n, _) => Before(up) + InOrder(s) + [n]
  }

  function After<T>(c: Ctx<T>): seq<T> {
    match c
    case Top => []
    case LeftOf(up, n, _, s) => [n] + InOrder(s) + After(up)
    case RightOf(up, _, _, _) => After(up)
  }

  function Plug<T>(c: Ctx<T>, t: Tree<T>): Tree<T> {
    match c
    case Top => t
    case LeftOf(up, n, red, s) => Plug(up, Bin(t, n, red, s))
    case RightOf(up, s, n, red) => Plug(up, Bin(s, n, red, t))
  }

  lemma Regroup<T>(a: seq<T>, l: seq<T>, x: seq<T>, r: seq<T>, b: seq<T>)
    ensures a + (l + x + r) + b == a + l + (x + r + b)
    ensures a + (l + x + r) + b == (a + l + x) + r + b
  {
  }

  lemma {:induction false} InOrderOfPlug<T>(c: Ctx<T>, t: Tree<T>)
    ensures InOrder(Plug(c, t)) == Before(c) + InOrder(t) + After(c)
  {
    match c
    case Top =>
    case LeftOf(up, n, red, s) =>
      InOrderOfPlug(up, Bin(t, n, red, s));
      Regroup(Before(up), InOrder(t), [n], InOrder(s), After(up));
    case RightOf(up, s, n, red) =>
      InOrderOfPlug(up, Bin(s, n, red, t));
      Regroup(Before(up), InOrder(s), [n], InOrder(t), After(up));
  }

  // ---------------------------------------------------------------- colours and balance

  predicate IsRed<T>(t: Tree<T>) { t.Bin? && t.red }

  function Paint<T>(t: Tree<T>, red: bool): Tree<T> {
    if t.Leaf? then Leaf else t.(red := red)
  }

  /** t is a red-black tree whose paths all pass h black nodes; its root may have either colour. */
  predicate Balanced<T>(t: Tree<T>, h: nat) {
    match t
    case Leaf => h == 0
    case Bin(l, _, red, r) =>
      if red then !IsRed(l) && !IsRed(r) && Balanced(l, h) && Balanced(r, h)
      else h > 0 && Balanced(l, h - 1) && Balanced(r, h - 1)
  }

  /** c, with a subtree of black height h whose root has the given colour, is a red-black tree
      with a black root. */
  predicate Accepts<T>(c: Ctx<T>, h: nat, red: bool) {
    match c
    case Top => !red
    case LeftOf(up, _, r, s) =>
      (r ==> !red && !IsRed(s)) && Balanced(s, h) && Accepts(up, if r then h else h + 1, r)
    case RightOf(up, s, _, r) =>
      (r ==> !red && !IsRed(s)) && Balanced(s, h) && Accepts(up, if r then h else h + 1, r)
  }

  function BlackHeight<T>(t: Tree<T>): nat {
    match t
    case Leaf => 0
    case Bin(l, _, red, _) => if red then BlackHeight(l) else BlackHeight(l) + 1
  }

  predicate RedBlack<T>(t: Tree<T>) { !IsRed(t) && Balanced(t, BlackHeight(t)) }

  lemma BalancedHeight<T>(t: Tree<T>, h: nat)
    requires Balanced(t, h)
    ensures BlackHeight(t) == h
  {
  }

  lemma {:induction false} PlugRedBlack<T>(c: Ctx<T>, t: Tree<T>, h: nat)
    requires Accepts(c, h, IsRed(t)) && Balanced(t, h)
    ensures RedBlack(Plug(c, t))
  {
    match c
    case Top => BalancedHeight(t, h);
    case LeftOf(up, n, red, s) => PlugRedBlack(up, Bin(t, n, red, s), if red then h else h + 1);
    case RightOf(up, s, n, red) => PlugRedBlack(up, Bin(s, n, red, t), if red then h else h + 1);
  }

  /** The converse: every focus of a red-black tree is balanced and accepted by its context. */
  lemma {:induction false} FocusBalanced<T>(c: Ctx<T>, t: Tree<T>)
    requires RedBlack(Plug(c, t))
    ensures Balanced(t, BlackHeight(t)) && Accepts(c, BlackHeight(t), IsRed(t))
  {
    match c
    case Top =>
    case LeftOf(up, n, red, s) =>
      FocusBalanced(up, Bin(t, n, red, s));
      BalancedHeight(t, BlackHeight(t));
    case RightOf(up, s, n, red) =>
      FocusBalanced(up, Bin(s, n, red, t));
      assert Balanced(t, BlackHeight(s)) by { BalancedHeight(s, BlackHeight(s)); }
      BalancedHeight(t, BlackHeight(s));
  }

  /** A place that accepts a red subtree accepts a black one of the same height. */
  lemma AcceptsBlack<T>(c: Ctx<T>, h: nat, red: bool)
    requires Accepts(c, h, red)
    ensures Accepts(c, h, false)
  {
  }

  // ---------------------------------------------------------------- height bound

  function Height<T>(t: Tree<T>): nat {
    match t
    case Leaf => 0
    case Bin(l, _, _, r) => 1 + Max(Height(l), Height(r))
  }

  function Pow2(n: nat): nat { if n == 0 then 1 else 2 * Pow2(n - 1) }

  lemma {:induction false} Pow2Sum(a: nat, b: nat)
    ensures Pow2(a + b) == Pow2(a) * Pow2(b)
  {
    if a != 0 {
      Pow2Sum(a - 1, b);
      Twice(Pow2(a - 1), Pow2(b));
    }
  }

  lemma Twice(p: nat, q: nat)
    ensures 2 * p * q == 2 * (p * q)
  {
  }

  lemma {:induction false} Pow2Monotone(a: nat, b: nat)
    requires a <= b
    ensures Pow2(a) <= Pow2(b)
  {
    if a < b {
      Pow2Monotone(a, b - 1);
    }
  }

  lemma {:induction false} SizeOfBalanced<T>(t: Tree<T>, h: nat)
    requires Balanced(t, h)
    ensures Pow2(h) <= |InOrder(t)| + 1
    ensures Height(t) <= 2 * h + (if IsRed(t) then 1 else 0)
  {
    match t
    case Leaf =>
    case Bin(l, _, red, r) =>
      var k := if red then h else h - 1;
      SizeOfBalanced(l, k);
      SizeOfBalanced(r, k);
  }

  /** Height at most 2 * log2(n + 1), for n nodes. */
  lemma LogarithmicHeight<T>(t: Tree<T>)
    requires RedBlack(t)
    ensures Pow2(Height(t)) <= (|InOrder(t)| + 1) * (|InOrder(t)| + 1)
  {
    var h := BlackHeight(t);
    SizeOfBalanced(t, h);
    Pow2Monotone(Height(t), h + h);
    Pow2Sum(h, h);
    var m := |InOrder(t)| + 1;
    assert Pow2(h) * Pow2(h) <= m * m by { Squares(Pow2(h), m); }
  }

  lemma Squares(a: nat, b: nat)
    requires a <= b
    ensures a * a <= b * b
  {
    assert a * a <= a * b <= b * b;
  }

  // ---------------------------------------------------------------- rotations

  function RotateLeft<T>(t: Tree<T>): Tree<T>
    requires t.Bin? && t.right.Bin?
  {
    var q := t.right;
    Bin(Bin(t.left, t.node, t.red, q.left), q.node, q.red, q.right)
  }

  function RotateRight<T>(t: Tree<T>): Tree<T>
    requires t.Bin? && t.left.Bin?
  {
    var q := t.left;
    Bin(q.left, q.node, q.red, Bin(q.right, t.node, t.red, t.right))
  }

  lemma RotateLeftOrder<T>(t: Tree<T>)
    requires t.Bin? && t.right.Bin?
    ensures InOrder(RotateLeft(t)) == InOrder(t)
    ensures RotateRight(RotateLeft(t)) == t
  {
    var q := t.right;
    assert (InOrder(t.left) + [t.node] + InOrder(q.left)) + [q.node] + InOrder(q.right)
        == InOrder(t.left) + [t.node] + (InOrder(q.left) + [q.node] + InOrder(q.right));
  }

  lemma RotateRightOrder<T>(t: Tree<T>)
    requires t.Bin? && t.left.Bin?
    ensures InOrder(RotateRight(t)) == InOrder(t)
    ensures RotateLeft(RotateRight(t)) == t
  {
    RotateLeftOrder(RotateRight(t));
  }

  // ---------------------------------------------------------------- insertion

  /** The leaf place just after the root of t (or just before all of t, for `FirstPlace`). */
  function FirstPlace<T>(c: Ctx<T>, t: Tree<T>): (r: Ctx<T>)
    ensures t.Bin? ==> r.LeftOf?
    decreases t
  {
    match t
    case Leaf => c
    case Bin(l, n, red, s) => FirstPlace(LeftOf(c, n, red, s), l)
  }

  lemma {:induction false} FirstPlacePlug<T>(c: Ctx<T>, t: Tree<T>)
    ensures Plug(FirstPlace(c, t), Leaf) == Plug(c, t)
    ensures Before(FirstPlace(c, t)) == Before(c)
    ensures After(FirstPlace(c, t)) == InOrder(t) + After(c)
    decreases t
  {
    match t
    case Leaf =>
    case Bin(l, n, red, s) =>
      FirstPlacePlug(LeftOf(c, n, red, s), l);
      Regroup([], InOrder(l), [n], InOrder(s), After(c));
      assert [] + InOrder(t) == InOrder(t) && [] + InOrder(l) == InOrder(l);
  }

  /** The climb of `insert`: t is a red subtree put where c had a black one of the same black height. */
  function FixInsert<T>(c: Ctx<T>, t: Tree<T>): Tree<T> {
    match c
    case Top => Paint(t, false)
    case LeftOf(LeftOf(up, g, _, u), p, true, s) =>
      if IsRed(u) then FixInsert(up, Bin(Bin(t, p, false, s), g, true, Paint(u, false)))
      else Paint(Plug(up, Bin(t, p, false, Bin(s, g, true, u))), false)
    case LeftOf(RightOf(up, u, g, _), p, true, s) =>
      if IsRed(u) then FixInsert(up, Bin(Paint(u, false), g, true, Bin(t, p, false, s)))
      else if t.Leaf? then Plug(c, t)
      else Paint(Plug(up, Bin(Bin(u, g, true, t.left), t.node, false, Bin(t.right, p, true, s))), false)
    case RightOf(LeftOf(up, g, _, u), s, p, true) =>
      if IsRed(u) then FixInsert(up, Bin(Bin(s, p, false, t), g, true, Paint(u, false)))
      else if t.Leaf? then Plug(c, t)
      else Paint(Plug(up, Bin(Bin(s, p, true, t.left), t.node, false, Bin(t.right, g, true, u))), false)
    case RightOf(RightOf(up, u, g, _), s, p, true) =>
      if IsRed(u) then FixInsert(up, Bin(Paint(u, false), g, true, Bin(s, p, false, t)))
      else Paint(Plug(up, Bin(Bin(u, g, true, s), p, false, t)), false)
    case _ => Paint(Plug(c, t), false)
  }

  lemma PaintOrder<T>(t: Tree<T>, red: bool)
    ensures InOrder(Paint(t, red)) == InOrder(t)
  {
  }

  /** The climb never reorders anything. */
  lemma {:induction false} FixInsertOrder<T>(c: Ctx<T>, t: Tree<T>)
    ensures InOrder(FixInsert(c, t)) == InOrder(Plug(c, t))
  {
    match c
    case LeftOf(LeftOf(up, g, gr, u), p, true, s) =>
      if IsRed(u) {
        FixInsertOrder(up, Bin(Bin(t, p, false, s), g, true, Paint(u, false)));
        SameOrder(up, Bin(Bin(t, p, false, s), g, true, Paint(u, false)), Bin(Bin(t, p, true, s), g, gr, u));
      } else {
        RotateRightOrder(Bin(Bin(t, p, false, s), g, true, u));
        SameOrder(up, Bin(t, p, false, Bin(s, g, true, u)), Bin(Bin(t, p, true, s), g, gr, u));
        PaintOrder(Plug(up, Bin(t, p, false, Bin(s, g, true, u))), false);
      }
    case LeftOf(RightOf(up, u, g, gr), p, true, s) =>
      if IsRed(u) {
        FixInsertOrder(up, Bin(Paint(u, false), g, true, Bin(t, p, false, s)));
        SameOrder(up, Bin(Paint(u, false), g, true, Bin(t, p, false, s)), Bin(u, g, gr, Bin(t, p, true, s)));
      } else if t.Bin? {
        var m := Bin(Bin(u, g, true, t.left), t.node, false, Bin(t.right, p, true, s));
        DoubleRotation(m, Bin(u, g, gr, Bin(t, p, true, s)),
                       Bin(Bin(u, g, gr, Bin(t.left, t.node, true, t.right)), p, true, s));
        SameOrder(up, m, Bin(u, g, gr, Bin(t, p, true, s)));
        PaintOrder(Plug(up, m), false);
      }
    case RightOf(LeftOf(up, g, gr, u), s, p, true) =>
      if IsRed(u) {
        FixInsertOrder(up, Bin(Bin(s, p, false, t), g, true, Paint(u, false)));
        SameOrder(up, Bin(Bin(s, p, false, t), g, true, Paint(u, false)), Bin(Bin(s, p, true, t), g, gr, u));
      } else if t.Bin? {
        var m := Bin(Bin(s, p, true, t.left), t.node, false, Bin(t.right, g, true, u));
        DoubleRotation(m, Bin(s, p, true, Bin(Bin(t.left, t.node, true, t.right), g, gr, u)),
                       Bin(Bin(s, p, true, t), g, gr, u));
        SameOrder(up, m, Bin(Bin(s, p, true, t), g, gr, u));
        PaintOrder(Plug(up, m), false);
      }
    case RightOf(RightOf(up, u, g, gr), s, p, true) =>
      if IsRed(u) {
        FixInsertOrder(up, Bin(Paint(u, false), g, true, Bin(s, p, false, t)));
        SameOrder(up, Bin(Paint(u, false), g, true, Bin(s, p, false, t)), Bin(u, g, gr, Bin(s, p, true, t)));
      } else {
        RotateLeftOrder(Bin(u, g, true, Bin(s, p, false, t)));
        SameOrder(up, Bin(Bin(u, g, true, s), p, false, t), Bin(u, g, gr, Bin(s, p, true, t)));
        PaintOrder(Plug(up, Bin(Bin(u, g, true, s), p, false, t)), false);
      }
    case _ => PaintOrder(Plug(c, t), false);
  }

  lemma SameOrder<T>(c: Ctx<T>, t: Tree<T>, t': Tree<T>)
    requires InOrder(t) == InOrder(t')
    ensures InOrder(Plug(c, t)) == InOrder(Plug(c, t'))
  {
    InOrderOfPlug(c, t);
    InOrderOfPlug(c, t');
  }

  lemma Flatten<T>(a: seq<T>, x: seq<T>, b: seq<T>, y: seq<T>, d: seq<T>, z: seq<T>, e: seq<T>)
    ensures (a + x + b) + y + (d + z + e) == a + x + ((b + y + d) + z + e)
    ensures (a + x + b) + y + (d + z + e) == (a + x + (b + y + d)) + z + e
  {
  }

  /** A double rotation leaves the subtrees a, b, d, e and the nodes x, y, z in that order, whatever
      their colours: `m` is the rotated form, `rl` and `lr` the two forms it comes from. */
  lemma DoubleRotation<T>(m: Tree<T>, rl: Tree<T>, lr: Tree<T>)
    requires m.Bin? && m.left.Bin? && m.right.Bin?
    requires rl.Bin? && rl.right.Bin? && rl.right.left.Bin?
    requires lr.Bin? && lr.left.Bin? && lr.left.right.Bin?
    requires (m.left.left, m.left.node, m.left.right, m.node, m.right.left, m.right.node, m.right.right)
          == (rl.left, rl.node, rl.right.left.left, rl.right.left.node, rl.right.left.right, rl.right.node,
              rl.right.right)
          == (lr.left.left, lr.left.node, lr.left.right.left, lr.left.right.node, lr.left.right.right, lr.node,
              lr.right)
    ensures InOrder(m) == InOrder(rl) == InOrder(lr)
  {
    var a, x, b, y := InOrder(m.left.left), [m.left.node], InOrder(m.left.right), [m.node];
    var d, z, e := InOrder(m.right.left), [m.right.node], InOrder(m.right.right);
    Flatten(a, x, b, y, d, z, e);
    assert InOrder(m) == (a + x + b) + y + (d + z + e);
    assert InOrder(rl.right.left) == b + y + d;
    assert InOrder(rl.right) == (b + y + d) + z + e;
    assert InOrder(lr.left.right) == b + y + d;
    assert InOrder(lr.left) == a + x + (b + y + d);
  }

  /** The climb restores every red-black invariant. */
  lemma {:induction false} FixInsertRedBlack<T>(c: Ctx<T>, t: Tree<T>, h: nat)
    requires IsRed(t) && Balanced(t, h) && Accepts(c, h, false)
    ensures RedBlack(FixInsert(c, t))
  {
    match c
    case Top =>
      assert Balanced(Paint(t, false), h + 1);
      BalancedHeight(Paint(t, false), h + 1);
    case LeftOf(LeftOf(up, g, _, u), p, true, s) =>
      if IsRed(u) {
        FixInsertRedBlack(up, Bin(Bin(t, p, false, s), g, true, Paint(u, false)), h + 1);
      } else {
        PlugRedBlack(up, Bin(t, p, false, Bin(s, g, true, u)), h + 1);
      }
    case LeftOf(RightOf(up, u, g, _), p, true, s) =>
      if IsRed(u) {
        FixInsertRedBlack(up, Bin(Paint(u, false), g, true, Bin(t, p, false, s)), h + 1);
      } else {
        PlugRedBlack(up, Bin(Bin(u, g, true, t.left), t.node, false, Bin(t.right, p, true, s)), h + 1);
      }
    case RightOf(LeftOf(up, g, _, u), s, p, true) =>
      if IsRed(u) {
        FixInsertRedBlack(up, Bin(Bin(s, p, false, t), g, true, Paint(u, false)), h + 1);
      } else {
        PlugRedBlack(up, Bin(Bin(s, p, true, t.left), t.node, false, Bin(t.right, g, true, u)), h + 1);
      }
    case RightOf(RightOf(up, u, g, _), s, p, true) =>
      if IsRed(u) {
        FixInsertRedBlack(up, Bin(Paint(u, false), g, true, Bin(s, p, false, t)), h + 1);
      } else {
        PlugRedBlack(up, Bin(Bin(u, g, true, s), p, false, t), h + 1);
      }
    case LeftOf(_, _, false, _) => PlugRedBlack(c, t, h);
    case RightOf(_, _, _, false) => PlugRedBlack(c, t, h);
    case _ =>
  }

  // ---------------------------------------------------------------- removal

  /** The climb of `remove`: t has one black node too few for its place c. */
  function FixRemove<T>(c: Ctx<T>, t: Tree<T>): Tree<T> {
    match c
    case Top => Paint(t, false)
    case LeftOf(up, p, pr, s) =>
      if s.Leaf? then Plug(c, t)
      else if s.red then
        SettleLeft(LeftOf(up, s.node, false, s.right), t, p, true, s.left)
      else if IsRed(s.left) || IsRed(s.right) || pr then
        SettleLeft(up, t, p, pr, s)
      else
        FixRemove(up, Bin(t, p, false, Paint(s, true)))
    case RightOf(up, s, p, pr) =>
      if s.Leaf? then Plug(c, t)
      else if s.red then
        SettleRight(RightOf(up, s.left, s.node, false), s.right, p, true, t)
      else if IsRed(s.left) || IsRed(s.right) || pr then
        SettleRight(up, s, p, pr, t)
      else
        FixRemove(up, Bin(Paint(s, true), p, false, t))
  }

  /** One level of the climb that ends it: t is the short left child of p, s its black sibling,
      and s has a red child or p is red. */
  function SettleLeft<T>(up: Ctx<T>, t: Tree<T>, p: T, pr: bool, s: Tree<T>): Tree<T> {
    if s.Leaf? then Plug(up, Bin(t, p, pr, s))
    else if IsRed(s.right) then
      Paint(Plug(up, Bin(Bin(t, p, false, s.left), s.node, pr, Paint(s.right, false))), false)
    else if IsRed(s.left) then
      Paint(Plug(up, Bin(Bin(t, p, false, s.left.left), s.left.node, pr, Bin(s.left.right, s.node, false, s.right))),
            false)
    else Plug(up, Bin(t, p, false, Paint(s, true)))
  }

  function SettleRight<T>(up: Ctx<T>, s: Tree<T>, p: T, pr: bool, t: Tree<T>): Tree<T> {
    if s.Leaf? then Plug(up, Bin(s, p, pr, t))
    else if IsRed(s.left) then
      Paint(Plug(up, Bin(Paint(s.left, false), s.node, pr, Bin(s.right, p, false, t))), false)
    else if IsRed(s.right) then
      Paint(Plug(up, Bin(Bin(s.left, s.node, false, s.right.left), s.right.node, pr,
                         Bin(s.right.right, p, false, t))), false)
    else Plug(up, Bin(Paint(s, true), p, false, t))
  }

  lemma SettleLeftOrder<T>(up: Ctx<T>, t: Tree<T>, p: T, pr: bool, s: Tree<T>)
    ensures InOrder(SettleLeft(up, t, p, pr, s)) == InOrder(Plug(up, Bin(t, p, pr, s)))
  {
    var whole := Bin(t, p, pr, s);
    if s.Leaf? {
    } else if IsRed(s.right) {
      var m := Bin(Bin(t, p, false, s.left), s.node, pr, Paint(s.right, false));
      RotateLeftOrder(whole);
      SameOrder(up, m, whole);
      PaintOrder(Plug(up, m), false);
    } else if IsRed(s.left) {
      var m := Bin(Bin(t, p, false, s.left.left), s.left.node, pr, Bin(s.left.right, s.node, false, s.right));
      DoubleRotation(m, whole, Bin(Bin(t, p, pr, s.left), s.node, pr, s.right));
      SameOrder(up, m, whole);
      PaintOrder(Plug(up, m), false);
    } else {
      SameOrder(up, Bin(t, p, false, Paint(s, true)), whole);
    }
  }

  lemma SettleRightOrder<T>(up: Ctx<T>, s: Tree<T>, p: T, pr: bool, t: Tree<T>)
    ensures InOrder(SettleRight(up, s, p, pr, t)) == InOrder(Plug(up, Bin(s, p, pr, t)))
  {
    var whole := Bin(s, p, pr, t);
    if s.Leaf? {
    } else if IsRed(s.left) {
      var m := Bin(Paint(s.left, false), s.node, pr, Bin(s.right, p, false, t));
      RotateRightOrder(whole);
      SameOrder(up, m, whole);
      PaintOrder(Plug(up, m), false);
    } else if IsRed(s.right) {
      var m := Bin(Bin(s.left, s.node, false, s.right.left), s.right.node, pr, Bin(s.right.right, p, false, t));
      DoubleRotation(m, Bin(s.left, s.node, pr, Bin(s.right, p, pr, t)), whole);
      SameOrder(up, m, whole);
      PaintOrder(Plug(up, m), false);
    } else {
      SameOrder(up, Bin(Paint(s, true), p, false, t), whole);
    }
  }

  lemma {:induction false} FixRemoveOrder<T>(c: Ctx<T>, t: Tree<T>)
    ensures InOrder(FixRemove(c, t)) == InOrder(Plug(c, t))
  {
    match c
    case Top => PaintOrder(t, false);
    case LeftOf(up, p, pr, s) =>
      if s.Leaf? {
      } else if s.red {
        SettleLeftOrder(LeftOf(up, s.node, false, s.right), t, p, true, s.left);
        RotateLeftOrder(Bin(t, p, pr, s));
        SameOrder(up, Bin(Bin(t, p, true, s.left), s.node, false, s.right), Bin(t, p, pr, s));
      } else if IsRed(s.left) || IsRed(s.right) || pr {
        SettleLeftOrder(up, t, p, pr, s);
      } else {
        FixRemoveOrder(up, Bin(t, p, false, Paint(s, true)));
        SameOrder(up, Bin(t, p, false, Paint(s, true)), Bin(t, p, pr, s));
      }
    case RightOf(up, s, p, pr) =>
      if s.Leaf? {
      } else if s.red {
        SettleRightOrder(RightOf(up, s.left, s.node, false), s.right, p, true, t);
        RotateRightOrder(Bin(s, p, pr, t));
        SameOrder(up, Bin(s.left, s.node, false, Bin(s.right, p, true, t)), Bin(s, p, pr, t));
      } else if IsRed(s.left) || IsRed(s.right) || pr {
        SettleRightOrder(up, s, p, pr, t);
      } else {
        FixRemoveOrder(up, Bin(Paint(s, true), p, false, t));
        SameOrder(up, Bin(Paint(s, true), p, false, t), Bin(s, p, pr, t));
      }
  }

  lemma SettleLeftRedBlack<T>(up: Ctx<T>, t: Tree<T>, p: T, pr: bool, s: Tree<T>, h: nat)
    requires Balanced(t, h) && !IsRed(t) && Balanced(s, h + 1) && !IsRed(s)
    requires Accepts(up, if pr then h + 1 else h + 2, pr)
    requires pr || IsRed(s.left) || IsRed(s.right)
    ensures RedBlack(SettleLeft(up, t, p, pr, s))
  {
    var k := if pr then h + 1 else h + 2;
    if IsRed(s.right) {
      PlugRedBlack(up, Bin(Bin(t, p, false, s.left), s.node, pr, Paint(s.right, false)), k);
    } else if IsRed(s.left) {
      PlugRedBlack(up, Bin(Bin(t, p, false, s.left.left), s.left.node, pr, Bin(s.left.right, s.node, false, s.right)),
                   k);
    } else {
      AcceptsBlack(up, k, pr);
      PlugRedBlack(up, Bin(t, p, false, Paint(s, true)), k);
    }
  }

  lemma SettleRightRedBlack<T>(up: Ctx<T>, s: Tree<T>, p: T, pr: bool, t: Tree<T>, h: nat)
    requires Balanced(t, h) && !IsRed(t) && Balanced(s, h + 1) && !IsRed(s)
    requires Accepts(up, if pr then h + 1 else h + 2, pr)
    requires pr || IsRed(s.left) || IsRed(s.right)
    ensures RedBlack(SettleRight(up, s, p, pr, t))
  {
    var k := if pr then h + 1 else h + 2;
    if IsRed(s.left) {
      PlugRedBlack(up, Bin(Paint(s.left, false), s.node, pr, Bin(s.right, p, false, t)), k);
    } else if IsRed(s.right) {
      PlugRedBlack(up,
                   Bin(Bin(s.left, s.node, false, s.right.left), s.right.node, pr, Bin(s.right.right, p, false, t)), k);
    } else {
      AcceptsBlack(up, k, pr);
      PlugRedBlack(up, Bin(Paint(s, true), p, false, t), k);
    }
  }

  /** The climb of `remove` pays back the missing black node. */
  lemma {:induction false} FixRemoveRedBlack<T>(c: Ctx<T>, t: Tree<T>, h: nat)
    requires Balanced(t, h) && !IsRed(t) && Accepts(c, h + 1, false)
    ensures RedBlack(FixRemove(c, t))
  {
    match c
    case Top => BalancedHeight(t, h);
    case LeftOf(up, p, pr, s) =>
      if s.red {
        SettleLeftRedBlack(LeftOf(up, s.node, false, s.right), t, p, true, s.left, h);
      } else if IsRed(s.left) || IsRed(s.right) || pr {
        SettleLeftRedBlack(up, t, p, pr, s, h);
      } else {
        FixRemoveRedBlack(up, Bin(t, p, false, Paint(s, true)), h + 1);
      }
    case RightOf(up, s, p, pr) =>
      if s.red {
        SettleRightRedBlack(RightOf(up, s.left, s.node, false), s.right, p, true, t, h);
      } else if IsRed(s.left) || IsRed(s.right) || pr {
        SettleRightRedBlack(up, s, p, pr, t, h);
      } else {
        FixRemoveRedBlack(up, Bin(Paint(s, true), p, false, t), h + 1);
      }
  }

  /** t without its first node. */
  function DropFirst<T>(t: Tree<T>): Tree<T>
    requires t.Bin?
  {
    if t.left.Leaf? then t.right else Bin(DropFirst(t.left), t.node, t.red, t.right)
  }

  function FirstNode<T>(t: Tree<T>): T
    requires t.Bin?
  {
    if t.left.Leaf? then t.node else FirstNode(t.left)
  }

  lemma {:induction false} FirstNodeFocus<T>(c: Ctx<T>, t: Tree<T>)
    requires t.Bin?
    ensures FirstPlace(c, t).node == FirstNode(t)
    ensures Plug(FirstPlace(c, t).up, FirstPlace(c, t).sibling) == Plug(c, DropFirst(t))
    ensures [FirstNode(t)] + InOrder(DropFirst(t)) == InOrder(t)
    decreases t
  {
    if t.left.Bin? {
      FirstNodeFocus(LeftOf(c, t.node, t.red, t.right), t.left);
      var x, d := [FirstNode(t)], InOrder(DropFirst(t.left));
      assert x + (d + [t.node] + InOrder(t.right)) == (x + d) + [t.node] + InOrder(t.right);
    }
  }

  /** The descent to the first node does not look at the frames above it. */
  lemma {:induction false} FirstPlaceRebase<T>(c: Ctx<T>, d: Ctx<T>, t: Tree<T>)
    requires t.Bin?
    ensures FirstPlace(c, t).sibling == FirstPlace(d, t).sibling && FirstPlace(c, t).red == FirstPlace(d, t).red
    ensures t.left.Leaf? ==> FirstPlace(c, t).up == c
    ensures t.left.Bin? ==> FirstPlace(c, t).up.LeftOf? && FirstPlace(d, t).up.LeftOf?
                            && FirstPlace(c, t).up.node == FirstPlace(d, t).up.node
    decreases t
  {
    if t.left.Bin? {
      FirstPlaceRebase(LeftOf(c, t.node, t.red, t.right), LeftOf(d, t.node, t.red, t.right), t.left);
    }
  }

  lemma {:induction false} FirstNodeBalanced<T>(c: Ctx<T>, t: Tree<T>, h: nat)
    requires t.Bin? && Balanced(t, h) && Accepts(c, h, t.red)
    ensures var f := FirstPlace(c, t);
            Accepts(f.up, if f.red then 0 else 1, f.red) && Balanced(f.sibling, 0) && (f.red ==> !IsRed(f.sibling))
    decreases t
  {
    var k := if t.red then h else h - 1;
    if t.left.Bin? {
      FirstNodeBalanced(LeftOf(c, t.node, t.red, t.right), t.left, k);
    }
  }

  /** What is left when a node has been cut out: the place of the gap, the subtree now there, and
      the colour of the node whose place it took. */
  datatype Gap<T> = Gap(ctx: Ctx<T>, tree: Tree<T>, red: bool)

  /** Cut the root of t out; with two children, its successor takes its place and colour. */
  function Splice<T>(c: Ctx<T>, t: Tree<T>): Gap<T>
    requires t.Bin?
  {
    if t.left.Leaf? then Gap(c, t.right, t.red)
    else if t.right.Leaf? then Gap(c, t.left, t.red)
    else
      var f := FirstPlace(RightOf(c, t.left, FirstNode(t.right), t.red), t.right);
      Gap(f.up, f.sibling, f.red)
  }

  function RemoveRoot<T>(c: Ctx<T>, t: Tree<T>): Tree<T>
    requires t.Bin?
  {
    var g := Splice(c, t);
    if g.red then Plug(g.ctx, g.tree)
    else if IsRed(g.tree) then Plug(g.ctx, Paint(g.tree, false))
    else FixRemove(g.ctx, g.tree)
  }

  lemma SpliceOrder<T>(c: Ctx<T>, t: Tree<T>)
    requires t.Bin?
    ensures InOrder(Plug(Splice(c, t).ctx, Splice(c, t).tree))
              == Before(c) + (InOrder(t.left) + InOrder(t.right)) + After(c)
  {
    hide InOrder, Before, After, Plug;
    InOrderOfLeaf<T>();
    if t.left.Leaf? {
      InOrderOfPlug(c, t.right);
      assert [] + InOrder(t.right) == InOrder(t.right);
    } else if t.right.Leaf? {
      InOrderOfPlug(c, t.left);
      assert InOrder(t.left) + [] == InOrder(t.left);
    } else {
      var next, rest := FirstNode(t.right), DropFirst(t.right);
      FirstNodeFocus(RightOf(c, t.left, next, t.red), t.right);
      PlugRight(c, t.left, next, t.red, rest);
      InOrderOfPlug(c, Bin(t.left, next, t.red, rest));
      assert InOrder(t.left) + [next] + InOrder(rest) == InOrder(t.left) + ([next] + InOrder(rest));
    }
  }

  lemma InOrderOfLeaf<T>()
    ensures InOrder<T>(Leaf) == []
  {
  }

  lemma PlugRight<T>(c: Ctx<T>, l: Tree<T>, n: T, red: bool, r: Tree<T>)
    ensures Plug(RightOf(c, l, n, red), r) == Plug(c, Bin(l, n, red, r))
    ensures InOrder(Bin(l, n, red, r)) == InOrder(l) + [n] + InOrder(r)
  {
  }

  /** Removal takes exactly the root of t out of the sequence. */
  lemma RemoveRootOrder<T>(c: Ctx<T>, t: Tree<T>)
    requires t.Bin?
    ensures InOrder(RemoveRoot(c, t)) == Before(c) + (InOrder(t.left) + InOrder(t.right)) + After(c)
    ensures InOrder(Plug(c, t)) == Before(c) + (InOrder(t.left) + [t.node] + InOrder(t.right)) + After(c)
  {
    var g := Splice(c, t);
    SpliceOrder(c, t);
    InOrderOfPlug(c, t);
    FixRemoveOrder(g.ctx, g.tree);
    SameOrder(g.ctx, g.tree, Paint(g.tree, false));
  }

  /** Cutting a node out of a red-black tree leaves a gap short of at most one black node. */
  lemma SpliceBalanced<T>(c: Ctx<T>, t: Tree<T>) returns (h: nat)
    requires t.Bin? && RedBlack(Plug(c, t))
    ensures Balanced(Splice(c, t).tree, h)
    ensures Accepts(Splice(c, t).ctx, if Splice(c, t).red then h else h + 1, Splice(c, t).red)
    ensures Splice(c, t).red ==> !IsRed(Splice(c, t).tree)
  {
    FocusBalanced(c, t);
    h := if t.red then BlackHeight(t) else BlackHeight(t) - 1;
    if t.left.Bin? && t.right.Bin? {
      var base := RightOf(c, t.left, FirstNode(t.right), t.red);
      assert Accepts(base, h, t.right.red);
      FirstNodeBalanced(base, t.right, h);
      h := 0;
    }
  }

  /** Removal keeps every red-black invariant. */
  lemma RemoveRootRedBlack<T>(c: Ctx<T>, t: Tree<T>)
    requires t.Bin? && RedBlack(Plug(c, t))
    ensures RedBlack(RemoveRoot(c, t))
  {
    var h := SpliceBalanced(c, t);
    var g := Splice(c, t);
    if g.red {
      AcceptsBlack(g.ctx, h, true);
      PlugRedBlack(g.ctx, g.tree, h);
    } else if IsRed(g.tree) {
      PlugRedBlack(g.ctx, Paint(g.tree, false), h + 1);
    } else {
      FixRemoveRedBlack(g.ctx, g.tree, h);
    }
  }
}
