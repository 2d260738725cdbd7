/** Red-black balance and in-order contents of shapes, and what putting a subtree back into
    its hole does to them. */
module RbColor {
  import opened Bits
  import opened RbShape

  ghost predicate IsRed(t: Shape) {
    t.Fork? && t.red
  }

  ghost predicate CtxRed(c: Ctx) {
    !c.Top? && c.red
  }

  /** Black nodes on the way to a leaf (the leftmost one; `Balanced` makes them all agree). */
  ghost function BlackHeight(t: Shape): nat {
    if t.Leaf? then 0 else BlackHeight(t.left) + if t.red then 0 else 1
  }

  /** No red node has a red child, and every path to a leaf passes as many black nodes. */
  ghost predicate Balanced(t: Shape) {
    t.Fork? ==>
      && Balanced(t.left) && Balanced(t.right)
      && BlackHeight(t.left) == BlackHeight(t.right)
      && (t.red ==> !IsRed(t.left) && !IsRed(t.right))
  }

  /** The context is balanced for a hole of black height `h`, and its topmost node is black. */
  ghost predicate BalancedCtx(c: Ctx, h: nat) {
    !c.Top? ==>
      && Balanced(c.other) && BlackHeight(c.other) == h
      && (c.red ==> !IsRed(c.other) && !CtxRed(c.up) && !c.up.Top?)
      && BalancedCtx(c.up, h + if c.red then 0 else 1)
  }

  ghost function InOrder(t: Shape): seq<Node> {
    if t.Leaf? then [] else InOrder(t.left) + [t.node] + InOrder(t.right)
  }

  /** The nodes that come before, and after, everything in the hole. */
  ghost function Before(c: Ctx): seq<Node> {
    match c
    case Top => []
    case InLeft(_, _, _, up) => Before(up)
    case InRight(n, _, o, up) => Before(up) + InOrder(o) + [n]
  }

  ghost function After(c: Ctx): seq<Node> {
    match c
    case Top => []
    case InLeft(n, _, o, up) => [n] + InOrder(o) + After(up)
    case InRight(_, _, _, up) => After(up)
  }

  ghost function Whole(c: Ctx, t: Shape): seq<Node> {
    Before(c) + InOrder(t) + After(c)
  }

  ghost predicate Sorted(s: seq<Node>) {
    forall i, j | 0 <= i < j < |s| :: s[i].key < s[j].key
  }

  lemma {:induction false} FillInOrder(c: Ctx, t: Shape)
    ensures InOrder(Fill(c, t)) == Whole(c, t)
  {
    match c
    case Top =>
      assert Whole(c, t) == InOrder(t);
    case InLeft(n, red, o, up) =>
      FillInOrder(up, Fork(n, red, t, o));
      assert Whole(up, Fork(n, red, t, o)) == Whole(c, t);
    case InRight(n, red, o, up) =>
      FillInOrder(up, Fork(n, red, o, t));
      assert Whole(up, Fork(n, red, o, t)) == Whole(c, t);
  }

  lemma {:induction false} FillBalanced(c: Ctx, t: Shape)
    requires Balanced(t) && BalancedCtx(c, BlackHeight(t))
    requires !(IsRed(t) && CtxRed(c))
    ensures Balanced(Fill(c, t))
    ensures c.Top? || !IsRed(Fill(c, t))
  {
    match c
    case Top =>
    case InLeft(n, red, o, up) => FillBalanced(up, Fork(n, red, t, o));
    case InRight(n, red, o, up) => FillBalanced(up, Fork(n, red, o, t));
  }

  lemma {:induction false} FillFork(c: Ctx, t: Shape)
    requires t.Fork?
    ensures Fill(c, t).Fork?
  {
    match c
    case Top =>
    case InLeft(n, red, o, up) => FillFork(up, Fork(n, red, t, o));
    case InRight(n, red, o, up) => FillFork(up, Fork(n, red, o, t));
  }

  /** A red hole whose parent is not red, with the topmost node painted black. */
  lemma FillPainted(c: Ctx, t: Shape)
    requires RedHole(c, t) && !CtxRed(c)
    ensures var s := Fill(c, t); s.Fork? && Balanced(Painted(s, false)) && InOrder(Painted(s, false)) == Whole(c, t)
  {
    FillFork(c, t);
    FillInOrder(c, t);
    PaintKeepsOrder(Fill(c, t), false);
    FillBalanced(c, t);
    assert Balanced(Painted(Fill(c, t), false));
  }

  /** `t` sits in `c` as a subtree of a balanced tree with a black root. */
  ghost predicate Fits(c: Ctx, t: Shape) {
    Balanced(t) && BalancedCtx(c, BlackHeight(t)) && (IsRed(t) ==> !CtxRed(c) && !c.Top?)
  }

  lemma RootFits(t: Shape, k: int)
    requires Balanced(t) && !IsRed(t)
    ensures Fits(Top, t) && Brackets(Top, k) && Whole(Top, t) == InOrder(t)
  {
  }

  lemma FitsDown(c: Ctx, t: Shape)
    requires Fits(c, t) && t.Fork?
    ensures Fits(InLeft(t.node, t.red, t.right, c), t.left)
    ensures Fits(InRight(t.node, t.red, t.left, c), t.right)
  {
  }

  /** Key `k` belongs into the hole. */
  ghost predicate Brackets(c: Ctx, k: int) {
    (forall n <- Before(c) :: n.key < k) && (forall n <- After(c) :: k < n.key)
  }

  lemma BracketsDown(c: Ctx, t: Shape, k: int)
    requires Brackets(c, k) && t.Fork? && Sorted(Whole(c, t))
    ensures k < t.node.key ==> Brackets(InLeft(t.node, t.red, t.right, c), k)
    ensures k > t.node.key ==> Brackets(InRight(t.node, t.red, t.left, c), k)
  {
    var w, p := Whole(c, t), |Before(c)| + |InOrder(t.left)|;
    assert w[p] == t.node;
    forall n | n in InOrder(t.left)
      ensures n.key < t.node.key
    {
      var i :| 0 <= i < |InOrder(t.left)| && InOrder(t.left)[i] == n;
      assert w[|Before(c)| + i] == n;
    }
    forall n | n in InOrder(t.right)
      ensures t.node.key < n.key
    {
      var i :| 0 <= i < |InOrder(t.right)| && InOrder(t.right)[i] == n;
      assert w[p + 1 + i] == n;
    }
  }

  lemma EmptyHole(c: Ctx)
    ensures Whole(c, Leaf) == Before(c) + After(c)
  {
  }

  /** The node at the hole's root closes the sequence of the nodes up to it. */
  lemma UpToRoot(c: Ctx, t: Shape)
    requires t.Fork? && Sorted(Whole(c, t))
    ensures var b := Before(InRight(t.node, t.red, t.left, c));
      t.node in b && forall n <- b :: n.key <= t.node.key
  {
    var b := Before(InRight(t.node, t.red, t.left, c));
    assert b == Before(c) + InOrder(t.left) + [t.node];
    assert b[|b| - 1] == t.node;
    assert Whole(c, t) == b + (InOrder(t.right) + After(c));
    forall n | n in b
      ensures n.key <= t.node.key
    {
      var i :| 0 <= i < |b| && b[i] == n;
      assert Whole(c, t)[i] == n && Whole(c, t)[|b| - 1] == t.node;
    }
  }

  lemma {:induction false} InOrderNodes(t: Shape, n: Node)
    ensures n in InOrder(t) <==> n in Nodes(t)
  {
    if t.Fork? {
      InOrderNodes(t.left, n);
      InOrderNodes(t.right, n);
    }
  }

  lemma SortedWith(s: seq<Node>, n: Node, t: seq<Node>)
    requires Sorted(s + t)
    requires (forall m <- s :: m.key < n.key) && (forall m <- t :: n.key < m.key)
    ensures Sorted(s + [n] + t)
  {
    var w := s + [n] + t;
    forall i, j | 0 <= i < j < |w|
      ensures w[i].key < w[j].key
    {
      assert i < |s| ==> w[i] == (s + t)[i];
      assert i > |s| ==> w[i] == (s + t)[i - 1];
      assert j < |s| ==> w[j] == (s + t)[j];
      assert j > |s| ==> w[j] == (s + t)[j - 1] && w[j] in t;
      assert i < |s| ==> w[i] in s;
    }
  }

  ghost function Depth(c: Ctx): nat {
    if c.Top? then 0 else 1 + Depth(c.up)
  }

  /** One step down moves a node from the subtree to its context. */
  lemma StepDown(c: Ctx, n: Node, red: bool, l: Shape, r: Shape)
    ensures Whole(InLeft(n, red, r, c), l) == Whole(c, Fork(n, red, l, r))
    ensures Whole(InRight(n, red, l, c), r) == Whole(c, Fork(n, red, l, r))
  {
  }

  lemma StepUp(c: Ctx, t: Shape)
    requires !c.Top?
    ensures Whole(c.up, Joined(c, t)) == Whole(c, t)
    ensures Whole(Across(c, t), c.other) == Whole(c, t)
  {
    var b, i, n, o, a := Before(c.up), InOrder(t), [c.node], InOrder(c.other), After(c.up);
    if c.InLeft? {
      Regroup(b, i, n, o, a);
      assert InOrder(Joined(c, t)) == i + n + o;
    } else {
      Regroup(b, o, n, i, a);
      assert InOrder(Joined(c, t)) == o + n + i;
    }
  }

  lemma Regroup<T>(b: seq<T>, l: seq<T>, n: seq<T>, r: seq<T>, a: seq<T>)
    ensures b + (l + n + r) + a == b + l + (n + r + a) == (b + l + n) + r + a
  {
  }

  lemma PaintKeepsOrder(t: Shape, red: bool)
    ensures InOrder(Painted(t, red)) == InOrder(t)
    ensures t.Fork? ==> BlackHeight(Painted(t, red)) == BlackHeight(t) + (if t.red then 1 else 0) - (if red then 1 else 0)
  {
  }

  lemma RotationOrder(x: Node, xr: bool, a: Shape, y: Node, yr: bool, b: Shape, d: Shape)
    ensures InOrder(Fork(x, xr, a, Fork(y, yr, b, d))) == InOrder(Fork(y, yr, Fork(x, xr, a, b), d))
  {
  }

  lemma RotationKeepsOrder(t: Shape)
    requires t.Fork?
    ensures t.right.Fork? ==> InOrder(RotL(t)) == InOrder(t)
    ensures t.left.Fork? ==> InOrder(RotR(t)) == InOrder(t)
  {
    hide InOrder;
    if t.right.Fork? {
      RotationOrder(t.node, t.red, t.left, t.right.node, t.right.red, t.right.left, t.right.right);
    }
    if t.left.Fork? {
      RotationOrder(t.left.node, t.left.red, t.left.left, t.node, t.red, t.left.right, t.right);
    }
  }

  // ---- the cases of the insertion fixup: a red node `t` below a red parent

  /** `t` is red, balanced, and fits its context but for a red parent. */
  ghost predicate RedHole(c: Ctx, t: Shape) {
    IsRed(t) && Balanced(t) && BalancedCtx(c, BlackHeight(t))
  }

  /** A red uncle: the grandparent becomes the red hole, two levels up. */
  ghost function RedUncleResult(c: Ctx, t: Shape): Shape
    requires CtxRed(c) && !c.up.Top?
  {
    Joined(c.up.(red := true, other := Painted(c.up.other, false)), Painted(Joined(c, t), false))
  }

  lemma RedUncle(c: Ctx, t: Shape)
    requires RedHole(c, t) && CtxRed(c) && IsRed(c.up.other)
    ensures RedHole(c.up.up, RedUncleResult(c, t)) && RedUncleResult(c, t).node == c.up.node
    ensures Whole(c.up.up, RedUncleResult(c, t)) == Whole(c, t)
  {
    var p, u := Joined(c, t), c.up.other;
    RedUncleBalance(c, t);
    RedUncleOrder(c.up, p);
    StepUp(c, t);
  }

  lemma RedUncleBalance(c: Ctx, t: Shape)
    requires RedHole(c, t) && CtxRed(c) && IsRed(c.up.other)
    ensures RedHole(c.up.up, RedUncleResult(c, t))
  {
    assert BalancedCtx(c.up, BlackHeight(t));
    assert Balanced(Painted(c.up.other, false));
    assert Balanced(Painted(Joined(c, t), false)) && BlackHeight(Painted(Joined(c, t), false)) == BlackHeight(t) + 1;
  }

  lemma RedUncleOrder(c: Ctx, p: Shape)
    requires !c.Top? && p.Fork?
    ensures Whole(c.up, Joined(c.(red := true, other := Painted(c.other, false)), Painted(p, false))) == Whole(c, p)
  {
    hide InOrder;
    PaintKeepsOrder(c.other, false);
    PaintKeepsOrder(p, false);
    var c' := c.(red := true, other := Painted(c.other, false));
    StepUp(c', Painted(p, false));
  }

  /** A black uncle on the right: the parent's subtree after the first rotation, if any. */
  ghost function StraightLeft(c: Ctx, t: Shape): Shape
    requires t.Fork? && !c.Top?
  {
    if c.InRight? then RotL(Joined(c, t)) else Joined(c, t)
  }

  ghost function StraightRight(c: Ctx, t: Shape): Shape
    requires t.Fork? && !c.Top?
  {
    if c.InLeft? then RotR(Joined(c, t)) else Joined(c, t)
  }

  /** The grandparent's subtree after both rotations. */
  ghost function BlackUncleResult(c: Ctx, t: Shape): Shape
    requires t.Fork? && CtxRed(c) && !c.up.Top?
  {
    if c.up.InLeft? then
      RotR(Fork(c.up.node, true, Painted(StraightLeft(c, t), false), c.up.other))
    else
      RotL(Fork(c.up.node, true, c.up.other, Painted(StraightRight(c, t), false)))
  }

  lemma BlackUncle(c: Ctx, t: Shape)
    requires RedHole(c, t) && CtxRed(c) && !IsRed(c.up.other)
    ensures var s := BlackUncleResult(c, t);
      && s.Fork? && !s.red && Whole(c.up.up, s) == Whole(c, t)
      && (c.up.InLeft? ==> s.left == StraightLeft(c, t).left && RedHole(InLeft(s.node, s.red, s.right, c.up.up), s.left))
      && (c.up.InRight? ==> s.right == StraightRight(c, t).right && RedHole(InRight(s.node, s.red, s.left, c.up.up), s.right))
  {
    BlackUncleBalance(c, t);
    BlackUncleOrder(c, t);
  }

  lemma BlackUncleBalance(c: Ctx, t: Shape)
    requires RedHole(c, t) && CtxRed(c) && !IsRed(c.up.other)
    ensures var s := BlackUncleResult(c, t);
      && s.Fork? && !s.red && Balanced(s) && BalancedCtx(c.up.up, BlackHeight(s))
      && (if c.up.InLeft? then IsRed(s.left) else IsRed(s.right))
  {
    hide Whole;
    assert BalancedCtx(c.up, BlackHeight(t));
    assert !c.up.red;
    if c.up.InLeft? {
      var p := StraightLeft(c, t);
      assert Balanced(p.left) && Balanced(p.right) && BlackHeight(p.left) == BlackHeight(p.right) == BlackHeight(t);
      assert IsRed(p.left) && !IsRed(p.right);
    } else {
      var p := StraightRight(c, t);
      assert Balanced(p.left) && Balanced(p.right) && BlackHeight(p.left) == BlackHeight(p.right) == BlackHeight(t);
      assert IsRed(p.right) && !IsRed(p.left);
    }
  }

  lemma BlackUncleOrder(c: Ctx, t: Shape)
    requires t.Fork? && CtxRed(c) && !c.up.Top?
    ensures Whole(c.up.up, BlackUncleResult(c, t)) == Whole(c, t)
  {
    hide InOrder;
    var p := Joined(c, t);
    RotationKeepsOrder(p);
    var s := if c.up.InLeft? then StraightLeft(c, t) else StraightRight(c, t);
    var q := Painted(s, false);
    PaintKeepsOrder(s, false);
    StepUp(c, t);
    StepUp(c.up, p);
    StepUp(c.up.(red := true), q);
    RotationKeepsOrder(Joined(c.up.(red := true), q));
  }

  // ---- the cases of the deletion fixup: a black subtree one black node short of its sibling

  ghost predicate Short(c: Ctx, t: Shape) {
    Balanced(t) && !IsRed(t) && BalancedCtx(c, BlackHeight(t) + 1)
  }

  /** A red sibling is rotated above the parent, which turns red: the hole one level deeper. */
  ghost function RedSiblingResult(c: Ctx): Ctx
    requires !c.Top? && c.other.Fork?
  {
    var s := c.other;
    if c.InLeft? then
      InLeft(c.node, true, s.left, InLeft(s.node, false, s.right, c.up))
    else
      InRight(c.node, true, s.right, InRight(s.node, false, s.left, c.up))
  }

  lemma RedSibling(c: Ctx, t: Shape)
    requires Short(c, t) && !c.Top? && IsRed(c.other)
    ensures Short(RedSiblingResult(c), t) && !IsRed(RedSiblingResult(c).other)
    ensures Whole(RedSiblingResult(c), t) == Whole(c, t)
    ensures var d := RedSiblingResult(c); !d.Top? && d.red && d.node == c.node
  {
    RedSiblingOrder(c, t);
  }

  lemma RedSiblingOrder(c: Ctx, t: Shape)
    requires !c.Top? && c.other.Fork?
    ensures Whole(RedSiblingResult(c), t) == Whole(c, t)
  {
    hide InOrder;
    var s, d := c.other, RedSiblingResult(c);
    StepUp(d, t);
    StepUp(d.up, Joined(d, t));
    StepUp(c, t);
    RotationKeepsColours(c, t);
  }

  lemma RotationKeepsColours(c: Ctx, t: Shape)
    requires !c.Top? && c.other.Fork?
    ensures var d := RedSiblingResult(c); InOrder(Joined(d.up, Joined(d, t))) == InOrder(Joined(c, t))
  {
    var s, d := c.other, RedSiblingResult(c);
    if c.InLeft? {
      RotationOrder(c.node, true, t, s.node, false, s.left, s.right);
    } else {
      RotationOrder(s.node, false, s.left, c.node, true, s.right, t);
    }
  }

  /** Sibling and its children black: the sibling turns red and the parent is short instead. */
  lemma BlackSibling(c: Ctx, t: Shape)
    requires Short(c, t) && !c.Top? && c.other.Fork?
    requires !c.other.red && !IsRed(c.other.left) && !IsRed(c.other.right)
    ensures var p := Joined(c.(other := Painted(c.other, true)), t);
      && Whole(c.up, p) == Whole(c, t)
      && (!c.red ==> Short(c.up, p))
      && (c.red ==> Fits(c.up, Painted(p, false)) && Whole(c.up, Painted(p, false)) == Whole(c, t))
  {
    var d := c.(other := Painted(c.other, true));
    var p := Joined(d, t);
    assert Balanced(Painted(c.other, true)) && BlackHeight(Painted(c.other, true)) == BlackHeight(t);
    PaintKeepsOrder(c.other, true);
    PaintKeepsOrder(p, false);
    assert Whole(d, t) == Whole(c, t);
    StepUp(d, t);
  }

  /** A sibling whose far child is black is rotated so that it gets a red far child. */
  ghost function FarRed(c: Ctx): Shape
    requires !c.Top? && c.other.Fork?
  {
    var s := c.other;
    if c.InLeft? && IsRed(s.left) && !IsRed(s.right) then
      RotR(s.(red := true, left := Painted(s.left, false)))
    else if c.InRight? && IsRed(s.right) && !IsRed(s.left) then
      RotL(s.(red := true, right := Painted(s.right, false)))
    else
      s
  }

  /** The parent's subtree after the sibling, with its red far child, took the parent's place. */
  ghost function FarRedResult(c: Ctx, t: Shape): Shape
    requires !c.Top? && c.other.Fork?
  {
    var s := c.other;
    if c.InLeft? then
      Fork(s.node, c.red, Fork(c.node, false, t, s.left), Painted(s.right, false))
    else
      Fork(s.node, c.red, Painted(s.left, false), Fork(c.node, false, s.right, t))
  }

  lemma FarRedSibling(c: Ctx, t: Shape)
    requires Short(c, t) && !c.Top? && c.other.Fork?
    requires !c.other.red && (IsRed(c.other.left) || IsRed(c.other.right))
    ensures var d := c.(other := FarRed(c));
      && d.other.Fork? && !d.other.red && Short(d, t) && Whole(d, t) == Whole(c, t)
      && (if c.InLeft? then IsRed(d.other.right) else IsRed(d.other.left))
  {
    FarRedBalance(c, t);
    FarRedOrder(c);
  }

  lemma FarRedBalance(c: Ctx, t: Shape)
    requires Short(c, t) && !c.Top? && c.other.Fork?
    requires !c.other.red && (IsRed(c.other.left) || IsRed(c.other.right))
    ensures var d := c.(other := FarRed(c));
      && d.other.Fork? && !d.other.red && Short(d, t)
      && (if c.InLeft? then IsRed(d.other.right) else IsRed(d.other.left))
  {
    var s := c.other;
    assert Balanced(s.left) && Balanced(s.right);
  }

  lemma FarRedOrder(c: Ctx)
    requires !c.Top? && c.other.Fork?
    ensures InOrder(FarRed(c)) == InOrder(c.other)
  {
    var s := c.other;
    if c.InLeft? && IsRed(s.left) && !IsRed(s.right) {
      var s' := s.(red := true, left := Painted(s.left, false));
      RotationKeepsOrder(s');
      PaintKeepsOrder(s.left, false);
      assert InOrder(s') == InOrder(s);
    } else if c.InRight? && IsRed(s.right) && !IsRed(s.left) {
      var s' := s.(red := true, right := Painted(s.right, false));
      RotationKeepsOrder(s');
      PaintKeepsOrder(s.right, false);
      assert InOrder(s') == InOrder(s);
    }
  }

  lemma FarRedTurn(c: Ctx, t: Shape)
    requires Short(c, t) && !c.Top? && c.other.Fork? && !c.other.red
    requires if c.InLeft? then IsRed(c.other.right) else IsRed(c.other.left)
    ensures Fits(c.up, FarRedResult(c, t))
    ensures Whole(c.up, FarRedResult(c, t)) == Whole(c, t)
  {
    var s := c.other;
    PaintKeepsOrder(s.left, false);
    PaintKeepsOrder(s.right, false);
    FarRedTurnBalance(c, t);
    FarRedTurnOrder(c, t);
    StepUp(c, t);
  }

  lemma FarRedTurnBalance(c: Ctx, t: Shape)
    requires Short(c, t) && !c.Top? && c.other.Fork? && !c.other.red
    requires if c.InLeft? then IsRed(c.other.right) else IsRed(c.other.left)
    ensures Fits(c.up, FarRedResult(c, t))
  {
    var s := c.other;
    assert Balanced(s.left) && Balanced(s.right) && BlackHeight(s.left) == BlackHeight(s.right) == BlackHeight(t);
    assert Balanced(Painted(s.left, false)) && Balanced(Painted(s.right, false));
  }

  lemma FarRedTurnOrder(c: Ctx, t: Shape)
    requires !c.Top? && c.other.Fork?
    ensures InOrder(FarRedResult(c, t)) == InOrder(Joined(c, t))
  {
    var s := c.other;
    PaintKeepsOrder(s.left, false);
    PaintKeepsOrder(s.right, false);
    if c.InLeft? {
      RotationOrder(c.node, false, t, s.node, c.red, s.left, Painted(s.right, false));
    } else {
      RotationOrder(s.node, c.red, Painted(s.left, false), c.node, false, s.right, t);
    }
  }

  lemma FitsFilled(c: Ctx, t: Shape)
    requires Fits(c, t)
    ensures Balanced(Fill(c, t)) && !IsRed(Fill(c, t)) && InOrder(Fill(c, t)) == Whole(c, t)
  {
    FillBalanced(c, t);
    FillInOrder(c, t);
  }

  // ---- taking a node out

  /** What is left below a node with at most one subtree. */
  ghost function Rest(t: Shape): Shape
    requires t.Fork?
  {
    if t.left.Fork? then t.left else t.right
  }

  lemma TakenOutBalance(c: Ctx, t: Shape)
    requires t.Fork? && Fits(c, t) && (t.left.Leaf? || t.right.Leaf?)
    ensures t.red ==> Fits(c, Rest(t))
    ensures !t.red && IsRed(Rest(t)) ==> Fits(c, Painted(Rest(t), false))
    ensures !t.red && !IsRed(Rest(t)) ==> Short(c, Rest(t))
  {
    assert Balanced(Rest(t));
    assert Balanced(Painted(Rest(t), false));
  }

  lemma TakenOutOrder(c: Ctx, t: Shape, w: seq<Node>, k: nat)
    requires t.Fork? && (t.left.Leaf? || t.right.Leaf?)
    requires w == Whole(c, t) && k == |Before(c)| + |InOrder(t.left)|
    ensures k < |w| && w[k] == t.node && Whole(c, Rest(t)) == w[..k] + w[k + 1..]
  {
    var a, x, b := Before(c), InOrder(Rest(t)), After(c);
    if t.left.Leaf? {
      assert InOrder(t.left) == [];
      assert InOrder(t) == [t.node] + x;
      hide InOrder, Before, After;
      assert w[..k] + w[k + 1..] == a + x + b;
    } else {
      assert InOrder(t.right) == [];
      assert InOrder(t) == x + [t.node];
      hide InOrder, Before, After;
      assert w[..k] + w[k + 1..] == a + x + b;
    }
  }

  lemma SortedWithout(s: seq<Node>, k: nat)
    requires Sorted(s) && k < |s|
    ensures Sorted(s[..k] + s[k + 1..])
  {
  }

  // ---- height

  ghost function Height(t: Shape): nat {
    if t.Leaf? then 0 else 1 + if Height(t.left) > Height(t.right) then Height(t.left) else Height(t.right)
  }

  lemma {:induction false} HeightByBlackHeight(t: Shape)
    requires Balanced(t)
    ensures Height(t) <= 2 * BlackHeight(t) + if IsRed(t) then 1 else 0
    ensures Pow2(BlackHeight(t)) <= |InOrder(t)| + 1
  {
    if t.Fork? {
      HeightByBlackHeight(t.left);
      HeightByBlackHeight(t.right);
    }
  }

  lemma {:induction false} Pow2Mono(m: nat, n: nat)
    requires m <= n
    ensures Pow2(m) <= Pow2(n)
  {
    if m < n {
      Pow2Mono(m, n - 1);
    }
  }

  /** Height at most 2 log2(count + 1). */
  lemma HeightBound(t: Shape)
    requires Balanced(t) && !IsRed(t)
    ensures Pow2(Height(t)) <= (|InOrder(t)| + 1) * (|InOrder(t)| + 1)
  {
    HeightByBlackHeight(t);
    var b := BlackHeight(t);
    Pow2Mono(Height(t), b + b);
    Pow2Add(b, b);
    Square(Pow2(b), |InOrder(t)| + 1);
  }

  lemma Square(x: nat, y: nat)
    requires x <= y
    ensures x * x <= y * y
  {
    assert x * x <= x * y <= y * y;
  }
}
