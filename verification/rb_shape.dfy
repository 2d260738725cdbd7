/** The values behind the red-black tree of rbtree.c: the nodes themselves, and the
    shapes (whole subtrees, and subtrees with a hole) their links describe. */
module RbShape {

  /** One `rbnode_t`.  The key never changes once the node exists; the compare
      function of the tree is the order of the integers. */
  class Node {
    const key: int
    var parent: Node
    var left: Node
    var right: Node
    var red: bool

    constructor (k: int)
      ensures key == k && parent == this && left == this && right == this && !red
    {
      key := k;
      parent, left, right := this, this, this;
      red := false;
    }
  }

  /** A subtree as a value: which node stands where, and its colour. */
  datatype Shape = Leaf | Fork(node: Node, red: bool, left: Shape, right: Shape)

  /** A tree with one subtree cut out, from the hole upwards: `InLeft` says the hole
      is the left child of `node`, whose right subtree is `other`. */
  datatype Ctx =
    | Top
    | InLeft(node: Node, red: bool, other: Shape, up: Ctx)
    | InRight(node: Node, red: bool, other: Shape, up: Ctx)

  ghost function Nodes(t: Shape): set<Node> {
    match t
    case Leaf => {}
    case Fork(n, _, l, r) => {n} + Nodes(l) + Nodes(r)
  }

  ghost function CtxNodes(c: Ctx): set<Node> {
    match c
    case Top => {}
    case InLeft(n, _, o, up) => {n} + Nodes(o) + CtxNodes(up)
    case InRight(n, _, o, up) => {n} + Nodes(o) + CtxNodes(up)
  }

  /** The node a link to the subtree points at; the sentinel stands for a leaf. */
  ghost function Root(t: Shape, nil: Node): Node {
    if t.Leaf? then nil else t.node
  }

  /** The parent of the hole. */
  ghost function Up(c: Ctx, nil: Node): Node {
    if c.Top? then nil else c.node
  }

  /** The root of the whole tree when the hole holds `hole`. */
  ghost function Base(c: Ctx, hole: Node): Node {
    if c.Top? then hole else Base(c.up, c.node)
  }

  /** The subtree put back into the hole. */
  ghost function Fill(c: Ctx, t: Shape): Shape {
    match c
    case Top => t
    case InLeft(n, red, o, up) => Fill(up, Fork(n, red, t, o))
    case InRight(n, red, o, up) => Fill(up, Fork(n, red, o, t))
  }

  /** The links and colour of one node, and those of all nodes, as values. */
  datatype Cell = Cell(parent: Node, left: Node, right: Node, red: bool)
  type Links = map<Node, Cell>

  /** Links, colours and parent links of a subtree hanging below `up` agree with its shape. */
  ghost predicate Linked(h: Links, t: Shape, up: Node, nil: Node) {
    match t
    case Leaf => true
    case Fork(n, red, l, r) =>
      && n != nil && n in h
      && h[n] == Cell(up, Root(l, nil), Root(r, nil), red)
      && n !in Nodes(l) && n !in Nodes(r) && Nodes(l) !! Nodes(r)
      && Linked(h, l, n, nil) && Linked(h, r, n, nil)
  }

  /** The same for everything around the hole, the hole itself holding `hole`. */
  ghost predicate LinkedCtx(h: Links, c: Ctx, hole: Node, nil: Node) {
    match c
    case Top => true
    case InLeft(n, red, o, up) =>
      && n != nil && n in h
      && h[n] == Cell(Up(up, nil), hole, Root(o, nil), red)
      && n !in Nodes(o) && n !in CtxNodes(up) && Nodes(o) !! CtxNodes(up)
      && Linked(h, o, n, nil) && LinkedCtx(h, up, n, nil)
    case InRight(n, red, o, up) =>
      && n != nil && n in h
      && h[n] == Cell(Up(up, nil), Root(o, nil), hole, red)
      && n !in Nodes(o) && n !in CtxNodes(up) && Nodes(o) !! CtxNodes(up)
      && Linked(h, o, n, nil) && LinkedCtx(h, up, n, nil)
  }

  /** `h'` gives every node of `s` the cell it has in `h`. */
  ghost predicate Same(h: Links, h': Links, s: set<Node>) {
    forall n <- s :: n in h && n in h' && h'[n] == h[n]
  }

  lemma {:induction false} LinkedFrame(h: Links, h': Links, t: Shape, up: Node, nil: Node)
    requires Linked(h, t, up, nil) && Same(h, h', Nodes(t))
    ensures Linked(h', t, up, nil)
  {
    if t.Fork? {
      LinkedFrame(h, h', t.left, t.node, nil);
      LinkedFrame(h, h', t.right, t.node, nil);
    }
  }

  lemma {:induction false} CtxFrame(h: Links, h': Links, c: Ctx, hole: Node, nil: Node)
    requires LinkedCtx(h, c, hole, nil) && Same(h, h', CtxNodes(c))
    ensures LinkedCtx(h', c, hole, nil)
  {
    if !c.Top? {
      LinkedFrame(h, h', c.other, c.node, nil);
      CtxFrame(h, h', c.up, c.node, nil);
    }
  }

  /** A subtree whose root was given the new parent `up'` hangs below `up'`. */
  lemma Moved(h: Links, h': Links, t: Shape, up: Node, up': Node, nil: Node)
    requires Linked(h, t, up, nil)
    requires t.Fork? ==> t.node in h' && h'[t.node] == h[t.node].(parent := up')
    requires t.Fork? ==> Same(h, h', Nodes(t) - {t.node})
    ensures Linked(h', t, up', nil)
  {
    if t.Fork? {
      LinkedFrame(h, h', t.left, t.node, nil);
      LinkedFrame(h, h', t.right, t.node, nil);
    }
  }

  /** The cell of the hole's parent after the hole was given to `hole`. */
  ghost predicate Rehung(h: Links, h': Links, c: Ctx, hole: Node) {
    match c
    case Top => true
    case InLeft(n, _, _, _) => n in h && n in h' && h'[n] == h[n].(left := hole)
    case InRight(n, _, _, _) => n in h && n in h' && h'[n] == h[n].(right := hole)
  }

  lemma CtxRehung(h: Links, h': Links, c: Ctx, hole: Node, hole': Node, nil: Node)
    requires LinkedCtx(h, c, hole, nil)
    requires Rehung(h, h', c, hole') && Same(h, h', CtxNodes(c) - {Up(c, nil)})
    ensures LinkedCtx(h', c, hole', nil)
  {
    if !c.Top? {
      LinkedFrame(h, h', c.other, c.node, nil);
      CtxNotNil(h, c.up, c.node, nil);
      CtxFrame(h, h', c.up, c.node, nil);
    }
  }

  lemma {:induction false} CtxNotNil(h: Links, c: Ctx, hole: Node, nil: Node)
    requires LinkedCtx(h, c, hole, nil)
    ensures nil !in CtxNodes(c)
  {
    if !c.Top? {
      NotNil(h, c.other, c.node, nil);
      CtxNotNil(h, c.up, c.node, nil);
    }
  }

  lemma {:induction false} NotNil(h: Links, t: Shape, up: Node, nil: Node)
    requires Linked(h, t, up, nil)
    ensures nil !in Nodes(t)
  {
    if t.Fork? {
      NotNil(h, t.left, t.node, nil);
      NotNil(h, t.right, t.node, nil);
    }
  }

  /** The heap below `root` is exactly the shape `t` in the context `c`. */
  ghost predicate Zipped(h: Links, root: Node, c: Ctx, t: Shape, nil: Node) {
    && nil !in Nodes(t) && nil !in CtxNodes(c)
    && Nodes(t) !! CtxNodes(c)
    && Linked(h, t, Up(c, nil), nil)
    && LinkedCtx(h, c, Root(t, nil), nil)
    && root == Base(c, Root(t, nil))
  }

  lemma RotatedLeft(h: Links, h': Links, up: Node, x: Node, xr: bool, a: Shape, y: Node, yr: bool, b: Shape, d: Shape, nil: Node)
    requires Linked(h, Fork(x, xr, a, Fork(y, yr, b, d)), up, nil)
    requires x in h' && h'[x] == Cell(y, Root(a, nil), Root(b, nil), xr)
    requires y in h' && h'[y] == Cell(up, x, Root(d, nil), yr)
    requires b.Fork? ==> b.node in h && b.node in h' && h'[b.node] == h[b.node].(parent := x)
    requires b.Fork? ==> Same(h, h', Nodes(b) - {b.node})
    requires Same(h, h', Nodes(a)) && Same(h, h', Nodes(d))
    ensures Linked(h', Fork(y, yr, Fork(x, xr, a, b), d), up, nil)
  {
    assert Linked(h, Fork(y, yr, b, d), x, nil);
    LinkedFrame(h, h', a, x, nil);
    LinkedFrame(h, h', d, y, nil);
    Moved(h, h', b, y, x, nil);
    assert Linked(h', Fork(x, xr, a, b), y, nil);
  }

  /** Outside the cells it names, `h'` is `h`. */
  ghost predicate Except(h: Links, h': Links, s: set<Node>) {
    h'.Keys == h.Keys && forall n <- h.Keys :: n !in s ==> h'[n] == h[n]
  }

  lemma RotatedNodes(x: Node, xr: bool, a: Shape, y: Node, yr: bool, b: Shape, d: Shape)
    ensures Nodes(Fork(x, xr, a, Fork(y, yr, b, d))) == {x, y} + Nodes(a) + Nodes(b) + Nodes(d)
    ensures Nodes(Fork(y, yr, Fork(x, xr, a, b), d)) == {x, y} + Nodes(a) + Nodes(b) + Nodes(d)
  {
  }

  lemma SubtreeRotatedLeft(h: Links, h': Links, up: Node, x: Node, xr: bool, a: Shape, y: Node, yr: bool, b: Shape, d: Shape, nil: Node)
    requires Linked(h, Fork(x, xr, a, Fork(y, yr, b, d)), up, nil)
    requires up !in Nodes(a) + Nodes(b) + Nodes(d) && nil !in Nodes(a) + Nodes(b) + Nodes(d)
    requires Nodes(a) + Nodes(b) + Nodes(d) <= h.Keys
    requires Except(h, h', {x, y, Root(b, nil), up})
    requires x in h' && h'[x] == Cell(y, Root(a, nil), Root(b, nil), xr)
    requires y in h' && h'[y] == Cell(up, x, Root(d, nil), yr)
    requires b.Fork? ==> b.node in h && b.node in h' && h'[b.node] == h[b.node].(parent := x)
    ensures Linked(h', Fork(y, yr, Fork(x, xr, a, b), d), up, nil)
  {
    assert Linked(h, Fork(y, yr, b, d), x, nil);
    RotatedLeft(h, h', up, x, xr, a, y, yr, b, d, nil);
  }

  /** What a left rotation at `x` does to the cells: `y` is the right child of `x`, `b` the
      left child of `y` and `p` the parent of `x`. */
  ghost predicate LeftRotation(h: Links, h': Links, root: Node, root': Node, x: Node, nil: Node)
    requires x in h && h[x].right in h
  {
    var y, b, p := h[x].right, h[h[x].right].left, h[x].parent;
    && Except(h, h', {x, y, b, p})
    && h'[x] == Cell(y, h[x].left, b, h[x].red)
    && h'[y] == Cell(p, x, h[y].right, h[y].red)
    && (b != nil ==> b in h && h'[b] == h[b].(parent := x))
    && (p != nil ==> p in h && (h[p].left == x ==> h'[p] == h[p].(left := y)) && (h[p].right == x ==> h'[p] == h[p].(right := y)))
    && root' == (if p == nil then y else root)
  }

  lemma ZipRotatedLeft(h: Links, h': Links, root: Node, root': Node, c: Ctx, x: Node, xr: bool, a: Shape, y: Node, yr: bool, b: Shape, d: Shape, nil: Node)
    requires Zipped(h, root, c, Fork(x, xr, a, Fork(y, yr, b, d)), nil)
    requires h.Keys == Nodes(Fork(x, xr, a, Fork(y, yr, b, d))) + CtxNodes(c)
    requires LeftRotation(h, h', root, root', x, nil)
    ensures Zipped(h', root', c, Fork(y, yr, Fork(x, xr, a, b), d), nil)
    ensures h'.Keys == Nodes(Fork(y, yr, Fork(x, xr, a, b), d)) + CtxNodes(c)
  {
    RotatedNodes(x, xr, a, y, yr, b, d);
    assert Linked(h, Fork(y, yr, b, d), x, nil);
    assert Up(c, nil) !in Nodes(a) + Nodes(b) + Nodes(d);
    SubtreeRotatedLeft(h, h', Up(c, nil), x, xr, a, y, yr, b, d, nil);
    assert Root(b, nil) !in CtxNodes(c);
    CtxRehung(h, h', c, x, y, nil);
  }

  lemma RotatedRight(h: Links, h': Links, up: Node, x: Node, xr: bool, a: Shape, y: Node, yr: bool, b: Shape, d: Shape, nil: Node)
    requires Linked(h, Fork(y, yr, Fork(x, xr, a, b), d), up, nil)
    requires x in h' && h'[x] == Cell(up, Root(a, nil), y, xr)
    requires y in h' && h'[y] == Cell(x, Root(b, nil), Root(d, nil), yr)
    requires b.Fork? ==> b.node in h && b.node in h' && h'[b.node] == h[b.node].(parent := y)
    requires b.Fork? ==> Same(h, h', Nodes(b) - {b.node})
    requires Same(h, h', Nodes(a)) && Same(h, h', Nodes(d))
    ensures Linked(h', Fork(x, xr, a, Fork(y, yr, b, d)), up, nil)
  {
    assert Linked(h, Fork(x, xr, a, b), y, nil);
    LinkedFrame(h, h', a, x, nil);
    LinkedFrame(h, h', d, y, nil);
    Moved(h, h', b, x, y, nil);
    assert Linked(h', Fork(y, yr, b, d), x, nil);
  }

  lemma SubtreeRotatedRight(h: Links, h': Links, up: Node, x: Node, xr: bool, a: Shape, y: Node, yr: bool, b: Shape, d: Shape, nil: Node)
    requires Linked(h, Fork(y, yr, Fork(x, xr, a, b), d), up, nil)
    requires up !in Nodes(a) + Nodes(b) + Nodes(d) && nil !in Nodes(a) + Nodes(b) + Nodes(d)
    requires Nodes(a) + Nodes(b) + Nodes(d) <= h.Keys
    requires Except(h, h', {x, y, Root(b, nil), up})
    requires x in h' && h'[x] == Cell(up, Root(a, nil), y, xr)
    requires y in h' && h'[y] == Cell(x, Root(b, nil), Root(d, nil), yr)
    requires b.Fork? ==> b.node in h && b.node in h' && h'[b.node] == h[b.node].(parent := y)
    ensures Linked(h', Fork(x, xr, a, Fork(y, yr, b, d)), up, nil)
  {
    assert Linked(h, Fork(x, xr, a, b), y, nil);
    RotatedRight(h, h', up, x, xr, a, y, yr, b, d, nil);
  }

  /** What a right rotation at `y` does to the cells: `x` is the left child of `y`, `b` the
      right child of `x` and `p` the parent of `y`. */
  ghost predicate RightRotation(h: Links, h': Links, root: Node, root': Node, y: Node, nil: Node)
    requires y in h && h[y].left in h
  {
    var x, b, p := h[y].left, h[h[y].left].right, h[y].parent;
    && Except(h, h', {x, y, b, p})
    && h'[y] == Cell(x, b, h[y].right, h[y].red)
    && h'[x] == Cell(p, h[x].left, y, h[x].red)
    && (b != nil ==> b in h && h'[b] == h[b].(parent := y))
    && (p != nil ==> p in h && (h[p].left == y ==> h'[p] == h[p].(left := x)) && (h[p].right == y ==> h'[p] == h[p].(right := x)))
    && root' == (if p == nil then x else root)
  }

  lemma ZipRotatedRight(h: Links, h': Links, root: Node, root': Node, c: Ctx, x: Node, xr: bool, a: Shape, y: Node, yr: bool, b: Shape, d: Shape, nil: Node)
    requires Zipped(h, root, c, Fork(y, yr, Fork(x, xr, a, b), d), nil)
    requires h.Keys == Nodes(Fork(y, yr, Fork(x, xr, a, b), d)) + CtxNodes(c)
    requires RightRotation(h, h', root, root', y, nil)
    ensures Zipped(h', root', c, Fork(x, xr, a, Fork(y, yr, b, d)), nil)
    ensures h'.Keys == Nodes(Fork(x, xr, a, Fork(y, yr, b, d))) + CtxNodes(c)
  {
    RotatedNodes(x, xr, a, y, yr, b, d);
    assert Linked(h, Fork(x, xr, a, b), y, nil);
    assert Up(c, nil) !in Nodes(a) + Nodes(b) + Nodes(d);
    SubtreeRotatedRight(h, h', Up(c, nil), x, xr, a, y, yr, b, d, nil);
    assert Root(b, nil) !in CtxNodes(c);
    CtxRehung(h, h', c, y, x, nil);
  }

  // ---- moving the hole, painting, hanging in and taking out

  lemma ZipLeft(h: Links, root: Node, c: Ctx, n: Node, red: bool, l: Shape, r: Shape, nil: Node)
    ensures Zipped(h, root, c, Fork(n, red, l, r), nil) == Zipped(h, root, InLeft(n, red, r, c), l, nil)
    ensures Nodes(Fork(n, red, l, r)) + CtxNodes(c) == Nodes(l) + CtxNodes(InLeft(n, red, r, c))
  {
  }

  lemma ZipRight(h: Links, root: Node, c: Ctx, n: Node, red: bool, l: Shape, r: Shape, nil: Node)
    ensures Zipped(h, root, c, Fork(n, red, l, r), nil) == Zipped(h, root, InRight(n, red, l, c), r, nil)
    ensures Nodes(Fork(n, red, l, r)) + CtxNodes(c) == Nodes(r) + CtxNodes(InRight(n, red, l, c))
  {
  }

  /** The hole one level up, and the hole at the sibling. */
  ghost function Joined(c: Ctx, t: Shape): Shape
    requires !c.Top?
  {
    if c.InLeft? then Fork(c.node, c.red, t, c.other) else Fork(c.node, c.red, c.other, t)
  }

  ghost function Across(c: Ctx, t: Shape): Ctx
    requires !c.Top?
  {
    if c.InLeft? then InRight(c.node, c.red, t, c.up) else InLeft(c.node, c.red, t, c.up)
  }

  /** The subtree whose root is pulled up to be the left, or the right, child's parent. */
  ghost function RotL(t: Shape): Shape
    requires t.Fork? && t.right.Fork?
  {
    Fork(t.right.node, t.right.red, Fork(t.node, t.red, t.left, t.right.left), t.right.right)
  }

  ghost function RotR(t: Shape): Shape
    requires t.Fork? && t.left.Fork?
  {
    Fork(t.left.node, t.left.red, t.left.left, Fork(t.node, t.red, t.left.right, t.right))
  }

  ghost function Painted(t: Shape, red: bool): Shape {
    if t.Leaf? then t else t.(red := red)
  }

  lemma ZipUp(h: Links, root: Node, c: Ctx, t: Shape, nil: Node)
    requires !c.Top?
    ensures Zipped(h, root, c, t, nil) == Zipped(h, root, c.up, Joined(c, t), nil)
    ensures Nodes(Joined(c, t)) + CtxNodes(c.up) == Nodes(t) + CtxNodes(c)
  {
    if c.InLeft? {
      ZipLeft(h, root, c.up, c.node, c.red, t, c.other, nil);
    } else {
      ZipRight(h, root, c.up, c.node, c.red, c.other, t, nil);
    }
  }

  lemma ZipAcross(h: Links, root: Node, c: Ctx, t: Shape, nil: Node)
    requires !c.Top?
    ensures Zipped(h, root, c, t, nil) == Zipped(h, root, Across(c, t), c.other, nil)
    ensures Nodes(c.other) + CtxNodes(Across(c, t)) == Nodes(t) + CtxNodes(c)
  {
    ZipUp(h, root, c, t, nil);
    ZipUp(h, root, Across(c, t), c.other, nil);
  }

  lemma {:induction false} ZipFill(h: Links, root: Node, c: Ctx, t: Shape, nil: Node)
    requires Zipped(h, root, c, t, nil)
    ensures Zipped(h, root, Top, Fill(c, t), nil)
    ensures Nodes(Fill(c, t)) == Nodes(t) + CtxNodes(c)
  {
    match c
    case Top =>
    case InLeft(n, red, o, up) =>
      ZipLeft(h, root, up, n, red, t, o, nil);
      ZipFill(h, root, up, Fork(n, red, t, o), nil);
    case InRight(n, red, o, up) =>
      ZipRight(h, root, up, n, red, o, t, nil);
      ZipFill(h, root, up, Fork(n, red, o, t), nil);
  }

  lemma ZipPainted(h: Links, h': Links, root: Node, c: Ctx, t: Shape, red: bool, nil: Node)
    requires Zipped(h, root, c, t, nil) && t.Fork?
    requires Nodes(t) + CtxNodes(c) <= h.Keys
    requires Except(h, h', {t.node}) && h'[t.node] == h[t.node].(red := red)
    ensures Zipped(h', root, c, t.(red := red), nil)
  {
    assert Same(h, h', Nodes(t.left)) && Same(h, h', Nodes(t.right)) && Same(h, h', CtxNodes(c));
    assert h[t.node] == Cell(Up(c, nil), Root(t.left, nil), Root(t.right, nil), t.red);
    LinkedFrame(h, h', t.left, t.node, nil);
    LinkedFrame(h, h', t.right, t.node, nil);
    assert Linked(h', t.(red := red), Up(c, nil), nil);
    CtxFrame(h, h', c, t.node, nil);
    assert Nodes(t.(red := red)) == Nodes(t);
    hide Linked, LinkedCtx, Same, Except, Nodes, CtxNodes;
  }

  lemma ZipHungIn(h: Links, h': Links, root: Node, root': Node, c: Ctx, n: Node, nil: Node)
    requires Zipped(h, root, c, Leaf, nil) && h.Keys == CtxNodes(c)
    requires n !in h && n != nil && h'.Keys == h.Keys + {n}
    requires Same(h, h', CtxNodes(c) - {Up(c, nil)})
    requires h'[n] == Cell(Up(c, nil), nil, nil, true)
    requires Rehung(h, h', c, n) && root' == (if c.Top? then n else root)
    ensures Zipped(h', root', c, Fork(n, true, Leaf, Leaf), nil)
  {
    CtxRehung(h, h', c, nil, n, nil);
  }

  /** What taking out `n` does to the cells: `x`, its only child or the sentinel, moves up. */
  ghost predicate TakenOut(h: Links, h': Links, root: Node, root': Node, n: Node, x: Node, nil: Node)
    requires n in h
  {
    var p := h[n].parent;
    && h'.Keys == h.Keys - {n}
    && (forall m <- h'.Keys :: m != p && m != x ==> h'[m] == h[m])
    && (x != nil ==> x in h && x in h' && h'[x] == h[x].(parent := p))
    && (p != nil ==> p in h && p in h' && (h[p].left == n ==> h'[p] == h[p].(left := x)) && (h[p].right == n ==> h'[p] == h[p].(right := x)))
    && root' == (if p == nil then x else root)
  }

  lemma ZipTakenOut(h: Links, h': Links, root: Node, root': Node, c: Ctx, t: Shape, x: Shape, nil: Node)
    requires Zipped(h, root, c, t, nil) && h.Keys == Nodes(t) + CtxNodes(c)
    requires t.Fork? && ((t.left.Leaf? && x == t.right) || (t.right.Leaf? && x == t.left))
    requires TakenOut(h, h', root, root', t.node, Root(x, nil), nil)
    ensures Zipped(h', root', c, x, nil) && h'.Keys == Nodes(x) + CtxNodes(c)
  {
    assert Nodes(t) == {t.node} + Nodes(x) && t.node !in Nodes(x);
    assert Root(x, nil) !in CtxNodes(c);
    hide Nodes, CtxNodes;
    SubtreeTakenOut(h, h', root, root', Up(c, nil), t, x, nil);
    CtxTakenOut(h, h', root, root', c, t.node, Root(x, nil), nil);
  }

  lemma CtxTakenOut(h: Links, h': Links, root: Node, root': Node, c: Ctx, n: Node, x: Node, nil: Node)
    requires LinkedCtx(h, c, n, nil) && CtxNodes(c) <= h.Keys && root == Base(c, n)
    requires n in h && n !in CtxNodes(c) && x !in CtxNodes(c) && nil !in CtxNodes(c) && h[n].parent == Up(c, nil)
    requires TakenOut(h, h', root, root', n, x, nil)
    ensures LinkedCtx(h', c, x, nil) && root' == Base(c, x)
  {
    assert Rehung(h, h', c, x);
    SameOthers(h, h', CtxNodes(c) - {Up(c, nil)}, Up(c, nil), x);
    hide LinkedCtx, Same, Rehung, TakenOut;
    CtxRehung(h, h', c, n, x, nil);
  }

  lemma SubtreeTakenOut(h: Links, h': Links, root: Node, root': Node, up: Node, t: Shape, x: Shape, nil: Node)
    requires Linked(h, t, up, nil) && up !in Nodes(t) && nil !in Nodes(t) && Nodes(t) <= h.Keys
    requires t.Fork? && ((t.left.Leaf? && x == t.right) || (t.right.Leaf? && x == t.left))
    requires TakenOut(h, h', root, root', t.node, Root(x, nil), nil)
    ensures Linked(h', x, up, nil)
  {
    assert Linked(h, x, t.node, nil);
    SameOthers(h, h', Nodes(x) - {Root(x, nil)}, up, Root(x, nil));
    hide Same;
    Moved(h, h', x, t.node, up, nil);
  }

  lemma SameOthers(h: Links, h': Links, s: set<Node>, p: Node, x: Node)
    requires s <= h'.Keys && s <= h.Keys && p !in s && x !in s
    requires forall m <- h'.Keys :: m != p && m != x ==> m in h && h'[m] == h[m]
    ensures Same(h, h', s)
  {
  }
}