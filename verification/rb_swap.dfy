/** Exchanging two nodes of a tree: every pointer to one becomes a pointer to the other. */
module RbSwap {
  import opened RbShape
  import opened RbColor

  ghost function Swap(n: Node, a: Node, b: Node): Node {
    if n == a then b else if n == b then a else n
  }

  ghost function SwapCell(c: Cell, a: Node, b: Node): Cell {
    Cell(Swap(c.parent, a, b), Swap(c.left, a, b), Swap(c.right, a, b), c.red)
  }

  /** `h'` is `h` with the two nodes exchanged; colours stay at their place in the tree. */
  ghost predicate Swapped(h: Links, h': Links, a: Node, b: Node) {
    h'.Keys == h.Keys && a in h && b in h && forall n <- h.Keys :: h'[Swap(n, a, b)] == SwapCell(h[n], a, b)
  }

  lemma SwappedIs(h: Links, h': Links, a: Node, b: Node)
    requires h'.Keys == h.Keys && a in h && b in h && h'[a] == SwapCell(h[b], a, b) && h'[b] == SwapCell(h[a], a, b)
    requires forall n <- h.Keys :: n != a && n != b ==> h'[n] == SwapCell(h[n], a, b)
    ensures Swapped(h, h', a, b)
  {
  }

  ghost function SwapShape(t: Shape, a: Node, b: Node): Shape {
    match t
    case Leaf => Leaf
    case Fork(n, red, l, r) => Fork(Swap(n, a, b), red, SwapShape(l, a, b), SwapShape(r, a, b))
  }

  ghost function SwapCtx(c: Ctx, a: Node, b: Node): Ctx {
    match c
    case Top => Top
    case InLeft(n, red, o, up) => InLeft(Swap(n, a, b), red, SwapShape(o, a, b), SwapCtx(up, a, b))
    case InRight(n, red, o, up) => InRight(Swap(n, a, b), red, SwapShape(o, a, b), SwapCtx(up, a, b))
  }

  ghost function SwapSeq(s: seq<Node>, a: Node, b: Node): seq<Node> {
    seq(|s|, i requires 0 <= i < |s| => Swap(s[i], a, b))
  }

  ghost function SwapSet(s: set<Node>, a: Node, b: Node): set<Node> {
    set n | n in s :: Swap(n, a, b)
  }

  lemma SwapSetFacts(s: set<Node>, t: set<Node>, n: Node, a: Node, b: Node)
    ensures SwapSet(s + t, a, b) == SwapSet(s, a, b) + SwapSet(t, a, b)
    ensures SwapSet({n} + s, a, b) == {Swap(n, a, b)} + SwapSet(s, a, b)
    ensures n !in s ==> Swap(n, a, b) !in SwapSet(s, a, b)
    ensures s !! t ==> SwapSet(s, a, b) !! SwapSet(t, a, b)
    ensures SwapSet({}, a, b) == {}
  {
  }

  lemma {:induction false} SwapNodes(t: Shape, a: Node, b: Node)
    ensures Nodes(SwapShape(t, a, b)) == SwapSet(Nodes(t), a, b)
  {
    hide SwapSet, Swap;
    if t.Fork? {
      SwapNodes(t.left, a, b);
      SwapNodes(t.right, a, b);
      SwapSetFacts({t.node} + Nodes(t.left), Nodes(t.right), t.node, a, b);
      SwapSetFacts(Nodes(t.left), {}, t.node, a, b);
    } else {
      SwapSetFacts({}, {}, a, a, b);
    }
  }

  lemma {:induction false} SwapCtxNodes(c: Ctx, a: Node, b: Node)
    ensures CtxNodes(SwapCtx(c, a, b)) == SwapSet(CtxNodes(c), a, b)
  {
    hide SwapSet, Swap;
    if !c.Top? {
      SwapNodes(c.other, a, b);
      SwapCtxNodes(c.up, a, b);
      SwapSetFacts({c.node} + Nodes(c.other), CtxNodes(c.up), c.node, a, b);
      SwapSetFacts(Nodes(c.other), {}, c.node, a, b);
    } else {
      SwapSetFacts({}, {}, a, a, b);
    }
  }

  /** The sentinel is neither of the two. */
  lemma SwapRoot(t: Shape, nil: Node, a: Node, b: Node)
    requires nil !in {a, b}
    ensures Root(SwapShape(t, a, b), nil) == Swap(Root(t, nil), a, b)
    ensures Swap(nil, a, b) == nil
    ensures forall n: Node :: n != nil ==> Swap(n, a, b) != nil
  {
  }

  lemma {:induction false} SwapLinked(h: Links, h': Links, t: Shape, up: Node, nil: Node, a: Node, b: Node)
    requires Linked(h, t, up, nil) && Swapped(h, h', a, b) && nil !in {a, b}
    ensures Linked(h', SwapShape(t, a, b), Swap(up, a, b), nil)
  {
    if t.Fork? {
      SwapLinked(h, h', t.left, t.node, nil, a, b);
      SwapLinked(h, h', t.right, t.node, nil, a, b);
      hide Swap, SwapSet;
      SwapNodes(t.left, a, b);
      SwapNodes(t.right, a, b);
      SwapRoot(t.left, nil, a, b);
      SwapRoot(t.right, nil, a, b);
      SwapSetFacts(Nodes(t.left), Nodes(t.right), t.node, a, b);
      SwapSetFacts(Nodes(t.right), {}, t.node, a, b);
      SwapKeys(h, h', t.node, a, b);
    }
  }

  lemma SwapKeys(h: Links, h': Links, n: Node, a: Node, b: Node)
    requires Swapped(h, h', a, b) && n in h
    ensures Swap(n, a, b) in h' && h'[Swap(n, a, b)] == SwapCell(h[n], a, b)
  {
  }

  lemma {:induction false} SwapLinkedCtx(h: Links, h': Links, c: Ctx, hole: Node, nil: Node, a: Node, b: Node)
    requires LinkedCtx(h, c, hole, nil) && Swapped(h, h', a, b) && nil !in {a, b}
    ensures LinkedCtx(h', SwapCtx(c, a, b), Swap(hole, a, b), nil)
  {
    if !c.Top? {
      SwapLinked(h, h', c.other, c.node, nil, a, b);
      SwapLinkedCtx(h, h', c.up, c.node, nil, a, b);
      hide Swap, SwapSet, Swapped;
      SwapNodes(c.other, a, b);
      SwapCtxNodes(c.up, a, b);
      SwapRoot(c.other, nil, a, b);
      assert Up(SwapCtx(c.up, a, b), nil) == Swap(Up(c.up, nil), a, b);
      SwapSetFacts(Nodes(c.other), CtxNodes(c.up), c.node, a, b);
      SwapSetFacts(CtxNodes(c.up), {}, c.node, a, b);
      SwapKeys(h, h', c.node, a, b);
    }
  }

  lemma {:induction false} SwapBase(c: Ctx, hole: Node, a: Node, b: Node)
    ensures Base(SwapCtx(c, a, b), Swap(hole, a, b)) == Swap(Base(c, hole), a, b)
  {
    if !c.Top? {
      SwapBase(c.up, c.node, a, b);
    }
  }

  lemma ZipSwapped(h: Links, h': Links, root: Node, root': Node, c: Ctx, t: Shape, nil: Node, a: Node, b: Node)
    requires Zipped(h, root, c, t, nil) && h.Keys == Nodes(t) + CtxNodes(c)
    requires Swapped(h, h', a, b) && root' == Swap(root, a, b)
    ensures Zipped(h', root', SwapCtx(c, a, b), SwapShape(t, a, b), nil)
    ensures h'.Keys == Nodes(SwapShape(t, a, b)) + CtxNodes(SwapCtx(c, a, b))
  {
    hide Linked, LinkedCtx, Swap, SwapSet, Nodes, CtxNodes;
    SwapLinked(h, h', t, Up(c, nil), nil, a, b);
    SwapLinkedCtx(h, h', c, Root(t, nil), nil, a, b);
    SwapBase(c, Root(t, nil), a, b);
    SwapRoot(t, nil, a, b);
    SwapNodes(t, a, b);
    SwapCtxNodes(c, a, b);
    SwapSetFacts(Nodes(t), CtxNodes(c), nil, a, b);
    SwapSetFacts(CtxNodes(c), {}, nil, a, b);
    SwapAll(h.Keys, a, b);
  }

  lemma SwapAll(s: set<Node>, a: Node, b: Node)
    requires a in s && b in s
    ensures SwapSet(s, a, b) == s
  {
    forall m | m in s
      ensures m in SwapSet(s, a, b)
    {
      assert Swap(Swap(m, a, b), a, b) == m;
    }
  }

  lemma {:induction false} SwapBalance(t: Shape, a: Node, b: Node)
    ensures BlackHeight(SwapShape(t, a, b)) == BlackHeight(t) && IsRed(SwapShape(t, a, b)) == IsRed(t)
    ensures Balanced(SwapShape(t, a, b)) == Balanced(t)
  {
    if t.Fork? {
      SwapBalance(t.left, a, b);
      SwapBalance(t.right, a, b);
    }
  }

  lemma {:induction false} SwapCtxBalance(c: Ctx, k: nat, a: Node, b: Node)
    ensures BalancedCtx(SwapCtx(c, a, b), k) == BalancedCtx(c, k)
  {
    if !c.Top? {
      SwapBalance(c.other, a, b);
      SwapCtxBalance(c.up, k + if c.red then 0 else 1, a, b);
    }
  }

  lemma SwapFits(c: Ctx, t: Shape, a: Node, b: Node)
    ensures Fits(SwapCtx(c, a, b), SwapShape(t, a, b)) == Fits(c, t)
  {
    SwapBalance(t, a, b);
    SwapCtxBalance(c, BlackHeight(t), a, b);
  }

  lemma {:induction false} SwapInOrder(t: Shape, a: Node, b: Node)
    ensures InOrder(SwapShape(t, a, b)) == SwapSeq(InOrder(t), a, b)
  {
    if t.Fork? {
      SwapInOrder(t.left, a, b);
      SwapInOrder(t.right, a, b);
    }
  }

  lemma {:induction false} SwapAround(c: Ctx, a: Node, b: Node)
    ensures Before(SwapCtx(c, a, b)) == SwapSeq(Before(c), a, b)
    ensures After(SwapCtx(c, a, b)) == SwapSeq(After(c), a, b)
  {
    if !c.Top? {
      SwapInOrder(c.other, a, b);
      SwapAround(c.up, a, b);
    }
  }

  /** Links come in pairs: a child names its parent and the parent names it, and no node is
      its own neighbour. */
  ghost predicate Paired(h: Links, root: Node, nil: Node) {
    && nil !in h
    && (forall n <- h.Keys :: h[n].left != nil ==> h[n].left in h && h[n].left != n && h[h[n].left].parent == n)
    && (forall n <- h.Keys :: h[n].right != nil ==> h[n].right in h && h[n].right != n && h[h[n].right].parent == n)
    && (forall n <- h.Keys :: h[n].left != nil ==> h[n].left != h[n].right)
    && (forall n <- h.Keys :: h[n].parent != nil ==> h[n].parent in h && h[n].parent != n && (h[h[n].parent].left == n || h[h[n].parent].right == n))
    && (forall n <- h.Keys :: h[n].parent == nil <==> n == root)
  }

  lemma {:induction false} PairedBelow(h: Links, t: Shape, up: Node, nil: Node, n: Node)
    requires Linked(h, t, up, nil) && n in Nodes(t) && up !in Nodes(t)
    ensures nil !in Nodes(t) && n in h
    ensures h[n].left != nil ==> h[n].left in Nodes(t) && h[n].left in h && h[n].left != n && h[h[n].left].parent == n && h[n].left != h[n].right
    ensures h[n].right != nil ==> h[n].right in Nodes(t) && h[n].right in h && h[n].right != n && h[h[n].right].parent == n
    ensures n == t.node ==> h[n].parent == up
    ensures n != t.node ==> h[n].parent in Nodes(t) && h[n].parent in h && h[n].parent != n && (h[h[n].parent].left == n || h[h[n].parent].right == n)
  {
    NotNil(h, t, up, nil);
    if n != t.node {
      if n in Nodes(t.left) {
        PairedBelow(h, t.left, t.node, nil, n);
      } else {
        PairedBelow(h, t.right, t.node, nil, n);
      }
    }
  }

  lemma TreePaired(h: Links, root: Node, t: Shape, nil: Node)
    requires Zipped(h, root, Top, t, nil) && h.Keys == Nodes(t)
    ensures Paired(h, root, nil)
  {
    forall n | n in h.Keys
      ensures h[n].left != nil ==> h[n].left in h && h[n].left != n && h[h[n].left].parent == n && h[n].left != h[n].right
      ensures h[n].right != nil ==> h[n].right in h && h[n].right != n && h[h[n].right].parent == n
      ensures h[n].parent != nil ==> h[n].parent in h && h[n].parent != n && (h[h[n].parent].left == n || h[h[n].parent].right == n)
      ensures h[n].parent == nil <==> n == root
    {
      PairedBelow(h, t, nil, nil, n);
    }
  }

  /** Exchanging two neighbours of a sequence without repetitions. */
  lemma SwapNeighbours(w: seq<Node>, i: nat)
    requires Sorted(w) && i + 1 < |w|
    ensures SwapSeq(w, w[i], w[i + 1]) == w[..i] + [w[i + 1], w[i]] + w[i + 2..]
  {
    var a, b := w[i], w[i + 1];
    forall k | 0 <= k < |w|
      ensures Swap(w[k], a, b) == (w[..i] + [b, a] + w[i + 2..])[k]
    {
      assert k != i ==> w[k].key != a.key;
      assert k != i + 1 ==> w[k].key != b.key;
    }
  }

  lemma SwapWhole(c: Ctx, t: Shape, a: Node, b: Node)
    ensures Whole(SwapCtx(c, a, b), SwapShape(t, a, b)) == SwapSeq(Whole(c, t), a, b)
    ensures |Before(SwapCtx(c, a, b))| == |Before(c)|
  {
    SwapAround(c, a, b);
    SwapInOrder(t, a, b);
  }
}
