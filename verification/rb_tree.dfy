module RbTree {
  import opened RbShape
  import opened RbColor
  import opened RbSwap

  class Tree {
    const nil: Node
    var root: Node
    var count: nat
    ghost var nodes: set<Node>
    ghost var shape: Shape

    constructor ()
      ensures Valid() && Contents() == [] && count == 0 && fresh(nil)
    {
      var sentinel := new Node(0);
      nil := sentinel;
      root := sentinel;
      count := 0;
      nodes := {};
      shape := Leaf;
    }

    /** The links and colours of the nodes in the tree. */
    ghost function Snap(): Links
      reads this`nodes, nodes
    {
      map n | n in nodes :: Cell(n.parent, n.left, n.right, n.red)
    }

    /** The heap below `root` is the shape `t` in the context `c`; the sentinel is as it was made. */
    ghost predicate At(c: Ctx, t: Shape)
      reads this`nodes, this`root, nodes, nil
    {
      && nil !in nodes && nodes == Nodes(t) + CtxNodes(c)
      && Zipped(Snap(), root, c, t, nil)
      && nil.parent == nil && nil.left == nil && nil.right == nil && !nil.red
    }

    ghost predicate Valid()
      reads this, nodes, nil
    {
      && At(Top, shape)
      && Balanced(shape) && !IsRed(shape)
      && Sorted(InOrder(shape))
      && count == |InOrder(shape)|
    }

    /** All nodes in ascending order. */
    ghost function Contents(): seq<Node>
      reads this
    {
      InOrder(shape)
    }

    lemma Look(c: Ctx, t: Shape)
      requires At(c, t)
      ensures t.Fork? ==> t.node in nodes && t.node != nil && t.node.parent == Up(c, nil) && t.node.red == t.red
      ensures t.Fork? ==> t.node.left == Root(t.left, nil) && t.node.right == Root(t.right, nil)
      ensures !c.Top? ==> c.node in nodes && c.node != nil && c.node.parent == Up(c.up, nil) && c.node.red == c.red
      ensures c.InLeft? ==> c.node.left == Root(t, nil) && c.node.right == Root(c.other, nil)
      ensures c.InRight? ==> c.node.right == Root(t, nil) && c.node.left == Root(c.other, nil)
      ensures !c.Top? && (t.Fork? || c.other.Fork?) ==> Root(t, nil) != Root(c.other, nil)
      ensures c.Top? <==> root == Root(t, nil)
    {
      var h := Snap();
      assert t.Fork? ==> h[t.node] == Cell(Up(c, nil), Root(t.left, nil), Root(t.right, nil), t.red);
      if !c.Top? {
        BaseInCtx(c, Root(t, nil));
      }
    }

    lemma {:induction false} BaseInCtx(c: Ctx, hole: Node)
      requires !c.Top?
      ensures Base(c, hole) in CtxNodes(c)
    {
      if !c.up.Top? {
        BaseInCtx(c.up, c.node);
      }
    }

    // ---- rotations

    /** The nodes a left rotation at `n` writes are there and distinct. */
    ghost predicate CanRotateLeft(n: Node)
      reads this, nodes
    {
      && nil !in nodes && n in nodes && n.right in nodes && n.right != n
      && (n.right.left == nil || (n.right.left in nodes && n.right.left !in {n, n.right}))
      && (n.parent == nil || (n.parent in nodes && n.parent !in {n, n.right, n.right.left} && n.parent.left != n.parent.right && (n.parent.left == n || n.parent.right == n)))
    }

    method RotateLeft(node: Node)
      requires CanRotateLeft(node)
      modifies this`root, nodes
      ensures var x, y, b, p := node, old(node.right), old(node.right.left), old(node.parent);
        && (x.parent == y && x.left == old(node.left) && x.right == b && x.red == old(node.red))
        && (y.parent == p && y.left == x && y.right == old(node.right.right) && y.red == old(node.right.red))
        && (b != nil ==> b.parent == x && b.left == old(node.right.left.left) && b.right == old(node.right.left.right) && b.red == old(node.right.left.red))
        && (p != nil ==> p.parent == old(node.parent.parent) && p.red == old(node.parent.red))
        && (p != nil && old(node.parent.left) == x ==> p.left == y && p.right == old(node.parent.right))
        && (p != nil && old(node.parent.right) == x ==> p.right == y && p.left == old(node.parent.left))
        && (forall n <- nodes | n !in {x, y, b, p} :: unchanged(n))
      ensures root == (if old(node.parent) == nil then old(node.right) else old(root))
    {
      var right := node.right;
      node.right := right.left;
      if right.left != nil {
        right.left.parent := node;
      }
      right.parent := node.parent;
      if node.parent != nil {
        if node == node.parent.left {
          node.parent.left := right;
        } else {
          node.parent.right := right;
        }
      } else {
        root := right;
      }
      right.left := node;
      node.parent := right;
    }

    method RotateLeftAt(node: Node, ghost c: Ctx, ghost t: Shape) returns (ghost t': Shape)
      requires At(c, t) && t.Fork? && t.node == node && t.right.Fork?
      modifies this`root, nodes
      ensures t' == Fork(t.right.node, t.right.red, Fork(node, t.red, t.left, t.right.left), t.right.right)
      ensures At(c, t')
    {
      hide Zipped, Nodes, CtxNodes;
      t' := Fork(t.right.node, t.right.red, Fork(node, t.red, t.left, t.right.left), t.right.right);
      LeftRotationSites(c, t);
      ghost var h := Snap();
      RotateLeft(node);
      assert LeftRotation(h, Snap(), old(root), root, node, nil);
      ZipRotatedLeft(h, Snap(), old(root), root, c, node, t.red, t.left, t.right.node, t.right.red, t.right.left, t.right.right, nil);
    }

    lemma LeftRotationSites(c: Ctx, t: Shape)
      requires At(c, t) && t.Fork? && t.right.Fork?
      ensures CanRotateLeft(t.node)
      ensures t.node.right == t.right.node && t.node.right.left == Root(t.right.left, nil) && t.node.parent == Up(c, nil)
    {
      Look(c, t);
      ZipRight(Snap(), root, c, t.node, t.red, t.left, t.right, nil);
      Look(InRight(t.node, t.red, t.left, c), t.right);
    }

    /** The nodes a right rotation at `n` writes are there and distinct. */
    ghost predicate CanRotateRight(n: Node)
      reads this, nodes
    {
      && nil !in nodes && n in nodes && n.left in nodes && n.left != n
      && (n.left.right == nil || (n.left.right in nodes && n.left.right !in {n, n.left}))
      && (n.parent == nil || (n.parent in nodes && n.parent !in {n, n.left, n.left.right} && n.parent.right != n.parent.left && (n.parent.right == n || n.parent.left == n)))
    }

    method RotateRight(node: Node)
      requires CanRotateRight(node)
      modifies this`root, nodes
      ensures var x, y, b, p := node, old(node.left), old(node.left.right), old(node.parent);
        && (x.parent == y && x.right == old(node.right) && x.left == b && x.red == old(node.red))
        && (y.parent == p && y.right == x && y.left == old(node.left.left) && y.red == old(node.left.red))
        && (b != nil ==> b.parent == x && b.right == old(node.left.right.right) && b.left == old(node.left.right.left) && b.red == old(node.left.right.red))
        && (p != nil ==> p.parent == old(node.parent.parent) && p.red == old(node.parent.red))
        && (p != nil && old(node.parent.right) == x ==> p.right == y && p.left == old(node.parent.left))
        && (p != nil && old(node.parent.left) == x ==> p.left == y && p.right == old(node.parent.right))
        && (forall n <- nodes | n !in {x, y, b, p} :: unchanged(n))
      ensures root == (if old(node.parent) == nil then old(node.left) else old(root))
    {
      var left := node.left;
      node.left := left.right;
      if left.right != nil {
        left.right.parent := node;
      }
      left.parent := node.parent;
      if node.parent != nil {
        if node == node.parent.right {
          node.parent.right := left;
        } else {
          node.parent.left := left;
        }
      } else {
        root := left;
      }
      left.right := node;
      node.parent := left;
    }

    method RotateRightAt(node: Node, ghost c: Ctx, ghost t: Shape) returns (ghost t': Shape)
      requires At(c, t) && t.Fork? && t.node == node && t.left.Fork?
      modifies this`root, nodes
      ensures t' == Fork(t.left.node, t.left.red, t.left.left, Fork(node, t.red, t.left.right, t.right))
      ensures At(c, t')
    {
      hide Zipped, Nodes, CtxNodes;
      t' := Fork(t.left.node, t.left.red, t.left.left, Fork(node, t.red, t.left.right, t.right));
      RightRotationSites(c, t);
      ghost var h := Snap();
      RotateRight(node);
      assert RightRotation(h, Snap(), old(root), root, node, nil);
      ZipRotatedRight(h, Snap(), old(root), root, c, t.left.node, t.left.red, t.left.left, node, t.red, t.left.right, t.right, nil);
    }

    lemma RightRotationSites(c: Ctx, t: Shape)
      requires At(c, t) && t.Fork? && t.left.Fork?
      ensures CanRotateRight(t.node)
      ensures t.node.left == t.left.node && t.node.left.right == Root(t.left.right, nil) && t.node.parent == Up(c, nil)
    {
      Look(c, t);
      ZipLeft(Snap(), root, c, t.node, t.red, t.left, t.right, nil);
      Look(InLeft(t.node, t.red, t.right, c), t.left);
    }

    method Paint(n: Node, red: bool, ghost c: Ctx, ghost t: Shape) returns (ghost t': Shape)
      requires At(c, t) && t.Fork? && t.node == n
      modifies n`red
      ensures t' == t.(red := red)
      ensures At(c, t')
    {
      ghost var h := Snap();
      t' := t.(red := red);
      n.red := red;
      ZipPainted(h, Snap(), root, c, t, red, nil);
    }

    // ---- moving the hole

    lemma GoUp(c: Ctx, t: Shape)
      requires At(c, t) && !c.Top?
      ensures At(c.up, Joined(c, t)) && Whole(c.up, Joined(c, t)) == Whole(c, t)
    {
      ZipUp(Snap(), root, c, t, nil);
      StepUp(c, t);
    }

    lemma GoAcross(c: Ctx, t: Shape)
      requires At(c, t) && !c.Top?
      ensures At(Across(c, t), c.other) && Whole(Across(c, t), c.other) == Whole(c, t)
    {
      ZipAcross(Snap(), root, c, t, nil);
      StepUp(c, t);
    }

    lemma GoDown(c: Ctx, t: Shape)
      requires At(c, t) && t.Fork?
      ensures At(InLeft(t.node, t.red, t.right, c), t.left) && At(InRight(t.node, t.red, t.left, c), t.right)
      ensures Whole(InLeft(t.node, t.red, t.right, c), t.left) == Whole(InRight(t.node, t.red, t.left, c), t.right) == Whole(c, t)
    {
      ZipLeft(Snap(), root, c, t.node, t.red, t.left, t.right, nil);
      ZipRight(Snap(), root, c, t.node, t.red, t.left, t.right, nil);
      StepDown(c, t.node, t.red, t.left, t.right);
    }

    // ---- insertion

    /** Red node, red parent, red uncle: parent and uncle turn black, the grandparent red. */
    method PaintRedUncle(node: Node, uncle: Node, ghost c: Ctx, ghost t: Shape)
      requires At(c, t) && t.Fork? && t.node == node && CtxRed(c) && !c.up.Top?
      requires c.up.other.Fork? && c.up.other.node == uncle
      modifies nodes`red
      ensures At(c.up.up, RedUncleResult(c, t))
    {
      hide Zipped, Snap;
      Look(c, t);
      GoUp(c, t);
      ghost var t1 := Paint(node.parent, false, c.up, Joined(c, t));
      GoAcross(c.up, t1);
      ghost var t2 := Paint(uncle, false, Across(c.up, t1), c.up.other);
      GoUp(Across(c.up, t1), t2);
      ghost var t3 := Joined(Across(c.up, t1), t2);
      Look(c.up.up, t3);
      assert c.InLeft? ==> t1.left == t;
      t3 := Paint(node.parent.parent, true, c.up.up, t3);
      assert t3 == RedUncleResult(c, t);
    }

    /** Red node, red parent that is a left child, black uncle. */
    method TurnRight(node: Node, ghost c: Ctx, ghost t: Shape) returns (node': Node)
      requires At(c, t) && t.Fork? && t.node == node && CtxRed(c) && c.up.InLeft?
      modifies this`root, nodes
      ensures At(c.up.up, BlackUncleResult(c, t)) && node' == StraightLeft(c, t).left.node
    {
      hide Zipped, Snap;
      Look(c, t);
      GoUp(c, t);
      Look(c.up, Joined(c, t));
      node' := node;
      ghost var p := Joined(c, t);
      if node == node.parent.right {
        node' := node.parent;
        p := RotateLeftAt(node', c.up, p);
      }
      assert p == StraightLeft(c, t) && p.left.Fork? && p.left.node == node';
      GoDown(c.up, p);
      Look(InLeft(p.node, p.red, p.right, c.up), p.left);
      ghost var q := Paint(node'.parent, false, c.up, p);
      GoUp(c.up, q);
      Look(c.up, q);
      assert node'.parent.parent == c.up.node;
      ghost var g := Paint(node'.parent.parent, true, c.up.up, Joined(c.up, q));
      g := RotateRightAt(node'.parent.parent, c.up.up, g);
    }

    /** Red node, red parent that is a right child, black uncle. */
    method TurnLeft(node: Node, ghost c: Ctx, ghost t: Shape) returns (node': Node)
      requires At(c, t) && t.Fork? && t.node == node && CtxRed(c) && c.up.InRight?
      modifies this`root, nodes
      ensures At(c.up.up, BlackUncleResult(c, t)) && node' == StraightRight(c, t).right.node
    {
      hide Zipped, Snap;
      Look(c, t);
      GoUp(c, t);
      Look(c.up, Joined(c, t));
      node' := node;
      ghost var p := Joined(c, t);
      if node == node.parent.left {
        node' := node.parent;
        p := RotateRightAt(node', c.up, p);
      }
      assert p == StraightRight(c, t) && p.right.Fork? && p.right.node == node';
      GoDown(c.up, p);
      Look(InRight(p.node, p.red, p.left, c.up), p.right);
      ghost var q := Paint(node'.parent, false, c.up, p);
      GoUp(c.up, q);
      Look(c.up, q);
      assert node'.parent.parent == c.up.node;
      ghost var g := Paint(node'.parent.parent, true, c.up.up, Joined(c.up, q));
      g := RotateLeftAt(node'.parent.parent, c.up.up, g);
    }

    lemma LookUp(c: Ctx, t: Shape)
      requires At(c, t) && RedHole(c, t) && CtxRed(c)
      ensures !c.up.Top? && c.node in nodes && t.node.parent == c.node && c.node.parent == c.up.node && c.up.node != nil
      ensures c.up.node in nodes && (c.up.node.left == c.node <==> c.up.InLeft?)
      ensures c.up.InLeft? ==> c.up.node.right == Root(c.up.other, nil)
      ensures c.up.InRight? ==> c.up.node.left == Root(c.up.other, nil)
      ensures Root(c.up.other, nil).red == IsRed(c.up.other)
    {
      Look(c, t);
      GoUp(c, t);
      Look(c.up, Joined(c, t));
      GoAcross(c.up, Joined(c, t));
      Look(Across(c.up, Joined(c, t)), c.up.other);
    }

    /** One turn of the loop below. */
    method FixupStep(node: Node, ghost c: Ctx, ghost t: Shape) returns (node': Node, ghost c': Ctx, ghost t': Shape)
      requires At(c, t) && RedHole(c, t) && t.node == node && CtxRed(c)
      modifies this`root, nodes
      ensures At(c', t') && RedHole(c', t') && t'.node == node'
      ensures Whole(c', t') == Whole(c, t) && Depth(c') < Depth(c)
    {
      hide Zipped, Snap, Whole, StraightLeft, StraightRight, BlackUncleResult, RedUncleResult, Balanced, BalancedCtx;
      LookUp(c, t);
      var uncle;
      if node.parent == node.parent.parent.left {
        uncle := node.parent.parent.right;
        if uncle.red {
          RedUncle(c, t);
          PaintRedUncle(node, uncle, c, t);
          node', c', t' := node.parent.parent, c.up.up, RedUncleResult(c, t);
        } else {
          BlackUncle(c, t);
          node' := TurnRight(node, c, t);
          ghost var s := BlackUncleResult(c, t);
          GoDown(c.up.up, s);
          c', t' := InLeft(s.node, s.red, s.right, c.up.up), s.left;
        }
      } else {
        uncle := node.parent.parent.left;
        if uncle.red {
          RedUncle(c, t);
          PaintRedUncle(node, uncle, c, t);
          node', c', t' := node.parent.parent, c.up.up, RedUncleResult(c, t);
        } else {
          BlackUncle(c, t);
          node' := TurnLeft(node, c, t);
          ghost var s := BlackUncleResult(c, t);
          GoDown(c.up.up, s);
          c', t' := InRight(s.node, s.red, s.left, c.up.up), s.right;
        }
      }
    }

    /** Restores the balance after `node` was hung in red; the order of the nodes is untouched. */
    method InsertFixup(node: Node, ghost c: Ctx, ghost t: Shape) returns (ghost s: Shape)
      requires At(c, t) && RedHole(c, t) && t.node == node
      modifies this`root, nodes
      ensures At(Top, s) && Balanced(s) && !IsRed(s)
      ensures InOrder(s) == Whole(c, t)
    {
      hide Zipped, Snap, Whole, Balanced, BalancedCtx, InOrder;
      var n := node;
      ghost var d, u := c, t;
      Look(d, u);
      while n != root && n.parent.red
        invariant At(d, u) && RedHole(d, u) && u.node == n
        invariant Whole(d, u) == Whole(c, t)
        decreases Depth(d)
      {
        Look(d, u);
        n, d, u := FixupStep(n, d, u);
      }
      Look(d, u);
      FillPainted(d, u);
      Settle(d, u);
      Look(Top, Fill(d, u));
      s := Paint(root, false, Top, Fill(d, u));
    }

    lemma Settle(c: Ctx, t: Shape)
      requires At(c, t)
      ensures At(Top, Fill(c, t))
    {
      ZipFill(Snap(), root, c, t, nil);
    }

    /** Hangs `data` in red below `parent`, in place of a leaf. */
    method HangIn(data: Node, parent: Node, goLeft: bool)
      requires data != nil && data != parent && data !in nodes
      requires parent == nil || parent in nodes
      modifies this, data, parent`left, parent`right
      ensures data.parent == parent && data.left == nil && data.right == nil && data.red
      ensures parent != nil ==> root == old(root) && (if goLeft then parent.left == data && parent.right == old(parent.right) else parent.right == data && parent.left == old(parent.left))
      ensures parent == nil ==> root == data && nil.left == old(nil.left) && nil.right == old(nil.right)
      ensures nodes == old(nodes) + {data} && count == old(count) + 1 && shape == old(shape)
    {
      data.parent := parent;
      data.left, data.right := nil, nil;
      data.red := true;
      count := count + 1;
      if parent != nil {
        if goLeft {
          parent.left := data;
        } else {
          parent.right := data;
        }
      } else {
        root := data;
      }
      nodes := nodes + {data};
    }

    method HangInAt(data: Node, parent: Node, goLeft: bool, ghost c: Ctx)
      requires At(c, Leaf) && data !in nodes && data != nil
      requires parent == Up(c, nil) && (!c.Top? ==> (goLeft <==> c.InLeft?))
      modifies this, nodes, data, nil
      ensures At(c, Fork(data, true, Leaf, Leaf))
      ensures nodes == old(nodes) + {data} && count == old(count) + 1 && shape == old(shape) && unchanged(nil)
    {
      ghost var h := Snap();
      Look(c, Leaf);
      assert nodes == CtxNodes(c);
      HangIn(data, parent, goLeft);
      assert Rehung(h, Snap(), c, data);
      ZipHungIn(h, Snap(), old(root), root, c, data, nil);
    }

    /** Walks down to the leaf where `key` belongs. */
    method FindSlot(key: int) returns (found: bool, parent: Node, goLeft: bool, ghost c: Ctx)
      requires Valid()
      ensures found ==> exists n <- Contents() :: n.key == key
      ensures !found ==> At(c, Leaf) && Fits(c, Leaf) && Whole(c, Leaf) == Contents() && Brackets(c, key)
      ensures !found ==> parent == Up(c, nil) && (!c.Top? ==> (goLeft <==> c.InLeft?))
    {
      hide Zipped, Snap, BalancedCtx, Before, After;
      RootFits(shape, key);
      var node := root;
      found, parent, goLeft, c := false, nil, false, Top;
      ghost var t := shape;
      Look(c, t);
      while node != nil
        invariant At(c, t) && node == Root(t, nil) && parent == Up(c, nil)
        invariant Fits(c, t) && Whole(c, t) == Contents() && Brackets(c, key)
        invariant !c.Top? ==> (goLeft <==> c.InLeft?)
        decreases t
      {
        Look(c, t);
        if key == node.key {
          assert node == Whole(c, t)[|Before(c)| + |InOrder(t.left)|];
          return true, parent, goLeft, c;
        }
        GoDown(c, t);
        FitsDown(c, t);
        BracketsDown(c, t, key);
        parent := node;
        if key < node.key {
          goLeft := true;
          node := node.left;
          c, t := InLeft(t.node, t.red, t.right, c), t.left;
        } else {
          goLeft := false;
          node := node.right;
          c, t := InRight(t.node, t.red, t.left, c), t.right;
        }
      }
      Look(c, t);
    }

    /** Refuses exactly the keys already there; otherwise `data` joins the others in key order. */
    method Insert(data: Node) returns (r: Node?)
      requires Valid() && data !in nodes && data != nil
      modifies this, nodes, data, nil
      ensures Valid() && unchanged(nil)
      ensures r == null <==> exists n <- old(Contents()) :: n.key == data.key
      ensures r == null ==> Contents() == old(Contents()) && nodes == old(nodes) && (forall n <- nodes + {data} :: unchanged(n))
      ensures r != null ==> r == data && nodes == old(nodes) + {data}
      ensures r != null ==> exists i | 0 <= i <= |old(Contents())| :: Contents() == old(Contents())[..i] + [data] + old(Contents())[i..]
    {
      hide Zipped, Snap, BalancedCtx, Balanced, Whole, Sorted, Nodes, CtxNodes, Before, After, Brackets, Fits, RedHole, At, InOrder;
      var found, parent, goLeft;
      ghost var c;
      found, parent, goLeft, c := FindSlot(data.key);
      if found {
        return null;
      }
      ghost var s := Contents();
      SlotIsFree(c, s, data);
      HangInAt(data, parent, goLeft, c);
      shape := InsertFixup(data, c, Fork(data, true, Leaf, Leaf));
      r := data;
    }

    lemma SlotIsFree(c: Ctx, s: seq<Node>, data: Node)
      requires Whole(c, Leaf) == s && Sorted(s) && Brackets(c, data.key) && Fits(c, Leaf)
      ensures RedHole(c, Fork(data, true, Leaf, Leaf))
      ensures !exists n <- s :: n.key == data.key
      ensures s[..|Before(c)|] == Before(c) && s[|Before(c)|..] == After(c)
      ensures Whole(c, Fork(data, true, Leaf, Leaf)) == s[..|Before(c)|] + [data] + s[|Before(c)|..]
      ensures Sorted(Whole(c, Fork(data, true, Leaf, Leaf))) && |Whole(c, Fork(data, true, Leaf, Leaf))| == |s| + 1
    {
      hide Before, After;
      assert InOrder(Fork(data, true, Leaf, Leaf)) == [data];
      assert s == Before(c) + After(c);
      SortedWith(Before(c), data, After(c));
    }

    // ---- searching and stepping

    /** The node with the greatest key not above `key`, and whether that key is `key` itself. */
    method FindLessEqual(key: int) returns (exact: bool, result: Node?)
      requires Valid()
      ensures exact <==> exists n <- Contents() :: n.key == key
      ensures exact ==> result != null && result.key == key
      ensures result == null ==> forall n <- Contents() :: key < n.key
      ensures result != null ==> result in Contents() && result.key <= key
      ensures result != null ==> forall n <- Contents() :: n.key <= key ==> n.key <= result.key
    {
      hide Zipped, Snap, BalancedCtx, Balanced, InOrder;
      RootFits(shape, key);
      var node := root;
      ghost var c, t := Top, shape;
      result := null;
      Look(c, t);
      while node != nil
        invariant At(c, t) && node == Root(t, nil)
        invariant Whole(c, t) == Contents() && Brackets(c, key)
        invariant result == null ==> Before(c) == []
        invariant result != null ==> result in Before(c) && forall n <- Before(c) :: n.key <= result.key
        decreases t
      {
        Look(c, t);
        UpToRoot(c, t);
        if key == node.key {
          result := node;
          InHole(c, t);
          return true, result;
        }
        GoDown(c, t);
        BracketsDown(c, t, key);
        if key < node.key {
          node := node.left;
          c, t := InLeft(t.node, t.red, t.right, c), t.left;
        } else {
          result := node;
          node := node.right;
          c, t := InRight(t.node, t.red, t.left, c), t.right;
        }
      }
      Look(c, t);
      EmptyHole(c);
      exact := false;
    }

    lemma InHole(c: Ctx, t: Shape)
      requires t.Fork?
      ensures |Before(c)| + |InOrder(t.left)| < |Whole(c, t)|
      ensures t.node == Whole(c, t)[|Before(c)| + |InOrder(t.left)|]
    {
    }

    method Search(key: int) returns (r: Node?)
      requires Valid()
      ensures r == null <==> !exists n <- Contents() :: n.key == key
      ensures r != null ==> r in Contents() && r.key == key
    {
      var exact, node := FindLessEqual(key);
      if exact {
        return node;
      } else {
        return null;
      }
    }

    /** The subtree whose root is the node at position `i`, and its context. */
    lemma {:induction false} Seek(c: Ctx, t: Shape, i: nat) returns (d: Ctx, u: Shape)
      requires At(c, t) && |Before(c)| <= i < |Before(c)| + |InOrder(t)|
      ensures At(d, u) && Whole(d, u) == Whole(c, t)
      ensures u.Fork? && |Before(d)| + |InOrder(u.left)| == i && u.node == Whole(c, t)[i]
      ensures Fits(c, t) ==> Fits(d, u)
      decreases t
    {
      hide Zipped, Snap;
      if Fits(c, t) {
        FitsDown(c, t);
      }
      hide Fits;
      var p := |Before(c)| + |InOrder(t.left)|;
      if i == p {
        d, u := c, t;
      } else {
        GoDown(c, t);
        if i < p {
          d, u := Seek(InLeft(t.node, t.red, t.right, c), t.left, i);
        } else {
          d, u := Seek(InRight(t.node, t.red, t.left, c), t.right, i);
        }
      }
    }

    /** The first node in key order; the sentinel for an empty tree. */
    method First() returns (node: Node)
      requires Valid()
      ensures node == if Contents() == [] then nil else Contents()[0]
    {
      hide Zipped, Snap;
      Look(Top, shape);
      ghost var d, u;
      node, d, u := Leftmost(root, Top, shape);
    }

    /** The `for` loop of the C code that follows `left` links from `node`. */
    method Leftmost(start: Node, ghost c: Ctx, ghost t: Shape) returns (node: Node, ghost d: Ctx, ghost u: Shape)
      requires At(c, t) && Root(t, nil) == start
      ensures At(d, u) && Root(u, nil) == node && (u.Fork? ==> u.left == Leaf)
      ensures Before(d) == Before(c) && Whole(d, u) == Whole(c, t)
      ensures if t.Leaf? then node == nil else node == Whole(c, t)[|Before(c)|]
      ensures t.Fork? ==> u.Fork? && u.node in Nodes(t) && (Up(d, nil) == Up(c, nil) || Up(d, nil) in Nodes(t))
      ensures Fits(c, t) ==> Fits(d, u)
    {
      hide Zipped, Snap;
      node, d, u := start, c, t;
      Look(d, u);
      while node.left != nil
        invariant At(d, u) && Root(u, nil) == node && (t.Fork? <==> u.Fork?)
        invariant u.Fork? ==> node.left == Root(u.left, nil)
        invariant Nodes(u) <= Nodes(t) && (u.Fork? ==> Up(d, nil) == Up(c, nil) || Up(d, nil) in Nodes(t))
        invariant Fits(c, t) ==> Fits(d, u)
        invariant Before(d) == Before(c) && Whole(d, u) == Whole(c, t)
        decreases u
      {
        Look(d, u);
        GoDown(d, u);
        if Fits(d, u) {
          FitsDown(d, u);
        }
        node := node.left;
        d, u := InLeft(u.node, u.red, u.right, d), u.left;
        Look(d, u);
      }
      if u.Fork? {
        GoDown(d, u);
        Look(InLeft(u.node, u.red, u.right, d), u.left);
        assert InOrder(u)[0] == u.node;
      }
    }

    /** The node after the one at position `i`; the sentinel after the last. */
    method Next(start: Node, ghost i: nat) returns (node: Node)
      requires Valid() && i < |Contents()| && Contents()[i] == start
      ensures node == if i + 1 == |Contents()| then nil else Contents()[i + 1]
    {
      hide Zipped, Snap, InOrder, Whole;
      RootWhole(shape);
      ghost var c, t := Seek(Top, shape, i);
      Look(c, t);
      RightOf(c, t);
      if start.right != nil {
        GoDown(c, t);
        c, t := InRight(t.node, t.red, t.left, c), t.right;
        node, c, t := Leftmost(start.right, c, t);
      } else {
        node := Climb(start, c, t, i + 1);
      }
    }

    lemma RootWhole(t: Shape)
      ensures Whole(Top, t) == InOrder(t) && Before(Top) == []
    {
    }

    lemma RightOf(c: Ctx, t: Shape)
      requires At(c, t) && t.Fork?
      ensures t.node.right != nil <==> t.right.Fork?
      ensures |Before(InRight(t.node, t.red, t.left, c))| == |Before(c)| + |InOrder(t.left)| + 1
      ensures t.right.Leaf? ==> |Before(c)| + |InOrder(t)| == |Before(c)| + |InOrder(t.left)| + 1
      ensures t.right.Fork? ==> |Before(c)| + |InOrder(t.left)| + 1 < |Whole(c, t)|
    {
      hide Zipped, Snap;
      Look(c, t);
      GoDown(c, t);
      Look(InRight(t.node, t.red, t.left, c), t.right);
    }

    /** The `while` loop of the C code that follows `parent` links until one comes from the left. */
    method Climb(start: Node, ghost c: Ctx, ghost t: Shape, ghost j: nat) returns (node: Node)
      requires At(c, t) && t.Fork? && t.node == start && |Before(c)| + |InOrder(t)| == j
      ensures node == if j == |Whole(c, t)| then nil else Whole(c, t)[j]
    {
      hide Zipped, Snap;
      node := start;
      Look(c, t);
      var parent := node.parent;
      ghost var d, u := c, t;
      while parent != nil && node == parent.right
        invariant At(d, u) && u.Fork? && u.node == node && parent == Up(d, nil)
        invariant Whole(d, u) == Whole(c, t) && |Before(d)| + |InOrder(u)| == j
        decreases Depth(d)
      {
        Look(d, u);
        GoUp(d, u);
        d, u := d.up, Joined(d, u);
        node := parent;
        parent := parent.parent;
        Look(d, u);
      }
      Look(d, u);
      node := parent;
    }

    /** The loop of `RBTREE_FOR`: every node once, in ascending key order. */
    method Enumerate() returns (s: seq<Node>)
      requires Valid()
      ensures s == Contents() && Sorted(s)
    {
      hide Zipped, Snap;
      s := [];
      InOrderNodes(shape, nil);
      var node := First();
      while node != nil
        invariant s <= Contents()
        invariant node == if |s| == |Contents()| then nil else Contents()[|s|]
        decreases |Contents()| - |s|
      {
        s := s + [node];
        node := Next(node, |s| - 1);
      }
    }

    // ---- deletion: restoring the balance

    lemma LookAcross(c: Ctx, t: Shape)
      requires At(c, t) && !c.Top? && c.other.Fork?
      ensures var s := c.other; s.node in nodes && s.node != nil && s.node.red == s.red
      ensures var s := c.other; s.node.left == Root(s.left, nil) && s.node.right == Root(s.right, nil)
      ensures var s := c.other; s.node.left.red == IsRed(s.left) && s.node.right.red == IsRed(s.right)
    {
      hide Zipped, Snap, Whole;
      var d, s := Across(c, t), c.other;
      GoAcross(c, t);
      Look(d, s);
      GoDown(d, s);
      Look(InLeft(s.node, s.red, s.right, d), s.left);
      Look(InRight(s.node, s.red, s.left, d), s.right);
    }

    method PaintSibling(s: Node, red: bool, ghost c: Ctx, ghost t: Shape) returns (ghost d: Ctx)
      requires At(c, t) && !c.Top? && c.other.Fork? && c.other.node == s
      modifies nodes`red
      ensures d == c.(other := Painted(c.other, red)) && At(d, t)
    {
      hide Zipped, Snap, Whole;
      GoAcross(c, t);
      Look(Across(c, t), c.other);
      ghost var o := Paint(s, red, Across(c, t), c.other);
      GoAcross(Across(c, t), o);
      d := c.(other := o);
    }

    method PaintParent(p: Node, red: bool, ghost c: Ctx, ghost t: Shape) returns (ghost d: Ctx)
      requires At(c, t) && !c.Top? && c.node == p
      modifies nodes`red
      ensures d == c.(red := red) && At(d, t)
    {
      hide Zipped, Snap, Whole;
      GoUp(c, t);
      Look(c.up, Joined(c, t));
      ghost var o := Paint(p, red, c.up, Joined(c, t));
      GoDown(c.up, o);
      d := c.(red := red);
    }

    method OtherChild(parent: Node, child: Node) returns (sibling: Node)
      ensures sibling == if parent.right == child then parent.left else parent.right
    {
      if parent.right == child {
        sibling := parent.left;
      } else {
        sibling := parent.right;
      }
    }

    /** A red sibling: rotate to get a black one. */
    method RotateRedSibling(child: Node, parent: Node, sibling: Node, ghost c: Ctx, ghost t: Shape)
      requires At(c, t) && Root(t, nil) == child && !c.Top? && c.node == parent
      requires c.other.Fork? && c.other.node == sibling
      modifies this`root, nodes
      ensures At(RedSiblingResult(c), t)
    {
      hide Zipped, Snap, Whole;
      ghost var d := PaintParent(parent, true, c, t);
      d := PaintSibling(sibling, false, d, t);
      Look(d, t);
      GoUp(d, t);
      ghost var r;
      if parent.right == child {
        r := RotateRightAt(parent, d.up, Joined(d, t));
        GoDown(d.up, r);
        GoDown(InRight(r.node, r.red, r.left, d.up), r.right);
      } else {
        r := RotateLeftAt(parent, d.up, Joined(d, t));
        GoDown(d.up, r);
        GoDown(InLeft(r.node, r.red, r.right, d.up), r.left);
      }
    }

    /** A black sibling whose only red child is the near one: rotate at the sibling. */
    method RotateNearRed(child: Node, parent: Node, sibling: Node, ghost c: Ctx, ghost t: Shape) returns (sibling': Node)
      requires At(c, t) && Root(t, nil) == child && !c.Top? && c.node == parent
      requires c.other.Fork? && c.other.node == sibling && !c.other.red
      requires IsRed(c.other.left) || IsRed(c.other.right)
      modifies this`root, nodes
      ensures At(c.(other := FarRed(c)), t) && sibling' == FarRed(c).node
    {
      hide Zipped, Snap, Whole;
      Look(c, t);
      LookAcross(c, t);
      sibling' := sibling;
      ghost var a, s := Across(c, t), c.other;
      GoAcross(c, t);
      if parent.right == child && !sibling.red && sibling.right.red && !sibling.left.red {
        s := Paint(sibling, true, a, s);
        s := PaintRight(sibling.right, a, s);
        s := RotateLeftAt(sibling, a, s);
        GoAcross(a, s);
        Look(Across(a, s), t);
        sibling' := OtherChild(parent, child);
      } else if parent.left == child && !sibling.red && sibling.left.red && !sibling.right.red {
        s := Paint(sibling, true, a, s);
        s := PaintLeft(sibling.left, a, s);
        s := RotateRightAt(sibling, a, s);
        GoAcross(a, s);
        Look(Across(a, s), t);
        sibling' := OtherChild(parent, child);
      }
    }

    method PaintLeft(n: Node, ghost c: Ctx, ghost t: Shape) returns (ghost t': Shape)
      requires At(c, t) && t.Fork? && t.left.Fork? && t.left.node == n
      modifies nodes`red
      ensures t' == t.(left := Painted(t.left, false)) && At(c, t')
    {
      hide Zipped, Snap, Whole;
      GoDown(c, t);
      ghost var d := InLeft(t.node, t.red, t.right, c);
      Look(d, t.left);
      ghost var l := Paint(n, false, d, t.left);
      GoUp(d, l);
      t' := t.(left := l);
    }

    method PaintRight(n: Node, ghost c: Ctx, ghost t: Shape) returns (ghost t': Shape)
      requires At(c, t) && t.Fork? && t.right.Fork? && t.right.node == n
      modifies nodes`red
      ensures t' == t.(right := Painted(t.right, false)) && At(c, t')
    {
      hide Zipped, Snap, Whole;
      GoDown(c, t);
      ghost var d := InRight(t.node, t.red, t.left, c);
      Look(d, t.right);
      ghost var r := Paint(n, false, d, t.right);
      GoUp(d, r);
      t' := t.(right := r);
    }

    /** A black sibling with a red far child takes the parent's place and colour. */
    method RotateFarRed(child: Node, parent: Node, sibling: Node, ghost c: Ctx, ghost t: Shape)
      requires At(c, t) && Root(t, nil) == child && !c.Top? && c.node == parent
      requires c.other.Fork? && c.other.node == sibling
      requires if c.InLeft? then IsRed(c.other.right) else IsRed(c.other.left)
      modifies this`root, nodes
      ensures At(c.up, FarRedResult(c, t))
    {
      hide Zipped, Snap, Whole;
      Look(c, t);
      LookAcross(c, t);
      ghost var d := PaintSibling(sibling, parent.red, c, t);
      d := PaintParent(parent, false, d, t);
      Look(d, t);
      GoAcross(d, t);
      ghost var a, s := Across(d, t), d.other;
      LookAcross(d, t);
      if parent.right == child {
        s := PaintLeft(sibling.left, a, s);
        GoUp(a, s);
        s := RotateRightAt(parent, a.up, Joined(a, s));
      } else {
        s := PaintRight(sibling.right, a, s);
        GoUp(a, s);
        s := RotateLeftAt(parent, a.up, Joined(a, s));
      }
    }

    /** What follows the loop of the fixup: the sibling is black, and it or the parent has red to give. */
    method FixupFinish(child: Node, parent: Node, sibling: Node, ghost c: Ctx, ghost t: Shape) returns (ghost s: Shape)
      requires At(c, t) && Short(c, t) && Root(t, nil) == child && !c.Top? && c.node == parent
      requires c.other.Fork? && c.other.node == sibling && !c.other.red
      requires c.red || IsRed(c.other.left) || IsRed(c.other.right)
      modifies this`root, nodes
      ensures At(Top, s) && Balanced(s) && !IsRed(s) && InOrder(s) == Whole(c, t)
    {
      hide Zipped, Snap, Whole, Balanced, BalancedCtx, InOrder, Short;
      Look(c, t);
      LookAcross(c, t);
      ghost var p;
      if parent.red && !sibling.red && !sibling.left.red && !sibling.right.red {
        BlackSibling(c, t);
        ghost var d := PaintSibling(sibling, true, c, t);
        d := PaintParent(parent, false, d, t);
        GoUp(d, t);
        p := Joined(d, t);
        FitsFilled(c.up, p);
      } else {
        FarRedSibling(c, t);
        ghost var d := c.(other := FarRed(c));
        var sibling' := RotateNearRed(child, parent, sibling, c, t);
        FarRedTurn(d, t);
        RotateFarRed(child, parent, sibling', d, t);
        p := FarRedResult(d, t);
        FitsFilled(c.up, p);
      }
      Settle(c.up, p);
      s := Fill(c.up, p);
    }

    /** The first step of the loop below: make sure the sibling is black. */
    method BlackenSibling(child: Node, parent: Node, sibling: Node, ghost c: Ctx, ghost t: Shape) returns (sibling': Node, ghost d: Ctx)
      requires At(c, t) && Short(c, t) && Root(t, nil) == child && !c.Top? && c.node == parent && sibling == Root(c.other, nil)
      modifies this`root, nodes
      ensures !d.Top? && d.node == parent && At(d, t) && Short(d, t) && Whole(d, t) == Whole(c, t)
      ensures d.other.Fork? && d.other.node == sibling' && !d.other.red
      ensures d == c || d.red
    {
      hide Zipped, Snap, Whole, Balanced, BalancedCtx, InOrder, RedSiblingResult;
      sibling', d := sibling, c;
      SiblingIsFork(c, t);
      LookAcross(c, t);
      if sibling.red {
        RedSibling(c, t);
        SiblingIsFork(RedSiblingResult(c), t);
        RotateRedSibling(child, parent, sibling, c, t);
        d := RedSiblingResult(c);
        Look(d, t);
        sibling' := OtherChild(parent, child);
      }
    }

    /** The hole `t` is one black node short; returns the shape of the rebalanced tree. */
    method DeleteFixup(child: Node, parent: Node, ghost c: Ctx, ghost t: Shape) returns (ghost s: Shape)
      requires At(c, t) && Short(c, t) && Root(t, nil) == child && Up(c, nil) == parent
      modifies this`root, nodes
      ensures At(Top, s) && Balanced(s) && !IsRed(s) && InOrder(s) == Whole(c, t)
    {
      hide Zipped, Snap, Whole, Balanced, BalancedCtx, InOrder, Short, RedSiblingResult;
      var child, parent := child, parent;
      ghost var d, u := c, t;
      Look(d, u);
      var sibling := OtherChild(parent, child);
      var goUp := true;
      while goUp
        invariant At(d, u) && Short(d, u) && Root(u, nil) == child && Up(d, nil) == parent
        invariant Whole(d, u) == Whole(c, t)
        invariant !d.Top? ==> sibling == Root(d.other, nil)
        invariant !goUp ==> !d.Top? && d.other.Fork? && !d.other.red && (d.red || IsRed(d.other.left) || IsRed(d.other.right))
        decreases if goUp then 1 + Depth(d) else 0
      {
        Look(d, u);
        if parent == nil {
          ShortRoot(u);
          return u;
        }
        sibling, d := BlackenSibling(child, parent, sibling, d, u);
        LookAcross(d, u);
        Look(d, u);
        if !parent.red && !sibling.red && !sibling.left.red && !sibling.right.red {
          BlackSibling(d, u);
          d := PaintSibling(sibling, true, d, u);
          GoUp(d, u);
          Look(d, u);
          child, parent := parent, parent.parent;
          d, u := d.up, Joined(d, u);
          Look(d, u);
          sibling := OtherChild(parent, child);
        } else {
          goUp := false;
        }
      }
      s := FixupFinish(child, parent, sibling, d, u);
    }

    lemma ShortRoot(t: Shape)
      requires Short(Top, t)
      ensures Balanced(t) && !IsRed(t) && Whole(Top, t) == InOrder(t)
    {
    }

    lemma SiblingIsFork(c: Ctx, t: Shape)
      requires Short(c, t) && !c.Top?
      ensures c.other.Fork?
    {
    }

    // ---- deletion: taking a node out

    method ChangeParentPtr(parent: Node, o: Node, n: Node)
      modifies this`root, parent`left, parent`right
      ensures parent == nil ==> root == (if old(root) == o then n else old(root)) && unchanged(parent)
      ensures parent != nil ==> root == old(root)
      ensures parent != nil ==> parent.left == (if old(parent.left) == o then n else old(parent.left))
      ensures parent != nil ==> parent.right == (if old(parent.right) == o then n else old(parent.right))
    {
      if parent == nil {
        if root == o {
          root := n;
        }
        return;
      }
      if parent.left == o {
        parent.left := n;
      }
      if parent.right == o {
        parent.right := n;
      }
    }

    method ChangeChildPtr(child: Node, o: Node, n: Node)
      modifies child`parent
      ensures child.parent == (if child != nil && old(child.parent) == o then n else old(child.parent))
    {
      if child == nil {
        return;
      }
      if child.parent == o {
        child.parent := n;
      }
    }

    /** The links from and to `m` come in pairs. */
    ghost predicate Embedded(m: Node)
      reads this`nodes, this`root, nodes
    {
      && m in nodes && (m.parent == nil <==> root == m)
      && (m.parent == nil || (m.parent in nodes && m.parent != m))
      && (m.left == nil || (m.left in nodes && m.left != m && m.left.parent == m && m.left != m.right))
      && (m.right == nil || (m.right in nodes && m.right != m && m.right.parent == m))
      && (forall n <- nodes :: n.left == m || n.right == m ==> n == m.parent)
      && (forall n <- nodes :: n.parent == m ==> n == m.left || n == m.right)
    }

    lemma AllEmbedded(m: Node)
      requires Paired(Snap(), root, nil) && m in nodes
      ensures Embedded(m)
    {
      var h := Snap();
      assert forall n <- nodes :: h[n].left == n.left && h[n].right == n.right && h[n].parent == n.parent;
    }

    /** First part of the exchange of `d` and `s`: the child pointers of all other nodes. */
    method RedirectDown(d: Node, s: Node)
      requires nil !in nodes && d != s && Embedded(d) && Embedded(s)
      requires d.left != s && d.parent != s && s.parent !in {nil, d.parent}
      modifies this`root, nodes`left, nodes`right, nil`left, nil`right
      ensures unchanged(d) && unchanged(s) && unchanged(nil) && root == Swap(old(root), d, s)
      ensures forall n <- nodes | n != d && n != s :: n.left == Swap(old(n.left), d, s) && n.right == Swap(old(n.right), d, s)
    {
      ChangeParentPtr(d.parent, d, s);
      if d.right != s {
        ChangeParentPtr(s.parent, s, d);
      }
    }

    /** Second part: the parent pointers of all other nodes. */
    method RedirectUp(d: Node, s: Node)
      requires nil !in nodes && d in nodes && s in nodes && d != s
      requires forall n <- nodes :: n.parent == d ==> n == d.left || n == d.right
      requires forall n <- nodes :: n.parent == s ==> n == s.right
      requires d.left in nodes && d.left.parent == d && d.right in nodes && d.right.parent == d && d !in {d.left, d.right} && d.left != s
      requires s.left == nil && (s.right == nil || (s.right in nodes && s.right.parent == s && s.right != s)) && d.parent != s
      modifies nodes`parent, nil`parent
      ensures unchanged(d) && unchanged(s) && unchanged(nil)
      ensures forall n <- nodes | n != d && n != s :: n.parent == Swap(old(n.parent), d, s)
    {
      // the C code makes each of the next two calls twice; the second one changes nothing
      ChangeChildPtr(s.left, s, d);
      ChangeChildPtr(s.right, s, d);
      ChangeChildPtr(d.left, d, s);
      if d.right != s {
        ChangeChildPtr(d.right, d, s);
      }
    }

    method Redirect(d: Node, s: Node)
      requires nil !in nodes && d != s && Embedded(d) && Embedded(s)
      requires d.left != nil && d.right != nil && s.left == nil && d.left != s && d.parent != s && s.parent !in {nil, d.parent}
      modifies this`root, nodes`parent, nodes`left, nodes`right, nil`parent, nil`left, nil`right
      ensures unchanged(d) && unchanged(s) && unchanged(nil) && root == Swap(old(root), d, s)
      ensures forall n <- nodes | n != d && n != s :: n.left == Swap(old(n.left), d, s) && n.right == Swap(old(n.right), d, s)
      ensures forall n <- nodes | n != d && n != s :: n.parent == Swap(old(n.parent), d, s)
    {
      RedirectDown(d, s);
      RedirectUp(d, s);
    }

    /** Third part: the fields of `d` and `s` themselves. */
    method Trade(d: Node, s: Node)
      requires d != s
      modifies d, s
      ensures s.left == old(d.left) && d.left == old(s.left) && s.red == old(d.red) && d.red == old(s.red)
      ensures s.right == (if old(d.right) == s then d else old(d.right)) && d.right == old(s.right)
      ensures s.parent == old(d.parent) && d.parent == (if old(d.right) == s then s else old(s.parent))
    {
      d.red, s.red := s.red, d.red;
      if d.right == s {
        d.right := d;
        s.parent := s;
      }
      d.parent, s.parent := s.parent, d.parent;
      d.left, s.left := s.left, d.left;
      d.right, s.right := s.right, d.right;
    }

    /** Puts `s`, the leftmost node right of `d`, in the place of `d` and `d` in the place of `s`. */
    method Exchange(d: Node, s: Node)
      requires nil !in nodes && d != s && Embedded(d) && Embedded(s)
      requires d.left != nil && d.right != nil && s.left == nil && d.left != s && d.parent != s && s.parent !in {nil, d.parent}
      modifies this`root, nodes, nil
      ensures Swapped(old(Snap()), Snap(), d, s) && root == Swap(old(root), d, s) && unchanged(nil)
    {
      hide Swapped;
      ghost var h := Snap();
      Redirect(d, s);
      Trade(d, s);
      SwappedIs(h, Snap(), d, s);
    }

    lemma CanExchange(c: Ctx, t: Shape, d: Ctx, u: Shape)
      requires At(c, t) && t.Fork? && t.left.Fork? && At(d, u) && u.Fork? && u.left.Leaf?
      requires u.node in Nodes(t.right) && (Up(d, nil) == t.node || Up(d, nil) in Nodes(t.right))
      ensures t.node != u.node && Embedded(t.node) && Embedded(u.node)
      ensures t.node.left != nil && t.node.right != nil && u.node.left == nil && t.node.left != u.node
      ensures t.node.parent != u.node && u.node.parent !in {nil, t.node.parent}
    {
      Look(c, t);
      Look(d, u);
      ZipFill(Snap(), root, c, t, nil);
      TreePaired(Snap(), root, Fill(c, t), nil);
      AllEmbedded(t.node);
      AllEmbedded(u.node);
    }

    method ExchangeAt(node: Node, smright: Node, ghost d: Ctx, ghost u: Shape)
      requires At(d, u) && node != smright && Embedded(node) && Embedded(smright)
      requires node.left != nil && node.right != nil && smright.left == nil && node.left != smright
      requires node.parent != smright && smright.parent !in {nil, node.parent}
      requires u.Fork? && u.node == smright && u.left.Leaf?
      modifies this`root, nodes, nil
      ensures At(SwapCtx(d, node, smright), SwapShape(u, node, smright)) && unchanged(nil)
      ensures var t := SwapShape(u, node, smright); t.Fork? && t.node == node && t.left.Leaf?
    {
      hide Zipped, Nodes, CtxNodes, Swapped, Embedded;
      ghost var h := Snap();
      Exchange(node, smright);
      ZipSwapped(h, Snap(), old(root), root, d, u, nil, node, smright);
    }

    /** A node with two subtrees trades places with the next node in key order. */
    method BringDown(node: Node, ghost c: Ctx, ghost t: Shape) returns (ghost d: Ctx, ghost u: Shape)
      requires At(c, t) && t.Fork? && t.node == node && t.left.Fork? && t.right.Fork?
      requires Fits(c, t) && Sorted(Whole(c, t))
      modifies this`root, nodes, nil
      ensures At(d, u) && u.Fork? && u.node == node && u.left.Leaf? && Fits(d, u) && unchanged(nil)
      ensures var w, i := Whole(c, t), |Before(c)| + |InOrder(t.left)|;
        && i + 1 < |w| && Whole(d, u) == w[..i] + [w[i + 1], w[i]] + w[i + 2..] && |Before(d)| == i + 1
    {
      hide Zipped, Snap, Balanced, BalancedCtx, Whole, InOrder, Nodes, CtxNodes, Swap, SwapSeq, SwapCtx, SwapShape, Embedded, Sorted;
      Look(c, t);
      GoDown(c, t);
      FitsDown(c, t);
      RightOf(c, t);
      InHole(c, t);
      ghost var w, i := Whole(c, t), |Before(c)| + |InOrder(t.left)|;
      var smright;
      smright, d, u := Leftmost(node.right, InRight(t.node, t.red, t.left, c), t.right);
      CanExchange(c, t, d, u);
      ExchangeAt(node, smright, d, u);
      SwapFits(d, u, node, smright);
      SwapWhole(d, u, node, smright);
      SwapNeighbours(w, i);
      d, u := SwapCtx(d, node, smright), SwapShape(u, node, smright);
    }

    /** Unlinks `node`, which has at most one subtree, and moves that subtree up. */
    method Unlink(node: Node) returns (child: Node)
      requires node in nodes && node != nil && node.parent != node && (node.left == nil || node.right == nil)
      requires node.parent == nil || (node.parent in nodes && (node.parent.left == node) != (node.parent.right == node))
      requires node.parent == nil <==> root == node
      requires forall x <- {node.left, node.right} | x != nil :: x in nodes && x != node && x != node.parent && x.parent == node
      modifies this`root, this`nodes, nodes`parent, nodes`left, nodes`right, nil`parent, nil`left, nil`right
      ensures nodes == old(nodes) - {node} && unchanged(node) && unchanged(nil)
      ensures child == if old(node.left) != nil then old(node.left) else old(node.right)
      ensures TakenOut(old(Snap()), Snap(), old(root), root, node, child, nil)
    {
      if node.left != nil {
        child := node.left;
      } else {
        child := node.right;
      }
      ChangeParentPtr(node.parent, node, child);
      ChangeChildPtr(child, node, node.parent);
      nodes := nodes - {node};
    }

    method UnlinkAt(node: Node, ghost c: Ctx, ghost t: Shape) returns (child: Node)
      requires At(c, t) && t.Fork? && t.node == node && (t.left.Leaf? || t.right.Leaf?)
      modifies this`root, this`nodes, nodes`parent, nodes`left, nodes`right, nil`parent, nil`left, nil`right
      ensures nodes == old(nodes) - {node} && unchanged(node) && unchanged(nil)
      ensures At(c, Rest(t)) && child == Root(Rest(t), nil) && child.red == IsRed(Rest(t))
    {
      hide Zipped, Nodes, CtxNodes;
      ghost var h := Snap();
      UnlinkSites(c, t);
      child := Unlink(node);
      ZipTakenOut(h, Snap(), old(root), root, c, t, Rest(t), nil);
      Look(c, Rest(t));
    }

    lemma UnlinkSites(c: Ctx, t: Shape)
      requires At(c, t) && t.Fork?
      ensures t.node.left == Root(t.left, nil) && t.node.right == Root(t.right, nil) && t.node.parent == Up(c, nil)
      ensures Rest(t).Fork? ==> Rest(t).node in nodes && Rest(t).node !in {t.node, Up(c, nil), nil} && Rest(t).node.parent == t.node
      ensures t.node in nodes && t.node != Up(c, nil) && t.node != nil
      ensures c.InLeft? ==> c.node in nodes && c.node != nil && c.node.left == t.node && c.node.right != t.node
      ensures c.InRight? ==> c.node in nodes && c.node != nil && c.node.right == t.node && c.node.left != t.node
      ensures c.Top? <==> root == t.node
      ensures t.node.left != nil <==> t.left.Fork?
      ensures t.node.right != nil <==> t.right.Fork?
    {
      Look(c, t);
      GoDown(c, t);
      Look(InLeft(t.node, t.red, t.right, c), t.left);
      Look(InRight(t.node, t.red, t.left, c), t.right);
    }

    /** Unlinks `node` and restores the balance. */
    method Remove(node: Node, ghost c: Ctx, ghost t: Shape) returns (ghost s: Shape)
      requires At(c, t) && t.Fork? && t.node == node && (t.left.Leaf? || t.right.Leaf?) && Fits(c, t)
      modifies this`root, this`nodes, nodes, nil
      ensures nodes == old(nodes) - {node} && unchanged(nil) && node.parent == old(node.parent)
      ensures At(Top, s) && Balanced(s) && !IsRed(s) && InOrder(s) == Whole(c, Rest(t))
    {
      hide Zipped, Snap, Balanced, BalancedCtx, Whole, InOrder, Short, Fits;
      Look(c, t);
      TakenOutBalance(c, t);
      var child := UnlinkAt(node, c, t);
      ghost var x := Rest(t);
      if node.red {
        FitsFilled(c, x);
        Settle(c, x);
        s := Fill(c, x);
      } else if child.red {
        Look(c, x);
        PaintKeepsOrder(x, false);
        assert Whole(c, Painted(x, false)) == Whole(c, x) by {
          SameWhole(c, x, Painted(x, false));
        }
        x := Paint(child, false, c, x);
        FitsFilled(c, x);
        Settle(c, x);
        s := Fill(c, x);
      } else {
        s := DeleteFixup(child, node.parent, c, x);
      }
    }

    lemma SameWhole(c: Ctx, t: Shape, u: Shape)
      requires InOrder(t) == InOrder(u)
      ensures Whole(c, t) == Whole(c, u)
    {
    }

    /** The part of the deletion that changes the links of other nodes. */
    method Isolate(node: Node, ghost c: Ctx, ghost t: Shape) returns (ghost s: Shape)
      requires At(c, t) && t.Fork? && t.node == node && Fits(c, t) && Sorted(Whole(c, t))
      modifies this`root, this`nodes, nodes, nil
      ensures nodes == old(nodes) - {node} && unchanged(nil)
      ensures At(Top, s) && Balanced(s) && !IsRed(s)
      ensures var w, i := Whole(c, t), |Before(c)| + |InOrder(t.left)|;
        i < |w| && w[i] == node && InOrder(s) == w[..i] + w[i + 1..]
    {
      hide Zipped, Snap, Balanced, BalancedCtx, InOrder, Nodes, CtxNodes, Fits, Whole, Sorted;
      ghost var w, i := Whole(c, t), |Before(c)| + |InOrder(t.left)|;
      InHole(c, t);
      UnlinkSites(c, t);
      if node.left != nil && node.right != nil {
        ghost var d, u := BringDown(node, c, t);
        LeafFirst(d, u);
        TakenOutOrder(d, u, w[..i] + [w[i + 1], w[i]] + w[i + 2..], i + 1);
        s := Remove(node, d, u);
        Retracted(w, i);
      } else {
        TakenOutOrder(c, t, w, i);
        s := Remove(node, c, t);
      }
    }

    lemma LeafFirst(c: Ctx, t: Shape)
      requires t.Fork? && t.left.Leaf?
      ensures |InOrder(t.left)| == 0
    {
    }

    lemma Retracted<T>(w: seq<T>, i: nat)
      requires i + 1 < |w|
      ensures var v := w[..i] + [w[i + 1], w[i]] + w[i + 2..]; v[..i + 1] + v[i + 2..] == w[..i] + w[i + 1..]
    {
    }

    /** Takes the node with the given key out of the tree; null when there is none. */
    method Delete(key: int) returns (r: Node?)
      requires Valid()
      modifies this, nodes, nil
      ensures Valid() && unchanged(nil)
      ensures r == null <==> !exists n <- old(Contents()) :: n.key == key
      ensures r == null ==> Contents() == old(Contents()) && nodes == old(nodes) && (forall n <- nodes :: unchanged(n))
      ensures r != null ==> r.key == key && nodes == old(nodes) - {r} && count == old(count) - 1
      ensures r != null ==> r.parent == nil && r.left == nil && r.right == nil && !r.red
      ensures r != null ==> exists i | 0 <= i < |old(Contents())| :: old(Contents())[i] == r && Contents() == old(Contents())[..i] + old(Contents())[i + 1..]
    {
      hide *;
      r := Search(key);
      if r == null {
        return;
      }
      ghost var i :| 0 <= i < |Contents()| && Contents()[i] == r;
      TakeOut(r, i);
      Clear(r);
    }

    method TakeOut(r: Node, ghost i: nat)
      requires Valid() && i < |Contents()| && Contents()[i] == r
      modifies this, nodes, nil
      ensures Valid() && unchanged(nil) && r != nil && r in old(nodes)
      ensures nodes == old(nodes) - {r} && count == old(count) - 1
      ensures Contents() == old(Contents())[..i] + old(Contents())[i + 1..]
    {
      hide Zipped, Snap, Balanced, BalancedCtx, InOrder, Nodes, CtxNodes, Fits, Whole, Sorted, At;
      ghost var w := Contents();
      RootWhole(shape);
      RootFits(shape, 0);
      ghost var c, t := Seek(Top, shape, i);
      Look(c, t);
      SortedWithout(w, i);
      count := count - 1;
      shape := Isolate(r, c, t);
    }

    method Clear(n: Node)
      modifies n
      ensures n.parent == nil && n.left == nil && n.right == nil && !n.red
    {
      n.parent := nil;
      n.left := nil;
      n.right := nil;
      n.red := false;
    }
  }
}