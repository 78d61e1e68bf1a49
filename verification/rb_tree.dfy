/** The red-black tree of infra_ds.c, updated in place through its pointers. */
module RbTree {
  import opened InfraTypes
  import opened RbNodes
  import opened RbShape
  import opened RbLaws
  import opened RbHeap
  import opened RbMap

  class RedBlackTree {
    var root: RbNode?
    var size: nat
    ghost var shape: Tree

    /** The picture has distinct nodes, ascending keys and as many pairs as size says. */
    ghost predicate Ordered()
      reads this
    {
      Proper(shape) && Sorted(InOrder(shape)) && size == |InOrder(shape)|
    }

    /** The nodes in memory below root are exactly the picture. */
    ghost predicate Valid()
      reads this, Refs(shape)
    {
      Ordered() && Mirrors(shape, root, null)
    }

    ghost function Contents(): map<int, Ptr>
      reads this
    {
      ToMap(InOrder(shape))
    }

    /** infra_rbtree_create, once the allocation has succeeded */
    constructor ()
      ensures Valid() && Legal(shape) && Contents() == map[] && shape == Leaf
    {
      root, size, shape := null, 0, Leaf;
    }

    /** The memory shows t at the hole of p, and the current node of a loop is n. */
    ghost predicate At(p: Path, t: Tree, n: RbNode?)
      reads this, PathRefs(p), Refs(t)
    {
      ProperAt(p, t) && Mirrors(t, n, Above(p)) && Hangs(p, n, root)
    }

    lemma ZoomOut(p: Path, t: Tree, n: RbNode?)
      requires At(p, t, n) && p.Under?
      ensures At(p.up, Join(p, t), p.ref)
    {
    }

    lemma ZoomIn(p: Path, t: Tree)
      requires p.Under? && At(p.up, Join(p, t), p.ref)
      ensures At(p, t, if p.side.Left? then p.ref.left else p.ref.right)
    {
    }

    /** `if (child != NULL) child->parent = up` */
    method SetParent(child: RbNode?, up: RbNode?, ghost t: Tree, ghost was: RbNode?)
      requires Mirrors(t, child, was) && Proper(t)
      modifies Refs(t)
      ensures Mirrors(t, child, up)
    {
      if child != null {
        child.parent := up;
      }
    }

    /** Puts x in the place of node below node's parent, or at the root. */
    method Replace(node: RbNode, x: RbNode?, ghost p: Path)
      requires ProperPath(p) && Hangs(p, node, root) && node !in PathRefs(p) && node.parent == Above(p)
      modifies this`root, PathRefs(p)
      ensures Hangs(p, x, root)
    {
      if node.parent == null {
        root := x;
      } else if node == node.parent.left {
        node.parent.left := x;
      } else {
        node.parent.right := x;
      }
    }

    /** The picture after rotating t towards side s: the other child comes to the top. */
    static function Rotated(t: Tree, s: Side): Tree
      requires t.Node? && Child(t, Opposite(s)).Node?
    {
      var c := Child(t, Opposite(s));
      if s.Left? then c.(left := t.(right := c.left)) else c.(right := t.(left := c.right))
    }

    static lemma RotatedProper(p: Path, t: Tree, s: Side)
      requires t.Node? && Child(t, Opposite(s)).Node? && ProperAt(p, t)
      ensures ProperAt(p, Rotated(t, s)) && Refs(Rotated(t, s)) == Refs(t)
    {
      var c := Child(t, Opposite(s));
      var f := Under(Top, s, t.ref, t.key, t.value, t.color, Child(c, s));
      JoinProper(f.(sibling := c), Child(t, s));
      JoinProper(Under(Top, s, c.ref, c.key, c.value, c.color, Child(c, Opposite(s))), Child(c, s));
      JoinProper(f, Child(t, s));
      JoinProper(Under(Top, s, c.ref, c.key, c.value, c.color, Child(c, Opposite(s))), Join(f, Child(t, s)));
    }

    /** The first half of a left rotation: node takes over the left child of its right child. */
    method PassLeft(node: RbNode, ghost t: Tree, ghost up: RbNode?) returns (right: RbNode)
      requires t.Node? && t.right.Node? && Proper(t) && Mirrors(t, node, up)
      modifies Refs(t)
      ensures right == t.right.ref && Mirrors(t.(right := t.right.left), node, up)
      ensures right.key == t.right.key && right.value == t.right.value && right.color == t.right.color
      ensures Mirrors(t.right.right, right.right, right)
    {
      assert allocated(Refs(t));
      right := node.right;
      assert Mirrors(t.right, right, node) && Proper(t.right);
      node.right := right.left;
      SetParent(right.left, node, t.right.left, right);
    }

    /** The second half: right moves to the place of node, and node becomes its left child. */
    method CrownRight(node: RbNode, right: RbNode, ghost p: Path, ghost u: Tree)
      requires u.Node? && u.left.Node? && right == u.ref && node == u.left.ref && ProperAt(p, u)
      requires Hangs(p, node, root) && Mirrors(u.left, node, Above(p)) && Mirrors(u.right, right.right, right)
      requires right.key == u.key && right.value == u.value && right.color == u.color
      modifies this`root, PathRefs(p), Refs(u)
      ensures Mirrors(u, right, Above(p)) && Hangs(p, right, root)
    {
      assert allocated(Refs(u)) && allocated(PathRefs(p));
      right.parent := node.parent;
      Replace(node, right, p);
      right.left := node;
      assert right !in PathRefs(p);
      SetParent(node, right, u.left, Above(p));
      assert Hangs(p, right, root);
    }

    method RotateLeft(node: RbNode, ghost p: Path, ghost t: Tree)
      requires At(p, t, node) && t.Node? && t.right.Node?
      modifies this`root, PathRefs(p), Refs(t)
      ensures At(p, Rotated(t, Left), t.right.ref)
    {
      assert allocated(PathRefs(p));
      RotatedProper(p, t, Left);
      var right := PassLeft(node, t, Above(p));
      CrownRight(node, right, p, Rotated(t, Left));
    }

    method PassRight(node: RbNode, ghost t: Tree, ghost up: RbNode?) returns (left: RbNode)
      requires t.Node? && t.left.Node? && Proper(t) && Mirrors(t, node, up)
      modifies Refs(t)
      ensures left == t.left.ref && Mirrors(t.(left := t.left.right), node, up)
      ensures left.key == t.left.key && left.value == t.left.value && left.color == t.left.color
      ensures Mirrors(t.left.left, left.left, left)
    {
      assert allocated(Refs(t));
      left := node.left;
      assert Mirrors(t.left, left, node) && Proper(t.left);
      node.left := left.right;
      SetParent(left.right, node, t.left.right, left);
    }

    method CrownLeft(node: RbNode, left: RbNode, ghost p: Path, ghost u: Tree)
      requires u.Node? && u.right.Node? && left == u.ref && node == u.right.ref && ProperAt(p, u)
      requires Hangs(p, node, root) && Mirrors(u.right, node, Above(p)) && Mirrors(u.left, left.left, left)
      requires left.key == u.key && left.value == u.value && left.color == u.color
      modifies this`root, PathRefs(p), Refs(u)
      ensures Mirrors(u, left, Above(p)) && Hangs(p, left, root)
    {
      assert allocated(Refs(u)) && allocated(PathRefs(p));
      left.parent := node.parent;
      Replace(node, left, p);
      left.right := node;
      assert left !in PathRefs(p);
      SetParent(node, left, u.right, Above(p));
      assert Hangs(p, left, root);
    }

    method RotateRight(node: RbNode, ghost p: Path, ghost t: Tree)
      requires At(p, t, node) && t.Node? && t.left.Node?
      modifies this`root, PathRefs(p), Refs(t)
      ensures At(p, Rotated(t, Right), t.left.ref)
    {
      assert allocated(PathRefs(p));
      RotatedProper(p, t, Right);
      var left := PassRight(node, t, Above(p));
      CrownLeft(node, left, p, Rotated(t, Right));
    }

    // ---------------------------------------------------------- fix_insert

    /** What the loops read around the current node. */
    lemma Family(p: Path, t: Tree, node: RbNode)
      requires At(p, t, node) && p.Under? && t.Node?
      ensures node == t.ref && node.color == t.color && node.parent == p.ref && p.ref.color == p.color
      ensures node == p.ref.left <==> p.side.Left?
      ensures node == p.ref.right <==> p.side.Right?
      ensures var s := if p.side.Left? then p.ref.right else p.ref.left;
        (s == null <==> p.sibling.Leaf?) && (s != null ==> s == p.sibling.ref && s.color == p.sibling.color)
      ensures p.ref.parent == Above(p.up)
    {
      assert Mirrors(p.sibling, if p.side.Left? then p.ref.right else p.ref.left, p.ref);
    }

    /** Both neighbours of the clash turn black, their parent red, and the loop climbs. */
    method Recolor(node: RbNode, uncle: RbNode, ghost p: Path, ghost t: Tree) returns (grand: RbNode)
      requires At(p, t, node) && t.Node? && Clashes(p) && !IsBlack(p.up.sibling) && uncle == p.up.sibling.ref
      modifies PathRefs(p)
      ensures At(Lift(p, t).0, Lift(p, t).1, grand)
    {
      LiftProper(p, t);
      grand := RecolorThree(node, uncle, p, t);
    }

    method RecolorThree(node: RbNode, uncle: RbNode, ghost p: Path, ghost t: Tree) returns (grand: RbNode)
      requires At(p, t, node) && t.Node? && Clashes(p) && !IsBlack(p.up.sibling) && uncle == p.up.sibling.ref
      modifies PathRefs(p)
      ensures Mirrors(Lift(p, t).1, grand, Above(p.up.up)) && Hangs(p.up.up, grand, root)
    {
      assert allocated(PathRefs(p)) && allocated(Refs(t));
      ghost var g := p.up;
      Family(p, t, node);
      ZoomOut(p, t, node);
      Family(g, Join(p, t), p.ref);
      node.parent.color := Black;
      uncle.color := Black;
      node.parent.parent.color := Red;
      grand := node.parent.parent;
      assert Mirrors(t, node, p.ref);
      assert Mirrors(Join(p.(color := Black), t), p.ref, grand);
      assert Mirrors(Blacken(g.sibling), uncle, grand);
    }

    /** The picture after an inner rotation: the clash now lies on the outside. */
    static function Twist(p: Path, t: Tree): (Path, Tree)
      requires Clashes(p) && t.Node?
    {
      var g := p.up;
      (Under(g, g.side, t.ref, t.key, t.value, Red, Child(t, p.side)), Join(p, Child(t, g.side)))
    }

    lemma TwistAt(p: Path, t: Tree, node: RbNode, n: RbNode)
      requires Clashes(p) && t.Node? && t.color.Red? && p.side != p.up.side
      requires At(p.up, Rotated(Join(p, t), p.up.side), n) && node == p.ref
      ensures At(Twist(p, t).0, Twist(p, t).1, node)
      ensures IsBlack(p.up.sibling) ==> Lift(Twist(p, t).0, Twist(p, t).1) == Lift(p, t)
    {
      var (q, u) := Twist(p, t);
      assert Join(q, u) == Rotated(Join(p, t), p.up.side);
      ZoomIn(q, u);
    }

    /** Colours the parent black and the grandparent red before the last rotation. */
    method PaintParents(node: RbNode, ghost p: Path, ghost t: Tree)
      requires At(p, t, node) && t.Node? && Clashes(p)
      modifies PathRefs(p)
      ensures var g := p.up.(color := Red);
        At(g.up, Join(g, Join(p.(color := Black), t)), p.up.ref)
      ensures node.parent == p.ref && p.ref.parent == p.up.ref
    {
      assert allocated(PathRefs(p)) && allocated(Refs(t));
      ghost var g := p.up;
      Family(p, t, node);
      ZoomOut(p, t, node);
      Family(g, Join(p, t), p.ref);
      JoinProper(p, t);
      JoinProper(p.(color := Black), t);
      JoinProper(g.(color := Red), Join(p.(color := Black), t));
      node.parent.color := Black;
      node.parent.parent.color := Red;
      assert Mirrors(t, node, p.ref);
      assert Mirrors(Join(p.(color := Black), t), p.ref, g.ref);
    }

    lemma LiftAt(p: Path, t: Tree, node: RbNode, n: RbNode)
      requires Clashes(p) && t.Node? && IsBlack(p.up.sibling) && p.side == p.up.side && node == t.ref
      requires var g := p.up.(color := Red);
        At(g.up, Rotated(Join(g, Join(p.(color := Black), t)), Opposite(g.side)), n)
      ensures At(Lift(p, t).0, Lift(p, t).1, node)
    {
      var g := p.up.(color := Red);
      var (q, u) := Lift(p, t);
      assert Join(q, u) == Rotated(Join(g, Join(p.(color := Black), t)), Opposite(g.side));
      ZoomIn(q, u);
    }

    /** The rotations under a left parent: an inner node is first brought to the outside. */
    method SettleLeft(start: RbNode, ghost p0: Path, ghost t0: Tree) returns (node: RbNode)
      requires At(p0, t0, start) && RedAt(p0, t0) && Clashes(p0)
      requires IsBlack(p0.up.sibling) && p0.up.side.Left?
      modifies this`root, PathRefs(p0), Refs(t0)
      ensures At(Lift(p0, t0).0, Lift(p0, t0).1, node)
    {
      node := start;
      ghost var p, t, g := p0, t0, p0.up;
      Family(p, t, node);
      if node == node.parent.right {
        node := node.parent;
        ZoomOut(p, t, start);
        RotateLeft(node, g, Join(p, t));
        TwistAt(p, t, node, t.ref);
        p, t := Twist(p, t).0, Twist(p, t).1;
      }
      PaintParents(node, p, t);
      RotateRight(node.parent.parent, g.up, Join(g.(color := Red), Join(p.(color := Black), t)));
      LiftAt(p, t, node, p.ref);
    }

    /** The rotations under a right parent: an inner node is first brought to the outside. */
    method SettleRight(start: RbNode, ghost p0: Path, ghost t0: Tree) returns (node: RbNode)
      requires At(p0, t0, start) && RedAt(p0, t0) && Clashes(p0)
      requires IsBlack(p0.up.sibling) && p0.up.side.Right?
      modifies this`root, PathRefs(p0), Refs(t0)
      ensures At(Lift(p0, t0).0, Lift(p0, t0).1, node)
    {
      node := start;
      ghost var p, t, g := p0, t0, p0.up;
      Family(p, t, node);
      if node == node.parent.left {
        node := node.parent;
        ZoomOut(p, t, start);
        RotateRight(node, g, Join(p, t));
        TwistAt(p, t, node, t.ref);
        p, t := Twist(p, t).0, Twist(p, t).1;
      }
      PaintParents(node, p, t);
      RotateLeft(node.parent.parent, g.up, Join(g.(color := Red), Join(p.(color := Black), t)));
      LiftAt(p, t, node, p.ref);
    }

    method FixInsert(start: RbNode, ghost p0: Path, ghost t0: Tree)
      requires At(p0, t0, start) && RedAt(p0, t0)
      modifies this`root, PathRefs(p0), Refs(t0)
      ensures Mirrors(FixUp(p0, t0), root, null)
    {
      var node := start;
      ghost var p, t := p0, t0;
      LoopTest(p, t, node);
      while node != root && node.parent.color == Red
        invariant At(p, t, node) && RedAt(p, t) && FixUp(p, t) == FixUp(p0, t0)
        invariant PathRefs(p) + Refs(t) == PathRefs(p0) + Refs(t0)
        invariant node != root ==> node.parent != null
        invariant node != root && node.parent.color == Red <==> Clashes(p)
        decreases Depth(p)
      {
        Family(p, t, node);
        ZoomOut(p, t, node);
        Family(p.up, Join(p, t), p.ref);
        LiftShortens(p, t);
        LiftRedAt(p, t);
        LiftProper(p, t);
        if node.parent == node.parent.parent.left {
          var uncle := node.parent.parent.right;
          if uncle != null && uncle.color == Red {
            node := Recolor(node, uncle, p, t);
          } else {
            node := SettleLeft(node, p, t);
          }
        } else {
          var uncle := node.parent.parent.left;
          if uncle != null && uncle.color == Red {
            node := Recolor(node, uncle, p, t);
          } else {
            node := SettleRight(node, p, t);
          }
        }
        p, t := Lift(p, t).0, Lift(p, t).1;
        LoopTest(p, t, node);
      }
      PlugMirrors(p, t, node, root);
      PlugNode(p, t);
      BlackenRoot(node, p, t);
    }

    lemma LoopTest(p: Path, t: Tree, node: RbNode)
      requires At(p, t, node) && RedAt(p, t)
      ensures node != root ==> node.parent != null
      ensures node != root && node.parent.color == Red <==> Clashes(p)
    {
      if p.Under? {
        Family(p, t, node);
        HangsRoot(p, node, root);
      }
    }

    /** `tree->root->color = BLACK` */
    method BlackenRoot(node: RbNode, ghost p: Path, ghost t: Tree)
      requires At(p, t, node) && t.Node? && root != null
      modifies PathRefs(p), Refs(t)
      ensures Mirrors(Blacken(Plug(p, t)), root, null)
    {
      PlugMirrors(p, t, node, root);
      PlugRefs(p, t);
      assert allocated(Refs(Plug(p, t)));
      root.color := Black;
    }

    // ---------------------------------------------------------- fix_delete

    /** The path to the sibling, which has t beside it. */
    static function Flip(p: Path, t: Tree): Path
      requires p.Under?
    {
      p.(side := Opposite(p.side), sibling := t)
    }

    lemma FlipAt(p: Path, t: Tree, node: RbNode?)
      requires At(p, t, node) && p.Under?
      ensures At(Flip(p, t), p.sibling, if p.side.Left? then p.ref.right else p.ref.left)
      ensures Join(Flip(p, t), p.sibling) == Join(p, t)
    {
      ZoomOut(p, t, node);
      ZoomIn(Flip(p, t), p.sibling);
    }

    /** `node->color = c` */
    method Paint(node: RbNode, c: Color, ghost p: Path, ghost t: Tree)
      requires At(p, t, node) && t.Node?
      modifies Refs(t)
      ensures At(p, t.(color := c), node)
    {
      assert allocated(PathRefs(p)) && allocated(Refs(t));
      node.color := c;
    }

    /** `parent->color = c`, seen from a child of parent */
    method PaintParent(node: RbNode, parent: RbNode, c: Color, ghost p: Path, ghost t: Tree)
      requires At(p, t, node) && t.Node? && p.Under? && parent == p.ref
      modifies PathRefs(p)
      ensures At(p.up, Join(p.(color := c), t), p.ref)
    {
      assert allocated(PathRefs(p)) && allocated(Refs(t));
      JoinProper(p, t);
      JoinProper(p.(color := c), t);
      parent.color := c;
      assert Mirrors(t, node, p.ref);
    }

    /** `sibling->color = c`, seen from the other child */
    method PaintSibling(node: RbNode, sibling: RbNode, c: Color, ghost p: Path, ghost t: Tree)
      requires At(p, t, node) && t.Node? && p.Under? && p.sibling.Node? && sibling == p.sibling.ref
      modifies PathRefs(p), Refs(t)
      ensures At(p.(sibling := p.sibling.(color := c)), t, node) && node.parent == p.ref
    {
      FlipAt(p, t, node);
      Family(p, t, node);
      ghost var u := p.sibling.(color := c);
      Paint(sibling, c, Flip(p, t), p.sibling);
      FlipAt(Flip(p, t), u, sibling);
      Family(p.(sibling := u), t, node);
    }

    lemma BorrowAt(p: Path, t: Tree, node: RbNode, n: RbNode)
      requires p.Under? && t.Node? && p.sibling.Node? && !IsBlack(p.sibling) && node == t.ref
      requires At(p.up, Rotated(Join(p.(color := Red, sibling := p.sibling.(color := Black)), t), p.side), n)
      ensures At(Borrow(p), t, node)
    {
      var q := Borrow(p);
      assert Join(q.up, Join(q, t))
          == Rotated(Join(p.(color := Red, sibling := p.sibling.(color := Black)), t), p.side);
      ZoomIn(q.up, Join(q, t));
      ZoomIn(q, t);
    }

    /** Blackens a child of node and then colours node itself. */
    method PaintDown(node: RbNode, child: RbNode, c: Color, ghost s: Side, ghost p: Path, ghost t: Tree)
      requires At(p, t, node) && t.Node? && Child(t, s).Node? && child == Child(t, s).ref
      modifies PathRefs(p), Refs(t)
      ensures At(p, if s.Left? then t.(color := c, left := Blacken(t.left))
                    else t.(color := c, right := Blacken(t.right)), node)
    {
      ghost var f := Under(p, s, t.ref, t.key, t.value, t.color, Child(t, Opposite(s)));
      assert Join(f, Child(t, s)) == t;
      ZoomIn(f, Child(t, s));
      Paint(child, Black, f, Child(t, s));
      PaintParent(child, node, c, f, Blacken(Child(t, s)));
    }

    /** A red sibling is rotated above the parent, so that the sibling is black afterwards. */
    method BorrowLeft(node: RbNode, red: RbNode, ghost p: Path, ghost t: Tree) returns (sibling: RbNode?)
      requires At(p, t, node) && t.Node? && p.Under? && p.side.Left? && p.sibling.Node? && !IsBlack(p.sibling)
      requires red == p.sibling.ref
      modifies this`root, PathRefs(p), Refs(t)
      ensures At(Borrow(p), t, node) && (sibling == null <==> Borrow(p).sibling.Leaf?)
      ensures sibling != null ==> sibling == Borrow(p).sibling.ref
    {
      ghost var q := p.(sibling := p.sibling.(color := Black));
      PaintSibling(node, red, Black, p, t);
      PaintParent(node, node.parent, Red, q, t);
      ZoomIn(q.(color := Red), t);
      Family(q.(color := Red), t, node);
      RotateLeft(node.parent, p.up, Join(p.(color := Red, sibling := p.sibling.(color := Black)), t));
      BorrowAt(p, t, node, red);
      Family(Borrow(p), t, node);
      sibling := node.parent.right;
    }

    /** The red near nephew is rotated above the sibling, so that the far nephew is red. */
    method StraightenLeft(node: RbNode, sibling: RbNode, ghost p: Path, ghost t: Tree) returns (s: RbNode)
      requires At(p, t, node) && t.Node? && p.Under? && p.sibling.Node? && p.side.Left?
      requires p.sibling.left.Node? && p.sibling.right.Node? && IsBlack(p.sibling.right) && sibling == p.sibling.ref
      modifies this`root, PathRefs(p), Refs(t)
      ensures At(Straighten(p), t, node) && Straighten(p).sibling.Node? && s == Straighten(p).sibling.ref
    {
      ghost var q := Flip(p, t);
      ghost var u := p.sibling;
      FlipAt(p, t, node);
      assert Mirrors(u.left, sibling.left, sibling);
      PaintDown(sibling, sibling.left, Red, Left, q, u);
      RotateRight(sibling, q, u.(color := Red, left := u.left.(color := Black)));
      FlipAt(q, Straighten(p).sibling, u.left.ref);
      Family(Straighten(p), t, node);
      s := node.parent.right;
    }

    /** The sibling takes the parent's colour, parent and far nephew turn black, and the sibling rises. */
    method FinishLeft(node: RbNode, sibling: RbNode, ghost p: Path, ghost t: Tree)
      requires At(p, t, node) && t.Node? && p.Under? && p.sibling.Node? && p.side.Left?
      requires p.sibling.right.Node? && sibling == p.sibling.ref
      modifies this`root, PathRefs(p), Refs(t)
      ensures root != null && At(Top, Plug(p.up, Settle(p, t)), root)
    {
      ghost var u := p.sibling;
      Family(p, t, node);
      FlipAt(p, t, node);
      assert Mirrors(u.right, sibling.right, sibling);
      PaintDown(sibling, sibling.right, node.parent.color, Right, Flip(p, t), u);
      ghost var v := u.(color := p.color, right := Blacken(u.right));
      FlipAt(Flip(p, t), v, sibling);
      PaintParent(node, node.parent, Black, p.(sibling := v), t);
      RotateLeft(node.parent, p.up, Join(p.(color := Black, sibling := v), t));
      WholeAt(p.up, Settle(p, t), sibling);
    }

    method BorrowRight(node: RbNode, red: RbNode, ghost p: Path, ghost t: Tree) returns (sibling: RbNode?)
      requires At(p, t, node) && t.Node? && p.Under? && p.side.Right? && p.sibling.Node? && !IsBlack(p.sibling)
      requires red == p.sibling.ref
      modifies this`root, PathRefs(p), Refs(t)
      ensures At(Borrow(p), t, node) && (sibling == null <==> Borrow(p).sibling.Leaf?)
      ensures sibling != null ==> sibling == Borrow(p).sibling.ref
    {
      ghost var q := p.(sibling := p.sibling.(color := Black));
      PaintSibling(node, red, Black, p, t);
      PaintParent(node, node.parent, Red, q, t);
      ZoomIn(q.(color := Red), t);
      Family(q.(color := Red), t, node);
      RotateRight(node.parent, p.up, Join(p.(color := Red, sibling := p.sibling.(color := Black)), t));
      BorrowAt(p, t, node, red);
      Family(Borrow(p), t, node);
      sibling := node.parent.left;
    }

    method StraightenRight(node: RbNode, sibling: RbNode, ghost p: Path, ghost t: Tree) returns (s: RbNode)
      requires At(p, t, node) && t.Node? && p.Under? && p.sibling.Node? && p.side.Right?
      requires p.sibling.right.Node? && p.sibling.left.Node? && IsBlack(p.sibling.left) && sibling == p.sibling.ref
      modifies this`root, PathRefs(p), Refs(t)
      ensures At(Straighten(p), t, node) && Straighten(p).sibling.Node? && s == Straighten(p).sibling.ref
    {
      ghost var q := Flip(p, t);
      ghost var u := p.sibling;
      FlipAt(p, t, node);
      assert Mirrors(u.right, sibling.right, sibling);
      PaintDown(sibling, sibling.right, Red, Right, q, u);
      RotateLeft(sibling, q, u.(color := Red, right := u.right.(color := Black)));
      FlipAt(q, Straighten(p).sibling, u.right.ref);
      Family(Straighten(p), t, node);
      s := node.parent.left;
    }

    method FinishRight(node: RbNode, sibling: RbNode, ghost p: Path, ghost t: Tree)
      requires At(p, t, node) && t.Node? && p.Under? && p.sibling.Node? && p.side.Right?
      requires p.sibling.left.Node? && sibling == p.sibling.ref
      modifies this`root, PathRefs(p), Refs(t)
      ensures root != null && At(Top, Plug(p.up, Settle(p, t)), root)
    {
      ghost var u := p.sibling;
      Family(p, t, node);
      FlipAt(p, t, node);
      assert Mirrors(u.left, sibling.left, sibling);
      PaintDown(sibling, sibling.left, node.parent.color, Left, Flip(p, t), u);
      ghost var v := u.(color := p.color, left := Blacken(u.left));
      FlipAt(Flip(p, t), v, sibling);
      PaintParent(node, node.parent, Black, p.(sibling := v), t);
      RotateRight(node.parent, p.up, Join(p.(color := Black, sibling := v), t));
      WholeAt(p.up, Settle(p, t), sibling);
    }

    lemma WholeAt(p: Path, t: Tree, n: RbNode)
      requires At(p, t, n) && t.Node?
      ensures root != null && At(Top, Plug(p, t), root)
    {
      PlugMirrors(p, t, n, root);
      PlugRefs(p, t);
      PlugNode(p, t);
    }

    lemma Nephews(p: Path, t: Tree, sibling: RbNode)
      requires ProperPath(p) && p.Under? && p.sibling.Node? && sibling == p.sibling.ref
      requires Mirrors(p.sibling, sibling, p.ref)
      requires p.sibling.left.Node? && p.sibling.right.Node?
      ensures sibling.left == p.sibling.left.ref && sibling.left.color == p.sibling.left.color
      ensures sibling.right == p.sibling.right.ref && sibling.right.color == p.sibling.right.color
    {
      assert Mirrors(p.sibling.left, sibling.left, sibling) && Mirrors(p.sibling.right, sibling.right, sibling);
    }

    lemma StraightenNephews(p: Path, t: Tree)
      requires p.Under? && p.sibling.Node? && p.sibling.left.Node? && p.sibling.right.Node?
      ensures Straighten(p).sibling.Node? && Straighten(p).side == p.side
      ensures Child(Straighten(p).sibling, Opposite(p.side)).Node?
    {
    }

    /** A round of the deletion loop after a red sibling has been rotated away. */
    static function Rounded(p: Path, t: Tree): (Path, Tree)
      requires p.Under? && p.sibling.Node?
    {
      var s := p.sibling;
      if IsBlack(s.left) && IsBlack(s.right) then (p.up, Join(p.(sibling := s.(color := Red)), t))
      else (Top, Plug(Straighten(p).up, Settle(Straighten(p), t)))
    }

    lemma ReadNephews(p: Path, sibling: RbNode)
      requires p.Under? && p.sibling.Node? && sibling == p.sibling.ref && Mirrors(p.sibling, sibling, p.ref)
      ensures sibling.left == null <==> p.sibling.left.Leaf?
      ensures sibling.right == null <==> p.sibling.right.Leaf?
    {
      assert Mirrors(p.sibling.left, sibling.left, sibling) && Mirrors(p.sibling.right, sibling.right, sibling);
    }

    /** One round of the deletion loop at a left child; crashed if it reads a null pointer. */
    method SinkLeft(start: RbNode, ghost p0: Path, ghost t: Tree) returns (crashed: bool, node: RbNode)
      requires At(p0, t, start) && t.Node? && p0.Under? && p0.side.Left?
      modifies this`root, PathRefs(p0), Refs(t)
      ensures crashed <==> !Reads(p0)
      ensures !crashed ==> At(Sink(p0, t).0, Sink(p0, t).1, node)
    {
      crashed, node := true, start;
      ghost var p := p0;
      Family(p, t, node);
      var sibling := node.parent.right;
      if sibling == null {
        return;
      }
      BorrowProper(p, t);
      if sibling.color == Red {
        sibling := BorrowLeft(node, sibling, p, t);
        p := Borrow(p);
      }
      if sibling == null {
        return;
      }
      Family(p, t, node);
      ReadNephews(p, sibling);
      if sibling.left == null || sibling.right == null {
        return;
      }
      crashed := false;
      Nephews(p, t, sibling);
      node := SunkLeft(node, sibling, p, t);
    }

    /** The rest of the round, once the sibling is black and both its children are there. */
    method SunkLeft(start: RbNode, sibling: RbNode, ghost p0: Path, ghost t: Tree) returns (node: RbNode)
      requires At(p0, t, start) && t.Node? && p0.Under? && p0.side.Left?
      requires p0.sibling.Node? && sibling == p0.sibling.ref
      requires Mirrors(p0.sibling, sibling, p0.ref)
      requires p0.sibling.left.Node? && p0.sibling.right.Node?
      modifies this`root, PathRefs(p0), Refs(t)
      ensures At(Rounded(p0, t).0, Rounded(p0, t).1, node)
    {
      node := start;
      var s := sibling;
      Nephews(p0, t, s);
      if s.left.color == Black && s.right.color == Black {
        PaintSibling(node, s, Red, p0, t);
        ZoomOut(p0.(sibling := p0.sibling.(color := Red)), t, node);
        node := node.parent;
      } else {
        if s.right.color == Black {
          s := StraightenLeft(node, s, p0, t);
          StraightenProper(p0);
        }
        StraightenNephews(p0, t);
        FinishLeft(node, s, Straighten(p0), t);
        node := root;
      }
    }

    method SinkRight(start: RbNode, ghost p0: Path, ghost t: Tree) returns (crashed: bool, node: RbNode)
      requires At(p0, t, start) && t.Node? && p0.Under? && p0.side.Right?
      modifies this`root, PathRefs(p0), Refs(t)
      ensures crashed <==> !Reads(p0)
      ensures !crashed ==> At(Sink(p0, t).0, Sink(p0, t).1, node)
    {
      crashed, node := true, start;
      ghost var p := p0;
      Family(p, t, node);
      var sibling := node.parent.left;
      if sibling == null {
        return;
      }
      BorrowProper(p, t);
      if sibling.color == Red {
        sibling := BorrowRight(node, sibling, p, t);
        p := Borrow(p);
      }
      if sibling == null {
        return;
      }
      Family(p, t, node);
      ReadNephews(p, sibling);
      if sibling.left == null || sibling.right == null {
        return;
      }
      crashed := false;
      Nephews(p, t, sibling);
      node := SunkRight(node, sibling, p, t);
    }

    /** The rest of the round, once the sibling is black and both its children are there. */
    method SunkRight(start: RbNode, sibling: RbNode, ghost p0: Path, ghost t: Tree) returns (node: RbNode)
      requires At(p0, t, start) && t.Node? && p0.Under? && p0.side.Right?
      requires p0.sibling.Node? && sibling == p0.sibling.ref
      requires Mirrors(p0.sibling, sibling, p0.ref)
      requires p0.sibling.left.Node? && p0.sibling.right.Node?
      modifies this`root, PathRefs(p0), Refs(t)
      ensures At(Rounded(p0, t).0, Rounded(p0, t).1, node)
    {
      node := start;
      var s := sibling;
      Nephews(p0, t, s);
      if s.left.color == Black && s.right.color == Black {
        PaintSibling(node, s, Red, p0, t);
        ZoomOut(p0.(sibling := p0.sibling.(color := Red)), t, node);
        node := node.parent;
      } else {
        if s.left.color == Black {
          s := StraightenRight(node, s, p0, t);
          StraightenProper(p0);
        }
        StraightenNephews(p0, t);
        FinishRight(node, s, Straighten(p0), t);
        node := root;
      }
    }

    /** The loop of fix_delete from any node; crashed if it reads a null pointer. */
    method FixDelete(start: RbNode, ghost p0: Path, ghost t0: Tree) returns (crashed: bool, ghost rounds: nat)
      requires t0.Node? && At(p0, t0, start)
      modifies this`root, PathRefs(p0), Refs(t0)
      ensures crashed <==> !Safe(p0, t0)
      ensures !crashed ==> Mirrors(FixDown(p0, t0), root, null) && (rounds == 0 <==> !Short(p0, t0))
    {
      var node := start;
      ghost var p, t := p0, t0;
      crashed, rounds := false, 0;
      DeleteTest(p, t, node);
      while node != root && node.color == Black
        invariant t.Node? && At(p, t, node) && FixDown(p, t) == FixDown(p0, t0) && (Safe(p, t) <==> Safe(p0, t0))
        invariant PathRefs(p) + Refs(t) == PathRefs(p0) + Refs(t0)
        invariant node != root && node.color == Black <==> Short(p, t)
        invariant if rounds == 0 then p == p0 && t == t0 else Short(p0, t0)
        decreases if Short(p, t) then 1 + Depth(p) else 0
      {
        Family(p, t, node);
        SinkShortens(p, t);
        if node == node.parent.left {
          crashed, node := SinkLeft(node, p, t);
        } else {
          crashed, node := SinkRight(node, p, t);
        }
        if crashed {
          return;
        }
        SinkProper(p, t);
        SinkNode(p, t);
        p, t := Sink(p, t).0, Sink(p, t).1;
        rounds := rounds + 1;
        DeleteTest(p, t, node);
      }
      Paint(node, Black, p, t);
      PlugMirrors(p, Blacken(t), node, root);
    }

    lemma DeleteTest(p: Path, t: Tree, node: RbNode)
      requires At(p, t, node) && t.Node?
      ensures node != root && node.color == Black <==> Short(p, t)
    {
      if p.Under? {
        HangsRoot(p, node, root);
      }
    }

    // ---------------------------------------------------------- search

    /** A search for key has come from the root to n, which heads t. */
    ghost predicate Searching(p: Path, t: Tree, n: RbNode?, key: int)
      reads this, PathRefs(p), Refs(t)
    {
      && At(p, t, n) && Plug(p, t) == shape && PathRefs(p) + Refs(t) == Refs(shape)
      && Follows(p, key) && Flat(p, t) == InOrder(shape)
    }

    lemma StartSearch(key: int)
      requires Valid()
      ensures Searching(Top, shape, root, key)
    {
    }

    lemma StepDown(p: Path, t: Tree, n: RbNode, key: int, s: Side)
      requires Ordered() && Searching(p, t, n, key) && t.Node?
      requires if s.Left? then key < t.key else key > t.key
      ensures Searching(Below(p, t, s), Child(t, s), if s.Left? then n.left else n.right, key)
    {
      var q := Below(p, t, s);
      FollowDown(p, t, key, s);
      assert Join(q, Child(t, s)) == t;
      JoinProper(q, Child(t, s));
      ZoomIn(q, Child(t, s));
    }

    // ---------------------------------------------------------- insert and find

    /** The walk of an insertion: to the node of the key, or to the place for it below parent. */
    method Descend(key: int, ghost n: RbNode, ghost value: Ptr)
        returns (parent: RbNode?, current: RbNode?, ghost p: Path, ghost t: Tree, ghost steps: nat)
      requires Valid()
      ensures Searching(p, t, current, key) && steps <= Height(shape)
      ensures InsertAt(p, t, n, key, value) == InsertAt(Top, shape, n, key, value)
      ensures if current == null then parent == Above(p) else current.key == key
      ensures current == null <==> key !in Contents()
    {
      parent, current := null, root;
      p, t, steps := Top, shape, 0;
      StartSearch(key);
      while current != null
        invariant Searching(p, t, current, key) && (current == null ==> parent == Above(p))
        invariant steps + Height(t) <= Height(shape)
        invariant InsertAt(p, t, n, key, value) == InsertAt(Top, shape, n, key, value)
        decreases t
      {
        steps := steps + 1;
        parent := current;
        if key < current.key {
          StepDown(p, t, current, key, Left);
          current := current.left;
          p, t := Below(p, t, Left), t.left;
        } else if key > current.key {
          StepDown(p, t, current, key, Right);
          current := current.right;
          p, t := Below(p, t, Right), t.right;
        } else {
          FoundAt(p, t, value);
          return;
        }
      }
      AbsentAt(p, key, value);
    }

    /** available is the outcome of the allocation that comes before the walk; node is the node allocated, and
        freed again when the key is there already. */
    method Insert(key: int, value: Ptr, available: bool) returns (status: Status, ghost node: RbNode?)
      requires Valid() && Tinted(shape)
      modifies this, Refs(shape)
      ensures Valid() && Tinted(shape) && (old(Legal(shape)) ==> Legal(shape))
      ensures fresh(Refs(shape) - old(Refs(shape))) && old(Refs(shape)) <= Refs(shape)
      ensures status == (if available then OK else NO_MEMORY)
      ensures Contents() == if available then old(Contents())[key := value] else old(Contents())
      ensures available ==> node != null && shape == InsertAt(Top, old(shape), node, key, value)
      ensures available ==> Refs(shape) == old(Refs(shape)) + if key in old(Contents()) then {} else {node}
      ensures !available ==> shape == old(shape)
    {
      if !available {
        return NO_MEMORY, null;
      }
      assert allocated(Refs(shape));
      var n := new RbNode(key, value);
      var parent, current, p, t, steps := Descend(key, n, value);
      if current != null {
        Overwrite(current, value, p, t);
        return OK, n;
      }
      n.parent := parent;
      Attach(n, parent, p);
      return OK, n;
    }

    method Find(key: int) returns (value: Ptr, ghost steps: nat)
      requires Valid()
      ensures value == if key in Contents() then Contents()[key] else NULL
      ensures steps <= Height(shape)
    {
      var node := root;
      ghost var p, t := Top, shape;
      steps := 0;
      StartSearch(key);
      while node != null
        invariant Searching(p, t, node, key) && steps + Height(t) <= Height(shape)
        decreases t
      {
        steps := steps + 1;
        if key < node.key {
          StepDown(p, t, node, key, Left);
          node := node.left;
          p, t := Below(p, t, Left), t.left;
        } else if key > node.key {
          StepDown(p, t, node, key, Right);
          node := node.right;
          p, t := Below(p, t, Right), t.right;
        } else {
          FoundAt(p, t, node.value);
          return node.value, steps;
        }
      }
      AbsentAt(p, key, NULL);
      return NULL, steps;
    }

    /** The key is there already: only its value changes. */
    method Overwrite(current: RbNode, value: Ptr, ghost p: Path, ghost t: Tree)
      requires t.Node? && Ordered() && Tinted(shape) && Searching(p, t, current, t.key)
      modifies this`shape, Refs(shape)
      ensures Valid() && Tinted(shape) && (old(Legal(shape)) ==> Legal(shape)) && Refs(shape) == old(Refs(shape))
      ensures Contents() == old(Contents())[t.key := value] && shape == Plug(p, t.(value := value))
    {
      FoundAt(p, t, value);
      OverwriteLaw(p, t, value);
      SetValue(current, value, p, t);
      PlugMirrors(p, t.(value := value), current, root);
      shape := Plug(p, t.(value := value));
    }

    method SetValue(current: RbNode, value: Ptr, ghost p: Path, ghost t: Tree)
      requires At(p, t, current) && t.Node?
      modifies Refs(t)
      ensures At(p, t.(value := value), current)
    {
      assert allocated(Refs(t)) && allocated(PathRefs(p));
      current.value := value;
    }

    lemma OverwriteLaw(p: Path, t: Tree, value: Ptr)
      requires t.Node?
      ensures var s, u := Plug(p, t), Plug(p, t.(value := value));
        && InOrder(u) == Flat(p, t.(value := value)) && Refs(u) == Refs(s) && (Proper(s) ==> Proper(u))
        && (Tinted(s) ==> Tinted(u)) && (Legal(s) ==> Legal(u))
    {
      var u := t.(value := value);
      PlugRefs(p, t);
      PlugRefs(p, u);
      PlugLegal(p, t);
      PlugLegal(p, u);
      PlugTinted(p, t);
      PlugTinted(p, u);
      PlugInOrder(p, u);
    }

    /** Hangs the new node where the search ended and repairs the colours. */
    method Attach(node: RbNode, parent: RbNode?, ghost p: Path)
      requires Ordered() && Tinted(shape) && Searching(p, Leaf, null, node.key) && parent == Above(p)
      requires node.color == Red && node.left == null && node.right == null && node.parent == parent
      requires node !in Refs(shape)
      modifies this, Refs(shape), node
      ensures Valid() && Tinted(shape) && (old(Legal(shape)) ==> Legal(shape))
      ensures Refs(shape) == old(Refs(shape)) + {node}
      ensures Contents() == old(Contents()[node.key := node.value])
      ensures shape == FixUp(p, old(Node(node, node.key, node.value, Red, Leaf, Leaf)))
    {
      ghost var t := Node(node, node.key, node.value, Red, Leaf, Leaf);
      AttachLaw(p, t, node.key, node.value);
      Link(node, parent, p, t);
      FixInsert(node, p, t);
      size := size + 1;
      shape := FixUp(p, t);
    }

    lemma AttachLaw(p: Path, t: Tree, key: int, value: Ptr)
      requires Tinted(Plug(p, Leaf)) && Proper(Plug(p, Leaf)) && Sorted(Flat(p, Leaf)) && Follows(p, key)
      requires t.Node? && t == Node(t.ref, key, value, Red, Leaf, Leaf) && t.ref !in PathRefs(p)
      ensures RedAt(p, t) && ProperAt(p, t)
      ensures var s := FixUp(p, t);
        && Tinted(s) && Proper(s) && Refs(s) == PathRefs(p) + {t.ref} && Sorted(InOrder(s))
        && (Legal(Plug(p, Leaf)) ==> Legal(s))
        && |InOrder(s)| == |Flat(p, Leaf)| + 1 && ToMap(InOrder(s)) == ToMap(Flat(p, Leaf))[key := value]
    {
      PlugRefs(p, Leaf);
      PlugTinted(p, Leaf);
      PlugLegal(p, Leaf);
      AbsentAt(p, key, value);
      assert InOrder(t) == [(key, value)];
      FixUpLaw(p, t);
    }

    method Link(node: RbNode, parent: RbNode?, ghost p: Path, ghost t: Tree)
      requires At(p, Leaf, null) && parent == Above(p) && Follows(p, node.key) && ProperAt(p, t)
      requires t == Node(node, node.key, node.value, Red, Leaf, Leaf)
      requires node.color == Red && node.left == null && node.right == null && node.parent == parent
      modifies this`root, PathRefs(p)
      ensures At(p, t, node)
    {
      assert allocated(PathRefs(p));
      if p.Under? {
        FollowsSide(p, node.key);
      }
      if parent == null {
        root := node;
      } else if node.key < parent.key {
        parent.left := node;
      } else {
        parent.right := node;
      }
    }

    lemma FollowsSide(p: Path, key: int)
      requires Follows(p, key) && p.Under?
      ensures key < p.key <==> p.side.Left?
    {
      if p.side.Left? {
        assert After(p)[0] == (p.key, p.value);
      } else {
        assert Before(p)[|Before(p)| - 1] == (p.key, p.value);
      }
    }

    // ---------------------------------------------------------- remove

    /** Takes y, which has at most one child x, out of the links around it. */
    method Unlink(y: RbNode, ghost p: Path, ghost t: Tree) returns (x: RbNode?)
      requires At(p, t, y) && t.Node? && (t.left.Leaf? || t.right.Leaf?)
      modifies this`root, PathRefs(p), Refs(t)
      ensures At(p, Only(t), x) && y.key == t.key && y.value == t.value && y.color == t.color
    {
      assert allocated(Refs(t)) && allocated(PathRefs(p));
      assert Mirrors(t.left, y.left, y) && Mirrors(t.right, y.right, y);
      if y.left != null {
        x := y.left;
      } else {
        x := y.right;
      }
      SetParent(x, y.parent, Only(t), y);
      Replace(y, x, p);
    }

    /** The last lines of a removal: repair only if a black node with a child was taken out. */
    method Mend(y: RbNode, x: RbNode?, ghost p: Path, ghost t: Tree) returns (crashed: bool, ghost rounds: nat)
      requires t.Node? && y.color == t.color && At(p, Only(t), x)
      modifies this`root, PathRefs(p), Refs(Only(t))
      ensures crashed <==> !Mendable(p, t)
      ensures !crashed ==> Mirrors(Mended(p, t), root, null) && (rounds == 0 <==> !LoopsAt(p, t))
    {
      crashed, rounds := false, 0;
      if y.color == Black && x != null {
        crashed, rounds := FixDelete(x, p, Only(t));
      } else {
        PlugMirrors(p, Only(t), x, root);
      }
    }

    /** Walks to the leftmost node below the right child of node. */
    method Successor(node: RbNode, ghost p: Path, ghost t: Tree)
        returns (y: RbNode, ghost q: Path, ghost u: Tree)
      requires At(p, t, node) && t.Node? && t.right.Node?
      ensures At(Graft(q, Below(p, t, Right)), u, y) && LeftSpine(q)
      ensures u.Node? && u.left.Leaf? && u == Leftmost(t.right) && Plug(q, u) == t.right
    {
      ghost var b := Below(p, t, Right);
      assert Join(b, t.right) == t;
      ZoomIn(b, t.right);
      y := node.right;
      q, u := Top, t.right;
      while y.left != null
        invariant At(Graft(q, b), u, y) && LeftSpine(q)
        invariant u.Node? && Leftmost(u) == Leftmost(t.right) && Plug(q, u) == t.right
        decreases u
      {
        ghost var g := Below(Graft(q, b), u, Left);
        assert Join(g, u.left) == u;
        ZoomIn(g, u.left);
        y := y.left;
        q, u := Below(q, u, Left), u.left;
      }
      assert Mirrors(u.left, y.left, y);
    }

    lemma {:induction false} ZoomOutAll(q: Path, b: Path, t: Tree, n: RbNode?)
      requires At(Graft(q, b), t, n)
      ensures At(b, Plug(q, t), if Plug(q, t).Node? then Plug(q, t).ref else null)
      decreases q
    {
      if q.Under? {
        ZoomOut(Graft(q, b), t, n);
        ZoomOutAll(q.up, b, Join(q, t), q.ref);
      }
    }

    lemma {:induction false} ZoomInAll(q: Path, b: Path, t: Tree, n: RbNode?)
      requires At(b, Plug(q, t), n)
      ensures At(Graft(q, b), t, if t.Node? then t.ref else null)
      decreases q
    {
      if q.Under? {
        ZoomInAll(q.up, b, Join(q, t), n);
        ZoomIn(Graft(q, b), t);
      }
    }

    /** Removal of a node with at most one child. */
    method RemoveOuter(node: RbNode, ghost p: Path, ghost t: Tree) returns (crashed: bool, ghost rounds: nat)
      requires t.Node? && At(p, t, node) && (t.left.Leaf? || t.right.Leaf?)
      modifies this`root, PathRefs(p), Refs(t)
      ensures crashed <==> !Mendable(p, t)
      ensures !crashed ==> Mirrors(Mended(p, t), root, null) && (rounds == 0 <==> !LoopsAt(p, t))
    {
      var x := Unlink(node, p, t);
      crashed, rounds := Mend(node, x, p, t);
    }

    /** s1 is the tree s0 after the removal of a key that it holds, with node n gone. */
    ghost static predicate Removed(s1: Tree, s0: Tree, key: int, n: RbNode) {
      && Tinted(s1) && Proper(s1) && n in Refs(s0) && Refs(s1) == Refs(s0) - {n}
      && Without(InOrder(s1), InOrder(s0), key)
      && (Legal(s0) ==> (Balanced(s1) <==> !TakesBlackLeaf(s0, key)))
    }

    lemma OuterLaw(p: Path, t: Tree)
      requires t.Node? && Tinted(Plug(p, t)) && Proper(Plug(p, t)) && Sorted(InOrder(Plug(p, t)))
      requires t.left.Leaf? || t.right.Leaf?
      requires HoleOf(Top, Plug(p, t), t.key) == (p, t) && Mendable(p, t)
      ensures Removed(Mended(p, t), Plug(p, t), t.key, t.ref)
    {
      PlugTinted(p, t);
      PlugLegal(p, t);
      OuterProper(p, t);
      MendedTinted(p, t);
      OuterFlat(p, t);
      if LegalAt(p, t) {
        MendedBalanced(p, t);
      }
    }

    lemma OuterProper(p: Path, t: Tree)
      requires t.Node? && Proper(Plug(p, t)) && (t.left.Leaf? || t.right.Leaf?)
      ensures ProperAt(p, t) && ProperAt(p, Only(t)) && t.ref in Refs(Plug(p, t))
      ensures PathRefs(p) + Refs(Only(t)) == Refs(Plug(p, t)) - {t.ref}
    {
      PlugRefs(p, t);
      assert Refs(Only(t)) == Refs(t) - {t.ref};
    }

    lemma OuterFlat(p: Path, t: Tree)
      requires t.Node? && Sorted(InOrder(Plug(p, t))) && (t.left.Leaf? || t.right.Leaf?)
      ensures Without(Flat(p, Only(t)), InOrder(Plug(p, t)), t.key)
    {
      PlugInOrder(p, t);
      TakeOutFlat(p, t);
    }

    method SetData(node: RbNode, key: int, value: Ptr, ghost p: Path, ghost t: Tree)
      requires At(p, t, node) && t.Node?
      modifies node
      ensures At(p, t.(key := key, value := value), node)
    {
      assert allocated(Refs(t)) && allocated(PathRefs(p));
      node.key := key;
      node.value := value;
    }

    /** Removal of a node with two children: its successor is unlinked and gives up its data. */
    method RemoveInner(node: RbNode, ghost p: Path, ghost t: Tree)
        returns (crashed: bool, ghost q: Path, ghost u: Tree, ghost rounds: nat)
      requires t.Node? && At(p, t, node) && t.left.Node? && t.right.Node?
      modifies this`root, PathRefs(p), Refs(t)
      ensures LeftSpine(q) && u.Node? && u.left.Leaf? && u == Leftmost(t.right) && Plug(q, u) == t.right
      ensures crashed <==> !Mendable(Graft(q, Moved(p, t, u)), u)
      ensures !crashed ==> Mirrors(Mended(Graft(q, Moved(p, t, u)), u), root, null)
      ensures !crashed ==> (rounds == 0 <==> !LoopsAt(Graft(q, Moved(p, t, u)), u))
    {
      var y;
      y, q, u := Successor(node, p, t);
      InnerRefs(p, t, q, u);
      var x := Unlink(y, Graft(q, Below(p, t, Right)), u);
      MoveData(node, y, x, p, t, q, u);
      crashed, rounds := Mend(y, x, Graft(q, Moved(p, t, u)), u);
    }

    method MoveData(node: RbNode, y: RbNode, ghost x: RbNode?, ghost p: Path, ghost t: Tree,
        ghost q: Path, ghost u: Tree)
      requires t.Node? && u.Node? && node == t.ref && node != y && y.key == u.key && y.value == u.value
      requires At(Graft(q, Below(p, t, Right)), Only(u), x)
      modifies node
      ensures At(Graft(q, Moved(p, t, u)), Only(u), x)
    {
      ghost var b := Below(p, t, Right);
      ghost var r := Plug(q, Only(u));
      ghost var n := if r.Node? then r.ref else null;
      ZoomOutAll(q, b, Only(u), x);
      ZoomOut(b, r, n);
      assert Join(b, r) == t.(right := r);
      SetData(node, y.key, y.value, p, t.(right := r));
      assert Join(Moved(p, t, u), r) == t.(key := u.key, value := u.value, right := r);
      ZoomIn(Moved(p, t, u), r);
      ZoomInAll(q, Moved(p, t, u), Only(u), node.right);
    }

    lemma InnerRefs(p: Path, t: Tree, q: Path, u: Tree)
      requires t.Node? && u.Node? && Plug(q, u) == t.right && ProperAt(p, t)
      ensures PathRefs(Graft(q, Below(p, t, Right))) + Refs(u) == PathRefs(p) + Refs(t)
      ensures PathRefs(Graft(q, Moved(p, t, u))) + Refs(u) == PathRefs(p) + Refs(t)
      ensures u.ref in Refs(t) && u.ref !in PathRefs(p) && u.ref != t.ref
    {
      var b := Below(p, t, Right);
      assert Join(b, t.right) == t;
      GraftPlug(q, b, u);
      GraftPlug(q, Moved(p, t, u), u);
      PlugRefs(Graft(q, b), u);
      PlugRefs(Graft(q, Moved(p, t, u)), u);
      PlugRefs(p, t);
      PlugRefs(q, u);
      assert Refs(Join(Moved(p, t, u), t.right)) == Refs(t);
      PlugRefs(p, Join(Moved(p, t, u), t.right));
    }

    lemma InnerRules(p: Path, t: Tree, q: Path, u: Tree)
      requires t.Node? && u.Node? && TintedAt(p, t) && Plug(q, u) == t.right
      ensures TintedAt(Graft(q, Moved(p, t, u)), u)
      ensures LegalAt(p, t) ==> LegalAt(Graft(q, Moved(p, t, u)), u)
    {
      var b := Below(p, t, Right);
      assert Join(b, t.right) == t;
      GraftPlug(q, b, u);
      PlugTinted(Graft(q, b), u);
      PlugTinted(p, t);
      PlugLegal(Graft(q, b), u);
      PlugLegal(p, t);
      GraftRules(q, b, u.key, u.value, BlackHeight(u));
    }

    lemma InnerLaw(p: Path, t: Tree, q: Path, u: Tree)
      requires t.Node? && u.Node? && u.left.Leaf? && LeftSpine(q) && Plug(q, u) == t.right
      requires Tinted(Plug(p, t)) && Proper(Plug(p, t)) && Sorted(InOrder(Plug(p, t)))
      requires HoleOf(Top, Plug(p, t), t.key) == (Graft(q, Moved(p, t, u)), u)
      requires Mendable(Graft(q, Moved(p, t, u)), u)
      ensures Removed(Mended(Graft(q, Moved(p, t, u)), u), Plug(p, t), t.key, u.ref)
    {
      PlugTinted(p, t);
      PlugLegal(p, t);
      PlugRefs(p, t);
      PlugInOrder(p, t);
      InnerRules(p, t, q, u);
      InnerProper(p, t, q, u);
      MendedTinted(Graft(q, Moved(p, t, u)), u);
      if LegalAt(p, t) {
        MendedBalanced(Graft(q, Moved(p, t, u)), u);
      }
      InnerFlat(p, t, q, u);
      InnerRefs(p, t, q, u);
    }

    lemma InnerProper(p: Path, t: Tree, q: Path, u: Tree)
      requires t.Node? && u.Node? && Plug(q, u) == t.right && ProperAt(p, t) && u.left.Leaf?
      ensures var g := Graft(q, Moved(p, t, u));
        ProperAt(g, Only(u)) && PathRefs(g) + Refs(Only(u)) == PathRefs(p) + Refs(t) - {u.ref} && g.Under?
    {
      var c := Moved(p, t, u);
      GraftPlug(q, c, u);
      PlugRefs(Graft(q, c), u);
      PlugRefs(p, t);
      JoinProper(c, t.right);
      JoinProper(Below(p, t, Right), t.right);
      PlugRefs(p, Join(c, t.right));
      assert Refs(Only(u)) == Refs(u) - {u.ref};
    }

    lemma InnerFlat(p: Path, t: Tree, q: Path, u: Tree)
      requires t.Node? && u.Node? && u.left.Leaf? && LeftSpine(q) && Plug(q, u) == t.right && Sorted(Flat(p, t))
      ensures Without(Flat(Graft(q, Moved(p, t, u)), Only(u)), Flat(p, t), t.key)
    {
      var c := Moved(p, t, u);
      var t2 := t.(key := u.key, value := u.value, right := Plug(q, Only(u)));
      TakeSuccessorFlat(p, t, q, u, t2);
      GraftPlug(q, c, Only(u));
      PlugInOrder(Graft(q, c), Only(u));
      assert Join(c, Plug(q, Only(u))) == t2;
      PlugInOrder(p, t2);
    }

    /** crashed if fix_delete reads a null pointer; otherwise freed is the node given back to the
        allocator, and rounds counts the passes of the loop. */
    method Remove(key: int) returns (crashed: bool, value: Ptr, ghost freed: RbNode?, ghost rounds: nat)
      requires Valid() && Tinted(shape)
      modifies this, Refs(shape)
      ensures crashed <==> ReadsNull(old(shape), key)
      ensures value == if key in old(Contents()) then old(Contents())[key] else NULL
      ensures !crashed ==> Valid() && Tinted(shape) && shape == RemoveKey(old(shape), key)
      ensures !crashed ==> Contents() == old(Contents()) - {key}
      ensures !crashed ==> (freed != null <==> key in old(Contents())) && Refs(shape) == old(Refs(shape)) - {freed}
      ensures freed != null ==> freed in old(Refs(shape))
      ensures !crashed ==> (rounds == 0 <==> !EntersLoop(old(shape), key))
      ensures !crashed && old(Legal(shape)) ==> (Balanced(shape) <==> !TakesBlackLeaf(old(shape), key))
    {
      assert allocated(Refs(shape));
      var node;
      ghost var p, t;
      node, p, t := Locate(key);
      if node == null {
        return false, NULL, null, 0;
      }
      value := node.value;
      crashed, freed, rounds := TakeOut(node, p, t);
    }

    method TakeOut(node: RbNode, ghost p: Path, ghost t: Tree)
        returns (crashed: bool, ghost freed: RbNode, ghost rounds: nat)
      requires t.Node? && Ordered() && Tinted(shape) && Searching(p, t, node, t.key)
      requires HoleOf(p, t, t.key) == HoleOf(Top, shape, t.key)
      modifies this, Refs(shape)
      ensures crashed <==> ReadsNull(old(shape), t.key)
      ensures freed in old(Refs(shape))
      ensures !crashed ==> Mirrors(shape, root, null) && size == old(size) - 1
      ensures !crashed ==> shape == RemoveKey(old(shape), t.key) && Removed(shape, old(shape), t.key, freed)
      ensures !crashed ==> (rounds == 0 <==> !EntersLoop(old(shape), t.key))
    {
      ghost var h, u;
      crashed, h, u, rounds := RemoveNode(node, p, t);
      freed := u.ref;
      RemovalAt(shape, t.key, h, u);
      if !crashed {
        shape := Mended(h, u);
        size := size - 1;
      }
    }

    /** The descent of a removal. */
    method Locate(key: int) returns (node: RbNode?, ghost p: Path, ghost t: Tree)
      requires Valid()
      ensures Searching(p, t, node, key) && HoleOf(p, t, key) == HoleOf(Top, shape, key)
      ensures node == null <==> key !in Contents()
      ensures node != null ==> t.Node? && t.key == key && Contents()[key] == t.value == node.value
      ensures node == null ==> HoleOf(Top, shape, key).1 == Leaf
    {
      node := root;
      p, t := Top, shape;
      StartSearch(key);
      while node != null
        invariant Searching(p, t, node, key) && HoleOf(p, t, key) == HoleOf(Top, shape, key)
        decreases t
      {
        if key < node.key {
          StepDown(p, t, node, key, Left);
          node := node.left;
          p, t := Below(p, t, Left), t.left;
        } else if key > node.key {
          StepDown(p, t, node, key, Right);
          node := node.right;
          p, t := Below(p, t, Right), t.right;
        } else {
          FoundAt(p, t, node.value);
          return;
        }
      }
      AbsentAt(p, key, NULL);
    }

    /** Takes the node of a key that was found out of the tree: its hole in the end is h, its picture u. */
    method RemoveNode(node: RbNode, ghost p: Path, ghost t: Tree)
        returns (crashed: bool, ghost h: Path, ghost u: Tree, ghost rounds: nat)
      requires t.Node? && At(p, t, node) && HoleOf(p, t, t.key) == HoleOf(Top, Plug(p, t), t.key)
      modifies this`root, PathRefs(p), Refs(t)
      ensures u.Node? && u.ref in Refs(t) && HoleOf(Top, Plug(p, t), t.key) == (h, u)
      ensures crashed <==> !Mendable(h, u)
      ensures !crashed ==> Mirrors(Mended(h, u), root, null) && (rounds == 0 <==> !LoopsAt(h, u))
      ensures Tinted(Plug(p, t)) && Sorted(InOrder(Plug(p, t))) && !crashed
              ==> Removed(Mended(h, u), Plug(p, t), t.key, u.ref)
    {
      assert Mirrors(t.left, node.left, node) && Mirrors(t.right, node.right, node);
      PlugRefs(p, t);
      if node.left == null || node.right == null {
        crashed, rounds := RemoveOuter(node, p, t);
        h, u := p, t;
        if !crashed && Tinted(Plug(p, t)) && Sorted(InOrder(Plug(p, t))) {
          OuterLaw(p, t);
        }
      } else {
        ghost var q;
        crashed, q, u, rounds := RemoveInner(node, p, t);
        h := Graft(q, Moved(p, t, u));
        LeftmostPath(q, Moved(p, t, u), u);
        InnerRefs(p, t, q, u);
        if !crashed && Tinted(Plug(p, t)) && Sorted(InOrder(Plug(p, t))) {
          InnerLaw(p, t, q, u);
        }
      }
    }

    // ---------------------------------------------------------- clear

    /** freed lists the nodes in the order in which they are given back. */
    static method ClearNode(node: RbNode?, ghost t: Tree, ghost up: RbNode?) returns (ghost freed: seq<RbNode>)
      requires Mirrors(t, node, up)
      ensures freed == PostOrder(t)
      decreases t
    {
      freed := [];
      assert allocated(Refs(t));
      if node != null {
        ghost var l := ClearNode(node.left, t.left, node);
        ghost var r := ClearNode(node.right, t.right, node);
        freed := l + r + [node];
      }
    }

    method Clear() returns (ghost freed: seq<RbNode>)
      requires Valid()
      modifies this
      ensures Valid() && Legal(shape) && Contents() == map[] && size == 0
      ensures multiset(freed) == multiset(old(Refs(shape))) && ParentsLast(old(shape), freed)
    {
      PostOrderOnce(shape);
      PostOrderParentsLast(shape);
      freed := ClearNode(root, shape, null);
      root, size, shape := null, 0, Leaf;
    }

    /** The size is that of the map, and the height of a legal tree is at most 2 log2 (size + 1). */
    lemma Bounded()
      requires Valid()
      ensures size == |Contents()|
      ensures Legal(shape) ==> Logarithmic(Height(shape), size)
    {
      ToMapKeys(InOrder(shape));
      if Legal(shape) {
        HeightBound(shape);
      }
    }
  }
}
