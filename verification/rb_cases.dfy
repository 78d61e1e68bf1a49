/** The rounds of both fix-up loops drawn out as pictures, and their symmetry. */
module RbCases {
  import opened InfraTypes
  import opened RbNodes
  import opened RbShape
  import opened RbLaws

  // ------------------------------------------------------------ pictures of a round at a left child

  /** A round of fix_insert below a left child of the grandparent g: recolour below a red uncle; rotate an
      outer node's parent above g; or rotate an inner node above both. */
  lemma LiftPictures(p: Path, t: Tree)
    requires Clashes(p) && t.Node? && p.up.side.Left?
    ensures var g, uncle := p.up, p.up.sibling;
      Lift(p, t) ==
      if uncle.Node? && uncle.color.Red? then
        (g.up, Node(g.ref, g.key, g.value, Red, Join(p.(color := Black), t), uncle.(color := Black)))
      else if p.side.Left? then
        (Under(g.up, Left, p.ref, p.key, p.value, Black, Node(g.ref, g.key, g.value, Red, p.sibling, uncle)), t)
      else
        (Under(g.up, Left, t.ref, t.key, t.value, Black, Node(g.ref, g.key, g.value, Red, t.right, uncle)),
         Node(p.ref, p.key, p.value, p.color, p.sibling, t.left))
  {
  }

  /** A round of fix_delete at a left child t with a black sibling s: recolour s and climb; with a red far
      nephew rotate s above the parent; with only the near one red rotate that one above both. */
  lemma SinkPictures(p: Path, t: Tree)
    requires p.Under? && p.side.Left? && p.sibling.Node? && p.sibling.color.Black?
    ensures var s, near, far := p.sibling, p.sibling.left, p.sibling.right;
      Sink(p, t) ==
      if IsBlack(near) && IsBlack(far) then
        (p.up, Node(p.ref, p.key, p.value, p.color, t, s.(color := Red)))
      else if !IsBlack(far) then
        (Top, Plug(p.up, Node(s.ref, s.key, s.value, p.color, Node(p.ref, p.key, p.value, Black, t, near),
                              far.(color := Black))))
      else
        (Top, Plug(p.up, Node(near.ref, near.key, near.value, p.color,
                              Node(p.ref, p.key, p.value, Black, t, near.left),
                              Node(s.ref, s.key, s.value, Black, near.right, far))))
  {
  }

  /** With a red sibling it is the round below, once s is rotated above the parent. */
  lemma SinkBorrows(p: Path, t: Tree)
    requires p.Under? && p.side.Left? && p.sibling.Node? && p.sibling.color.Red? && IsBlack(p.sibling.left)
    ensures var s := p.sibling;
      Sink(p, t) == Sink(Under(Under(p.up, Left, s.ref, s.key, s.value, Black, s.right), Left,
                               p.ref, p.key, p.value, Red, s.left), t)
  {
  }

  /** Taking out t with at most one child x: nothing is repaired when t was red or x is missing, a red x (or
      one that becomes the root) turns black, and only a black x below the root starts the loop. */
  lemma MendPictures(p: Path, t: Tree)
    requires t.Node? && (t.left.Leaf? || t.right.Leaf?)
    ensures var x := if t.left.Node? then t.left else t.right;
      && (t.color.Red? || x.Leaf? ==> Mended(p, t) == Plug(p, x) && Mendable(p, t) && !LoopsAt(p, t))
      && (t.color.Black? && x.Node? && (x.color.Red? || p.Top?) ==>
            Mended(p, t) == Plug(p, x.(color := Black)) && Mendable(p, t) && !LoopsAt(p, t))
      && (t.color.Black? && x.Node? && x.color.Black? && p.Under? ==>
            LoopsAt(p, t) && Mended(p, t) == FixDown(Sink(p, x).0, Sink(p, x).1))
  {
  }

  // ------------------------------------------------------------ right is left in a mirror

  function Mirror(t: Tree): Tree {
    if t.Leaf? then t else t.(left := Mirror(t.right), right := Mirror(t.left))
  }

  function MirrorPath(p: Path): Path {
    if p.Top? then p else p.(up := MirrorPath(p.up), side := Opposite(p.side), sibling := Mirror(p.sibling))
  }

  lemma {:induction false} MirrorPlug(p: Path, t: Tree)
    ensures Plug(MirrorPath(p), Mirror(t)) == Mirror(Plug(p, t))
    decreases p
  {
    if p.Under? {
      MirrorPlug(p.up, Join(p, t));
      assert Join(MirrorPath(p), Mirror(t)) == Mirror(Join(p, t));
    }
  }

  lemma LiftMirrors(p: Path, t: Tree)
    requires Clashes(p) && t.Node?
    ensures Clashes(MirrorPath(p)) && Mirror(t).Node?
    ensures Lift(MirrorPath(p), Mirror(t)) == (MirrorPath(Lift(p, t).0), Mirror(Lift(p, t).1))
  {
  }

  lemma {:induction false} FixUpMirrors(p: Path, t: Tree)
    requires t.Node?
    ensures Mirror(t).Node? && FixUp(MirrorPath(p), Mirror(t)) == Mirror(FixUp(p, t))
    decreases Depth(p)
  {
    if Clashes(p) {
      LiftShortens(p, t);
      LiftMirrors(p, t);
      FixUpMirrors(Lift(p, t).0, Lift(p, t).1);
    } else {
      MirrorPlug(p, t);
      MirrorBlacken(Plug(p, t));
    }
  }

  lemma MirrorBlacken(t: Tree)
    ensures Mirror(Blacken(t)) == Blacken(Mirror(t))
  {
  }

  lemma SinkMirrors(p: Path, t: Tree)
    requires p.Under?
    ensures Sink(MirrorPath(p), Mirror(t)) == (MirrorPath(Sink(p, t).0), Mirror(Sink(p, t).1))
  {
    var q := Borrow(p);
    var m := MirrorPath(q);
    BorrowMirrors(p);
    if q.sibling.Leaf? || (IsBlack(q.sibling.left) && IsBlack(q.sibling.right)) {
      var f := q.(sibling := if q.sibling.Leaf? then q.sibling else q.sibling.(color := Red));
      JoinMirrors(f, t);
      assert q.sibling.Node? ==> m.sibling.left == Mirror(q.sibling.right) && m.sibling.right == Mirror(q.sibling.left);
      assert Sink(p, t) == (q.up, Join(f, t));
      assert MirrorPath(f) == m.(sibling := if m.sibling.Leaf? then m.sibling else m.sibling.(color := Red));
    } else {
      assert m.sibling.Node? && m.sibling.left == Mirror(q.sibling.right) && m.sibling.right == Mirror(q.sibling.left);
      StraightenMirrors(q);
      assert Straighten(q).up == q.up && Straighten(m).up == m.up;
      SettleMirrors(Straighten(q), t);
      MirrorPlug(q.up, Settle(Straighten(q), t));
    }
  }

  lemma JoinMirrors(f: Path, t: Tree)
    requires f.Under?
    ensures Join(MirrorPath(f), Mirror(t)) == Mirror(Join(f, t))
  {
  }

  lemma ChildMirrors(t: Tree, s: Side)
    requires t.Node?
    ensures Mirror(t).Node? && Child(Mirror(t), Opposite(s)) == Mirror(Child(t, s))
    ensures Child(Mirror(t), s) == Mirror(Child(t, Opposite(s)))
  {
  }

  lemma BorrowMirrors(p: Path)
    requires p.Under?
    ensures Borrow(MirrorPath(p)) == MirrorPath(Borrow(p))
  {
  }

  lemma StraightenMirrors(p: Path)
    requires p.Under? && p.sibling.Node?
    ensures Straighten(p).Under? && Straighten(p).sibling.Node?
    ensures Straighten(MirrorPath(p)) == MirrorPath(Straighten(p))
  {
    var s := p.sibling;
    var n, far := Child(s, p.side), Child(s, Opposite(p.side));
    ChildMirrors(s, p.side);
    if IsBlack(far) && n.Node? {
      ChildMirrors(n, p.side);
      var f := Under(Top, p.side, s.ref, s.key, s.value, Red, far);
      JoinMirrors(f, Child(n, Opposite(p.side)));
      var low := Join(f, Child(n, Opposite(p.side)));
      JoinMirrors(Under(Top, p.side, n.ref, n.key, n.value, Black, low), Child(n, p.side));
    }
  }

  lemma SettleMirrors(p: Path, t: Tree)
    requires p.Under? && p.sibling.Node?
    ensures Settle(MirrorPath(p), Mirror(t)) == Mirror(Settle(p, t))
  {
    var s := p.sibling;
    ChildMirrors(s, p.side);
    MirrorBlacken(Child(s, Opposite(p.side)));
    var f := p.(color := Black, sibling := Child(s, p.side));
    JoinMirrors(f, t);
    JoinMirrors(Under(Top, p.side, s.ref, s.key, s.value, p.color, Blacken(Child(s, Opposite(p.side)))), Join(f, t));
  }

  /** The whole deletion loop treats left and right alike. */
  lemma {:induction false} FixDownMirrors(p: Path, t: Tree)
    ensures FixDown(MirrorPath(p), Mirror(t)) == Mirror(FixDown(p, t))
    decreases if Short(p, t) then 1 + Depth(p) else 0
  {
    if Short(p, t) {
      SinkShortens(p, t);
      SinkMirrors(p, t);
      FixDownMirrors(Sink(p, t).0, Sink(p, t).1);
    } else {
      MirrorPlug(p, Blacken(t));
      MirrorBlacken(t);
    }
  }
}
