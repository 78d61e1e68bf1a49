/** What the two fix-up loops of the red-black tree keep and what they restore. */
module RbLaws {
  import opened InfraTypes
  import opened RbNodes
  import opened RbShape

  // ------------------------------------------------------------ holes and plugs

  lemma {:induction false} PlugInOrder(p: Path, t: Tree)
    ensures InOrder(Plug(p, t)) == Flat(p, t)
    decreases p
  {
    if p.Under? {
      PlugInOrder(p.up, Join(p, t));
      JoinFlat(p, t);
    }
  }

  lemma JoinFlat(p: Path, t: Tree)
    requires p.Under?
    ensures Flat(p.up, Join(p, t)) == Flat(p, t)
  {
    var b, a, x := Before(p.up), After(p.up), [(p.key, p.value)];
    var i, s := InOrder(t), InOrder(p.sibling);
    if p.side.Left? {
      assert b + i + (x + s + a) == b + (i + x + s) + a;
    } else {
      assert (b + s + x) + i + a == b + (s + x + i) + a;
    }
  }

  lemma {:induction false} PlugRefs(p: Path, t: Tree)
    ensures Refs(Plug(p, t)) == PathRefs(p) + Refs(t)
    ensures Proper(Plug(p, t)) <==> ProperAt(p, t)
    decreases p
  {
    if p.Under? {
      PlugRefs(p.up, Join(p, t));
      assert Refs(Join(p, t)) == {p.ref} + Refs(p.sibling) + Refs(t);
    }
  }

  lemma {:induction false} PlugNode(p: Path, t: Tree)
    requires t.Node?
    ensures Plug(p, t).Node?
    decreases p
  {
    if p.Under? {
      PlugNode(p.up, Join(p, t));
    }
  }

  /** The colour rules for a subtree in its context; PlugTinted relates them to the whole tree. */
  predicate TintedAt(p: Path, t: Tree) {
    NoRedRed(t) && Colored(p) && (!IsBlack(t) ==> p.Under? && p.color.Black?)
  }

  predicate LegalAt(p: Path, t: Tree) { TintedAt(p, t) && LevelAt(p, t) }

  lemma {:induction false} PlugTinted(p: Path, t: Tree)
    ensures Tinted(Plug(p, t)) <==> TintedAt(p, t)
    decreases p
  {
    if p.Under? {
      PlugTinted(p.up, Join(p, t));
      JoinRules(p, t);
      assert TintedAt(p.up, Join(p, t)) <==> TintedAt(p, t);
    }
  }

  lemma {:induction false} PlugLevel(p: Path, t: Tree)
    ensures Balanced(Plug(p, t)) <==> LevelAt(p, t)
    decreases p
  {
    if p.Under? {
      PlugLevel(p.up, Join(p, t));
      JoinRules(p, t);
    }
  }

  lemma PlugLegal(p: Path, t: Tree)
    ensures Legal(Plug(p, t)) <==> LegalAt(p, t)
  {
    PlugTinted(p, t);
    PlugLevel(p, t);
  }

  /** The rules of a joined tree, from those of its two parts. */
  lemma JoinRules(f: Path, t: Tree)
    requires f.Under?
    ensures NoRedRed(Join(f, t)) <==>
            NoRedRed(f.sibling) && NoRedRed(t) && (f.color.Red? ==> IsBlack(f.sibling) && IsBlack(t))
    ensures Balanced(Join(f, t)) <==>
            Balanced(f.sibling) && Balanced(t) && BlackHeight(f.sibling) == BlackHeight(t)
    ensures Balanced(Join(f, t)) ==> BlackHeight(Join(f, t)) == BlackHeight(t) + Weight(f.color)
    ensures IsBlack(Join(f, t)) <==> f.color.Black?
  {
  }

  lemma NodeRules(t: Tree)
    requires t.Node? && Balanced(t)
    ensures forall s: Side :: Balanced(Child(t, s)) && BlackHeight(Child(t, s)) + Weight(t.color) == BlackHeight(t)
    ensures NoRedRed(t) ==> forall s: Side :: NoRedRed(Child(t, s)) && (t.color.Red? ==> IsBlack(Child(t, s)))
    ensures Balanced(Blacken(t)) && (NoRedRed(t) ==> NoRedRed(Blacken(t)))
    ensures BlackHeight(Blacken(t)) == BlackHeight(t) + 1 - Weight(t.color)
  {
    assert Child(t, Left) == t.left && Child(t, Right) == t.right;
  }

  // ------------------------------------------------------------ insertion

  /** At most one red node has a red parent, and it is the root of t. */
  predicate RedAt(p: Path, t: Tree) { t.Node? && t.color.Red? && NoRedRed(t) && Colored(p) }

  predicate LevelAt(p: Path, t: Tree) { Balanced(t) && Level(p, BlackHeight(t)) }

  lemma LiftRedAt(p: Path, t: Tree)
    requires Clashes(p) && RedAt(p, t)
    ensures RedAt(Lift(p, t).0, Lift(p, t).1)
  {
    var g := p.up;
    assert Colored(g) && Colored(g.up);
    if !IsBlack(g.sibling) {
      JoinRules(p.(color := Black), t);
      assert NoRedRed(Blacken(g.sibling));
      JoinRules(g.(color := Red, sibling := Blacken(g.sibling)), Join(p.(color := Black), t));
    } else if p.side == g.side {
      JoinRules(g.(color := Red), p.sibling);
    } else {
      JoinRules(g.(color := Red), Child(t, p.side));
      JoinRules(p, Child(t, g.side));
    }
  }

  lemma LiftLevelAt(p: Path, t: Tree)
    requires Clashes(p) && RedAt(p, t) && LevelAt(p, t)
    ensures LevelAt(Lift(p, t).0, Lift(p, t).1)
  {
    var g := p.up;
    NodeRules(t);
    assert Level(g, BlackHeight(t)) && Level(g.up, BlackHeight(t) + 1);
    if !IsBlack(g.sibling) {
      NodeRules(g.sibling);
      JoinRules(p.(color := Black), t);
      JoinRules(g.(color := Red, sibling := Blacken(g.sibling)), Join(p.(color := Black), t));
    } else if p.side == g.side {
      JoinRules(g.(color := Red), p.sibling);
    } else {
      JoinRules(g.(color := Red), Child(t, p.side));
      JoinRules(p, Child(t, g.side));
    }
  }

  lemma LiftFlat(p: Path, t: Tree)
    requires Clashes(p) && t.Node?
    ensures Flat(Lift(p, t).0, Lift(p, t).1) == Flat(p, t)
  {
    var g := p.up;
    var (q, u) := Lift(p, t);
    JoinFlat(p, t);
    JoinFlat(g, Join(p, t));
    if IsBlack(g.sibling) {
      JoinFlat(q, u);
      assert InOrder(Join(q, u)) == InOrder(Join(g, Join(p, t))) by {
        if p.side == g.side {
          RotateInOrder(p, g, t);
        } else {
          TwistInOrder(p, g, t);
        }
      }
      assert Flat(q, u) == Flat(g.up, Join(q, u));
    } else {
      BlackenInOrder(g, p, t);
    }
  }

  lemma BlackenInOrder(g: Path, p: Path, t: Tree)
    requires p.Under? && g.Under?
    ensures InOrder(Join(g.(color := Red, sibling := Blacken(g.sibling)), Join(p.(color := Black), t)))
         == InOrder(Join(g, Join(p, t)))
  {
    assert InOrder(Blacken(g.sibling)) == InOrder(g.sibling);
    assert InOrder(Join(p.(color := Black), t)) == InOrder(Join(p, t));
  }

  lemma RotateInOrder(p: Path, g: Path, t: Tree)
    requires p.Under? && g.Under? && p.side == g.side
    ensures InOrder(Join(Under(g.up, g.side, p.ref, p.key, p.value, Black, Join(g.(color := Red), p.sibling)), t))
         == InOrder(Join(g, Join(p, t)))
  {
    var a, b, d := InOrder(t), InOrder(p.sibling), InOrder(g.sibling);
    var x, y := [(p.key, p.value)], [(g.key, g.value)];
    if p.side.Left? {
      assert a + x + (b + y + d) == (a + x + b) + y + d;
    } else {
      assert (d + y + b) + x + a == d + y + (b + x + a);
    }
  }

  lemma TwistInOrder(p: Path, g: Path, t: Tree)
    requires p.Under? && g.Under? && p.side != g.side && t.Node?
    ensures InOrder(Join(Under(g.up, g.side, t.ref, t.key, t.value, Black,
                               Join(g.(color := Red), Child(t, p.side))), Join(p, Child(t, g.side))))
         == InOrder(Join(g, Join(p, t)))
  {
    var a, d := InOrder(p.sibling), InOrder(g.sibling);
    var b, c := InOrder(t.left), InOrder(t.right);
    var x, y, z := [(p.key, p.value)], [(g.key, g.value)], [(t.key, t.value)];
    assert InOrder(t) == b + z + c;
    if p.side.Right? {
      assert (a + x + b) + z + (c + y + d) == (a + x + (b + z + c)) + y + d;
      assert InOrder(Join(p, Child(t, g.side))) == a + x + b;
    } else {
      assert (d + y + b) + z + (c + x + a) == d + y + ((b + z + c) + x + a);
      assert InOrder(Join(p, Child(t, g.side))) == c + x + a;
    }
  }

  lemma LiftProper(p: Path, t: Tree)
    requires Clashes(p) && t.Node? && ProperAt(p, t)
    ensures ProperAt(Lift(p, t).0, Lift(p, t).1)
    ensures PathRefs(Lift(p, t).0) + Refs(Lift(p, t).1) == PathRefs(p) + Refs(t)
  {
    var g := p.up;
    assert Refs(Blacken(g.sibling)) == Refs(g.sibling) && (Proper(g.sibling) ==> Proper(Blacken(g.sibling)));
    assert ProperPath(g) && ProperPath(g.up);
    if !IsBlack(g.sibling) {
      JoinProper(p.(color := Black), t);
      JoinProper(g.(color := Red, sibling := Blacken(g.sibling)), Join(p.(color := Black), t));
    } else if p.side == g.side {
      JoinProper(g.(color := Red), p.sibling);
    } else {
      JoinProper(g.(color := Red), Child(t, p.side));
      JoinProper(p, Child(t, g.side));
    }
  }

  /** The insertion loop restores every rule and neither reorders nor loses a node. */
  lemma {:induction false} FixUpLaw(p: Path, t: Tree)
    requires RedAt(p, t) && ProperAt(p, t)
    ensures Tinted(FixUp(p, t)) && InOrder(FixUp(p, t)) == Flat(p, t)
    ensures Proper(FixUp(p, t)) && Refs(FixUp(p, t)) == PathRefs(p) + Refs(t)
    ensures LevelAt(p, t) ==> Legal(FixUp(p, t))
    decreases Depth(p)
  {
    if Clashes(p) {
      var (q, u) := Lift(p, t);
      LiftShortens(p, t);
      LiftRedAt(p, t);
      LiftFlat(p, t);
      LiftProper(p, t);
      if LevelAt(p, t) {
        LiftLevelAt(p, t);
      }
      FixUpLaw(q, u);
    } else {
      PlugInOrder(p, t);
      PlugRefs(p, t);
      PlugBlackened(p, t);
    }
  }

  lemma PlugBlackened(p: Path, t: Tree)
    requires RedAt(p, t) && !Clashes(p)
    ensures var u := Blacken(Plug(p, t));
      && Tinted(u) && InOrder(u) == InOrder(Plug(p, t)) && Refs(u) == Refs(Plug(p, t))
      && (Proper(Plug(p, t)) ==> Proper(u)) && (LevelAt(p, t) ==> Legal(u))
  {
    PlugTinted(p, t);
    PlugLevel(p, t);
    if p.Top? {
      assert Tinted(Blacken(t)) && (Balanced(t) ==> Balanced(Blacken(t)));
    }
  }

  // ------------------------------------------------------------ deletion

  /** t is legal once its root is black, and the hole wants one black more than t has. */
  predicate ShortAt(p: Path, t: Tree) {
    && t.Node? && NoRedRed(Blacken(t)) && Balanced(t)
    && Context(p, BlackHeight(t) + 1)
  }

  /** Every sibling and nephew that the loop reads without a test is there. */
  lemma SinkReadsNodes(p: Path, t: Tree)
    requires Short(p, t) && ShortAt(p, t)
    ensures Reads(p) && IsBlack(Borrow(p).sibling)
    ensures Context(Borrow(p), BlackHeight(t) + 1)
  {
    NodeRules(t);
    NodeRules(p.sibling);
    var s := Borrow(p).sibling;
    NodeRules(s);
    assert Child(s, Left) == s.left && Child(s, Right) == s.right;
  }

  lemma StraightenContext(p: Path, h: nat)
    requires Context(p, h + 1) && p.Under? && p.sibling.Node? && IsBlack(p.sibling)
    requires !IsBlack(p.sibling.left) || !IsBlack(p.sibling.right)
    ensures var q := Straighten(p);
      && Context(q, h + 1) && q.Under? && q.side == p.side && q.up == p.up && q.color == p.color
      && q.sibling.Node? && IsBlack(q.sibling) && !IsBlack(Child(q.sibling, Opposite(q.side)))
  {
    var s := p.sibling;
    NodeRules(s);
    if IsBlack(Child(s, Opposite(p.side))) {
      var n := Child(s, p.side);
      NodeRules(n);
      var f := Under(Top, p.side, s.ref, s.key, s.value, Red, Child(s, Opposite(p.side)));
      JoinRules(f, Child(n, Opposite(p.side)));
      var low := Join(f, Child(n, Opposite(p.side)));
      JoinRules(Under(Top, p.side, n.ref, n.key, n.value, Black, low), Child(n, p.side));
    }
  }

  lemma SettleLegalAt(p: Path, t: Tree)
    requires Context(p, BlackHeight(t) + 1) && p.Under? && p.sibling.Node? && IsBlack(p.sibling)
    requires !IsBlack(Child(p.sibling, Opposite(p.side)))
    requires NoRedRed(t) && Balanced(t) && IsBlack(t)
    ensures LegalAt(p.up, Settle(p, t))
  {
    var s := p.sibling;
    NodeRules(s);
    var far := Child(s, Opposite(p.side));
    NodeRules(far);
    var f := p.(color := Black, sibling := Child(s, p.side));
    JoinRules(f, t);
    JoinRules(Under(Top, p.side, s.ref, s.key, s.value, p.color, Blacken(far)), Join(f, t));
  }

  lemma SinkShortAt(p: Path, t: Tree)
    requires Short(p, t) && ShortAt(p, t)
    ensures ShortAt(Sink(p, t).0, Sink(p, t).1)
  {
    SinkReadsNodes(p, t);
    var q := Borrow(p);
    var s := q.sibling;
    NodeRules(s);
    if IsBlack(s.left) && IsBlack(s.right) {
      RedSiblingShortAt(q, t);
    } else {
      StraightenContext(q, BlackHeight(t));
      SettleLegalAt(Straighten(q), t);
      PlugLegal(q.up, Settle(Straighten(q), t));
      PlugNode(q.up, Settle(Straighten(q), t));
    }
  }

  lemma RedSiblingShortAt(q: Path, t: Tree)
    requires q.Under? && t.Node? && IsBlack(t) && NoRedRed(t) && Balanced(t) && Context(q, BlackHeight(t) + 1)
    requires q.sibling.Node? && IsBlack(q.sibling) && IsBlack(q.sibling.left) && IsBlack(q.sibling.right)
    ensures ShortAt(q.up, Join(q.(sibling := q.sibling.(color := Red)), t))
  {
    var r := q.sibling.(color := Red);
    assert NoRedRed(r) && Balanced(r) && BlackHeight(r) == BlackHeight(t);
    JoinRules(q.(sibling := r), t);
    JoinRules(q.(sibling := r, color := Black), t);
    assert Blacken(Join(q.(sibling := r), t)) == Join(q.(sibling := r, color := Black), t);
  }

  lemma SinkFlat(p: Path, t: Tree)
    requires Reads(p)
    ensures Flat(Sink(p, t).0, Sink(p, t).1) == Flat(p, t)
  {
    var q := Borrow(p);
    BorrowFlat(p, t);
    if IsBlack(q.sibling.left) && IsBlack(q.sibling.right) {
      RedSiblingFlat(q, t);
    } else {
      SettleFlat(q, t);
    }
  }

  lemma RedSiblingFlat(q: Path, t: Tree)
    requires q.Under? && q.sibling.Node?
    ensures Flat(q.up, Join(q.(sibling := q.sibling.(color := Red)), t)) == Flat(q, t)
  {
    assert InOrder(q.sibling.(color := Red)) == InOrder(q.sibling);
    JoinFlat(q, t);
  }

  lemma SettleFlat(q: Path, t: Tree)
    requires q.Under? && q.sibling.Node?
    ensures Straighten(q).sibling.Node?
    ensures Flat(Top, Plug(Straighten(q).up, Settle(Straighten(q), t))) == Flat(q, t)
  {
    var r := Straighten(q);
    StraightenInOrder(q);
    assert InOrder(Join(r, t)) == InOrder(Join(q, t));
    SettleInOrder(r, t);
    JoinFlat(q, t);
    PlugInOrder(q.up, Settle(r, t));
  }

  lemma BorrowFlat(p: Path, t: Tree)
    requires p.Under? && p.sibling.Node?
    ensures Flat(Borrow(p), t) == Flat(p, t)
  {
    if !IsBlack(p.sibling) {
      var q := Borrow(p);
      JoinFlat(p, t);
      JoinFlat(q, t);
      JoinFlat(q.up, Join(q, t));
      RaiseInOrder(p, t, Black, Red);
      assert InOrder(Join(q.up, Join(q, t))) == InOrder(Join(p, t));
    }
  }

  /** Rotating the sibling above its parent, whatever the two new colours are. */
  lemma RaiseInOrder(p: Path, t: Tree, c: Color, d: Color)
    requires p.Under? && p.sibling.Node?
    ensures var s := p.sibling;
      InOrder(Join(Under(p.up, p.side, s.ref, s.key, s.value, c, Child(s, Opposite(p.side))),
                   Join(p.(color := d, sibling := Child(s, p.side)), t)))
      == InOrder(Join(p, t))
  {
    var s := p.sibling;
    var a, b, e := InOrder(t), InOrder(Child(s, p.side)), InOrder(Child(s, Opposite(p.side)));
    var x, y := [(p.key, p.value)], [(s.key, s.value)];
    var low := Join(p.(color := d, sibling := Child(s, p.side)), t);
    if p.side.Left? {
      assert InOrder(low) == a + x + b;
      assert (a + x + b) + y + e == a + x + (b + y + e);
    } else {
      assert InOrder(low) == b + x + a;
      assert e + y + (b + x + a) == (e + y + b) + x + a;
    }
  }

  lemma StraightenInOrder(p: Path)
    requires p.Under? && p.sibling.Node?
    ensures InOrder(Straighten(p).sibling) == InOrder(p.sibling) && Straighten(p).sibling.Node?
  {
    var s := p.sibling;
    var n := Child(s, p.side);
    if IsBlack(Child(s, Opposite(p.side))) && n.Node? {
      var f := Under(Top, Opposite(p.side), s.ref, s.key, s.value, s.color, n);
      var t := Child(s, Opposite(p.side));
      RaiseInOrder(f, t, Black, Red);
      assert Join(f, t) == s;
      var low := Join(f.(color := Red, sibling := Child(n, f.side)), t);
      assert Join(Under(Top, f.side, n.ref, n.key, n.value, Black, Child(n, Opposite(f.side))), low)
          == Straighten(p).sibling;
    }
  }

  lemma SettleInOrder(p: Path, t: Tree)
    requires p.Under? && p.sibling.Node?
    ensures InOrder(Settle(p, t)) == InOrder(Join(p, t))
  {
    var s := p.sibling;
    RaiseInOrder(p, t, p.color, Black);
    assert InOrder(Blacken(Child(s, Opposite(p.side)))) == InOrder(Child(s, Opposite(p.side)));
  }

  lemma SinkProper(p: Path, t: Tree)
    requires Reads(p) && ProperAt(p, t)
    ensures ProperAt(Sink(p, t).0, Sink(p, t).1)
    ensures PathRefs(Sink(p, t).0) + Refs(Sink(p, t).1) == PathRefs(p) + Refs(t)
  {
    var q := Borrow(p);
    BorrowProper(p, t);
    if IsBlack(q.sibling.left) && IsBlack(q.sibling.right) {
      RedSiblingProper(q, t);
    } else {
      StraightenProper(q);
      SettleProper(Straighten(q), t);
      PlugRefs(q.up, Settle(Straighten(q), t));
    }
  }

  lemma RedSiblingProper(q: Path, t: Tree)
    requires q.Under? && q.sibling.Node? && ProperAt(q, t)
    ensures var u := Join(q.(sibling := q.sibling.(color := Red)), t);
      ProperAt(q.up, u) && PathRefs(q.up) + Refs(u) == PathRefs(q) + Refs(t)
  {
    var r := q.(sibling := q.sibling.(color := Red));
    assert Refs(r.sibling) == Refs(q.sibling) && Proper(r.sibling);
    JoinProper(r, t);
  }

  lemma BorrowProper(p: Path, t: Tree)
    requires p.Under? && p.sibling.Node? && ProperAt(p, t)
    ensures ProperAt(Borrow(p), t) && PathRefs(Borrow(p)) == PathRefs(p)
  {
    var s := p.sibling;
    assert Refs(s) == {s.ref} + Refs(Child(s, Left)) + Refs(Child(s, Right));
    if !IsBlack(s) {
      var g := Borrow(p).up;
      assert ProperPath(g);
    }
  }

  lemma StraightenProper(p: Path)
    requires p.Under? && p.sibling.Node? && Proper(p.sibling)
    ensures Proper(Straighten(p).sibling) && Refs(Straighten(p).sibling) == Refs(p.sibling)
    ensures Straighten(p).sibling.Node?
  {
    var s := p.sibling;
    var n := Child(s, p.side);
    if IsBlack(Child(s, Opposite(p.side))) && n.Node? {
      var f := Under(Top, p.side, s.ref, s.key, s.value, Red, Child(s, Opposite(p.side)));
      JoinProper(f, n);
      assert Refs(n) == {n.ref} + Refs(Child(n, p.side)) + Refs(Child(n, Opposite(p.side)));
      JoinProper(f, Child(n, Opposite(p.side)));
      JoinProper(Under(Top, p.side, n.ref, n.key, n.value, Black, Join(f, Child(n, Opposite(p.side)))),
                 Child(n, p.side));
    }
  }

  lemma SettleProper(p: Path, t: Tree)
    requires p.Under? && p.sibling.Node? && ProperAt(p, t)
    ensures ProperAt(p.up, Settle(p, t)) && PathRefs(p.up) + Refs(Settle(p, t)) == PathRefs(p) + Refs(t)
  {
    var s := p.sibling;
    var far := Child(s, Opposite(p.side));
    assert Refs(Blacken(far)) == Refs(far) && Proper(far) && Proper(Blacken(far));
    assert Refs(s) == {s.ref} + Refs(Child(s, p.side)) + Refs(far);
    var f := p.(color := Black, sibling := Child(s, p.side));
    JoinProper(f, t);
    JoinProper(Under(Top, p.side, s.ref, s.key, s.value, p.color, Blacken(far)), Join(f, t));
  }

  // ------------------------------------------------------------ deletion without the counts

  /** t keeps the colour rules once its root is black, and so does everything around the hole. */
  predicate Repairable(p: Path, t: Tree) { t.Node? && NoRedRed(Blacken(t)) && Colored(p) }

  lemma ChildRules(t: Tree)
    requires t.Node? && NoRedRed(t)
    ensures forall s: Side :: NoRedRed(Child(t, s)) && (t.color.Red? ==> IsBlack(Child(t, s)))
    ensures NoRedRed(Blacken(t))
  {
    assert Child(t, Left) == t.left && Child(t, Right) == t.right;
  }

  lemma BorrowColored(p: Path)
    requires Reads(p) && Colored(p)
    ensures Colored(Borrow(p)) && IsBlack(Borrow(p).sibling)
  {
    ChildRules(p.sibling);
  }

  lemma StraightenColored(p: Path)
    requires Colored(p) && p.Under? && p.sibling.Node? && IsBlack(p.sibling)
    requires p.sibling.left.Node? && p.sibling.right.Node?
    requires !IsBlack(p.sibling.left) || !IsBlack(p.sibling.right)
    ensures var q := Straighten(p);
      && Colored(q) && q.Under? && q.side == p.side && q.up == p.up && q.color == p.color
      && q.sibling.Node? && IsBlack(q.sibling) && !IsBlack(Child(q.sibling, Opposite(q.side)))
  {
    var s := p.sibling;
    ChildRules(s);
    if IsBlack(Child(s, Opposite(p.side))) {
      var n := Child(s, p.side);
      ChildRules(n);
      var f := Under(Top, p.side, s.ref, s.key, s.value, Red, Child(s, Opposite(p.side)));
      JoinRules(f, Child(n, Opposite(p.side)));
      var low := Join(f, Child(n, Opposite(p.side)));
      JoinRules(Under(Top, p.side, n.ref, n.key, n.value, Black, low), Child(n, p.side));
    }
  }

  lemma SettleTinted(p: Path, t: Tree)
    requires Colored(p) && p.Under? && p.sibling.Node? && IsBlack(p.sibling)
    requires !IsBlack(Child(p.sibling, Opposite(p.side)))
    requires NoRedRed(t) && IsBlack(t)
    ensures TintedAt(p.up, Settle(p, t))
  {
    var s := p.sibling;
    ChildRules(s);
    var far := Child(s, Opposite(p.side));
    ChildRules(far);
    var f := p.(color := Black, sibling := Child(s, p.side));
    JoinRules(f, t);
    JoinRules(Under(Top, p.side, s.ref, s.key, s.value, p.color, Blacken(far)), Join(f, t));
  }

  lemma RedSiblingRepairable(q: Path, t: Tree)
    requires q.Under? && Colored(q) && NoRedRed(t) && IsBlack(t)
    requires q.sibling.Node? && IsBlack(q.sibling.left) && IsBlack(q.sibling.right)
    ensures Repairable(q.up, Join(q.(sibling := q.sibling.(color := Red)), t))
  {
    var r := q.sibling.(color := Red);
    ChildRules(q.sibling);
    assert NoRedRed(r);
    JoinRules(q.(sibling := r, color := Black), t);
    assert Blacken(Join(q.(sibling := r), t)) == Join(q.(sibling := r, color := Black), t);
  }

  lemma SinkNode(p: Path, t: Tree)
    requires Reads(p) && t.Node?
    ensures Sink(p, t).1.Node?
  {
    var q := Borrow(p);
    if !(IsBlack(q.sibling.left) && IsBlack(q.sibling.right)) {
      StraightenInOrder(q);
      PlugNode(q.up, Settle(Straighten(q), t));
    }
  }

  /** One round keeps black root and no red-red pair, whether or not the black counts are equal. */
  lemma SinkRepairable(p: Path, t: Tree)
    requires Short(p, t) && Reads(p) && Repairable(p, t)
    ensures Repairable(Sink(p, t).0, Sink(p, t).1)
  {
    var q := Borrow(p);
    BorrowColored(p);
    assert Blacken(t) == t;
    if IsBlack(q.sibling.left) && IsBlack(q.sibling.right) {
      RedSiblingRepairable(q, t);
    } else {
      StraightenColored(q);
      SettleTinted(Straighten(q), t);
      PlugTinted(q.up, Settle(Straighten(q), t));
      PlugNode(q.up, Settle(Straighten(q), t));
      ChildRules(Plug(q.up, Settle(Straighten(q), t)));
    }
  }

  /** As long as it reads no null pointer, the deletion loop keeps order, nodes, black root and no
      red-red pair on any tree that has them. */
  lemma {:induction false} FixDownTinted(p: Path, t: Tree)
    requires Safe(p, t) && Repairable(p, t) && ProperAt(p, t)
    ensures Tinted(FixDown(p, t)) && InOrder(FixDown(p, t)) == Flat(p, t)
    ensures Proper(FixDown(p, t)) && Refs(FixDown(p, t)) == PathRefs(p) + Refs(t)
    decreases if Short(p, t) then 1 + Depth(p) else 0
  {
    if Short(p, t) {
      SinkShortens(p, t);
      SinkRepairable(p, t);
      SinkFlat(p, t);
      SinkProper(p, t);
      FixDownTinted(Sink(p, t).0, Sink(p, t).1);
    } else {
      var b := Blacken(t);
      assert InOrder(b) == InOrder(t) && Refs(b) == Refs(t) && Proper(b);
      PlugInOrder(p, b);
      PlugRefs(p, b);
      PlugTinted(p, b);
    }
  }

  /** The deletion loop, entered at any node that is one black short, reads no null pointer and
      restores every rule. */
  lemma {:induction false} FixDownLaw(p: Path, t: Tree)
    requires ShortAt(p, t)
    ensures Safe(p, t) && Legal(FixDown(p, t))
    decreases if Short(p, t) then 1 + Depth(p) else 0
  {
    if Short(p, t) {
      SinkReadsNodes(p, t);
      SinkShortens(p, t);
      SinkShortAt(p, t);
      FixDownLaw(Sink(p, t).0, Sink(p, t).1);
    } else {
      NodeRules(t);
      PlugLegal(p, Blacken(t));
    }
  }

  // ------------------------------------------------------------ unlinking one node

  function Leftmost(t: Tree): (r: Tree)
    requires t.Node?
    ensures r.Node?
  {
    if t.left.Leaf? then t else Leftmost(t.left)
  }

  /** The frame of t around its child on side s. */
  function Below(p: Path, t: Tree, s: Side): Path
    requires t.Node?
  {
    Under(p, s, t.ref, t.key, t.value, t.color, Child(t, Opposite(s)))
  }

  /** The frame of t around its right subtree, once t has taken the data of u. */
  function Moved(p: Path, t: Tree, u: Tree): Path
    requires t.Node? && u.Node?
  {
    Under(p, Right, t.ref, u.key, u.value, t.color, t.left)
  }

  /** The leftmost node below t, and its hole, when t is at the hole of p. */
  function LeftmostAt(p: Path, t: Tree): (Path, Tree)
    requires t.Node?
    decreases t
  {
    if t.left.Leaf? then (p, t) else LeftmostAt(Below(p, t, Left), t.left)
  }

  /** What a removal of key takes out of the subtree t at the hole of p: a node with at most one
      child, and its hole, after its pair has moved up if the key is that of an inner node. */
  function HoleOf(p: Path, t: Tree, key: int): (Path, Tree)
    decreases t
  {
    if t.Leaf? then (p, t)
    else if key < t.key then HoleOf(Below(p, t, Left), t.left, key)
    else if key > t.key then HoleOf(Below(p, t, Right), t.right, key)
    else if t.left.Leaf? || t.right.Leaf? then (p, t)
    else LeftmostAt(Moved(p, t, Leftmost(t.right)), t.right)
  }

  /** The only subtree of a node with at most one child. */
  function Only(t: Tree): Tree
    requires t.Node?
  {
    if t.left.Node? then t.left else t.right
  }

  /** A childless black node other than the root is about to be taken out. */
  predicate TakesBlackLeaf(s: Tree, key: int) {
    var (p, u) := HoleOf(Top, s, key);
    u.Node? && u.color.Black? && u.left.Leaf? && u.right.Leaf? && p.Under?
  }

  /** The removal of key enters the loop of fix_delete: the node taken out is black, below the root,
      and has a black child. */
  predicate EntersLoop(s: Tree, key: int) {
    var (p, u) := HoleOf(Top, s, key);
    u.Node? && LoopsAt(p, u)
  }

  predicate LoopsAt(p: Path, t: Tree)
    requires t.Node?
  {
    t.color.Black? && Only(t).Node? && Short(p, Only(t))
  }

  lemma {:induction false} HoleBalanced(p: Path, t: Tree, key: int)
    requires Balanced(t)
    ensures var u := HoleOf(p, t, key).1; Balanced(u) && (u.Node? ==> u.left.Leaf? || u.right.Leaf?)
    decreases t
  {
    if t.Node? {
      if key < t.key {
        HoleBalanced(Below(p, t, Left), t.left, key);
      } else if key > t.key {
        HoleBalanced(Below(p, t, Right), t.right, key);
      } else if t.left.Node? && t.right.Node? {
        LeftmostBalanced(Moved(p, t, Leftmost(t.right)), t.right);
      }
    }
  }

  lemma {:induction false} LeftmostBalanced(p: Path, t: Tree)
    requires t.Node? && Balanced(t)
    ensures var u := LeftmostAt(p, t).1; u.Node? && Balanced(u) && u.left.Leaf?
    decreases t
  {
    if t.left.Node? {
      LeftmostBalanced(Below(p, t, Left), t.left);
    }
  }

  /** No removal from a balanced tree enters the loop. */
  lemma BalancedAvoidsLoop(s: Tree, key: int)
    requires Balanced(s)
    ensures !EntersLoop(s, key)
  {
    HoleBalanced(Top, s, key);
    assert BlackHeight(Leaf) == 0;
  }

  /** Taking out t, which has at most one child, at the hole of p in a legal tree. */
  lemma SpliceLaw(p: Path, t: Tree)
    requires t.Node? && LegalAt(p, t) && (t.left.Leaf? || t.right.Leaf?)
    ensures t.color.Red? ==> Only(t).Leaf? && LegalAt(p, Only(t))
    ensures t.color.Black? && Only(t).Node? ==> Only(t).color.Red? && ShortAt(p, Only(t))
    ensures t.color.Black? && Only(t).Leaf? ==> TintedAt(p, Leaf) && (LevelAt(p, Leaf) <==> p.Top?)
  {
    NodeRules(t);
    assert Child(t, Left) == t.left && Child(t, Right) == t.right;
    var x := Only(t);
    if x.Node? {
      NodeRules(x);
      assert BlackHeight(x) == 0;
    } else {
      assert BlackHeight(Leaf) == 0;
    }
  }

  /** The tree once t, which has at most one child, is gone from the hole of p. */
  function Mended(p: Path, t: Tree): Tree
    requires t.Node?
  {
    if t.color.Black? && Only(t).Node? then FixDown(p, Only(t)) else Plug(p, Only(t))
  }

  /** Taking out t at the hole of p reads no null pointer. */
  predicate Mendable(p: Path, t: Tree)
    requires t.Node?
  {
    t.color.Black? && Only(t).Node? ==> Safe(p, Only(t))
  }

  /** Such a removal keeps every rule but the count of black nodes. */
  lemma MendedTinted(p: Path, t: Tree)
    requires t.Node? && TintedAt(p, t) && (t.left.Leaf? || t.right.Leaf?) && ProperAt(p, Only(t)) && Mendable(p, t)
    ensures Tinted(Mended(p, t)) && InOrder(Mended(p, t)) == Flat(p, Only(t))
    ensures Proper(Mended(p, t)) && Refs(Mended(p, t)) == PathRefs(p) + Refs(Only(t))
  {
    var x := Only(t);
    ChildRules(t);
    assert x == Child(t, Left) || x == Child(t, Right);
    if t.color.Black? && x.Node? {
      ChildRules(x);
      FixDownTinted(p, x);
    } else {
      PlugTinted(p, x);
      PlugInOrder(p, x);
      PlugRefs(p, x);
    }
  }

  /** From a legal tree the counts stay equal as well, except when a black leaf goes. */
  lemma MendedBalanced(p: Path, t: Tree)
    requires t.Node? && LegalAt(p, t) && (t.left.Leaf? || t.right.Leaf?)
    ensures Mendable(p, t) && !LoopsAt(p, t)
    ensures Balanced(Mended(p, t)) <==> !(t.color.Black? && t.left.Leaf? && t.right.Leaf? && p.Under?)
  {
    var x := Only(t);
    SpliceLaw(p, t);
    if t.color.Black? && x.Node? {
      FixDownLaw(p, x);
    } else {
      PlugLevel(p, x);
    }
  }

  /** The tree after a removal of key, as the code makes it. */
  function RemoveKey(s: Tree, key: int): Tree {
    var (p, u) := HoleOf(Top, s, key);
    if u.Leaf? then s else Mended(p, u)
  }

  /** The removal of key reads the colour of a node that is not there. */
  predicate ReadsNull(s: Tree, key: int) {
    var (p, u) := HoleOf(Top, s, key);
    u.Node? && !Mendable(p, u)
  }

  lemma RemovalAt(s: Tree, key: int, p: Path, u: Tree)
    requires HoleOf(Top, s, key) == (p, u) && u.Node?
    ensures RemoveKey(s, key) == Mended(p, u)
    ensures ReadsNull(s, key) <==> !Mendable(p, u)
    ensures EntersLoop(s, key) <==> LoopsAt(p, u)
  {
  }

  /** The deletion loop reads no null pointer if and only if the walk up from its hole meets what it reads. */
  lemma {:induction false} SafeIffGuarded(p: Path, t: Tree)
    ensures Safe(p, t) <==> (Short(p, t) ==> Guarded(p))
    decreases if Short(p, t) then 1 + Depth(p) else 0
  {
    if Short(p, t) && Reads(p) {
      SinkShortens(p, t);
      SafeIffGuarded(Sink(p, t).0, Sink(p, t).1);
    }
  }

  /** A removal reads a null pointer if and only if it enters the loop at a hole that is not guarded. */
  lemma NullReadIff(s: Tree, key: int)
    ensures ReadsNull(s, key) <==> EntersLoop(s, key) && !Guarded(HoleOf(Top, s, key).0)
  {
    var (p, u) := HoleOf(Top, s, key);
    if u.Node? {
      SafeIffGuarded(p, Only(u));
    }
  }

  /** The tree after an insertion of key below t, at the hole of p, as the code makes it; n is the new
      node, which is not used when the key is there already. */
  function InsertAt(p: Path, t: Tree, n: RbNode, key: int, value: Ptr): Tree
    decreases t
  {
    if t.Leaf? then FixUp(p, Node(n, key, value, Red, Leaf, Leaf))
    else if key < t.key then InsertAt(Below(p, t, Left), t.left, n, key, value)
    else if key > t.key then InsertAt(Below(p, t, Right), t.right, n, key, value)
    else Plug(p, t.(value := value))
  }

  /** The path q, itself inside the hole of b. */
  function Graft(q: Path, b: Path): Path {
    if q.Top? then b else q.(up := Graft(q.up, b))
  }

  lemma {:induction false} GraftPlug(q: Path, b: Path, t: Tree)
    ensures Plug(Graft(q, b), t) == Plug(b, Plug(q, t))
    decreases q
  {
    if q.Under? {
      GraftPlug(q.up, b, Join(q, t));
      assert Join(Graft(q, b), t) == Join(q, t);
    }
  }

  /** The rules do not look at the key and value of a frame. */
  lemma {:induction false} GraftRules(q: Path, b: Path, k: int, v: Ptr, h: nat)
    requires b.Under?
    ensures Colored(Graft(q, b)) ==> Colored(Graft(q, b.(key := k, value := v)))
    ensures Level(Graft(q, b), h) ==> Level(Graft(q, b.(key := k, value := v)), h)
    ensures Graft(q, b).Under? && Graft(q, b.(key := k, value := v)).Under?
    ensures Graft(q, b).color == Graft(q, b.(key := k, value := v)).color
    decreases q
  {
    if q.Under? {
      GraftRules(q.up, b, k, v, h + Weight(q.color));
    }
  }

  /** q only ever goes left, so nothing precedes its hole. */
  predicate LeftSpine(q: Path) {
    q.Under? ==> q.side.Left? && LeftSpine(q.up)
  }

  lemma {:induction false} LeftSpineBefore(q: Path)
    requires LeftSpine(q)
    ensures Before(q) == []
    decreases q
  {
    if q.Under? {
      LeftSpineBefore(q.up);
    }
  }

  lemma {:induction false} LeftmostPath(q: Path, b: Path, u: Tree)
    requires u.Node? && LeftSpine(q)
    ensures Plug(q, u).Node? && LeftmostAt(b, Plug(q, u)) == LeftmostAt(Graft(q, b), u)
    decreases q
  {
    if q.Under? {
      LeftmostPath(q.up, b, Join(q, u));
      assert Below(Graft(q.up, b), Join(q, u), Left) == Graft(q, b);
    }
  }

  /** The order in which a clear gives the nodes back: children before their parent. */
  ghost function PostOrder(t: Tree): seq<RbNode> {
    match t
    case Leaf => []
    case Node(n, _, _, _, l, r) => PostOrder(l) + PostOrder(r) + [n]
  }

  /** In s every node of t comes after all nodes below it. */
  ghost predicate ParentsLast(t: Tree, s: seq<RbNode>)
    decreases t
  {
    t.Node? ==> exists i :: 0 <= i < |s| && ParentAt(t, s, i)
  }

  ghost predicate ParentAt(t: Tree, s: seq<RbNode>, i: nat)
    requires t.Node? && i < |s|
    decreases t, 0
  {
    && s[i] == t.ref && (forall n :: n in Refs(t.left) + Refs(t.right) ==> n in s[..i])
    && ParentsLast(t.left, s[..i]) && ParentsLast(t.right, s[..i])
  }

  lemma {:induction false} PostOrderMembers(t: Tree)
    ensures forall n :: n in Refs(t) ==> n in PostOrder(t)
  {
    if t.Node? {
      PostOrderMembers(t.left);
      PostOrderMembers(t.right);
    }
  }

  lemma {:induction false} PostOrderParents(t: Tree, a: seq<RbNode>, b: seq<RbNode>)
    ensures ParentsLast(t, a + PostOrder(t) + b)
    decreases t
  {
    if t.Node? {
      var l, r := PostOrder(t.left), PostOrder(t.right);
      var s, i := a + PostOrder(t) + b, |a + l + r|;
      assert s[..i] == a + l + r == (a + l) + r + [];
      PostOrderParents(t.left, a, r);
      PostOrderParents(t.right, a + l, []);
      PostOrderMembers(t.left);
      PostOrderMembers(t.right);
      assert ParentAt(t, s, i);
    }
  }

  /** Post-order has every node after those below it. */
  lemma PostOrderParentsLast(t: Tree)
    ensures ParentsLast(t, PostOrder(t))
  {
    PostOrderParents(t, [], []);
    assert [] + PostOrder(t) + [] == PostOrder(t);
  }

  lemma {:induction false} PostOrderOnce(t: Tree)
    requires Proper(t)
    ensures multiset(PostOrder(t)) == multiset(Refs(t))
  {
    if t.Node? {
      PostOrderOnce(t.left);
      PostOrderOnce(t.right);
      assert multiset(Refs(t)) == multiset(Refs(t.left)) + multiset(Refs(t.right)) + multiset{t.ref};
    }
  }
}
