/** Short runs: a removal that leaves a tree unbalanced, and one that reads a null pointer. */
module RbExample {
  import opened InfraTypes
  import opened RbNodes
  import opened RbShape
  import opened RbLaws
  import opened RbMap

  /** A node without a value. */
  function Fork(n: RbNode, k: int, c: Color, l: Tree, r: Tree): (t: Tree)
    ensures t.Node?
  {
    Node(n, k, NULL, c, l, r)
  }

  function Single(n: RbNode, k: int, c: Color): (t: Tree)
    ensures t.Node?
  {
    Fork(n, k, c, Leaf, Leaf)
  }

  function Three(a: RbNode, b: RbNode, c: RbNode, color: Color): (t: Tree)
    ensures t.Node?
  {
    Fork(b, 2, Black, Single(a, 1, color), Single(c, 3, color))
  }

  /** 2, 1, 3 and 4 are inserted, and 4 is removed: three black nodes are left. */
  lemma ThreeBlackNodes(a: RbNode, b: RbNode, c: RbNode, d: RbNode)
    ensures var t1 := InsertAt(Top, Leaf, b, 2, NULL);
      var t2 := InsertAt(Top, t1, a, 1, NULL);
      var t3 := InsertAt(Top, t2, c, 3, NULL);
      RemoveKey(InsertAt(Top, t3, d, 4, NULL), 4) == Three(a, b, c, Black)
  {
    First(b);
    Second(a, b);
    Third(a, b, c);
    Fourth(a, b, c, d);
    FourthGone(a, b, c, d);
  }

  lemma PlugOnce(p: Path, t: Tree)
    requires p.Under? && p.up == Top
    ensures Plug(p, t) == Join(p, t)
  {
    assert Plug(Top, Join(p, t)) == Join(p, t);
  }

  lemma PlugTwice(p: Path, t: Tree)
    requires p.Under? && p.up.Under? && p.up.up == Top
    ensures Plug(p, t) == Join(p.up, Join(p, t))
  {
    PlugOnce(p.up, Join(p, t));
  }

  lemma First(b: RbNode)
    ensures InsertAt(Top, Leaf, b, 2, NULL) == Single(b, 2, Black)
  {
    var n := Single(b, 2, Red);
    assert InsertAt(Top, Leaf, b, 2, NULL) == FixUp(Top, n) == Blacken(n);
    assert Blacken(n) == Node(b, 2, NULL, Black, Leaf, Leaf);
    assert Single(b, 2, Black) == Node(b, 2, NULL, Black, Leaf, Leaf);
  }

  lemma Second(a: RbNode, b: RbNode)
    ensures InsertAt(Top, Single(b, 2, Black), a, 1, NULL) == Fork(b, 2, Black, Single(a, 1, Red), Leaf)
  {
    var t, n := Single(b, 2, Black), Single(a, 1, Red);
    var p := Under(Top, Left, b, 2, NULL, Black, Leaf);
    assert t == Node(b, 2, NULL, Black, Leaf, Leaf);
    assert InsertAt(Top, t, a, 1, NULL) == InsertAt(p, Leaf, a, 1, NULL) == FixUp(p, n) == Blacken(Plug(p, n));
    PlugOnce(p, n);
    assert Join(p, n) == Node(b, 2, NULL, Black, n, Leaf) == Fork(b, 2, Black, n, Leaf);
  }

  lemma Third(a: RbNode, b: RbNode, c: RbNode)
    ensures InsertAt(Top, Fork(b, 2, Black, Single(a, 1, Red), Leaf), c, 3, NULL) == Three(a, b, c, Red)
  {
    var l, n := Single(a, 1, Red), Single(c, 3, Red);
    var t, p := Fork(b, 2, Black, l, Leaf), Under(Top, Right, b, 2, NULL, Black, l);
    assert t == Node(b, 2, NULL, Black, l, Leaf);
    assert InsertAt(Top, t, c, 3, NULL) == InsertAt(p, Leaf, c, 3, NULL) == FixUp(p, n) == Blacken(Plug(p, n));
    PlugOnce(p, n);
    assert Join(p, n) == Node(b, 2, NULL, Black, l, n) == Three(a, b, c, Red);
  }

  /** The fourth node recolours its parent and its uncle, and the root turns black again. */
  lemma Fourth(a: RbNode, b: RbNode, c: RbNode, d: RbNode)
    ensures InsertAt(Top, Three(a, b, c, Red), d, 4, NULL)
         == Fork(b, 2, Black, Single(a, 1, Black), Fork(c, 3, Black, Leaf, Single(d, 4, Red)))
  {
    var l, r, n := Single(a, 1, Red), Single(c, 3, Red), Single(d, 4, Red);
    var t, g := Three(a, b, c, Red), Under(Top, Right, b, 2, NULL, Black, l);
    var p := Under(g, Right, c, 3, NULL, Red, Leaf);
    assert t == Node(b, 2, NULL, Black, l, r) && r == Node(c, 3, NULL, Red, Leaf, Leaf);
    assert InsertAt(Top, t, d, 4, NULL) == InsertAt(g, r, d, 4, NULL) == InsertAt(p, Leaf, d, 4, NULL) == FixUp(p, n);
    var low := Node(c, 3, NULL, Black, Leaf, n);
    var u := Node(b, 2, NULL, Red, Blacken(l), low);
    assert l == Node(a, 1, NULL, Red, Leaf, Leaf) && !IsBlack(l);
    assert Lift(p, n) == (Top, u);
    assert FixUp(p, n) == FixUp(Top, u) == Blacken(u);
    assert Blacken(l) == Node(a, 1, NULL, Black, Leaf, Leaf) == Single(a, 1, Black);
    assert low == Fork(c, 3, Black, Leaf, n);
  }

  lemma FourthGone(a: RbNode, b: RbNode, c: RbNode, d: RbNode)
    ensures RemoveKey(Fork(b, 2, Black, Single(a, 1, Black), Fork(c, 3, Black, Leaf, Single(d, 4, Red))), 4)
         == Three(a, b, c, Black)
  {
    var l, n := Single(a, 1, Black), Single(d, 4, Red);
    var r := Fork(c, 3, Black, Leaf, n);
    var t, g := Fork(b, 2, Black, l, r), Under(Top, Right, b, 2, NULL, Black, l);
    var p := Under(g, Right, c, 3, NULL, Black, Leaf);
    assert t == Node(b, 2, NULL, Black, l, r) && r == Node(c, 3, NULL, Black, Leaf, n);
    assert n == Node(d, 4, NULL, Red, Leaf, Leaf);
    assert Below(Top, t, Right) == g && Below(g, r, Right) == p;
    assert HoleOf(Top, t, 4) == HoleOf(g, r, 4) == HoleOf(p, n, 4) == (p, n);
    assert RemoveKey(t, 4) == Mended(p, n) == Plug(p, Leaf);
    PlugTwice(p, Leaf);
    assert Join(p, Leaf) == Node(c, 3, NULL, Black, Leaf, Leaf) == Single(c, 3, Black);
    assert Join(g, Join(p, Leaf)) == Three(a, b, c, Black);
  }

  lemma AllBlack(a: RbNode, b: RbNode, c: RbNode)
    ensures var s := Three(a, b, c, Black);
      Legal(s) && BlackHeight(s) == 2
      && s == Node(b, 2, NULL, Black, Node(a, 1, NULL, Black, Leaf, Leaf), Node(c, 3, NULL, Black, Leaf, Leaf))
  {
    var l, r := Node(a, 1, NULL, Black, Leaf, Leaf), Node(c, 3, NULL, Black, Leaf, Leaf);
    assert Three(a, b, c, Black) == Node(b, 2, NULL, Black, l, r);
    assert BlackHeight(Leaf) == 0 && BlackHeight(l) == BlackHeight(r) == 1;
    assert Legal(l) && Legal(r);
  }

  /** That legal tree has different black heights left and right once 1 is removed as well. */
  lemma RemovalUnbalances(a: RbNode, b: RbNode, c: RbNode)
    ensures var s := Three(a, b, c, Black);
      && Legal(s) && TakesBlackLeaf(s, 1)
      && RemoveKey(s, 1) == s.(left := Leaf) && !Balanced(s.(left := Leaf))
  {
    var s := Three(a, b, c, Black);
    var p := Under(Top, Left, b, 2, NULL, Black, s.right);
    AllBlack(a, b, c);
    assert HoleOf(Top, s, 1) == HoleOf(p, s.left, 1) == (p, s.left);
    assert RemoveKey(s, 1) == Mended(p, s.left) == Plug(p, Leaf);
    PlugOnce(p, Leaf);
    assert BlackHeight(Leaf) == 0 && BlackHeight(s.right) == 1;
  }

  /** And two removals from a legal tree of seven black nodes reach the loop of fix_delete: once 1 is
      gone, 2 has a single child, and it is black.  Here the loop reads no null pointer. */
  lemma SecondRemovalLoops(a: RbNode, b: RbNode, c: RbNode, d: RbNode, r: Tree)
    requires Legal(r) && BlackHeight(r) == 2
    ensures var s := Fork(d, 4, Black, Three(a, b, c, Black), r);
      && Legal(s) && !EntersLoop(s, 2)
      && EntersLoop(RemoveKey(s, 1), 2) && !ReadsNull(RemoveKey(s, 1), 2)
  {
    var l := Three(a, b, c, Black);
    var s := Fork(d, 4, Black, l, r);
    AllBlack(a, b, c);
    assert s == Node(d, 4, NULL, Black, l, r);
    var g := Under(Top, Left, d, 4, NULL, Black, r);
    var m := Node(b, 2, NULL, Black, Leaf, l.right);
    FirstGone(d, l, m, r);
    var u := Node(d, 4, NULL, Black, m, r);
    assert HoleOf(Top, u, 2) == HoleOf(g, m, 2) == (g, m);
    assert Legal(l.right) && BlackHeight(l.right) == 1 && Context(g, 2);
    FixDownLaw(g, l.right);
    BalancedAvoidsLoop(s, 2);
  }

  /** A removal that reads a null pointer: 2 has a single child, and it is black, and the sibling 6 has
      no children of which fix_delete could read the colour. */
  lemma RemovalReadsNull(b: RbNode, c: RbNode, d: RbNode, f: RbNode)
    ensures var s := Fork(d, 4, Black, Fork(b, 2, Black, Leaf, Single(c, 3, Black)), Single(f, 6, Black));
      Sorted(InOrder(s)) && Tinted(s) && !Balanced(s) && EntersLoop(s, 2) && ReadsNull(s, 2)
  {
    var x, r := Node(c, 3, NULL, Black, Leaf, Leaf), Node(f, 6, NULL, Black, Leaf, Leaf);
    var l := Node(b, 2, NULL, Black, Leaf, x);
    var s := Node(d, 4, NULL, Black, l, r);
    assert s == Fork(d, 4, Black, Fork(b, 2, Black, Leaf, Single(c, 3, Black)), Single(f, 6, Black));
    var p := Under(Top, Left, d, 4, NULL, Black, r);
    assert HoleOf(Top, s, 2) == HoleOf(p, l, 2) == (p, l);
    assert !Reads(p) && Short(p, x);
    assert BlackHeight(Leaf) == 0 && BlackHeight(x) == 1;
    assert NoRedRed(x) && NoRedRed(r) && NoRedRed(l);
    FourInOrder(b, c, d, f, x, l, r);
  }

  lemma RightInOrder(n: RbNode, k: int, x: Tree)
    ensures InOrder(Node(n, k, NULL, Black, Leaf, x)) == [(k, NULL)] + InOrder(x)
  {
    assert InOrder(Leaf) + [(k, NULL)] == [(k, NULL)];
  }

  lemma FourInOrder(b: RbNode, c: RbNode, d: RbNode, f: RbNode, x: Tree, l: Tree, r: Tree)
    requires x == Node(c, 3, NULL, Black, Leaf, Leaf) && r == Node(f, 6, NULL, Black, Leaf, Leaf)
    requires l == Node(b, 2, NULL, Black, Leaf, x)
    ensures InOrder(Node(d, 4, NULL, Black, l, r)) == [(2, NULL), (3, NULL), (4, NULL), (6, NULL)]
  {
    RightInOrder(c, 3, Leaf);
    RightInOrder(b, 2, x);
    RightInOrder(f, 6, Leaf);
    assert InOrder(x) == [(3, NULL)] && InOrder(r) == [(6, NULL)];
    assert InOrder(l) == [(2, NULL), (3, NULL)];
  }

  /** Three removals from a legal tree of seven black nodes are enough: 1 and 5 go as black leaves, and
      that of 2 then asks for the colour of the missing 5. */
  lemma ThirdRemovalReadsNull(a: RbNode, b: RbNode, c: RbNode, d: RbNode, e: RbNode, f: RbNode, g: RbNode)
    ensures var r := Fork(f, 6, Black, Single(e, 5, Black), Single(g, 7, Black));
      var s := Fork(d, 4, Black, Three(a, b, c, Black), r);
      Legal(s) && ReadsNull(RemoveKey(RemoveKey(s, 1), 5), 2)
  {
    var w, x := Node(e, 5, NULL, Black, Leaf, Leaf), Node(g, 7, NULL, Black, Leaf, Leaf);
    var y := Node(c, 3, NULL, Black, Leaf, Leaf);
    var l, r := Three(a, b, c, Black), Node(f, 6, NULL, Black, w, x);
    var s := Node(d, 4, NULL, Black, l, r);
    AllBlack(a, b, c);
    assert s == Fork(d, 4, Black, l, Fork(f, 6, Black, Single(e, 5, Black), Single(g, 7, Black)));
    assert BlackHeight(w) == BlackHeight(x) == 1 && Legal(w) && Legal(x) && Legal(r);
    var m := Node(b, 2, NULL, Black, Leaf, y);
    FirstGone(d, l, m, r);
    var t := Node(d, 4, NULL, Black, m, r);
    var p := Under(Top, Right, d, 4, NULL, Black, m);
    var q := Under(p, Left, f, 6, NULL, Black, x);
    assert HoleOf(Top, t, 5) == HoleOf(p, r, 5) == HoleOf(q, w, 5) == (q, w);
    assert RemoveKey(t, 5) == Mended(q, w) == Plug(q, Leaf);
    PlugTwice(q, Leaf);
    var z := Node(f, 6, NULL, Black, Leaf, x);
    assert Join(q, Leaf) == z && Join(p, z) == Node(d, 4, NULL, Black, m, z);
    var h := Under(Top, Left, d, 4, NULL, Black, z);
    assert HoleOf(Top, Node(d, 4, NULL, Black, m, z), 2) == HoleOf(h, m, 2) == (h, m);
    assert !Reads(h) && Short(h, y);
  }

  /** The left leaf of the left child of the root goes, and nothing is repaired. */
  lemma FirstGone(d: RbNode, l: Tree, m: Tree, r: Tree)
    requires l.Node? && l.key == 2 && l.left.Node? && l.left.key == 1 && m == l.(left := Leaf)
    requires l.left.left.Leaf? && l.left.right.Leaf?
    ensures RemoveKey(Node(d, 4, NULL, Black, l, r), 1) == Node(d, 4, NULL, Black, m, r)
  {
    var s := Node(d, 4, NULL, Black, l, r);
    var g := Under(Top, Left, d, 4, NULL, Black, r);
    var p := Under(g, Left, l.ref, 2, l.value, l.color, l.right);
    assert HoleOf(Top, s, 1) == HoleOf(g, l, 1) == HoleOf(p, l.left, 1) == (p, l.left);
    assert RemoveKey(s, 1) == Mended(p, l.left) == Plug(p, Leaf);
    PlugTwice(p, Leaf);
    assert Join(p, Leaf) == m && Join(g, m) == Node(d, 4, NULL, Black, m, r);
  }
}
