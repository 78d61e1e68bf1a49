/** The nodes of the tree as they lie in memory (infra_rbtree_node_t). */
module RbNodes {
  import opened InfraTypes

  datatype Color = Red | Black

  class RbNode {
    var key: int
    var value: Ptr
    var color: Color
    var parent: RbNode?
    var left: RbNode?
    var right: RbNode?

    constructor (key: int, value: Ptr)
      ensures this.key == key && this.value == value && color == Red
      ensures parent == null && left == null && right == null
    {
      this.key, this.value, color := key, value, Red;
      parent, left, right := null, null, null;
    }
  }
}

/**
  Pictures of a tree.  A Tree shows the subtree below a node; a Path shows everything
  above and beside a hole, innermost frame first.  A loop that walks the tree is
  described by the pair (Path, Tree) at its current node.
 */
module RbShape {
  import opened InfraTypes
  import opened RbNodes

  datatype Side = Left | Right

  datatype Tree =
    | Leaf
    | Node(ref: RbNode, key: int, value: Ptr, color: Color, left: Tree, right: Tree)

  datatype Path =
    | Top
    | Under(up: Path, side: Side, ref: RbNode, key: int, value: Ptr, color: Color, sibling: Tree)

  function Opposite(s: Side): Side { if s.Left? then Right else Left }

  function Child(t: Tree, s: Side): Tree
    requires t.Node?
  {
    if s.Left? then t.left else t.right
  }

  /** The tree whose root is the frame f, with t filling the hole. */
  function Join(f: Path, t: Tree): Tree
    requires f.Under?
  {
    if f.side.Left? then Node(f.ref, f.key, f.value, f.color, t, f.sibling)
    else Node(f.ref, f.key, f.value, f.color, f.sibling, t)
  }

  function Plug(p: Path, t: Tree): Tree {
    if p.Top? then t else Plug(p.up, Join(p, t))
  }

  function Depth(p: Path): nat {
    if p.Top? then 0 else 1 + Depth(p.up)
  }

  // ------------------------------------------------------------ contents

  function InOrder(t: Tree): seq<(int, Ptr)> {
    match t
    case Leaf => []
    case Node(_, k, v, _, l, r) => InOrder(l) + [(k, v)] + InOrder(r)
  }

  /** What precedes the hole of p in the order of keys. */
  function Before(p: Path): seq<(int, Ptr)> {
    if p.Top? then []
    else if p.side.Left? then Before(p.up)
    else Before(p.up) + InOrder(p.sibling) + [(p.key, p.value)]
  }

  function After(p: Path): seq<(int, Ptr)> {
    if p.Top? then []
    else if p.side.Right? then After(p.up)
    else [(p.key, p.value)] + InOrder(p.sibling) + After(p.up)
  }

  function Flat(p: Path, t: Tree): seq<(int, Ptr)> {
    Before(p) + InOrder(t) + After(p)
  }

  // ------------------------------------------------------------ footprint

  ghost function Refs(t: Tree): set<RbNode> {
    match t
    case Leaf => {}
    case Node(n, _, _, _, l, r) => {n} + Refs(l) + Refs(r)
  }

  ghost function PathRefs(p: Path): set<RbNode> {
    if p.Top? then {} else {p.ref} + Refs(p.sibling) + PathRefs(p.up)
  }

  /** No node occurs twice in t. */
  ghost predicate Proper(t: Tree) {
    t.Node? ==>
      && t.ref !in Refs(t.left) + Refs(t.right)
      && Refs(t.left) !! Refs(t.right)
      && Proper(t.left) && Proper(t.right)
  }

  ghost predicate ProperPath(p: Path) {
    p.Under? ==>
      && p.ref !in Refs(p.sibling) + PathRefs(p.up)
      && Refs(p.sibling) !! PathRefs(p.up)
      && Proper(p.sibling) && ProperPath(p.up)
  }

  ghost predicate ProperAt(p: Path, t: Tree) {
    ProperPath(p) && Proper(t) && PathRefs(p) !! Refs(t)
  }

  lemma JoinProper(f: Path, t: Tree)
    requires f.Under?
    ensures Refs(Join(f, t)) == {f.ref} + Refs(f.sibling) + Refs(t)
    ensures Proper(Join(f, t)) <==>
            && f.ref !in Refs(f.sibling) && f.ref !in Refs(t) && Refs(f.sibling) !! Refs(t)
            && Proper(f.sibling) && Proper(t)
  {
  }

  // ------------------------------------------------------------ red-black rules

  predicate IsBlack(t: Tree) { t.Node? ==> t.color.Black? }

  function Blacken(t: Tree): Tree {
    if t.Leaf? then t else t.(color := Black)
  }

  function Weight(c: Color): nat { if c.Black? then 1 else 0 }

  /** Black nodes on the leftmost path. */
  function BlackHeight(t: Tree): nat {
    if t.Leaf? then 0 else BlackHeight(t.left) + Weight(t.color)
  }

  /** Every path from t down to a null pointer meets the same number of black nodes. */
  predicate Balanced(t: Tree) {
    t.Node? ==> Balanced(t.left) && Balanced(t.right) && BlackHeight(t.left) == BlackHeight(t.right)
  }

  predicate NoRedRed(t: Tree) {
    t.Node? ==>
      && NoRedRed(t.left) && NoRedRed(t.right)
      && (t.color.Red? ==> IsBlack(t.left) && IsBlack(t.right))
  }

  predicate Legal(t: Tree) { IsBlack(t) && NoRedRed(t) && Balanced(t) }

  /** The rules without the count of black nodes, which every operation keeps. */
  predicate Tinted(t: Tree) { IsBlack(t) && NoRedRed(t) }

  /** Around the hole of p no red node has a red parent, and the root is black. */
  predicate Colored(p: Path) {
    p.Under? ==>
      && NoRedRed(p.sibling)
      && (p.color.Red? ==> IsBlack(p.sibling) && p.up.Under? && p.up.color.Black?)
      && Colored(p.up)
  }

  /** The black nodes around the hole of p are in balance with a subtree of black height h. */
  predicate Level(p: Path, h: nat) {
    p.Under? ==>
      Balanced(p.sibling) && BlackHeight(p.sibling) == h && Level(p.up, h + Weight(p.color))
  }

  /** p is a legal tree with a hole that needs a subtree of black height h. */
  predicate Context(p: Path, h: nat) { Colored(p) && Level(p, h) }

  // ------------------------------------------------------------ one round of fix_insert

  /** The guard of the insertion loop at a red node. */
  predicate Clashes(p: Path) { p.Under? && p.color.Red? && p.up.Under? }

  /** One round of the insertion loop: recolour and climb, or rotate once or twice. */
  function Lift(p: Path, t: Tree): (Path, Tree)
    requires Clashes(p) && t.Node?
  {
    var g := p.up;
    if !IsBlack(g.sibling) then
      (g.up, Join(g.(color := Red, sibling := Blacken(g.sibling)), Join(p.(color := Black), t)))
    else if p.side == g.side then
      (Under(g.up, g.side, p.ref, p.key, p.value, Black, Join(g.(color := Red), p.sibling)), t)
    else
      (Under(g.up, g.side, t.ref, t.key, t.value, Black, Join(g.(color := Red), Child(t, p.side))),
       Join(p, Child(t, g.side)))
  }

  lemma LiftShortens(p: Path, t: Tree)
    requires Clashes(p) && t.Node?
    ensures Lift(p, t).1.Node? && Depth(Lift(p, t).0) < Depth(p)
  {
  }

  /** The whole insertion loop from (p, t), with the final blackening of the root. */
  function FixUp(p: Path, t: Tree): Tree
    requires t.Node?
    decreases Depth(p)
  {
    if !Clashes(p) then Blacken(Plug(p, t))
    else
      LiftShortens(p, t);
      FixUp(Lift(p, t).0, Lift(p, t).1)
  }

  // ------------------------------------------------------------ one round of fix_delete

  /** The sibling is red: rotate it above the parent. */
  function Borrow(p: Path): Path
    requires p.Under?
  {
    var s := p.sibling;
    if IsBlack(s) then p
    else Under(Under(p.up, p.side, s.ref, s.key, s.value, Black, Child(s, Opposite(p.side))),
               p.side, p.ref, p.key, p.value, Red, Child(s, p.side))
  }

  /** Only the near nephew is red: rotate it above the sibling. */
  function Straighten(p: Path): Path
    requires p.Under? && p.sibling.Node?
  {
    var s := p.sibling;
    var n := Child(s, p.side);
    if !IsBlack(Child(s, Opposite(p.side))) || n.Leaf? then p
    else
      var low := Join(Under(Top, p.side, s.ref, s.key, s.value, Red, Child(s, Opposite(p.side))),
                      Child(n, Opposite(p.side)));
      p.(sibling := Join(Under(Top, p.side, n.ref, n.key, n.value, Black, low), Child(n, p.side)))
  }

  /** The far nephew is red: rotate the sibling above the parent and finish. */
  function Settle(p: Path, t: Tree): Tree
    requires p.Under? && p.sibling.Node?
  {
    var s := p.sibling;
    var low := Join(p.(color := Black, sibling := Child(s, p.side)), t);
    Join(Under(Top, p.side, s.ref, s.key, s.value, p.color, Blacken(Child(s, Opposite(p.side)))), low)
  }

  /** One round of the deletion loop at a black node that is one black short. */
  function Sink(p: Path, t: Tree): (Path, Tree)
    requires p.Under?
  {
    var q := Borrow(p);
    var s := q.sibling;
    if s.Leaf? || (IsBlack(s.left) && IsBlack(s.right)) then
      (q.up, Join(q.(sibling := if s.Leaf? then s else s.(color := Red)), t))
    else
      (Top, Plug(Straighten(q).up, Settle(Straighten(q), t)))
  }

  /** The guard of the deletion loop. */
  predicate Short(p: Path, t: Tree) { p.Under? && IsBlack(t) }

  lemma SinkShortens(p: Path, t: Tree)
    requires Short(p, t)
    ensures Short(Sink(p, t).0, Sink(p, t).1) ==> Depth(Sink(p, t).0) < Depth(p)
  {
  }

  /** One round at the hole of p reads no null pointer: the sibling, once a red one is rotated away,
      and both its children are nodes. */
  predicate Reads(p: Path) {
    && p.Under? && p.sibling.Node? && Borrow(p).sibling.Node?
    && Borrow(p).sibling.left.Node? && Borrow(p).sibling.right.Node?
  }

  /** No round of the deletion loop from (p, t) reads a null pointer. */
  predicate Safe(p: Path, t: Tree)
    decreases if Short(p, t) then 1 + Depth(p) else 0
  {
    Short(p, t) ==> Reads(p) && (SinkShortens(p, t); Safe(Sink(p, t).0, Sink(p, t).1))
  }

  /** The same as a walk up from the hole before anything is rotated: a red sibling, or a black one with
      a red child, or a red parent is where the loop ends. */
  predicate Guarded(p: Path) {
    p.Under? ==>
      var s := p.sibling;
      && s.Node?
      && if s.color.Red? then
           var near := Child(s, p.side);
           near.Node? && near.left.Node? && near.right.Node?
         else
           && s.left.Node? && s.right.Node?
           && (p.color.Black? && IsBlack(s.left) && IsBlack(s.right) ==> Guarded(p.up))
  }

  /** The whole deletion loop from (p, t), with the final blackening of its node. */
  function FixDown(p: Path, t: Tree): Tree
    decreases if Short(p, t) then 1 + Depth(p) else 0
  {
    if !Short(p, t) then Plug(p, Blacken(t))
    else
      SinkShortens(p, t);
      FixDown(Sink(p, t).0, Sink(p, t).1)
  }
}
