/** How nodes in memory realise a picture. */
module RbHeap {
  import opened RbNodes
  import opened RbShape

  /** The nodes reached from n look exactly like t, parent links included. */
  ghost predicate Mirrors(t: Tree, n: RbNode?, up: RbNode?)
    reads Refs(t)
    decreases t
  {
    match t
    case Leaf => n == null
    case Node(r, k, v, c, lt, rt) =>
      && n == r && r.key == k && r.value == v && r.color == c && r.parent == up
      && Mirrors(lt, r.left, r) && Mirrors(rt, r.right, r)
  }

  ghost function Above(p: Path): RbNode? { if p.Top? then null else p.ref }

  /** The nodes around the hole of p look exactly like p, and n is in the hole. */
  ghost predicate Hangs(p: Path, n: RbNode?, root: RbNode?)
    reads PathRefs(p)
    decreases p
  {
    if p.Top? then root == n
    else
      var r := p.ref;
      && r.key == p.key && r.value == p.value && r.color == p.color && r.parent == Above(p.up)
      && n == (if p.side.Left? then r.left else r.right)
      && Mirrors(p.sibling, if p.side.Left? then r.right else r.left, r)
      && Hangs(p.up, r, root)
  }

  lemma {:induction false} HangsRoot(p: Path, n: RbNode?, root: RbNode?)
    requires Hangs(p, n, root) && p.Under?
    ensures root in PathRefs(p)
    decreases p
  {
    if p.up.Under? {
      HangsRoot(p.up, p.ref, root);
    }
  }

  lemma {:induction false} PlugMirrors(p: Path, t: Tree, n: RbNode?, root: RbNode?)
    requires Hangs(p, n, root) && Mirrors(t, n, Above(p))
    ensures Mirrors(Plug(p, t), root, null)
    decreases p
  {
    if p.Under? {
      PlugMirrors(p.up, Join(p, t), p.ref, root);
    }
  }
}
