/** Whole runs of the operations of the tree. */
module RbRuns {
  import opened InfraTypes
  import opened RbNodes
  import opened RbShape
  import opened RbLaws
  import opened RbMap
  import opened RbTree

  datatype Op = Insert(key: int, value: Ptr, available: bool) | Find(key: int) | Remove(key: int) | Clear

  /** The plain map after one operation: an insertion without memory changes nothing. */
  function Apply(m: map<int, Ptr>, op: Op): map<int, Ptr> {
    match op
    case Insert(k, v, available) => if available then m[k := v] else m
    case Find(_) => m
    case Remove(k) => m - {k}
    case Clear => map[]
  }

  /** The operation can change what the key is mapped to. */
  predicate Touches(op: Op, key: int) {
    op.Clear? || ((op.Insert? || op.Remove?) && op.key == key)
  }

  /** What a run leaves at a key: the value of the last insertion of it, while nothing has touched the
      key since. */
  lemma {:induction false} LastInsertStays(ops: seq<Op>, i: nat)
    requires i < |ops| && ops[i].Insert? && ops[i].available
    requires forall j :: i < j < |ops| ==> !Touches(ops[j], ops[i].key)
    ensures ops[i].key in Replay(map[], Apply, ops) && Replay(map[], Apply, ops)[ops[i].key] == ops[i].value
    decreases |ops|
  {
    if i < |ops| - 1 {
      LastInsertStays(ops[..|ops| - 1], i);
    }
  }

  /** And nothing, when the last such operation took the key out or there was none. */
  lemma {:induction false} TakenOutStaysOut(ops: seq<Op>, i: nat, key: int)
    requires i <= |ops| && (i == 0 || ops[i - 1].Clear? || ops[i - 1] == Op.Remove(key))
    requires forall j :: i <= j < |ops| ==> !Touches(ops[j], key)
    ensures key !in Replay(map[], Apply, ops)
    decreases |ops|
  {
    if i < |ops| {
      TakenOutStaysOut(ops[..|ops| - 1], i, key);
    }
  }

  /** What the plain map answers: the value of a key that is looked up or removed. */
  function Answer(m: map<int, Ptr>, op: Op): Ptr {
    if (op.Find? || op.Remove?) && op.key in m then m[op.key] else NULL
  }

  /** The tree after one operation; n is the node that an insertion allocates. */
  function Next(s: Tree, op: Op, n: RbNode?): Tree {
    match op
    case Insert(k, v, available) => if available && n != null then InsertAt(Top, s, n, k, v) else s
    case Find(_) => s
    case Remove(k) => RemoveKey(s, k)
    case Clear => Leaf
  }

  /** A removal that makes fix_delete read a null pointer. */
  predicate Crashes(s: Tree, op: Op) { op.Remove? && ReadsNull(s, op.key) }

  /** The operation leaves a legal tree legal. */
  predicate Keeps(s: Tree, op: Op) { op.Remove? ==> !TakesBlackLeaf(s, op.key) }

  method Perform(tree: RedBlackTree, op: Op) returns (crashed: bool, r: Ptr, ghost n: RbNode?)
    requires tree.Valid() && Tinted(tree.shape)
    modifies tree, Refs(tree.shape)
    ensures crashed <==> Crashes(old(tree.shape), op)
    ensures r == Answer(old(tree.Contents()), op)
    ensures !crashed ==> tree.Valid() && Tinted(tree.shape) && tree.shape == Next(old(tree.shape), op, n)
    ensures !crashed ==> tree.Contents() == Apply(old(tree.Contents()), op)
    ensures !crashed && old(Legal(tree.shape)) && Keeps(old(tree.shape), op) ==> Legal(tree.shape)
    ensures !crashed ==> forall n :: n in Refs(tree.shape) ==> n in old(Refs(tree.shape)) || fresh(n)
  {
    crashed, r, n := false, NULL, null;
    match op {
      case Insert(k, v, available) =>
        var status;
        status, n := tree.Insert(k, v, available);
      case Find(k) =>
        assert allocated(Refs(tree.shape));
        ghost var steps;
        r, steps := tree.Find(k);
      case Remove(k) =>
        ghost var freed, rounds;
        crashed, r, freed, rounds := tree.Remove(k);
      case Clear =>
        var _ := tree.Clear();
    }
  }

  /** The trees of a run that has not crashed, the first one empty. */
  ghost predicate Trace(ops: seq<Op>, nodes: seq<RbNode?>, shapes: seq<Tree>) {
    && |shapes| == |nodes| + 1 && |nodes| <= |ops| && shapes[0] == Leaf
    && forall i :: 0 <= i < |nodes| ==>
         !Crashes(shapes[i], ops[i]) && shapes[i + 1] == Next(shapes[i], ops[i], nodes[i])
  }

  /** No removal of the run takes a black leaf below the root. */
  ghost predicate AllKeep(ops: seq<Op>, shapes: seq<Tree>) {
    forall i :: 0 <= i < |shapes| - 1 && i < |ops| ==> Keeps(shapes[i], ops[i])
  }

  lemma TraceStep(ops: seq<Op>, nodes: seq<RbNode?>, shapes: seq<Tree>, n: RbNode?, s: Tree)
    requires Trace(ops, nodes, shapes) && |nodes| < |ops|
    requires var i := |nodes|; !Crashes(shapes[i], ops[i]) && s == Next(shapes[i], ops[i], n)
    ensures Trace(ops, nodes + [n], shapes + [s])
    ensures AllKeep(ops, shapes + [s]) ==> AllKeep(ops, shapes) && Keeps(shapes[|nodes|], ops[|nodes|])
  {
    var m, t := nodes + [n], shapes + [s];
    forall i | 0 <= i < |m|
      ensures !Crashes(t[i], ops[i]) && t[i + 1] == Next(t[i], ops[i], m[i])
    {
      assert i < |nodes| ==> t[i] == shapes[i] && t[i + 1] == shapes[i + 1];
    }
    if AllKeep(ops, t) {
      forall i | 0 <= i < |shapes| - 1 && i < |ops|
        ensures Keeps(shapes[i], ops[i])
      {
        assert Keeps(t[i], ops[i]);
      }
      assert Keeps(t[|nodes|], ops[|nodes|]);
    }
  }

  lemma LegalDoesNotCrash(s: Tree, op: Op)
    requires Legal(s)
    ensures !Crashes(s, op)
  {
    if op.Remove? {
      BalancedAvoidsLoop(s, op.key);
      NullReadIff(s, op.key);
    }
  }

  /** Any run of insertions, updates, lookups, removals and clears, whatever its mallocs return: it
      stops only at a removal that reads a null pointer, and until then it agrees with the plain map
      and keeps links, order, black root and no red-red pair.  While no removal takes a black leaf
      below the root, the tree is legal, its height logarithmic, and no removal can crash. */
  method Run(ops: seq<Op>)
      returns (tree: RedBlackTree, answers: seq<Ptr>, crashed: bool, ghost nodes: seq<RbNode?>, ghost shapes: seq<Tree>)
    ensures Trace(ops, nodes, shapes) && |answers| == |nodes|
    ensures answers == Answers(map[], Apply, Answer, ops[..|answers|])
    ensures crashed ==> |nodes| < |ops| && Crashes(shapes[|nodes|], ops[|nodes|])
    ensures !crashed ==> |nodes| == |ops| && fresh(tree) && tree.Valid() && Tinted(tree.shape)
    ensures !crashed ==> tree.shape == shapes[|ops|] && tree.Contents() == Replay(map[], Apply, ops)
    ensures !crashed ==> tree.size == |Replay(map[], Apply, ops)|
    ensures AllKeep(ops, shapes) ==> !crashed && Legal(tree.shape) && Logarithmic(Height(tree.shape), tree.size)
  {
    tree := new RedBlackTree();
    answers, crashed, nodes, shapes := [], false, [], [Leaf];
    var i := 0;
    while i < |ops|
      invariant i <= |ops| && fresh(tree) && fresh(Refs(tree.shape)) && tree.Valid() && Tinted(tree.shape)
      invariant Trace(ops, nodes, shapes) && |nodes| == |answers| == i && tree.shape == shapes[i]
      invariant tree.Contents() == Replay(map[], Apply, ops[..i]) && answers == Answers(map[], Apply, Answer, ops[..i])
      invariant AllKeep(ops, shapes) ==> Legal(tree.shape)
    {
      ReplayStep(map[], Apply, Answer, ops, i);
      if Legal(tree.shape) {
        LegalDoesNotCrash(tree.shape, ops[i]);
      }
      var r;
      ghost var n;
      crashed, r, n := Perform(tree, ops[i]);
      if crashed {
        return;
      }
      TraceStep(ops, nodes, shapes, n, tree.shape);
      assert forall n :: n in Refs(tree.shape) ==> fresh(n);
      answers, nodes, shapes, i := answers + [r], nodes + [n], shapes + [tree.shape], i + 1;
    }
    assert ops[..|ops|] == ops;
    tree.Bounded();
  }
}
