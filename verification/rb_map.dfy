/** The map that a tree holds, search along a path, and the bound on the height. */
module RbMap {
  import opened InfraTypes
  import opened RbNodes
  import opened RbShape
  import opened RbLaws

  type Pairs = seq<(int, Ptr)>

  ghost predicate Sorted(s: Pairs) {
    forall i, j :: 0 <= i < j < |s| ==> s[i].0 < s[j].0
  }

  ghost predicate AllBelow(s: Pairs, k: int) { forall i :: 0 <= i < |s| ==> s[i].0 < k }

  ghost predicate AllAbove(k: int, s: Pairs) { forall i :: 0 <= i < |s| ==> k < s[i].0 }

  function ToMap(s: Pairs): map<int, Ptr> {
    if s == [] then map[] else ToMap(s[..|s| - 1])[s[|s| - 1].0 := s[|s| - 1].1]
  }

  lemma {:induction false} ToMapConcat(a: Pairs, b: Pairs)
    ensures ToMap(a + b) == ToMap(a) + ToMap(b)
    decreases |b|
  {
    if b == [] {
      assert a + b == a;
    } else {
      ToMapConcat(a, b[..|b| - 1]);
      assert (a + b)[..|a + b| - 1] == a + b[..|b| - 1];
    }
  }

  lemma {:induction false} ToMapKey(s: Pairs, k: int)
    ensures k in ToMap(s) <==> exists i :: 0 <= i < |s| && s[i].0 == k
  {
    if s != [] {
      var r := s[..|s| - 1];
      ToMapKey(r, k);
      if k in ToMap(r) {
        var i :| 0 <= i < |r| && r[i].0 == k;
        assert s[i].0 == k;
      } else {
        assert k in ToMap(s) <==> s[|s| - 1].0 == k;
        assert forall i :: 0 <= i < |r| ==> r[i] == s[i];
      }
    }
  }

  lemma {:induction false} ToMapSize(s: Pairs)
    requires Sorted(s)
    ensures |ToMap(s)| == |s|
  {
    if s != [] {
      var r := s[..|s| - 1];
      ToMapSize(r);
      ToMapKey(r, s[|s| - 1].0);
    }
  }

  lemma ToMapKeys(s: Pairs)
    ensures forall k :: k in ToMap(s) <==> exists i :: 0 <= i < |s| && s[i].0 == k
    ensures Sorted(s) ==> |ToMap(s)| == |s|
  {
    forall k
      ensures k in ToMap(s) <==> exists i :: 0 <= i < |s| && s[i].0 == k
    {
      ToMapKey(s, k);
    }
    if Sorted(s) {
      ToMapSize(s);
    }
  }

  lemma ToMapSplit(a: Pairs, x: (int, Ptr), b: Pairs)
    ensures ToMap(a + [x] + b) == ToMap(a)[x.0 := x.1] + ToMap(b)
  {
    ToMapConcat(a + [x], b);
    assert (a + [x])[..|a|] == a;
  }

  lemma SortedSplit(a: Pairs, x: (int, Ptr), b: Pairs)
    ensures Sorted(a + [x] + b) <==> Sorted(a + b) && AllBelow(a, x.0) && AllAbove(x.0, b)
  {
    var s, r := a + [x] + b, a + b;
    if Sorted(s) {
      forall i, j | 0 <= i < j < |r|
        ensures r[i].0 < r[j].0
      {
        assert r[i] == s[if i < |a| then i else i + 1] && r[j] == s[if j < |a| then j else j + 1];
      }
      forall i | 0 <= i < |a|
        ensures a[i].0 < x.0
      {
        assert s[i] == a[i] && s[|a|] == x;
      }
      forall i | 0 <= i < |b|
        ensures x.0 < b[i].0
      {
        assert s[|a| + 1 + i] == b[i] && s[|a|] == x;
      }
    }
    if Sorted(r) && AllBelow(a, x.0) && AllAbove(x.0, b) {
      forall i, j | 0 <= i < j < |s|
        ensures s[i].0 < s[j].0
      {
        if i != |a| && j != |a| {
          assert s[i] == r[if i < |a| then i else i - 1] && s[j] == r[if j < |a| then j else j - 1];
        }
      }
    }
  }

  lemma InsertBetween(m: map<int, Ptr>, k: int, v: Ptr, n: map<int, Ptr>)
    requires k !in m && k !in n
    ensures m[k := v] + n == (m + n)[k := v]
    ensures m + n == (m[k := v] + n) - {k}
  {
  }

  /** The map of a sorted sequence with and without one of its pairs. */
  lemma MapSplit(a: Pairs, x: (int, Ptr), b: Pairs)
    requires AllBelow(a, x.0) && AllAbove(x.0, b)
    ensures ToMap(a + [x] + b) == ToMap(a + b)[x.0 := x.1]
    ensures x.0 !in ToMap(a + b) && ToMap(a + b) == ToMap(a + [x] + b) - {x.0}
  {
    ToMapSplit(a, x, b);
    ToMapConcat(a, b);
    ToMapKeys(a);
    ToMapKeys(b);
    InsertBetween(ToMap(a), x.0, x.1, ToMap(b));
  }

  /** The search for key has turned the right way at every frame of p. */
  ghost predicate Follows(p: Path, key: int) { AllBelow(Before(p), key) && AllAbove(key, After(p)) }

  lemma FollowDown(p: Path, t: Tree, key: int, s: Side)
    requires t.Node? && Follows(p, key) && Sorted(Flat(p, t))
    requires if s.Left? then key < t.key else key > t.key
    ensures var q := Below(p, t, s); Follows(q, key) && Flat(q, Child(t, s)) == Flat(p, t)
  {
    var q := Below(p, t, s);
    assert Join(q, Child(t, s)) == t;
    JoinFlat(q, Child(t, s));
    FlatAt(p, t);
    SortedSplit(Before(p) + InOrder(t.left), (t.key, t.value), InOrder(t.right) + After(p));
    FollowSide(p, t, key, s);
  }

  lemma AboveFront(key: int, k: int, v: Ptr, s: seq<(int, Ptr)>)
    requires key < k && AllAbove(k, s)
    ensures AllAbove(key, [(k, v)] + s)
  {
  }

  lemma BelowBack(s: seq<(int, Ptr)>, k: int, v: Ptr, key: int)
    requires k < key && AllBelow(s, k)
    ensures AllBelow(s + [(k, v)], key)
  {
  }

  lemma FollowSide(p: Path, t: Tree, key: int, s: Side)
    requires t.Node? && Follows(p, key) && (if s.Left? then key < t.key else key > t.key)
    requires AllBelow(Before(p) + InOrder(t.left), t.key) && AllAbove(t.key, InOrder(t.right) + After(p))
    ensures Follows(Below(p, t, s), key)
  {
    if s.Left? {
      AboveFront(key, t.key, t.value, InOrder(t.right) + After(p));
      assert After(Below(p, t, s)) == [(t.key, t.value)] + (InOrder(t.right) + After(p));
    } else {
      BelowBack(Before(p) + InOrder(t.left), t.key, t.value, key);
    }
  }

  lemma FlatAt(p: Path, t: Tree)
    requires t.Node?
    ensures Flat(p, t) == (Before(p) + InOrder(t.left)) + [(t.key, t.value)] + (InOrder(t.right) + After(p))
  {
  }

  /** Where the search ends at a null pointer the key is absent, and this is where it belongs. */
  lemma AbsentAt(p: Path, key: int, value: Ptr)
    requires Follows(p, key) && Sorted(Flat(p, Leaf))
    ensures key !in ToMap(Flat(p, Leaf))
    ensures var s := Before(p) + [(key, value)] + After(p);
      Sorted(s) && ToMap(s) == ToMap(Flat(p, Leaf))[key := value]
  {
    assert Flat(p, Leaf) == Before(p) + After(p);
    SortedSplit(Before(p), (key, value), After(p));
    MapSplit(Before(p), (key, value), After(p));
  }

  lemma FoundAt(p: Path, t: Tree, value: Ptr)
    requires t.Node? && Sorted(Flat(p, t))
    ensures t.key in ToMap(Flat(p, t)) && ToMap(Flat(p, t))[t.key] == t.value
    ensures var u := t.(value := value);
      Sorted(Flat(p, u)) && ToMap(Flat(p, u)) == ToMap(Flat(p, t))[t.key := value]
      && |Flat(p, u)| == |Flat(p, t)|
  {
    var a, b := Before(p) + InOrder(t.left), InOrder(t.right) + After(p);
    FlatAt(p, t);
    FlatAt(p, t.(value := value));
    SortedSplit(a, (t.key, t.value), b);
    SortedSplit(a, (t.key, value), b);
    MapSplit(a, (t.key, t.value), b);
    MapSplit(a, (t.key, value), b);
  }

  // ------------------------------------------------------------ removal

  /** r is s without one pair, whose key is x.0. */
  lemma RemovePair(a: Pairs, x: (int, Ptr), b: Pairs)
    requires Sorted(a + [x] + b)
    ensures Sorted(a + b) && |a + b| == |a + [x] + b| - 1
    ensures x.0 in ToMap(a + [x] + b) && ToMap(a + [x] + b)[x.0] == x.1
    ensures ToMap(a + b) == ToMap(a + [x] + b) - {x.0}
  {
    SortedSplit(a, x, b);
    MapSplit(a, x, b);
  }

  /** r holds the pairs of s except the one at key. */
  ghost predicate Without(r: Pairs, s: Pairs, key: int) {
    && Sorted(r) && |r| == |s| - 1
    && key in ToMap(s) && ToMap(r) == ToMap(s) - {key}
  }

  lemma TakeOutFlat(p: Path, t: Tree)
    requires t.Node? && (t.left.Leaf? || t.right.Leaf?) && Sorted(Flat(p, t))
    ensures Without(Flat(p, Only(t)), Flat(p, t), t.key) && ToMap(Flat(p, t))[t.key] == t.value
  {
    FlatAt(p, t);
    var a, b := Before(p) + InOrder(t.left), InOrder(t.right) + After(p);
    RemovePair(a, (t.key, t.value), b);
    assert Flat(p, Only(t)) == a + b;
  }

  lemma LeftmostOrder(q: Path, u: Tree)
    requires u.Node? && u.left.Leaf? && LeftSpine(q)
    ensures InOrder(Plug(q, u)) == [(u.key, u.value)] + InOrder(Plug(q, Only(u)))
  {
    LeftSpineBefore(q);
    PlugInOrder(q, u);
    PlugInOrder(q, Only(u));
    assert InOrder(u) == [(u.key, u.value)] + InOrder(Only(u));
  }

  lemma SwapPair(s: Pairs, a: Pairs, x: (int, Ptr), b: Pairs, r: Pairs, y: (int, Ptr), c: Pairs)
    requires s == a + [x] + b && b == [y] + c && r == a + [y] + c && Sorted(s)
    ensures Without(r, s, x.0) && ToMap(s)[x.0] == x.1
  {
    RemovePair(a, x, b);
    assert r == a + b;
  }

  /** t keeps its place, and takes the pair of the leftmost node u on its right. */
  lemma TakeSuccessorFlat(p: Path, t: Tree, q: Path, u: Tree, t2: Tree)
    requires t.Node? && u.Node? && u.left.Leaf? && LeftSpine(q) && t.right == Plug(q, u) && Sorted(Flat(p, t))
    requires t2 == t.(key := u.key, value := u.value, right := Plug(q, Only(u)))
    ensures Without(Flat(p, t2), Flat(p, t), t.key) && ToMap(Flat(p, t))[t.key] == t.value
  {
    FlatAt(p, t);
    FlatAt(p, t2);
    LeftmostOrder(q, u);
    var a, b, c := Before(p) + InOrder(t.left), InOrder(t.right) + After(p), InOrder(t2.right) + After(p);
    assert b == [(u.key, u.value)] + c;
    assert t2.left == t.left;
    SwapPair(Flat(p, t), a, (t.key, t.value), b, Flat(p, t2), (u.key, u.value), c);
  }

  // ------------------------------------------------------------ height

  function Max(a: nat, b: nat): nat { if a < b then b else a }

  /** The longest path from the root to a null pointer: what one search may visit. */
  function Height(t: Tree): nat {
    if t.Leaf? then 0 else 1 + Max(Height(t.left), Height(t.right))
  }

  lemma {:induction false} SizeBound(t: Tree)
    requires Balanced(t)
    ensures Pow2(BlackHeight(t)) <= |InOrder(t)| + 1
  {
    if t.Node? {
      SizeBound(t.left);
      SizeBound(t.right);
    }
  }

  lemma {:induction false} BlackHeightBound(t: Tree)
    requires NoRedRed(t) && Balanced(t)
    ensures Height(t) <= 2 * BlackHeight(t) + 1 - (if IsBlack(t) then 1 else 0)
  {
    if t.Node? {
      BlackHeightBound(t.left);
      BlackHeightBound(t.right);
    }
  }

  lemma {:induction false} Pow2Square(m: nat, n: nat)
    requires n <= 2 * m
    ensures Pow2(n) <= Pow2(m) * Pow2(m)
    decreases m
  {
    if m > 0 {
      Pow2Square(m - 1, if n >= 2 then n - 2 else 0);
      assert n >= 2 ==> Pow2(n) == 2 * Pow2(n - 1) && Pow2(n - 1) == 2 * Pow2(n - 2);
      var h := Pow2(m - 1);
      assert Pow2(m) * Pow2(m) == 4 * (h * h);
    }
  }

  lemma SquareMonotone(a: nat, b: nat)
    requires a <= b
    ensures a * a <= b * b
  {
  }

  /** Height at most 2 * log2(n + 1). */
  predicate Logarithmic(height: nat, n: nat) { Pow2(height) <= (n + 1) * (n + 1) }

  /** A legal tree of n pairs has height at most 2 * log2(n + 1). */
  lemma HeightBound(t: Tree)
    requires Legal(t)
    ensures Pow2(BlackHeight(t)) <= |InOrder(t)| + 1
    ensures Logarithmic(Height(t), |InOrder(t)|)
  {
    SizeBound(t);
    BlackHeightBound(t);
    Pow2Square(BlackHeight(t), Height(t));
    SquareMonotone(Pow2(BlackHeight(t)), |InOrder(t)| + 1);
  }
}
