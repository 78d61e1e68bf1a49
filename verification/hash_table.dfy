/** The chained hash table (infra_hash_*), for any hash function and any positive capacity. */
module HashTables {
  import opened InfraTypes

  /** Plain char is signed. */
  type Char = c: int | -128 <= c < 128 && c != 0 witness 1

  /** A C string: its characters before the terminator. */
  type CString = seq<Char>

  // ------------------------------------------------------------ hash_string

  /** The polynomial of the characters at 33, without wrap-around. */
  function Polynomial(s: CString): int {
    if s == [] then 5381 else 33 * Polynomial(s[..|s| - 1]) + s[|s| - 1]
  }

  function Pow33(n: nat): nat { if n == 0 then 1 else 33 * Pow33(n - 1) }

  /** The sum of the characters, each times 33 to the power of the number of characters behind it. */
  function Weighted(s: CString): int {
    if s == [] then 0 else s[0] * Pow33(|s| - 1) + Weighted(s[1..])
  }

  lemma {:induction false} WeightedLast(s: CString)
    requires s != []
    ensures Weighted(s) == 33 * Weighted(s[..|s| - 1]) + s[|s| - 1]
  {
    if |s| > 1 {
      WeightedLast(s[1..]);
      var t := s[..|s| - 1];
      assert s[1..][..|s| - 2] == t[1..];
      Factor(s[0], Pow33(|s| - 2));
    }
  }

  lemma Factor(c: int, p: int)
    ensures c * (33 * p) == 33 * (c * p)
  {
  }

  /** The hash from both ends: 5381 times a power of 33, and the weighted characters. */
  lemma {:induction false} PolynomialIs(s: CString)
    ensures Polynomial(s) == 5381 * Pow33(|s|) + Weighted(s)
  {
    if s != [] {
      PolynomialIs(s[..|s| - 1]);
      WeightedLast(s);
    }
  }

  lemma WrapStep(h: int, p: int, c: int)
    requires h == p % W64
    ensures ((h * 32) % W64 + h + c) % W64 == (33 * p + c) % W64
  {
    var q := p / W64;
    assert 33 * p + c == 33 * h + c + W64 * (33 * q);
    var k := (h * 32) / W64;
    assert (h * 32) % W64 + h + c == 33 * h + c - W64 * k;
    ShiftWords(33 * h + c, 33 * q);
    ShiftWords(33 * h + c, -k);
  }

  /** The hash of a string, as a hash function for the table. */
  function StringHash(str: CString): nat { Polynomial(str) % W64 }

  /** Wrapping in every round gives what wrapping once at the end would. */
  method HashString(str: CString) returns (hash: nat)
    ensures hash == StringHash(str) == (5381 * Pow33(|str|) + Weighted(str)) % W64
  {
    hash := 5381;
    var i := 0;
    while i < |str|
      invariant i <= |str| && hash == Polynomial(str[..i]) % W64
    {
      assert str[..i + 1][..i] == str[..i];
      WrapStep(hash, Polynomial(str[..i]), str[i]);
      hash := ((hash * 32) % W64 + hash + str[i]) % W64;
      i := i + 1;
    }
    assert str[..|str|] == str;
    PolynomialIs(str);
  }

  // ------------------------------------------------------------ the table

  class HashNode<K> {
    const key: K
    var value: Ptr
    var next: HashNode?<K>

    constructor (key: K, value: Ptr, next: HashNode?<K>)
      ensures this.key == key && this.value == value && this.next == next
    {
      this.key, this.value, this.next := key, value, next;
    }
  }

  /** The nodes are the chain that starts at head. */
  ghost predicate Linked<K>(head: HashNode?<K>, nodes: seq<HashNode<K>>)
    reads nodes`next
  {
    && head == (if nodes == [] then null else nodes[0])
    && forall i {:trigger nodes[i].next} :: 0 <= i < |nodes| ==>
         nodes[i].next == if i + 1 < |nodes| then nodes[i + 1] else null
  }

  /** The bucket of a key. */
  function Home<K>(hasher: K -> nat, capacity: nat, key: K): nat
    requires capacity > 0
  {
    hasher(key) % capacity
  }

  /** The nodes of each bucket in order, the node of each key, and all nodes. */
  datatype Layout<K> = Layout(chains: seq<seq<HashNode<K>>>, where: map<K, HashNode<K>>, repr: set<HashNode<K>>)

  /** A node of bucket b is there once, is the only node of its key, and its key belongs to b. */
  ghost predicate Owns<K>(hasher: K -> nat, capacity: nat, l: Layout<K>, b: nat)
    requires b < |l.chains| == capacity
  {
    var nodes := l.chains[b];
    && (forall i, j :: 0 <= i < j < |nodes| ==> nodes[i] != nodes[j])
    && forall n :: n in nodes ==>
         hasher(n.key) % capacity == b && n.key in l.where && l.where[n.key] == n && n in l.repr
  }

  /** The node of key k is in the bucket of the key. */
  ghost predicate Placed<K>(hasher: K -> nat, capacity: nat, l: Layout<K>, n: HashNode<K>, k: K)
    requires |l.chains| == capacity > 0
  {
    n.key == k && n in l.chains[Home(hasher, capacity, k)]
  }

  /** Each key of the map has one node, in its own bucket, and there are no other nodes. */
  ghost predicate Shape<K>(hasher: K -> nat, capacity: nat, l: Layout<K>) {
    match l
    case Layout(chains, where, _) =>
      && |chains| == capacity > 0
      && (forall b :: 0 <= b < capacity ==> Owns(hasher, capacity, l, b))
      && forall k :: k in where ==> Placed(hasher, capacity, l, where[k], k)
  }

  /** The layout with a new node in front of bucket b. */
  ghost function Pushed<K>(l: Layout<K>, b: nat, n: HashNode<K>): Layout<K>
    requires b < |l.chains|
  {
    Layout(l.chains[b := [n] + l.chains[b]], l.where[n.key := n], l.repr + {n})
  }

  /** The chains of l with the new node of key in front of the bucket where its hash puts it. */
  ghost predicate InFront<K>(l: Layout<K>, before: Layout<K>, hasher: K -> nat, key: K) {
    && key in l.where && l.chains != [] && hasher(key) % |l.chains| < |before.chains|
    && var b := hasher(key) % |l.chains|;
       l.chains == before.chains[b := [l.where[key]] + before.chains[b]]
  }

  /** The layout without the node at position at of bucket b. */
  ghost function Cut<K>(l: Layout<K>, b: nat, at: nat): Layout<K>
    requires b < |l.chains| && at < |l.chains[b]|
  {
    var nodes := l.chains[b];
    Layout(l.chains[b := nodes[..at] + nodes[at + 1..]], l.where - {nodes[at].key}, l.repr - {nodes[at]})
  }

  lemma ShapePush<K>(hasher: K -> nat, capacity: nat, l: Layout<K>, b: nat, n: HashNode<K>)
    requires Shape(hasher, capacity, l) && n.key !in l.where && b == Home(hasher, capacity, n.key) && b < capacity
    ensures Shape(hasher, capacity, Pushed(l, b, n))
  {
    var more := Pushed(l, b, n);
    assert Owns(hasher, capacity, l, b);
    forall k | k in more.where
      ensures Placed(hasher, capacity, more, more.where[k], k)
    {
      assert k != n.key ==> Placed(hasher, capacity, l, l.where[k], k);
    }
    forall c | 0 <= c < capacity
      ensures Owns(hasher, capacity, more, c)
    {
      assert Owns(hasher, capacity, l, c);
    }
  }

  lemma ShapeCut<K>(hasher: K -> nat, capacity: nat, l: Layout<K>, b: nat, at: nat)
    requires Shape(hasher, capacity, l) && b < capacity && at < |l.chains[b]|
    ensures Shape(hasher, capacity, Cut(l, b, at))
  {
    var n, less := l.chains[b][at], Cut(l, b, at);
    assert Owns(hasher, capacity, l, b) && n in l.chains[b];
    forall c | 0 <= c < capacity
      ensures Owns(hasher, capacity, less, c)
    {
      assert Owns(hasher, capacity, l, c);
    }
    forall k | k in less.where
      ensures Placed(hasher, capacity, less, less.where[k], k)
    {
      assert Placed(hasher, capacity, l, l.where[k], k);
    }
  }

  /** Every bucket heads its chain. */
  ghost predicate AllLinked<K>(buckets: array<HashNode?<K>>, l: Layout<K>)
    reads buckets, l.repr`next
  {
    match l
    case Layout(chains, _, repr) =>
      && |chains| == buckets.Length
      && forall b :: 0 <= b < |chains| ==> InUse(chains[b], repr) && Linked(buckets[b], chains[b])
  }

  ghost predicate InUse<K>(nodes: seq<HashNode<K>>, repr: set<HashNode<K>>) {
    forall n :: n in nodes ==> n in repr
  }

  lemma OwnedInUse<K>(hasher: K -> nat, capacity: nat, l: Layout<K>, b: nat)
    requires Shape(hasher, capacity, l) && b < capacity
    ensures InUse(l.chains[b], l.repr)
  {
    assert Owns(hasher, capacity, l, b);
  }

  /** The nodes of the keys hold their values. */
  ghost predicate Agrees<K>(l: Layout<K>, contents: map<K, Ptr>)
    reads l.repr`value
  {
    match l
    case Layout(_, where, repr) =>
      && where.Keys == contents.Keys
      && forall k :: k in where ==> where[k] in repr && where[k].value == contents[k]
  }

  lemma AgreesPush<K>(l: Layout<K>, contents: map<K, Ptr>, b: nat, n: HashNode<K>)
    requires b < |l.chains| && Agrees(l, contents) && n.key !in contents
    ensures Agrees(Pushed(l, b, n), contents[n.key := n.value])
  {}

  lemma AgreesCut<K>(hasher: K -> nat, capacity: nat, l: Layout<K>, contents: map<K, Ptr>, b: nat, at: nat)
    requires Shape(hasher, capacity, l) && b < capacity && at < |l.chains[b]| && Agrees(l, contents)
    ensures Agrees(Cut(l, b, at), contents - {l.chains[b][at].key})
  {
    var n, less := l.chains[b][at], Cut(l, b, at);
    forall k | k in less.where
      ensures less.where[k] in less.repr
    {
      assert Placed(hasher, capacity, l, l.where[k], k);
    }
  }

  lemma AgreesOverwrite<K>(hasher: K -> nat, capacity: nat, l: Layout<K>, n: HashNode<K>)
    requires Shape(hasher, capacity, l)
    ensures forall k :: k in l.where && l.where[k] == n ==> k == n.key
  {
    forall k | k in l.where && l.where[k] == n
      ensures k == n.key
    {
      assert Placed(hasher, capacity, l, l.where[k], k);
    }
  }

  // ------------------------------------------------------------ all nodes in bucket order

  ghost predicate NoRepeats<T>(s: seq<T>) { forall i, j :: 0 <= i < j < |s| ==> s[i] != s[j] }

  lemma NoRepeatsJoin<T>(a: seq<T>, b: seq<T>)
    requires NoRepeats(a) && NoRepeats(b) && forall x :: x in a ==> x !in b
    ensures NoRepeats(a + b)
  {
    assert forall i :: 0 <= i < |a| ==> a[i] in a;
    assert forall j :: 0 <= j < |b| ==> b[j] in b;
  }

  /** The nodes of the map in the buckets before n, each exactly once. */
  ghost predicate Enumerates<K>(
      hasher: K -> nat, capacity: nat, n: nat, nodes: seq<HashNode<K>>, where: map<K, HashNode<K>>)
    requires capacity > 0
  {
    && NoRepeats(nodes)
    && (forall m :: m in nodes ==> m.key in where && where[m.key] == m && Home(hasher, capacity, m.key) < n)
    && forall k :: k in where && Home(hasher, capacity, k) < n ==> where[k] in nodes
  }

  lemma {:induction false} FlatOfBuckets<K>(hasher: K -> nat, capacity: nat, l: Layout<K>, n: nat)
    requires Shape(hasher, capacity, l) && n <= capacity
    ensures Enumerates(hasher, capacity, n, Flatten(l.chains[..n]), l.where)
    decreases n
  {
    if n > 0 {
      var before, last := Flatten(l.chains[..n - 1]), l.chains[n - 1];
      FlatOfBuckets(hasher, capacity, l, n - 1);
      assert l.chains[..n][..n - 1] == l.chains[..n - 1];
      assert Owns(hasher, capacity, l, n - 1);
      NoRepeatsJoin(before, last);
      forall k | k in l.where && Home(hasher, capacity, k) == n - 1
        ensures l.where[k] in last
      {
        assert Placed(hasher, capacity, l, l.where[k], k);
      }
    }
  }

  /** Walking every bucket meets each node of the table exactly once, and no other. */
  lemma EachNodeOnce<K>(hasher: K -> nat, capacity: nat, l: Layout<K>)
    requires Shape(hasher, capacity, l)
    ensures NoRepeats(Flatten(l.chains)) && SameNodes(Flatten(l.chains), l.where)
  {
    FlatOfBuckets(hasher, capacity, l, capacity);
    assert l.chains[..capacity] == l.chains;
    forall k | k in l.where
      ensures l.where[k] in Flatten(l.chains)
    {
      assert Home(hasher, capacity, k) < capacity;
    }
  }

  ghost predicate SameNodes<K>(nodes: seq<HashNode<K>>, where: map<K, HashNode<K>>) {
    && (forall m :: m in nodes ==> m.key in where && where[m.key] == m)
    && forall k :: k in where ==> where[k] in nodes
  }

  lemma MapLess<K>(m: map<K, Ptr>, key: K)
    requires key in m
    ensures |m - {key}| == |m| - 1
  {
    assert (m - {key}).Keys == m.Keys - {key};
  }

  class HashTable<K(==)> {
    const hasher: K -> nat
    const buckets: array<HashNode?<K>>
    var size: nat
    ghost var layout: Layout<K>
    ghost var contents: map<K, Ptr>

    /** The buckets stand for the map m, laid out as l says. */
    ghost predicate Holds(l: Layout<K>, m: map<K, Ptr>)
      reads buckets, l.repr
    {
      Shape(hasher, buckets.Length, l) && AllLinked(buckets, l) && Agrees(l, m)
    }

    ghost predicate Valid()
      reads this, buckets, layout.repr
    {
      Holds(layout, contents) && size == |contents|
    }

    /** infra_hash_create, when both allocations succeed. */
    constructor (capacity: nat, hasher: K -> nat)
      requires capacity > 0
      ensures Valid() && fresh(buckets) && buckets.Length == capacity && this.hasher == hasher
      ensures contents == map[] && layout.repr == {}
    {
      this.hasher := hasher;
      buckets := new HashNode?<K>[capacity](_ => null);
      size, layout, contents := 0, Layout(seq(capacity, _ => []), map[], {}), map[];
    }

    /** The entry is at position at of the bucket of the key, prev before it. */
    ghost predicate Found(key: K, prev: HashNode?<K>, entry: HashNode?<K>, at: nat)
      requires |layout.chains| == buckets.Length > 0
      reads this
    {
      var nodes := layout.chains[Home(hasher, buckets.Length, key)];
      && at <= |nodes|
      && entry == (if at < |nodes| then nodes[at] else null)
      && prev == (if at == 0 then null else nodes[at - 1])
      && entry == if key in layout.where then layout.where[key] else null
    }

    /** The walk down the bucket of a key that put, get and remove begin with. */
    method Locate(key: K) returns (prev: HashNode?<K>, entry: HashNode?<K>, ghost at: nat)
      requires Valid()
      ensures |layout.chains| == buckets.Length > 0 && Found(key, prev, entry, at)
    {
      var index := Home(hasher, buckets.Length, key);
      ghost var nodes := layout.chains[index];
      assert Linked(buckets[index], nodes) && Owns(hasher, buckets.Length, layout, index);
      prev, entry, at := null, buckets[index], 0;
      while entry != null && entry.key != key
        invariant at <= |nodes|
        invariant entry == if at < |nodes| then nodes[at] else null
        invariant prev == if at == 0 then null else nodes[at - 1]
        invariant forall i :: 0 <= i < at ==> nodes[i].key != key
        decreases |nodes| - at
      {
        prev, entry, at := entry, entry.next, at + 1;
      }
      if key in layout.where {
        assert Placed(hasher, buckets.Length, layout, layout.where[key], key);
      }
    }

    method Get(key: K) returns (value: Ptr)
      requires Valid()
      ensures value == if key in contents then contents[key] else NULL
    {
      var prev, entry, at := Locate(key);
      if entry == null {
        return NULL;
      }
      return entry.value;
    }

    method Overwrite(entry: HashNode<K>, value: Ptr)
      requires Valid() && entry.key in layout.where && layout.where[entry.key] == entry
      modifies this`contents, entry`value
      ensures Valid() && contents == old(contents)[entry.key := value]
    {
      entry.value := value;
      contents := contents[entry.key := value];
      AgreesOverwrite(hasher, buckets.Length, layout, entry);
    }

    /** Puts a new entry in front of its chain. */
    method PushFront(index: nat, entry: HashNode<K>, ghost l: Layout<K>)
      requires AllLinked(buckets, l) && index < |l.chains| && entry.next == buckets[index]
      modifies buckets
      ensures AllLinked(buckets, Pushed(l, index, entry))
    {
      assert Linked(buckets[index], l.chains[index]);
      buckets[index] := entry;
      ghost var more := Pushed(l, index, entry);
      forall b | 0 <= b < |more.chains|
        ensures InUse(more.chains[b], more.repr) && Linked(buckets[b], more.chains[b])
      {
        assert InUse(l.chains[b], l.repr) && old(Linked(buckets[b], l.chains[b]));
      }
    }

    /** Takes the entry out of its chain. */
    method Bypass(index: nat, prev: HashNode?<K>, entry: HashNode<K>, ghost l: Layout<K>, ghost at: nat)
      requires Shape(hasher, buckets.Length, l) && AllLinked(buckets, l)
      requires index < |l.chains| && at < |l.chains[index]| && entry == l.chains[index][at]
      requires prev == if at == 0 then null else l.chains[index][at - 1]
      modifies buckets, l.repr`next
      ensures AllLinked(buckets, Cut(l, index, at))
    {
      assert Linked(buckets[index], l.chains[index]) && Owns(hasher, buckets.Length, l, index);
      if prev == null {
        buckets[index] := entry.next;
      } else {
        assert prev in l.chains[index];
        prev.next := entry.next;
      }
      ghost var less := Cut(l, index, at);
      ShapeCut(hasher, buckets.Length, l, index, at);
      forall b | 0 <= b < |l.chains|
        ensures InUse(less.chains[b], less.repr) && Linked(buckets[b], less.chains[b])
      {
        OwnedInUse(hasher, buckets.Length, less, b);
        assert old(Linked(buckets[b], l.chains[b])) && Owns(hasher, buckets.Length, l, b);
        assert forall i :: 0 <= i < |l.chains[b]| ==> l.chains[b][i] in l.chains[b];
      }
    }

    method Settle(n: nat, ghost l: Layout<K>, ghost m: map<K, Ptr>)
      requires Holds(l, m) && n == |m|
      modifies this`size, this`layout, this`contents
      ensures Valid() && layout == l && contents == m
    {
      size, layout, contents := n, l, m;
    }

    method Prepend(key: K, value: Ptr, ghost l: Layout<K>, ghost m: map<K, Ptr>) returns (ghost more: Layout<K>)
      requires Holds(l, m) && key !in m
      modifies buckets
      ensures Holds(more, m[key := value]) && fresh(more.repr - l.repr) && InFront(more, l, hasher, key)
    {
      var index := Home(hasher, buckets.Length, key);
      var entry := new HashNode(key, value, buckets[index]);
      more := Pushed(l, index, entry);
      AgreesPush(l, m, index, entry);
      ShapePush(hasher, buckets.Length, l, index, entry);
      PushFront(index, entry, l);
    }

    method Unlink(index: nat, prev: HashNode?<K>, entry: HashNode<K>, ghost at: nat,
        ghost l: Layout<K>, ghost m: map<K, Ptr>)
      returns (ghost less: Layout<K>)
      requires Holds(l, m) && index < |l.chains| && at < |l.chains[index]| && entry == l.chains[index][at]
      requires prev == if at == 0 then null else l.chains[index][at - 1]
      modifies buckets, l.repr`next
      ensures Holds(less, m - {entry.key}) && less.repr == l.repr - {entry}
    {
      less := Cut(l, index, at);
      ShapeCut(hasher, buckets.Length, l, index, at);
      AgreesCut(hasher, buckets.Length, l, m, index, at);
      Bypass(index, prev, entry, l, at);
    }

    method Add(key: K, value: Ptr)
      requires Valid() && key !in contents
      modifies this`size, this`layout, this`contents, buckets
      ensures Valid() && contents == old(contents)[key := value] && fresh(layout.repr - old(layout.repr))
      ensures InFront(layout, old(layout), hasher, key)
    {
      ghost var m := contents;
      ghost var more := Prepend(key, value, layout, m);
      Settle(size + 1, more, m[key := value]);
    }

    method Delete(index: nat, prev: HashNode?<K>, entry: HashNode<K>, ghost at: nat)
      requires Valid() && index < |layout.chains| && at < |layout.chains[index]| && entry == layout.chains[index][at]
      requires prev == (if at == 0 then null else layout.chains[index][at - 1]) && entry.key in contents
      modifies this`size, this`layout, this`contents, buckets, layout.repr`next
      ensures Valid() && contents == old(contents) - {entry.key} && layout.repr == old(layout.repr) - {entry}
    {
      ghost var m := contents;
      MapLess(m, entry.key);
      ghost var less := Unlink(index, prev, entry, at, layout, m);
      Settle(size - 1, less, m - {entry.key});
    }

    /** gotNode and gotKey are the outcomes of the two allocations of a new entry. */
    method Put(key: K, value: Ptr, gotNode: bool, gotKey: bool) returns (status: Status)
      requires Valid()
      modifies this`size, this`layout, this`contents, buckets, layout.repr`value
      ensures Valid()
      ensures status == if key in old(contents) || (gotNode && gotKey) then OK else NO_MEMORY
      ensures contents == if status == OK then old(contents)[key := value] else old(contents)
      ensures if status == OK && key !in old(contents) then InFront(layout, old(layout), hasher, key)
              else layout == old(layout)
      ensures forall n :: n in layout.repr ==> n in old(layout.repr) || fresh(n)
    {
      var prev, entry, at := Locate(key);
      status := OK;
      if entry != null {
        Overwrite(entry, value);
      } else if !gotNode || !gotKey {
        status := NO_MEMORY;
      } else {
        Add(key, value);
      }
    }

    method Remove(key: K) returns (value: Ptr)
      requires Valid()
      modifies this`size, this`layout, this`contents, buckets, layout.repr`next
      ensures Valid()
      ensures value == if key in old(contents) then old(contents)[key] else NULL
      ensures contents == old(contents) - {key}
      ensures layout.repr == old(layout.repr) - if key in old(contents) then {old(layout.where)[key]} else {}
    {
      var prev, entry, at := Locate(key);
      value := NULL;
      if entry != null {
        value := entry.value;
        Delete(Home(hasher, buckets.Length, key), prev, entry, at);
      }
    }

    /** Frees bucket i, node by node. */
    method FreeBucket(i: nat, ghost chain: seq<HashNode<K>>) returns (ghost freed: seq<HashNode<K>>)
      requires i < buckets.Length && Linked(buckets[i], chain)
      modifies buckets
      ensures freed == chain && buckets[i] == null
      ensures forall b :: 0 <= b < buckets.Length && b != i ==> buckets[b] == old(buckets[b])
    {
      freed := [];
      var entry := buckets[i];
      while entry != null
        invariant |freed| <= |chain| && freed == chain[..|freed|]
        invariant entry == if |freed| < |chain| then chain[|freed|] else null
        decreases |chain| - |freed|
      {
        var next := entry.next;
        freed := freed + [entry];
        entry := next;
      }
      buckets[i] := null;
    }

    method FreeBuckets(ghost l: Layout<K>) returns (ghost freed: seq<HashNode<K>>)
      requires AllLinked(buckets, l)
      modifies buckets
      ensures freed == Flatten(l.chains) && forall b :: 0 <= b < buckets.Length ==> buckets[b] == null
    {
      freed := [];
      var i := 0;
      while i < buckets.Length
        invariant i <= buckets.Length && freed == Flatten(l.chains[..i])
        invariant forall b :: 0 <= b < i ==> buckets[b] == null
        invariant forall b :: i <= b < buckets.Length ==> Linked(buckets[b], l.chains[b])
      {
        ghost var more := FreeBucket(i, l.chains[i]);
        assert l.chains[..i + 1][..i] == l.chains[..i];
        freed := freed + more;
        i := i + 1;
      }
      assert l.chains[..i] == l.chains;
    }

    lemma EmptyHolds()
      requires buckets.Length > 0 && forall b :: 0 <= b < buckets.Length ==> buckets[b] == null
      ensures Holds(Layout(seq(buckets.Length, _ => []), map[], {}), map[])
    {}

    /** Frees every node, each exactly once. */
    method Clear() returns (ghost freed: seq<HashNode<K>>)
      requires Valid()
      modifies this`size, this`layout, this`contents, buckets
      ensures Valid() && contents == map[] && layout.repr == {}
      ensures NoRepeats(freed) && SameNodes(freed, old(layout.where))
    {
      EachNodeOnce(hasher, buckets.Length, layout);
      freed := FreeBuckets(layout);
      EmptyHolds();
      Settle(0, Layout(seq(buckets.Length, _ => []), map[], {}), map[]);
    }
  }

  /** The bytes of the bucket array, in size_t arithmetic, are those of all its pointers if and only if
      the capacity is below 2^61. */
  lemma BucketBytes(capacity: nat)
    requires capacity < W64
    ensures 8 * capacity % W64 == 8 * capacity <==> capacity < 0x2000_0000_0000_0000
  {
  }

  /** infra_hash_create: gotTable and gotBuckets are the outcomes of its two allocations, the second
      with room for all buckets. */
  method Create<K(==)>(capacity: nat, hasher: K -> nat, gotTable: bool, gotBuckets: bool)
    returns (status: Status, table: HashTable?<K>)
    requires gotBuckets ==> 8 * capacity < W64
    ensures status == if capacity == 0 then INVALID_PARAM else if gotTable && gotBuckets then OK else NO_MEMORY
    ensures (status == OK) == (table != null)
    ensures table != null ==> fresh(table) && fresh(table.buckets) && table.Valid() && table.layout.repr == {}
    ensures table != null ==> table.contents == map[] && table.hasher == hasher && table.buckets.Length == capacity
  {
    if capacity == 0 {
      return INVALID_PARAM, null;
    }
    if !gotTable || !gotBuckets {
      return NO_MEMORY, null;
    }
    table := new HashTable(capacity, hasher);
    status := OK;
  }

  /** The bucket of a string, as put, get and remove compute it: the table of the library is a table of
      strings with this hash function. */
  method IndexOf(table: HashTable<CString>, key: CString) returns (index: nat)
    requires table.Valid() && table.hasher == StringHash
    ensures index == Polynomial(key) % 0x1_0000_0000_0000_0000 % table.buckets.Length
    ensures index < |table.layout.chains| == table.buckets.Length
    ensures key in table.layout.where <==> exists i :: 0 <= i < |table.layout.chains[index]|
                                                    && table.layout.chains[index][i].key == key
  {
    var hash := HashString(key);
    index := hash % table.buckets.Length;
    var c := table.buckets.Length;
    assert Owns(table.hasher, c, table.layout, index);
    if key in table.layout.where {
      assert Placed(table.hasher, c, table.layout, table.layout.where[key], key);
    }
  }

  // ------------------------------------------------------------ runs

  datatype Op<K> = Put(key: K, value: Ptr, gotNode: bool, gotKey: bool) | Get(key: K) | Remove(key: K) | Clear

  /** The plain map after one operation: a put that needs memory it does not get changes nothing. */
  function Apply<K>(m: map<K, Ptr>, op: Op<K>): map<K, Ptr> {
    match op
    case Put(k, v, gotNode, gotKey) => if k in m || (gotNode && gotKey) then m[k := v] else m
    case Get(_) => m
    case Remove(k) => m - {k}
    case Clear => map[]
  }

  /** The operation can change what the key is mapped to. */
  predicate Touches<K(==)>(op: Op<K>, key: K) {
    op.Clear? || ((op.Put? || op.Remove?) && op.key == key)
  }

  /** What a run leaves at a key: the value of the last put of it, while nothing has touched the key since. */
  lemma {:induction false} LastPutStays<K>(ops: seq<Op<K>>, i: nat)
    requires i < |ops| && ops[i].Put? && ops[i].gotNode && ops[i].gotKey
    requires forall j :: i < j < |ops| ==> !Touches(ops[j], ops[i].key)
    ensures ops[i].key in Replay(map[], Apply, ops) && Replay(map[], Apply, ops)[ops[i].key] == ops[i].value
    decreases |ops|
  {
    if i < |ops| - 1 {
      LastPutStays(ops[..|ops| - 1], i);
    }
  }

  /** And nothing, when the last such operation took the key out or there was none. */
  lemma {:induction false} TakenOutStaysOut<K>(ops: seq<Op<K>>, i: nat, key: K)
    requires i <= |ops| && (i == 0 || ops[i - 1].Clear? || ops[i - 1] == Op<K>.Remove(key))
    requires forall j :: i <= j < |ops| ==> !Touches(ops[j], key)
    ensures key !in Replay(map[], Apply, ops)
    decreases |ops|
  {
    if i < |ops| {
      TakenOutStaysOut(ops[..|ops| - 1], i, key);
    }
  }

  /** What one operation returns on a table that stands for m. */
  function Answer<K>(m: map<K, Ptr>, op: Op<K>): Ptr {
    if (op.Get? || op.Remove?) && op.key in m then m[op.key] else NULL
  }

  method Perform<K(==)>(table: HashTable<K>, op: Op<K>) returns (r: Ptr)
    requires table.Valid()
    modifies table, table.buckets, table.layout.repr
    ensures table.Valid() && table.contents == Apply(old(table.contents), op) && r == Answer(old(table.contents), op)
    ensures forall n :: n in table.layout.repr ==> n in old(table.layout.repr) || fresh(n)
  {
    r := NULL;
    if op.Get? {
      r := table.Get(op.key);
    } else if op.Remove? {
      r := table.Remove(op.key);
    } else if op.Clear? {
      ghost var freed := table.Clear();
    } else {
      var status := table.Put(op.key, op.value, op.gotNode, op.gotKey);
    }
  }

  /** Every run from an empty table answers as the plain map does, for any hash function. */
  method Run<K(==)>(capacity: nat, hasher: K -> nat, ops: seq<Op<K>>) returns (table: HashTable<K>, answers: seq<Ptr>)
    requires capacity > 0
    ensures fresh(table) && table.Valid()
    ensures table.contents == Replay(map[], Apply, ops) && table.size == |Replay(map[], Apply, ops)|
    ensures answers == Answers(map[], Apply, Answer, ops)
  {
    table := new HashTable(capacity, hasher);
    answers := [];
    for i := 0 to |ops|
      invariant fresh(table) && fresh(table.buckets) && fresh(table.layout.repr) && table.Valid()
      invariant table.contents == Replay(map[], Apply, ops[..i]) && answers == Answers(map[], Apply, Answer, ops[..i])
    {
      ReplayStep(map[], Apply, Answer, ops, i);
      var r := Perform(table, ops[i]);
      assert forall n :: n in table.layout.repr ==> fresh(n);
      answers := answers + [r];
    }
    assert ops[..|ops|] == ops;
  }
}
