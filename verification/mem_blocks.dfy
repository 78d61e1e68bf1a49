/**
  The block list of the memory pool (infra_memory.c) as a sequence in address order: best-fit
  search, carving, release and coalescing, with what each keeps.
 */
module MemBlocks {
  import opened InfraTypes

  /** sizeof(memory_block_t) */
  const HEADER: nat := 32

  datatype Block = Free(addr: nat, size: nat) | Used(addr: nat, size: nat, original: nat)

  function End(b: Block): nat { b.addr + HEADER + b.size }

  /** What malloc returns for a block: the address behind its header. */
  function Pointer(b: Block): nat { b.addr + HEADER }

  /** Headers and payloads fill [base, end) without gap or overlap. */
  ghost predicate Tiles(bs: seq<Block>, base: nat, end: nat) {
    && bs != [] && bs[0].addr == base && End(bs[|bs| - 1]) == end
    && forall i {:trigger End(bs[i])} :: 0 <= i < |bs| - 1 ==> End(bs[i]) == bs[i + 1].addr
  }

  /** No two neighbours are both free. */
  ghost predicate Coalesced(bs: seq<Block>) {
    forall i {:trigger bs[i].Free?} :: 0 <= i < |bs| - 1 && bs[i].Free? ==> bs[i + 1].Used?
  }

  lemma {:induction false} TilesClimb(bs: seq<Block>, base: nat, end: nat, i: nat, j: nat)
    requires Tiles(bs, base, end) && i < j < |bs|
    ensures End(bs[i]) <= bs[j].addr
    decreases j - i
  {
    if i + 1 < j {
      TilesClimb(bs, base, end, i + 1, j);
    }
    assert End(bs[i]) == bs[i + 1].addr;
  }

  lemma TilesBounds(bs: seq<Block>, base: nat, end: nat, i: nat)
    requires Tiles(bs, base, end) && i < |bs|
    ensures base <= bs[i].addr < End(bs[i]) <= end
  {
    if i > 0 {
      TilesClimb(bs, base, end, 0, i);
    }
    if i < |bs| - 1 {
      TilesClimb(bs, base, end, i, |bs| - 1);
    }
  }

  /** Live payloads overlap neither another payload nor any header. */
  lemma PayloadsDisjoint(bs: seq<Block>, base: nat, end: nat, i: nat, j: nat)
    requires Tiles(bs, base, end) && i < |bs| && j < |bs| && i != j
    ensures End(bs[i]) <= bs[j].addr || End(bs[j]) <= bs[i].addr
    ensures base <= bs[i].addr < Pointer(bs[i]) <= End(bs[i]) <= end
    ensures Pointer(bs[i]) != Pointer(bs[j])
  {
    TilesBounds(bs, base, end, i);
    if i < j {
      TilesClimb(bs, base, end, i, j);
    } else {
      TilesClimb(bs, base, end, j, i);
    }
  }

  function TotalSize(bs: seq<Block>): nat {
    if bs == [] then 0 else HEADER + bs[0].size + TotalSize(bs[1..])
  }

  lemma {:induction false} TilesTotal(bs: seq<Block>, base: nat, end: nat)
    requires Tiles(bs, base, end)
    ensures TotalSize(bs) == end - base && |bs| * HEADER <= end - base
  {
    var r := bs[1..];
    if r != [] {
      assert End(bs[0]) == bs[1].addr;
      forall i {:trigger End(r[i])} | 0 <= i < |r| - 1
        ensures End(r[i]) == r[i + 1].addr
      {
        assert End(bs[i + 1]) == bs[i + 2].addr;
      }
      TilesTotal(r, bs[1].addr, end);
    }
  }

  // ------------------------------------------------------------ search

  predicate Sufficient(b: Block, n: nat) { b.Free? && b.size >= n }

  /** The smallest sufficient free block, and the first of those. */
  function BestFit(bs: seq<Block>, n: nat): Option<nat> {
    if bs == [] then None
    else
      var k := |bs| - 1;
      match BestFit(bs[..k], n)
      case None => if Sufficient(bs[k], n) then Some(k) else None
      case Some(i) => if i < k && Sufficient(bs[k], n) && bs[k].size < bs[i].size then Some(k) else Some(i)
  }

  lemma {:induction false} BestFitIsBest(bs: seq<Block>, n: nat)
    ensures BestFit(bs, n).None? <==> forall j :: 0 <= j < |bs| ==> !Sufficient(bs[j], n)
    ensures BestFit(bs, n).Some? ==>
              var i := BestFit(bs, n).value;
              && i < |bs| && Sufficient(bs[i], n)
              && forall j :: 0 <= j < |bs| && Sufficient(bs[j], n) ==>
                   bs[i].size <= bs[j].size && (j < i ==> bs[i].size < bs[j].size)
  {
    if bs != [] {
      var k := |bs| - 1;
      BestFitIsBest(bs[..k], n);
      assert forall j :: 0 <= j < k ==> bs[..k][j] == bs[j];
      assert BestFit(bs, n).None? ==> !Sufficient(bs[k], n);
      assert Sufficient(bs[k], n) ==> BestFit(bs, n).Some?;
      if forall j :: 0 <= j < |bs| ==> !Sufficient(bs[j], n) {
        assert forall j :: 0 <= j < k ==> !Sufficient(bs[..k][j], n);
      }
    }
  }

  /** No used block lies in [lo, hi), neither its header nor its payload. */
  ghost predicate Untouched(bs: seq<Block>, lo: int, hi: int) {
    forall i {:trigger bs[i].Used?} :: 0 <= i < |bs| && bs[i].Used? ==> hi <= bs[i].addr || End(bs[i]) <= lo
  }

  lemma {:induction false} BlockAt(bs: seq<Block>, base: nat, end: nat, x: int) returns (i: nat)
    requires Tiles(bs, base, end) && base <= x < end
    ensures i < |bs| && bs[i].addr <= x < End(bs[i])
  {
    i := 0;
    while End(bs[i]) <= x
      invariant i < |bs| && bs[i].addr <= x
      decreases |bs| - i
    {
      i := i + 1;
    }
  }

  /** The search fails exactly when no stretch of unallocated bytes, however it is cut into
      blocks, has room for a header and n bytes. */
  lemma FailureIsExact(bs: seq<Block>, base: nat, end: nat, n: nat)
    requires Tiles(bs, base, end) && Coalesced(bs)
    ensures BestFit(bs, n).None? <==>
            forall lo, hi :: base <= lo <= hi <= end && Untouched(bs, lo, hi) ==> hi - lo < HEADER + n
  {
    BestFitIsBest(bs, n);
    if BestFit(bs, n).Some? {
      var i := BestFit(bs, n).value;
      FreeExtentUntouched(bs, base, end, i);
      assert Untouched(bs, bs[i].addr, End(bs[i]));
    } else {
      forall lo, hi | base <= lo <= hi <= end && Untouched(bs, lo, hi)
        ensures hi - lo < HEADER + n
      {
        if lo < hi {
          UntouchedInOneBlock(bs, base, end, lo, hi, n);
        }
      }
    }
  }

  lemma FreeExtentUntouched(bs: seq<Block>, base: nat, end: nat, i: nat)
    requires Tiles(bs, base, end) && i < |bs| && bs[i].Free?
    ensures Untouched(bs, bs[i].addr, End(bs[i])) && base <= bs[i].addr <= End(bs[i]) <= end
  {
    TilesBounds(bs, base, end, i);
    forall j | 0 <= j < |bs| && bs[j].Used?
      ensures End(bs[i]) <= bs[j].addr || End(bs[j]) <= bs[i].addr
    {
      PayloadsDisjoint(bs, base, end, i, j);
    }
  }

  lemma UntouchedInOneBlock(bs: seq<Block>, base: nat, end: nat, lo: int, hi: int, n: nat)
    requires Tiles(bs, base, end) && Coalesced(bs) && base <= lo < hi <= end && Untouched(bs, lo, hi)
    requires forall j :: 0 <= j < |bs| ==> !Sufficient(bs[j], n)
    ensures hi - lo < HEADER + n
  {
    var i := BlockAt(bs, base, end, lo);
    if i < |bs| - 1 && !bs[i].Used? {
      assert bs[i].Free? && bs[i + 1].Used?;
      assert End(bs[i]) == bs[i + 1].addr;
    }
    assert !bs[i].Used? && !Sufficient(bs[i], n);
  }

  // ------------------------------------------------------------ carving and releasing

  /** Block i is taken for `original` requested bytes, rounded to n; what is left becomes a free
      block of its own when it exceeds two headers. */
  function Carve(bs: seq<Block>, i: nat, n: nat, original: nat): seq<Block>
    requires i < |bs| && bs[i].size >= n
  {
    var b := bs[i];
    if b.size > n + HEADER + HEADER then
      bs[..i] + [Used(b.addr, n, original), Free(b.addr + HEADER + n, b.size - n - HEADER)] + bs[i + 1..]
    else
      bs[i := Used(b.addr, b.size, original)]
  }

  function MarkedFree(bs: seq<Block>, i: nat): seq<Block>
    requires i < |bs|
  {
    bs[i := Free(bs[i].addr, bs[i].size)]
  }

  function Merge(x: Block, y: Block): Block { Free(x.addr, x.size + (y.size + HEADER)) }

  function Push(b: Block, r: seq<Block>): seq<Block> {
    if b.Free? && r != [] && r[0].Free? then [Merge(b, r[0])] + r[1..] else [b] + r
  }

  /** Every run of neighbouring free blocks becomes one block. */
  function Coalesce(bs: seq<Block>): seq<Block> {
    if bs == [] then [] else Push(bs[0], Coalesce(bs[1..]))
  }

  lemma TilesReplace(bs: seq<Block>, base: nat, end: nat, i: nat, b: Block)
    requires Tiles(bs, base, end) && i < |bs| && b.addr == bs[i].addr && b.size == bs[i].size
    ensures Tiles(bs[i := b], base, end)
  {
    var r := bs[i := b];
    forall k {:trigger End(r[k])} | 0 <= k < |r| - 1
      ensures End(r[k]) == r[k + 1].addr
    {
      assert End(bs[k]) == bs[k + 1].addr;
    }
  }

  lemma TilesSplit(bs: seq<Block>, base: nat, end: nat, i: nat, x: Block, y: Block)
    requires Tiles(bs, base, end) && i < |bs|
    requires x.addr == bs[i].addr && End(x) == y.addr && End(y) == End(bs[i])
    ensures Tiles(bs[..i] + [x, y] + bs[i + 1..], base, end)
  {
    var r := bs[..i] + [x, y] + bs[i + 1..];
    forall k {:trigger End(r[k])} | 0 <= k < |r| - 1
      ensures End(r[k]) == r[k + 1].addr
    {
      if k < i {
        assert End(bs[k]) == bs[k + 1].addr;
      } else if k > i {
        assert r[k + 1] == bs[k];
        assert End(bs[k - 1]) == bs[k].addr;
      }
    }
  }

  lemma TilesJoin(bs: seq<Block>, base: nat, end: nat, i: nat)
    requires Tiles(bs, base, end) && i + 1 < |bs|
    ensures Tiles(bs[..i] + [Merge(bs[i], bs[i + 1])] + bs[i + 2..], base, end)
  {
    var m := Merge(bs[i], bs[i + 1]);
    var r := bs[..i] + [m] + bs[i + 2..];
    assert End(bs[i]) == bs[i + 1].addr && End(m) == End(bs[i + 1]);
    forall k {:trigger End(r[k])} | 0 <= k < |r| - 1
      ensures End(r[k]) == r[k + 1].addr
    {
      if k < i {
        assert End(bs[k]) == bs[k + 1].addr;
      } else {
        assert r[k + 1] == bs[k + 2];
        assert End(bs[k + 1]) == bs[k + 2].addr;
      }
    }
  }

  lemma {:induction false} CoalesceDone(bs: seq<Block>)
    requires Coalesced(bs)
    ensures Coalesce(bs) == bs
  {
    if bs != [] {
      var r := bs[1..];
      forall i {:trigger r[i].Free?} | 0 <= i < |r| - 1 && r[i].Free?
        ensures r[i + 1].Used?
      {
        assert bs[i + 1].Free?;
      }
      CoalesceDone(bs[1..]);
      assert |bs| > 1 && bs[0].Free? ==> bs[1].Used?;
      assert bs == [bs[0]] + bs[1..];
    }
  }

  lemma {:induction false} CoalesceResult(bs: seq<Block>)
    ensures Coalesced(Coalesce(bs)) && (bs != [] ==> Coalesce(bs) != [])
    ensures bs != [] ==> Coalesce(bs)[0].Free? == bs[0].Free? && Coalesce(bs)[0].addr == bs[0].addr
  {
    if bs != [] {
      var r := Coalesce(bs[1..]);
      CoalesceResult(bs[1..]);
      var c := Push(bs[0], r);
      forall i {:trigger c[i].Free?} | 0 <= i < |c| - 1 && c[i].Free?
        ensures c[i + 1].Used?
      {
        if bs[0].Free? && r != [] && r[0].Free? {
          assert r[i].Free? && c[i + 1] == r[i + 1];
        } else if i > 0 {
          assert r[i - 1].Free? && c[i + 1] == r[i];
        }
      }
    }
  }

  /** Merging one pair of free neighbours first makes no difference. */
  lemma {:induction false} CoalescePair(p: seq<Block>, x: Block, y: Block, q: seq<Block>)
    requires x.Free? && y.Free?
    ensures Coalesce(p + [x, y] + q) == Coalesce(p + [Merge(x, y)] + q)
  {
    if p == [] {
      var s, t := [x, y] + q, [Merge(x, y)] + q;
      assert p + [x, y] + q == s && p + [Merge(x, y)] + q == t;
      assert s[1..] == [y] + q && s[1..][1..] == q && t[1..] == q;
      var r := Coalesce(q);
      assert Coalesce(s) == Push(x, Push(y, r));
      assert Coalesce(t) == Push(Merge(x, y), r);
    } else {
      CoalescePair(p[1..], x, y, q);
      assert (p + [x, y] + q)[1..] == p[1..] + [x, y] + q;
      assert (p + [Merge(x, y)] + q)[1..] == p[1..] + [Merge(x, y)] + q;
    }
  }

  // ------------------------------------------------------------ accounting

  /** The sum of the requested sizes of the used blocks. */
  function InUse(bs: seq<Block>): nat {
    if bs == [] then 0
    else (if bs[0].Used? then bs[0].original else 0) + InUse(bs[1..])
  }

  lemma {:induction false} InUseConcat(a: seq<Block>, b: seq<Block>)
    ensures InUse(a + b) == InUse(a) + InUse(b)
  {
    if a == [] {
      assert a + b == b;
    } else {
      InUseConcat(a[1..], b);
      assert (a + b)[1..] == a[1..] + b;
    }
  }

  lemma InUseAt(bs: seq<Block>, i: nat)
    requires i < |bs|
    ensures InUse(bs) == InUse(bs[..i]) + (if bs[i].Used? then bs[i].original else 0) + InUse(bs[i + 1..])
  {
    assert bs == bs[..i] + ([bs[i]] + bs[i + 1..]);
    InUseConcat(bs[..i], [bs[i]] + bs[i + 1..]);
    assert ([bs[i]] + bs[i + 1..])[1..] == bs[i + 1..];
  }

  /** The pointers of the used blocks. */
  ghost function Live(bs: seq<Block>): set<nat> {
    set i {:trigger bs[i].Used?} | 0 <= i < |bs| && bs[i].Used? :: Pointer(bs[i])
  }

  lemma {:induction false} CoalesceKeeps(bs: seq<Block>)
    ensures InUse(Coalesce(bs)) == InUse(bs)
    ensures forall b: Block :: b.Used? ==> (b in Coalesce(bs) <==> b in bs)
  {
    if bs != [] {
      var r := Coalesce(bs[1..]);
      CoalesceKeeps(bs[1..]);
      assert bs == [bs[0]] + bs[1..];
      if bs[0].Free? && r != [] && r[0].Free? {
        assert r == [r[0]] + r[1..];
        assert forall b: Block :: b.Used? ==> (b in r <==> b in r[1..]);
        assert ([Merge(bs[0], r[0])] + r[1..])[1..] == r[1..];
      } else {
        assert ([bs[0]] + r)[1..] == r;
      }
    }
  }

  lemma {:induction false} CoalesceTiles(bs: seq<Block>, base: nat, end: nat)
    requires Tiles(bs, base, end)
    ensures Tiles(Coalesce(bs), base, end)
    decreases |bs|
  {
    if i: nat :| i < |bs| - 1 && bs[i].Free? && bs[i + 1].Free? {
      var x, y := bs[i], bs[i + 1];
      var t := bs[..i] + [Merge(x, y)] + bs[i + 2..];
      assert bs == bs[..i] + [x, y] + bs[i + 2..];
      CoalescePair(bs[..i], x, y, bs[i + 2..]);
      TilesJoin(bs, base, end, i);
      CoalesceTiles(t, base, end);
    } else {
      CoalesceDone(bs);
    }
  }
}
