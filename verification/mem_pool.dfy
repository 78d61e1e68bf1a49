/** The memory pool in place: block headers at their addresses, linked from free_list. */
module MemPool {
  import opened InfraTypes
  import opened MemBlocks
  import opened MemHeap

  /** memory_block_t; a null link is 0. */
  datatype Header = Header(next: nat, size: nat, original: nat, isUsed: bool)

  /** The original size of a free block is whatever was in memory. */
  predicate Shows(h: Header, b: Block) {
    h.size == b.size && h.isUsed == b.Used? && (b.Used? ==> h.original == b.original)
  }

  function AddrAt(bs: seq<Block>, i: nat): nat { if i < |bs| then bs[i].addr else 0 }

  /** The header in memory of block i, with its link to the next. */
  ghost predicate HeaderAt(mem: map<int, Header>, bs: seq<Block>, i: nat)
    requires i < |bs|
  {
    bs[i].addr in mem && Shows(mem[bs[i].addr], bs[i]) && mem[bs[i].addr].next == AddrAt(bs, i + 1)
  }

  /** The headers in memory are the blocks, in the order of the links. */
  ghost predicate Linked(mem: map<int, Header>, bs: seq<Block>) {
    forall i :: 0 <= i < |bs| ==> HeaderAt(mem, bs, i)
  }

  /** The memory before and after the headers of a cut are written. */
  ghost predicate Cut(was: map<int, Header>, now: map<int, Header>, block: nat, n: nat, req: nat) {
    var rest := block + HEADER + n;
    && block in was && was[block].size >= n + HEADER && block in now && rest in now
    && now[block] == Header(rest, n, req, true)
    && Shows(now[rest], MemBlocks.Free(rest, was[block].size - n - HEADER)) && now[rest].next == was[block].next
    && forall a :: a in was && a != block && a != rest ==> a in now && now[a] == was[a]
  }

  /** No block but the i-th has its header at a or where the i-th has it. */
  ghost predicate Apart(bs: seq<Block>, i: nat, a: nat)
    requires i < |bs|
  {
    forall j :: 0 <= j < |bs| && j != i ==> bs[j].addr != a && bs[j].addr != bs[i].addr
  }

  class MemoryPool {
    const region: Region
    var mem: map<int, Header>
    var freeList: nat
    var blockCount: nat
    var currentUsage: nat
    var peakUsage: nat
    var totalAllocations: nat
    ghost var blocks: seq<Block>

    ghost function View(): Heap
      reads this
    {
      Heap(blocks, currentUsage, peakUsage, totalAllocations)
    }

    /** The list in memory, whether or not it is coalesced. */
    ghost predicate Listed()
      reads this
    {
      && 0 < region.base && region.base + region.size + HEADER <= W64
      && Tiles(blocks, region.base, region.base + region.size)
      && Linked(mem, blocks) && freeList == AddrAt(blocks, 0) && blockCount == |blocks|
    }

    ghost predicate Valid()
      reads this
    {
      Listed() && Inv(region, View())
    }

    /** initialize_pool, once the system has handed out the memory */
    constructor (region: Region)
      requires ValidRegion(region)
      ensures Valid() && this.region == region && View() == Init(region)
    {
      this.region := region;
      var junk: nat := *;
      mem := map[region.base := Header(0, region.size - HEADER, junk, false)];
      freeList := region.base;
      blockCount := 1;
      currentUsage, peakUsage, totalAllocations := 0, 0, 0;
      blocks := [MemBlocks.Free(region.base, region.size - HEADER)];
      new;
      InitInv(region);
    }

    lemma Addresses(i: nat, j: nat)
      requires Listed() && i < |blocks| && j < |blocks|
      ensures blocks[i].addr > 0 && (i != j ==> blocks[i].addr != blocks[j].addr)
    {
      TilesBounds(blocks, region.base, region.base + region.size, i);
      if i != j {
        PayloadsDisjoint(blocks, region.base, region.base + region.size, i, j);
      }
    }

    /** Best-fit search from free_list; 0 when nothing is big enough. */
    method FindFreeBlock(n: nat) returns (best: nat, ghost i: Option<nat>)
      requires Listed() && n < W64
      ensures i == BestFit(blocks, n)
      ensures best == if i.Some? then AddrAt(blocks, i.value) else 0
      ensures i.Some? ==> best > 0
    {
      var block := freeList;
      best := 0;
      var minDiff := W64 - 1;
      i := None;
      ghost var k := 0;
      while block != 0
        invariant k <= |blocks| && block == AddrAt(blocks, k)
        invariant i == BestFit(blocks[..k], n)
        invariant i.Some? ==> i.value < k && best == blocks[i.value].addr > 0 && minDiff == blocks[i.value].size - n
        invariant i.None? ==> best == 0 && minDiff == W64 - 1
        decreases |blocks| - k
      {
        Addresses(k, k);
        HeaderOf(k);
        BestFitStep(blocks, k, n);
        TilesBounds(blocks, region.base, region.base + region.size, k);
        var h := mem[block];
        if !h.isUsed && h.size >= n {
          var diff := h.size - n;
          if diff < minDiff {
            minDiff := diff;
            best := block;
            i := Some(k);
            if diff == 0 {
              BestFitExact(blocks, k, n);
              return;
            }
          }
        }
        block := h.next;
        k := k + 1;
        AddressEnd(k);
      }
      AddressEnd(k);
      assert blocks[..k] == blocks;
    }

    lemma AddressEnd(k: nat)
      requires Listed() && k <= |blocks|
      ensures AddrAt(blocks, k) == 0 <==> k == |blocks|
    {
      if k < |blocks| {
        Addresses(k, k);
      }
    }

    /** Writes the two headers of a cut: the used one in place, the free one behind n bytes. */
    method WriteHeaders(block: nat, n: nat, req: nat)
      requires block in mem && mem[block].size >= n + HEADER
      requires region.align > 0 && AlignUp(block + HEADER + n, region.align) == block + HEADER + n
      modifies this`mem, this`blockCount
      ensures Cut(old(mem), mem, block, n, req) && blockCount == old(blockCount) + 1
    {
      var newBlock := AlignUp(block + HEADER + n, region.align);
      var h := mem[block];
      var junk: nat := *;
      mem := mem[newBlock := Header(h.next, h.size - n - HEADER, junk, false)];
      mem := mem[block := Header(newBlock, n, req, true)];
      blockCount := blockCount + 1;
    }

    /** The bytes before and behind n of block i become blocks of their own; see Carve. */
    method Split(block: nat, n: nat, req: nat, ghost i: nat)
      requires Listed() && i < |blocks| && block == blocks[i].addr && blocks[i].Free?
      requires blocks[i].size > n + HEADER + HEADER && region.align > 0
      requires AlignUp(block + HEADER + n, region.align) == block + HEADER + n
      modifies this`mem, this`blockCount, this`blocks
      ensures blocks == Carve(old(blocks), i, n, req) && Listed()
    {
      NoCollision(i, block + HEADER + n);
      ghost var was := mem;
      HeaderOf(i);
      WriteHeaders(block, n, req);
      CarveLinked(was, mem, blocks, i, n, req);
      CarveTiles(blocks, region.base, region.base + region.size, i, n, req);
      blocks := Carve(blocks, i, n, req);
    }

    static lemma CarveLinked(was: map<int, Header>, now: map<int, Header>, bs: seq<Block>, i: nat, n: nat, req: nat)
      requires i < |bs| && bs[i].Free? && bs[i].size > n + HEADER + HEADER && Linked(was, bs)
      requires Cut(was, now, bs[i].addr, n, req) && Apart(bs, i, bs[i].addr + HEADER + n)
      ensures Linked(now, Carve(bs, i, n, req)) && |Carve(bs, i, n, req)| == |bs| + 1
      ensures AddrAt(Carve(bs, i, n, req), 0) == AddrAt(bs, 0)
    {
      var block := bs[i].addr;
      assert HeaderAt(was, bs, i);
      SplitLinked(was, now, bs, i, Used(block, n, req), MemBlocks.Free(block + HEADER + n, bs[i].size - n - HEADER));
    }

    lemma NoCollision(i: nat, a: nat)
      requires Listed() && i < |blocks| && blocks[i].addr <= a < End(blocks[i])
      ensures Apart(blocks, i, a)
      ensures 0 < blocks[i].addr && End(blocks[i]) <= region.base + region.size
    {
      TilesBounds(blocks, region.base, region.base + region.size, i);
      forall j | 0 <= j < |blocks| && j != i
        ensures blocks[j].addr != a && blocks[j].addr != blocks[i].addr
      {
        PayloadsDisjoint(blocks, region.base, region.base + region.size, i, j);
      }
    }

    static lemma SplitLinked(was: map<int, Header>, now: map<int, Header>, bs: seq<Block>, i: nat, x: Block, y: Block)
      requires Linked(was, bs) && i < |bs|
      requires x.addr in now && Shows(now[x.addr], x) && now[x.addr].next == y.addr && x.addr == bs[i].addr
      requires y.addr in now && Shows(now[y.addr], y) && x.addr in was && now[y.addr].next == was[x.addr].next
      requires forall a :: a in was && a != x.addr && a != y.addr ==> a in now && now[a] == was[a]
      requires forall j :: 0 <= j < |bs| && j != i ==> bs[j].addr != x.addr && bs[j].addr != y.addr
      ensures Linked(now, bs[..i] + [x, y] + bs[i + 1..])
    {
      var r := bs[..i] + [x, y] + bs[i + 1..];
      forall j | 0 <= j < |r|
        ensures HeaderAt(now, r, j)
      {
        assert HeaderAt(was, bs, i);
        if j < i {
          assert r[j] == bs[j] && HeaderAt(was, bs, j);
        } else if j > i + 1 {
          assert r[j] == bs[j - 1] && HeaderAt(was, bs, j - 1);
        }
      }
    }

    /** Marks block i used as it is. */
    method TakeWhole(block: nat, req: nat, ghost i: nat)
      requires Listed() && i < |blocks| && block == blocks[i].addr
      modifies this`mem, this`blocks
      ensures blocks == old(blocks)[i := Used(block, old(blocks)[i].size, req)] && Listed()
    {
      NoCollision(i, block);
      ghost var b := Used(block, blocks[i].size, req);
      HeaderOf(i);
      Rewritten(mem, blocks, i, b, mem[block].(original := req, isUsed := true));
      TilesReplace(blocks, region.base, region.base + region.size, i, b);
      mem := mem[block := mem[block].(original := req, isUsed := true)];
      blocks := blocks[i := b];
    }

    lemma HeaderOf(i: nat)
      requires Linked(mem, blocks) && i < |blocks|
      ensures blocks[i].addr in mem && Shows(mem[blocks[i].addr], blocks[i])
      ensures mem[blocks[i].addr].next == AddrAt(blocks, i + 1)
    {
      assert HeaderAt(mem, blocks, i);
    }

    static lemma Rewritten(was: map<int, Header>, bs: seq<Block>, i: nat, b: Block, h: Header)
      requires i < |bs| && Linked(was, bs) && Apart(bs, i, bs[i].addr) && b.addr == bs[i].addr && b.addr in was
      requires Shows(h, b) && h.next == was[b.addr].next
      ensures Linked(was[b.addr := h], bs[i := b])
    {
      var r, now := bs[i := b], was[b.addr := h];
      forall j | 0 <= j < |r|
        ensures HeaderAt(now, r, j)
      {
        assert HeaderAt(was, bs, j);
      }
    }

    static lemma CutIsAligned(g: Region, h: Heap, i: nat, n: nat)
      requires Inv(g, h) && i < |h.blocks| && Multiple(n, g.align) && h.blocks[i].size > n
      ensures AlignUp(h.blocks[i].addr + HEADER + n, g.align) == h.blocks[i].addr + HEADER + n
    {
      TilesBounds(h.blocks, g.base, g.base + g.size, i);
      assert h.blocks[i] in h.blocks;
      MultipleSum(h.blocks[i].addr, HEADER, g.align);
      MultipleSum(h.blocks[i].addr + HEADER, n, g.align);
      AlignUpFixed(h.blocks[i].addr + HEADER + n, g.align);
    }

    static lemma NoneChosen(g: Region, h: Heap, size: nat)
      requires g.align > 0 && BestFit(h.blocks, Rounded(Request(size), g.align)).None?
      ensures MemHeap.Malloc(g, h, size) == (h, 0)
    {}

    static lemma SomeChosen(g: Region, h: Heap, size: nat, i: nat)
      requires g.align > 0 && BestFit(h.blocks, Rounded(Request(size), g.align)) == Some(i)
      ensures i < |h.blocks| && Sufficient(h.blocks[i], Rounded(Request(size), g.align))
      ensures MemHeap.Malloc(g, h, size)
           == (Taken(g, h, i, Request(size)), AlignUp(h.blocks[i].addr + HEADER, g.align))
    {
      BestFitIsBest(h.blocks, Rounded(Request(size), g.align));
    }

    /** What TakeBlock needs of the block that the search chose, and what it keeps. */
    static lemma Chosen(g: Region, h: Heap, req: nat, i: nat)
      requires Inv(g, h) && 1 <= req < W64 && i < |h.blocks| && Sufficient(h.blocks[i], Rounded(req, g.align))
      ensures Takable(g, h.blocks[i], Rounded(req, g.align)) && Inv(g, Taken(g, h, i, req))
    {
      TakenInv(g, h, i, req);
      RoundedCovers(req, g.align);
      if h.blocks[i].size > Rounded(req, g.align) {
        CutIsAligned(g, h, i, Rounded(req, g.align));
      }
    }

    ghost static predicate Takable(g: Region, b: Block, n: nat)
      requires g.align > 0
    {
      && Sufficient(b, n)
      && (b.size > n ==> AlignUp(b.addr + HEADER + n, g.align) == b.addr + HEADER + n)
    }

    /** The request rounded up, with the extra room that the code adds before it rounds. */
    method AlignedSize(req: nat) returns (n: nat)
      requires Valid() && req < W64
      ensures n == Rounded(req, region.align) && n < W64
    {
      n := AlignUp(Wrap(req + region.align - 1), region.align);
      RoundedCovers(req, region.align);
    }

    /** infra_malloc on an initialised pool */
    method Malloc(size: nat) returns (p: nat)
      requires Valid() && size < W64
      modifies this
      ensures Valid() && (View(), p) == MemHeap.Malloc(region, old(View()), size)
    {
      ghost var h := View();
      var req := if size == 0 then 1 else size;
      var n := AlignedSize(req);
      ghost var i;
      var block;
      block, i := FindFreeBlock(n);
      p := 0;
      if block == 0 {
        NoneChosen(region, h, size);
      } else {
        SomeChosen(region, h, size, i.value);
        Chosen(region, h, req, i.value);
        TakeBlock(block, n, req, i.value);
        p := AlignUp(block + HEADER, region.align);
      }
    }

    method TakeBlock(block: nat, n: nat, req: nat, ghost i: nat)
      requires Listed() && i < |blocks| && block == blocks[i].addr && region.align > 0
      requires n == Rounded(req, region.align) && Takable(region, blocks[i], n)
      modifies this
      ensures Listed() && View() == Taken(region, old(View()), i, req)
    {
      HeaderOf(i);
      if mem[block].size > n + HEADER + HEADER {
        Split(block, n, req, i);
      } else {
        TakeWhole(block, req, i);
      }
      currentUsage := Wrap(currentUsage + req);
      if currentUsage > peakUsage {
        peakUsage := currentUsage;
      }
      totalAllocations := Wrap(totalAllocations + 1);
    }

    // ---------------------------------------------------------- free

    /** Absorbs the block behind current into it. */
    method Absorb(current: nat, ghost k: nat)
      requires Listed() && k + 1 < |blocks| && current == blocks[k].addr && blocks[k].Free? && blocks[k + 1].Free?
      modifies this`mem, this`blockCount, this`blocks
      ensures blocks == Joined(old(blocks), k) && Listed()
    {
      NoCollision(k, current);
      HeaderOf(k);
      HeaderOf(k + 1);
      var next := mem[current].next;
      var size := mem[current].size + (mem[next].size + HEADER);
      Absorbed(mem, blocks, k, mem[current].(size := size, next := mem[next].next));
      mem := mem[current := mem[current].(size := size, next := mem[next].next)];
      blockCount := blockCount - 1;
      TilesJoin(blocks, region.base, region.base + region.size, k);
      blocks := Joined(blocks, k);
    }

    static lemma Absorbed(was: map<int, Header>, bs: seq<Block>, k: nat, h: Header)
      requires k + 1 < |bs| && Linked(was, bs) && Apart(bs, k, bs[k].addr) && bs[k + 1].addr in was
      requires Shows(h, Merge(bs[k], bs[k + 1])) && h.next == was[bs[k + 1].addr].next
      ensures Linked(was[bs[k].addr := h], Joined(bs, k))
    {
      var r, now := Joined(bs, k), was[bs[k].addr := h];
      forall j | 0 <= j < |r|
        ensures HeaderAt(now, r, j)
      {
        if j < k {
          assert r[j] == bs[j] && HeaderAt(was, bs, j);
        } else {
          assert HeaderAt(was, bs, j + 1);
        }
      }
    }

    /** Passes over the list until a pass merges nothing. */
    method TryMergeBlocks()
      requires Listed()
      modifies this`mem, this`blockCount, this`blocks
      ensures Listed() && blocks == Coalesce(old(blocks))
    {
      var merged := true;
      while merged
        invariant Listed() && Coalesce(blocks) == Coalesce(old(blocks))
        invariant !merged ==> Coalesced(blocks)
        decreases |blocks|, merged
      {
        merged := MergePass();
      }
      CoalesceDone(blocks);
    }

    method MergePass() returns (merged: bool)
      requires Listed()
      modifies this`mem, this`blockCount, this`blocks
      ensures Listed() && Coalesce(blocks) == Coalesce(old(blocks)) && Coalesced(blocks)
      ensures merged ==> |blocks| < |old(blocks)|
      ensures !merged ==> blocks == old(blocks)
    {
      merged := false;
      var current := freeList;
      ghost var k := 0;
      AddressEnd(0);
      HeaderOf(0);
      while current != 0 && mem[current].next != 0
        invariant Listed() && k < |blocks| && current == blocks[k].addr && current in mem
        invariant Coalesce(blocks) == Coalesce(old(blocks)) && Settled(blocks, k)
        invariant if merged then |blocks| < |old(blocks)| else blocks == old(blocks)
        invariant mem[current].next == AddrAt(blocks, k + 1)
        decreases |blocks| - k
      {
        AddressEnd(k + 1);
        var next := mem[current].next;
        HeaderOf(k);
        HeaderOf(k + 1);
        if !mem[current].isUsed && !mem[next].isUsed {
          JoinedFacts(blocks, k);
          Absorb(current, k);
          merged := true;
        } else {
          current := next;
          k := k + 1;
        }
        HeaderOf(k);
      }
      AddressEnd(k);
      AddressEnd(k + 1);
    }

    /** infra_free on an initialised pool: of null, or of the pointer of some block. */
    method Free(p: nat)
      requires Valid() && (p == 0 || exists i :: 0 <= i < |blocks| && Pointer(blocks[i]) == p)
      modifies this
      ensures Valid() && View() == Release(old(View()), p)
    {
      ghost var h := View();
      if p != 0 {
        ghost var i: nat :| i < |blocks| && Pointer(blocks[i]) == p;
        FreeBlock(p - HEADER, i);
        Freed(region, h, i);
      } else {
        NullIsNotLive();
      }
    }

    /** The heap after a free: changed only if block i was in use. */
    method FreeBlock(block: nat, ghost i: nat)
      requires Listed() && i < |blocks| && block == blocks[i].addr
      modifies this
      ensures Listed() && View() == AfterFree(old(View()), i)
    {
      HeaderOf(i);
      TilesBounds(blocks, region.base, region.base + region.size, i);
      if mem[block].isUsed && region.base <= block < region.base + region.size {
        var original := mem[block].original;
        MarkFree(block, i);
        Discount(original);
        TryMergeBlocks();
      }
    }

    static function AfterFree(h: Heap, i: nat): Heap
      requires i < |h.blocks|
    {
      if h.blocks[i].Used? then
        Heap(Coalesce(MarkedFree(h.blocks, i)), Wrap(h.current - h.blocks[i].original), h.peak, h.total)
      else h
    }

    static lemma Freed(g: Region, h: Heap, i: nat)
      requires Inv(g, h) && i < |h.blocks|
      ensures AfterFree(h, i) == Release(h, Pointer(h.blocks[i])) && Inv(g, AfterFree(h, i))
    {
      ReleaseInv(g, h, Pointer(h.blocks[i]));
      if h.blocks[i].Used? {
        LookupFinds(g, h, i);
      } else {
        NotUsedNotLive(g, h, i);
      }
    }

    /** The statistics of a free. */
    method Discount(original: nat)
      modifies this`currentUsage
      ensures currentUsage == Wrap(old(currentUsage) - original)
    {
      currentUsage := Wrap(currentUsage - original);
    }

    lemma NullIsNotLive()
      requires Valid()
      ensures Lookup(blocks, 0).None?
    {
    }

    static lemma NotUsedNotLive(g: Region, h: Heap, i: nat)
      requires Inv(g, h) && i < |h.blocks| && h.blocks[i].Free?
      ensures Lookup(h.blocks, Pointer(h.blocks[i])).None?
    {
      var r := Lookup(h.blocks, Pointer(h.blocks[i]));
      if r.Some? {
        Unique(g, h, r.value, i);
      }
    }

    method MarkFree(block: nat, ghost i: nat)
      requires Listed() && i < |blocks| && block == blocks[i].addr
      modifies this`mem, this`blocks
      ensures blocks == MarkedFree(old(blocks), i) && Listed()
    {
      NoCollision(i, block);
      ghost var b := MemBlocks.Free(block, blocks[i].size);
      HeaderOf(i);
      Rewritten(mem, blocks, i, b, mem[block].(isUsed := false));
      TilesReplace(blocks, region.base, region.base + region.size, i, b);
      mem := mem[block := mem[block].(isUsed := false)];
      blocks := MarkedFree(blocks, i);
    }

    /** pool_fragmentation: the share of the pool that the 32-byte headers take, in whole percent, of a
        product that may wrap. */
    method Fragmentation() returns (percent: nat)
      requires Valid()
      ensures percent <= 100
      ensures percent * region.size <= 3200 * |blocks| % W64 < (percent + 1) * region.size
      ensures 3200 * |blocks| < W64 ==> percent * region.size <= 3200 * |blocks| < (percent + 1) * region.size
    {
      HeadersFit();
      PercentBound(|blocks| * HEADER, region.size);
      percent := Percent(blockCount * HEADER, region.size);
      Quotient(Wrap(|blocks| * HEADER * 100), region.size);
    }

    lemma HeadersFit()
      requires Valid()
      ensures |blocks| * HEADER <= region.size && 0 < region.size && blockCount == |blocks|
    {
      TilesTotal(blocks, region.base, region.base + region.size);
    }
  }

  /** A share in whole percent, computed in a size_t. */
  function Percent(part: nat, whole: nat): nat
    requires whole > 0
  {
    Wrap(part * 100) / whole
  }

  lemma Quotient(x: nat, w: nat)
    requires w > 0
    ensures x / w * w <= x < (x / w + 1) * w
  {
    assert x == w * (x / w) + x % w;
  }

  lemma PercentBound(part: nat, whole: nat)
    requires 0 < whole && part <= whole
    ensures Percent(part, whole) <= 100
  {
    WrapShrinks(part * 100);
    ShareBound(whole, Wrap(part * 100));
  }

  /** Before position k no two neighbours are both free. */
  ghost predicate Settled(bs: seq<Block>, k: nat)
    requires k < |bs|
  {
    forall i {:trigger bs[i].Free?} :: 0 <= i < k && bs[i].Free? ==> bs[i + 1].Used?
  }

  /** The blocks k and k + 1 as one. */
  function Joined(bs: seq<Block>, k: nat): seq<Block>
    requires k + 1 < |bs|
  {
    bs[..k] + [Merge(bs[k], bs[k + 1])] + bs[k + 2..]
  }

  lemma JoinedFacts(bs: seq<Block>, k: nat)
    requires k + 1 < |bs| && Settled(bs, k) && bs[k].Free? && bs[k + 1].Free?
    ensures Settled(Joined(bs, k), k) && Coalesce(Joined(bs, k)) == Coalesce(bs)
    ensures |Joined(bs, k)| == |bs| - 1 && Joined(bs, k)[k].addr == bs[k].addr
  {
    var r := Joined(bs, k);
    assert bs == bs[..k] + [bs[k], bs[k + 1]] + bs[k + 2..];
    CoalescePair(bs[..k], bs[k], bs[k + 1], bs[k + 2..]);
    forall i {:trigger r[i].Free?} | 0 <= i < k && r[i].Free?
      ensures r[i + 1].Used?
    {
      assert bs[i].Free?;
    }
  }

  lemma WrapShrinks(x: nat)
    ensures Wrap(x) <= x
  {
  }

  lemma {:induction false} TimesMonotone(c: nat, q: nat, w: nat)
    requires c <= q
    ensures c * w <= q * w
    decreases q
  {
    if c < q {
      TimesMonotone(c, q - 1, w);
      assert q * w == (q - 1) * w + w;
    }
  }

  lemma ShareBound(whole: nat, wrapped: nat)
    requires 0 < whole && wrapped <= whole * 100
    ensures wrapped / whole <= 100
  {
    var q := wrapped / whole;
    assert q * whole <= wrapped;
    if q > 100 {
      TimesMonotone(101, q, whole);
    }
  }

  lemma BestFitStep(bs: seq<Block>, k: nat, n: nat)
    requires k < |bs|
    ensures bs[..k + 1][..k] == bs[..k]
    ensures BestFit(bs[..k + 1], n) ==
            (match BestFit(bs[..k], n)
             case None => if Sufficient(bs[k], n) then Some(k) else None
             case Some(i) => if i < k && Sufficient(bs[k], n) && bs[k].size < bs[i].size then Some(k) else Some(i))
    ensures BestFit(bs[..k], n).Some? ==> BestFit(bs[..k], n).value < k
  {
    assert bs[..k + 1][..k] == bs[..k];
    BestFitIsBest(bs[..k], n);
  }

  /** A perfect match ends the search. */
  lemma {:induction false} BestFitExact(bs: seq<Block>, k: nat, n: nat)
    requires k < |bs| && BestFit(bs[..k + 1], n) == Some(k) && bs[k].size == n
    ensures BestFit(bs, n) == Some(k)
    decreases |bs|
  {
    if k == |bs| - 1 {
      assert bs[..k + 1] == bs;
    } else {
      var r := bs[..|bs| - 1];
      assert r[..k + 1] == bs[..k + 1];
      BestFitExact(r, k, n);
    }
  }
}
