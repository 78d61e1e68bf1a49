/** The pool as malloc and free see it, and what every run of them guarantees. */
module MemHeap {
  import opened InfraTypes
  import opened MemBlocks

  /** Where the pool lies and how it aligns. */
  datatype Region = Region(base: nat, size: nat, align: nat)

  /** The pool lies in the address space, and its alignment divides its base and the header: exactly
      then the first two pointers handed out are the ones that free expects; see
      FirstTwoPointersFit. */
  predicate ValidRegion(g: Region) {
    && 8 <= g.align <= HEADER && Multiple(HEADER, g.align) && Multiple(g.base, g.align)
    && HEADER <= g.size && 2 * HEADER <= g.base && g.base + g.size + HEADER <= W64
  }

  /** A size_t keeps a value modulo 2^64. */
  function Wrap(x: int): (r: nat)
    ensures r < W64 && (0 <= x < W64 ==> r == x) && (W64 <= x < 2 * W64 ==> r == x - W64)
    ensures -W64 <= x < 0 ==> r == x + W64
  {
    x % W64
  }

  /** The greatest multiple of a that is at most x.  The code clears the low bits, `x & ~(a - 1)`;
      MemMask shows that this is the same for the alignments that it accepts. */
  function RoundDown(x: nat, a: nat): nat
    requires a > 0
  {
    if x < a then 0 else a + RoundDown(x - a, a)
  }

  predicate Multiple(x: nat, a: nat)
    requires a > 0
  {
    RoundDown(x, a) == x
  }

  /** ALIGN_SIZE on a size_t: rounded up, after the addition has wrapped. */
  function AlignUp(x: nat, a: nat): nat
    requires a > 0
  {
    RoundDown(Wrap(x + (a - 1)), a)
  }

  /** The size that allocate_memory looks for. */
  function Rounded(size: nat, a: nat): nat
    requires a > 0
  {
    AlignUp(Wrap(size + a - 1), a)
  }

  lemma {:induction false} RoundDownGreatest(x: nat, y: nat, a: nat)
    requires a > 0 && Multiple(y, a) && y <= x
    ensures y <= RoundDown(x, a)
  {
    if y >= a {
      RoundDownGreatest(x - a, y - a, a);
    }
  }

  lemma {:induction false} RoundDownFacts(x: nat, a: nat)
    requires a > 0
    ensures x - a < RoundDown(x, a) <= x && Multiple(RoundDown(x, a), a)
  {
    if x >= a {
      RoundDownFacts(x - a, a);
    }
  }

  lemma {:induction false} MultipleSum(x: nat, y: nat, a: nat)
    requires a > 0 && Multiple(x, a) && Multiple(y, a)
    ensures Multiple(x + y, a)
  {
    if x >= a {
      MultipleSum(x - a, y, a);
    }
  }

  lemma {:induction false} RoundDownFixed(x: nat, r: nat, a: nat)
    requires a > 0 && Multiple(x, a) && r < a
    ensures RoundDown(x + r, a) == x
  {
    if x >= a {
      RoundDownFixed(x - a, r, a);
    }
  }

  lemma AlignUpFixed(x: nat, a: nat)
    requires a > 0 && Multiple(x, a) && x + a - 1 < W64
    ensures AlignUp(x, a) == x
  {
    RoundDownFixed(x, a - 1, a);
  }

  /** The rounded size covers the request if and only if the additions did not wrap. */
  lemma RoundedCovers(size: nat, a: nat)
    requires 0 < a <= HEADER && size < W64
    ensures Multiple(Rounded(size, a), a) && Rounded(size, a) < W64
    ensures size <= Rounded(size, a) <==> size + 2 * (a - 1) < W64
    ensures size <= Rounded(size, a) ==> Rounded(size, a) <= size + 2 * (a - 1)
  {
    RoundDownFacts(Wrap(Wrap(size + a - 1) + (a - 1)), a);
  }

  datatype Heap = Heap(blocks: seq<Block>, current: nat, peak: nat, total: nat)

  function Init(g: Region): Heap
    requires HEADER <= g.size
  {
    Heap([MemBlocks.Free(g.base, g.size - HEADER)], 0, 0, 0)
  }

  /** A request for nothing gets one byte. */
  function Request(size: nat): nat { if size == 0 then 1 else size }

  /** What a successful malloc makes of the heap. */
  function Taken(g: Region, h: Heap, i: nat, req: nat): Heap
    requires g.align > 0 && i < |h.blocks| && Sufficient(h.blocks[i], Rounded(req, g.align))
  {
    var current := Wrap(h.current + req);
    Heap(Carve(h.blocks, i, Rounded(req, g.align), req), current, if current > h.peak then current else h.peak,
         Wrap(h.total + 1))
  }

  function Malloc(g: Region, h: Heap, size: nat): (Heap, nat)
    requires g.align > 0
  {
    var n := Rounded(Request(size), g.align);
    BestFitIsBest(h.blocks, n);
    match BestFit(h.blocks, n)
    case None => (h, 0)
    case Some(i) => (Taken(g, h, i, Request(size)), AlignUp(Pointer(h.blocks[i]), g.align))
  }

  /** The used block that p points into the start of, if any. */
  function Lookup(bs: seq<Block>, p: nat): (r: Option<nat>)
    ensures r.Some? ==> r.value < |bs| && bs[r.value].Used? && Pointer(bs[r.value]) == p
    ensures r.None? ==> forall i :: 0 <= i < |bs| && bs[i].Used? ==> Pointer(bs[i]) != p
  {
    if bs == [] then None
    else
      var k := |bs| - 1;
      if bs[k].Used? && Pointer(bs[k]) == p then Some(k) else Lookup(bs[..k], p)
  }

  function Release(h: Heap, p: nat): Heap {
    match Lookup(h.blocks, p)
    case None => h
    case Some(i) =>
      h.(blocks := Coalesce(MarkedFree(h.blocks, i)), current := Wrap(h.current - h.blocks[i].original))
  }

  // ------------------------------------------------------------ the invariant

  /** A used block holds what was asked for and little more. */
  predicate WellUsed(g: Region, b: Block)
    requires g.align > 0
  {
    b.Used? ==>
      && 1 <= b.original < W64
      && Rounded(b.original, g.align) <= b.size <= Rounded(b.original, g.align) + 2 * HEADER
  }

  ghost predicate Aligned(g: Region, bs: seq<Block>)
    requires g.align > 0
  {
    forall b :: b in bs ==> Multiple(b.addr, g.align) && WellUsed(g, b)
  }

  ghost predicate Inv(g: Region, h: Heap) {
    && ValidRegion(g)
    && Tiles(h.blocks, g.base, g.base + g.size) && Coalesced(h.blocks)
    && Aligned(g, h.blocks)
    && h.current == Wrap(InUse(h.blocks))
  }

  lemma InitInv(g: Region)
    requires ValidRegion(g)
    ensures Inv(g, Init(g)) && Live(Init(g).blocks) == {}
  {
  }

  lemma CarveInUse(bs: seq<Block>, i: nat, n: nat, original: nat)
    requires i < |bs| && bs[i].Free? && bs[i].size >= n
    ensures InUse(Carve(bs, i, n, original)) == InUse(bs) + original
  {
    var c := Carve(bs, i, n, original);
    InUseAt(bs, i);
    InUseAt(c, i);
    assert c[..i] == bs[..i];
    if |c| > |bs| {
      assert c[i + 1..] == [c[i + 1]] + bs[i + 1..];
      InUseConcat([c[i + 1]], bs[i + 1..]);
    } else {
      assert c[i + 1..] == bs[i + 1..];
    }
  }

  lemma CarveMembers(bs: seq<Block>, i: nat, n: nat, original: nat, b: Block)
    requires i < |bs| && bs[i].Free? && bs[i].size >= n
    ensures b in Carve(bs, i, n, original) ==>
              b in bs || b == Carve(bs, i, n, original)[i] || (b.Free? && b.addr == bs[i].addr + HEADER + n)
    ensures b.Used? && b in bs ==> b in Carve(bs, i, n, original)
  {
    var c := Carve(bs, i, n, original);
    assert bs == bs[..i] + [bs[i]] + bs[i + 1..];
    if |c| > |bs| {
      assert c == bs[..i] + [c[i], c[i + 1]] + bs[i + 1..];
    } else {
      assert c == bs[..i] + [c[i]] + bs[i + 1..];
    }
  }

  lemma CarveParts(bs: seq<Block>, i: nat, n: nat, original: nat)
    requires i < |bs| && bs[i].Free? && bs[i].size >= n
    ensures InUse(Carve(bs, i, n, original)) == InUse(bs) + original
    ensures var used := Carve(bs, i, n, original)[i];
      && i < |Carve(bs, i, n, original)| && used.Used? && used.addr == bs[i].addr && used.original == original
      && n <= used.size <= n + 2 * HEADER
    ensures forall b :: b in Carve(bs, i, n, original) ==>
              b in bs || b == Carve(bs, i, n, original)[i] || (b.Free? && b.addr == bs[i].addr + HEADER + n)
    ensures forall b: Block :: b.Used? && b in bs ==> b in Carve(bs, i, n, original)
  {
    CarveInUse(bs, i, n, original);
    forall b: Block
      ensures b in Carve(bs, i, n, original) ==>
                b in bs || b == Carve(bs, i, n, original)[i] || (b.Free? && b.addr == bs[i].addr + HEADER + n)
      ensures b.Used? && b in bs ==> b in Carve(bs, i, n, original)
    {
      CarveMembers(bs, i, n, original, b);
    }
  }

  lemma CarveCoalesced(bs: seq<Block>, i: nat, n: nat, original: nat)
    requires i < |bs| && bs[i].Free? && bs[i].size >= n && Coalesced(bs)
    ensures Coalesced(Carve(bs, i, n, original))
  {
    var c := Carve(bs, i, n, original);
    assert i < |bs| - 1 ==> bs[i + 1].Used?;
    forall k {:trigger c[k].Free?} | 0 <= k < |c| - 1 && c[k].Free?
      ensures c[k + 1].Used?
    {
      if k < i {
        assert bs[k].Free?;
      } else if |c| > |bs| {
        assert k > i + 1 ==> bs[k - 1].Free?;
      } else {
        assert bs[k].Free?;
      }
    }
  }

  lemma CarveTiles(bs: seq<Block>, base: nat, end: nat, i: nat, n: nat, original: nat)
    requires Tiles(bs, base, end) && i < |bs| && bs[i].size >= n
    ensures Tiles(Carve(bs, i, n, original), base, end)
  {
    var b := bs[i];
    if b.size > n + HEADER + HEADER {
      TilesSplit(bs, base, end, i, Used(b.addr, n, original), MemBlocks.Free(b.addr + HEADER + n, b.size - n - HEADER));
    } else {
      TilesReplace(bs, base, end, i, Used(b.addr, b.size, original));
    }
  }

  lemma WrapSum(x: int, y: int)
    ensures Wrap(Wrap(x) + y) == Wrap(x + y)
  {
    assert x == Wrap(x) + x / W64 * W64;
  }

  lemma CarveAligned(g: Region, bs: seq<Block>, i: nat, req: nat)
    requires ValidRegion(g) && Aligned(g, bs) && i < |bs| && Sufficient(bs[i], Rounded(req, g.align)) && 1 <= req < W64
    ensures Aligned(g, Carve(bs, i, Rounded(req, g.align), req))
  {
    var n := Rounded(req, g.align);
    CarveParts(bs, i, n, req);
    RoundedCovers(req, g.align);
    assert bs[i] in bs;
    MultipleSum(bs[i].addr, HEADER, g.align);
    MultipleSum(bs[i].addr + HEADER, n, g.align);
  }

  lemma TakenInv(g: Region, h: Heap, i: nat, req: nat)
    requires Inv(g, h) && i < |h.blocks| && Sufficient(h.blocks[i], Rounded(req, g.align)) && 1 <= req < W64
    ensures Inv(g, Taken(g, h, i, req))
  {
    var n := Rounded(req, g.align);
    CarveCoalesced(h.blocks, i, n, req);
    CarveTiles(h.blocks, g.base, g.base + g.size, i, n, req);
    CarveAligned(g, h.blocks, i, req);
    TakenCurrent(g, h, i, req);
  }

  lemma TakenCurrent(g: Region, h: Heap, i: nat, req: nat)
    requires g.align > 0 && i < |h.blocks| && Sufficient(h.blocks[i], Rounded(req, g.align))
    requires h.current == Wrap(InUse(h.blocks))
    ensures Taken(g, h, i, req).current == Wrap(InUse(Taken(g, h, i, req).blocks))
  {
    CarveParts(h.blocks, i, Rounded(req, g.align), req);
    WrapAdd(h.current, InUse(h.blocks), req, InUse(Taken(g, h, i, req).blocks));
  }

  lemma WrapAdd(c: nat, x: int, y: int, z: int)
    requires c == Wrap(x) && z == x + y
    ensures Wrap(c + y) == Wrap(z)
  {
    WrapSum(x, y);
  }

  lemma MallocInv(g: Region, h: Heap, size: nat)
    requires Inv(g, h) && size < W64
    ensures Inv(g, Malloc(g, h, size).0)
  {
    var n := Rounded(Request(size), g.align);
    BestFitIsBest(h.blocks, n);
    if BestFit(h.blocks, n).Some? {
      TakenInv(g, h, BestFit(h.blocks, n).value, Request(size));
    }
  }

  lemma ReleaseParts(bs: seq<Block>, i: nat)
    requires i < |bs| && bs[i].Used?
    ensures InUse(MarkedFree(bs, i)) + bs[i].original == InUse(bs)
    ensures forall b: Block :: b.Used? && b in MarkedFree(bs, i) ==> b in bs
  {
    var r := MarkedFree(bs, i);
    InUseAt(bs, i);
    InUseAt(r, i);
    assert r[..i] == bs[..i] && r[i + 1..] == bs[i + 1..];
  }

  lemma {:induction false} CoalesceAligned(g: Region, bs: seq<Block>)
    requires g.align > 0 && Aligned(g, bs)
    ensures Aligned(g, Coalesce(bs))
  {
    if bs != [] {
      CoalesceAligned(g, bs[1..]);
      var r := Coalesce(bs[1..]);
      assert r != [] ==> r[0] in r;
    }
  }

  lemma ReleaseAligned(g: Region, bs: seq<Block>, i: nat)
    requires g.align > 0 && Aligned(g, bs) && i < |bs|
    ensures Aligned(g, Coalesce(MarkedFree(bs, i)))
  {
    assert bs[i] in bs;
    CoalesceAligned(g, MarkedFree(bs, i));
  }

  lemma ReleaseList(bs: seq<Block>, base: nat, end: nat, i: nat)
    requires Tiles(bs, base, end) && i < |bs| && bs[i].Used?
    ensures var r := Coalesce(MarkedFree(bs, i));
      Tiles(r, base, end) && Coalesced(r) && InUse(r) + bs[i].original == InUse(bs)
  {
    var r := MarkedFree(bs, i);
    ReleaseParts(bs, i);
    TilesReplace(bs, base, end, i, r[i]);
    CoalesceTiles(r, base, end);
    CoalesceResult(r);
    CoalesceKeeps(r);
  }

  lemma ReleaseInv(g: Region, h: Heap, p: nat)
    requires Inv(g, h)
    ensures Inv(g, Release(h, p))
  {
    match Lookup(h.blocks, p)
    case None =>
    case Some(i) =>
      ReleaseList(h.blocks, g.base, g.base + g.size, i);
      ReleaseAligned(g, h.blocks, i);
      var original: int := h.blocks[i].original;
      WrapAdd(h.current, InUse(h.blocks), -original, InUse(Coalesce(MarkedFree(h.blocks, i))));
  }

  /** The header that free looks up for the pointer of a block at b is that block, if and only if
      the address behind the header is aligned. */
  lemma PointerFits(b: nat, a: nat)
    requires a > 0 && b + HEADER + a <= W64
    ensures AlignUp(b + HEADER, a) - HEADER == b <==> Multiple(b + HEADER, a)
  {
    RoundDownFacts(b + HEADER + a - 1, a);
    if Multiple(b + HEADER, a) {
      AlignUpFixed(b + HEADER, a);
    }
  }

  /** For a base with the pool alignment: if and only if the alignment divides the header. */
  lemma FirstPointerFits(base: nat, a: nat)
    requires a > 0 && Multiple(base, a) && base + HEADER + a <= W64
    ensures AlignUp(base + HEADER, a) - HEADER == base <==> Multiple(HEADER, a)
  {
    PointerFits(base, a);
    if Multiple(HEADER, a) {
      MultipleSum(base, HEADER, a);
    } else if Multiple(base + HEADER, a) {
      MultipleRest(base, HEADER, a);
    }
  }

  /** Where the code puts the block that it cuts off behind n bytes of a block at b. */
  function CutAt(b: nat, n: nat, a: nat): nat
    requires a > 0
  {
    AlignUp(b + HEADER + n, a)
  }

  lemma CutFacts(b: nat, n: nat, a: nat)
    requires a > 0 && Multiple(n, a) && b + HEADER + n + a <= W64
    ensures Multiple(CutAt(b, n, a), a) && CutAt(b, n, a) <= b + HEADER + n + a - 1
    ensures Multiple(b, a) && Multiple(HEADER, a) ==> CutAt(b, n, a) == b + HEADER + n
  {
    RoundDownFacts(b + HEADER + n + a - 1, a);
    if Multiple(b, a) && Multiple(HEADER, a) {
      MultipleSum(b, HEADER, a);
      MultipleSum(b + HEADER, n, a);
      AlignUpFixed(b + HEADER + n, a);
    }
  }

  lemma MultipleEither(x: nat, y: nat, a: nat)
    requires a > 0 && Multiple(x, a)
    ensures Multiple(x + y, a) <==> Multiple(y, a)
  {
    if Multiple(y, a) {
      MultipleSum(x, y, a);
    } else if Multiple(x + y, a) {
      MultipleRest(x, y, a);
    }
  }

  /** Any base: the first pointer of a pool and the first one behind a cut both fit if and only if
      the alignment divides base and header. */
  lemma FirstTwoPointersFit(base: nat, a: nat, n: nat)
    requires a > 0 && Multiple(n, a) && base + 2 * HEADER + n + 3 * a <= W64
    ensures
      (AlignUp(base + HEADER, a) - HEADER == base
       && AlignUp(CutAt(base, n, a) + HEADER, a) - HEADER == CutAt(base, n, a))
      <==> Multiple(base, a) && Multiple(HEADER, a)
  {
    var c := CutAt(base, n, a);
    CutFacts(base, n, a);
    PointerFits(base, a);
    PointerFits(c, a);
    MultipleEither(c, HEADER, a);
    if Multiple(HEADER, a) {
      MultipleEither(HEADER, base, a);
    }
  }

  /** A base that a system allocator with 16-byte blocks may return does not serve an alignment of 32. */
  lemma UnalignedBaseDoesNotFit()
    ensures Multiple(HEADER, 32) && !Multiple(4112, 32) && AlignUp(4112 + HEADER, 32) - HEADER != 4112
  {
    assert Multiple(HEADER, 32);
    RoundDownFacts(4096, 32);
    ManyTimes(128, 32);
    RoundDownFixed(4096, 16, 32);
    RoundDownFixed(4128, 16, 32);
    ManyTimes(129, 32);
    PointerFits(4112, 32);
  }

  lemma {:induction false} ManyTimes(k: nat, a: nat)
    requires a > 0
    ensures Multiple(k * a, a)
  {
    if k > 0 {
      ManyTimes(k - 1, a);
    }
  }

  lemma {:induction false} MultipleRest(x: nat, y: nat, a: nat)
    requires a > 0 && Multiple(x, a) && Multiple(x + y, a)
    ensures Multiple(y, a)
  {
    if x >= a {
      MultipleRest(x - a, y, a);
    }
  }

  /** An alignment of 64, which infra_memory_init accepts, misplaces every first pointer. */
  lemma SixtyFourDoesNotFit(base: nat)
    requires Multiple(base, 64) && base + HEADER + 64 <= W64
    ensures AlignUp(base + HEADER, 64) - HEADER == base + HEADER
  {
    RoundDownFixed(base, 0, 64);
    assert Multiple(64, 64);
    MultipleSum(base, 64, 64);
    RoundDownFixed(base + 64, 31, 64);
  }

  // ------------------------------------------------------------ what malloc and free give

  /** The bytes that a client may use through p are those of one used block. */
  ghost predicate Owns(bs: seq<Block>, p: nat, bytes: nat) {
    exists i :: 0 <= i < |bs| && bs[i].Used? && Pointer(bs[i]) == p && p + bytes <= End(bs[i])
  }

  lemma LiveIff(bs: seq<Block>, p: nat)
    ensures p in Live(bs) <==> exists b :: b in bs && b.Used? && Pointer(b) == p
  {
    if p in Live(bs) {
      var i :| 0 <= i < |bs| && bs[i].Used? && Pointer(bs[i]) == p;
      assert bs[i] in bs;
    }
    if exists b :: b in bs && b.Used? && Pointer(b) == p {
      var b :| b in bs && b.Used? && Pointer(b) == p;
      var i :| 0 <= i < |bs| && bs[i] == b;
      assert bs[i].Used?;
    }
  }

  lemma CarveLive(bs: seq<Block>, i: nat, n: nat, req: nat)
    requires i < |bs| && bs[i].Free? && bs[i].size >= n
    ensures Live(Carve(bs, i, n, req)) == Live(bs) + {Pointer(bs[i])}
  {
    var r := Carve(bs, i, n, req);
    CarveParts(bs, i, n, req);
    assert r[i] in r && Pointer(r[i]) == Pointer(bs[i]);
    forall p
      ensures p in Live(r) <==> p in Live(bs) + {Pointer(bs[i])}
    {
      LiveIff(r, p);
      LiveIff(bs, p);
    }
  }

  lemma TakenOwns(g: Region, h: Heap, i: nat, size: nat)
    requires Inv(g, h) && i < |h.blocks| && Sufficient(h.blocks[i], Rounded(Request(size), g.align)) && size < W64
    ensures var r := Taken(g, h, i, Request(size));
      Owns(r.blocks, Pointer(h.blocks[i]), size) <==> size + 2 * (g.align - 1) < W64
  {
    var req := Request(size);
    var n := Rounded(req, g.align);
    var r := Carve(h.blocks, i, n, req);
    CarveParts(h.blocks, i, n, req);
    RoundedCovers(req, g.align);
    assert Pointer(r[i]) == Pointer(h.blocks[i]);
    if Owns(r, Pointer(h.blocks[i]), size) {
      TakenInv(g, h, i, req);
      OwnedFits(g, Taken(g, h, i, req), Pointer(h.blocks[i]), size);
    }
  }

  /** Malloc returns an aligned pointer to fresh bytes and leaves every live block as it is.  The
      bytes cover the request if and only if rounding it up does not wrap a size_t. */
  lemma MallocGives(g: Region, h: Heap, size: nat)
    requires Inv(g, h) && size < W64
    ensures var (r, p) := Malloc(g, h, size);
      p != 0 ==>
        && Multiple(p, g.align) && p !in Live(h.blocks) && Live(r.blocks) == Live(h.blocks) + {p}
        && (forall b: Block :: b.Used? && b in h.blocks ==> b in r.blocks)
        && (Owns(r.blocks, p, size) <==> size + 2 * (g.align - 1) < W64)
        && r.current == Wrap(h.current + if size == 0 then 1 else size)
  {
    var n := Rounded(Request(size), g.align);
    BestFitIsBest(h.blocks, n);
    if BestFit(h.blocks, n).Some? {
      var i := BestFit(h.blocks, n).value;
      PointerIsPayload(g, h, i);
      CarveParts(h.blocks, i, n, Request(size));
      CarveLive(h.blocks, i, n, Request(size));
      NotLive(g, h, i);
      TakenOwns(g, h, i, size);
    }
  }

  /** Such a request is served: the largest one gets a block of a single alignment unit from a fresh
      pool, and the pointer does not own the bytes. */
  lemma WrappedRequestIsServed(g: Region)
    requires ValidRegion(g) && HEADER + g.align <= g.size
    ensures var (r, p) := Malloc(g, Init(g), W64 - 1);
      p != 0 && Rounded(W64 - 1, g.align) == g.align && !Owns(r.blocks, p, W64 - 1)
  {
    var h, a := Init(g), g.align;
    InitInv(g);
    RoundDownFixed(a, a - 3, a);
    assert Sufficient(h.blocks[0], Rounded(W64 - 1, a));
    BestFitIsBest(h.blocks, a);
    PointerIsPayload(g, h, 0);
    MallocGives(g, h, W64 - 1);
  }

  lemma OwnedFits(g: Region, h: Heap, p: nat, bytes: nat)
    requires Inv(g, h) && Owns(h.blocks, p, bytes)
    ensures bytes <= g.size && bytes + 2 * HEADER < W64
  {
    var i :| 0 <= i < |h.blocks| && h.blocks[i].Used? && Pointer(h.blocks[i]) == p && p + bytes <= End(h.blocks[i]);
    TilesBounds(h.blocks, g.base, g.base + g.size, i);
  }

  lemma PointerIsPayload(g: Region, h: Heap, i: nat)
    requires Inv(g, h) && i < |h.blocks|
    ensures AlignUp(Pointer(h.blocks[i]), g.align) == Pointer(h.blocks[i]) != 0
    ensures Multiple(Pointer(h.blocks[i]), g.align)
  {
    TilesBounds(h.blocks, g.base, g.base + g.size, i);
    assert h.blocks[i] in h.blocks;
    MultipleSum(h.blocks[i].addr, HEADER, g.align);
    AlignUpFixed(Pointer(h.blocks[i]), g.align);
  }

  lemma NotLive(g: Region, h: Heap, i: nat)
    requires Inv(g, h) && i < |h.blocks| && h.blocks[i].Free?
    ensures Pointer(h.blocks[i]) !in Live(h.blocks)
  {
    forall j | 0 <= j < |h.blocks| && h.blocks[j].Used?
      ensures Pointer(h.blocks[j]) != Pointer(h.blocks[i])
    {
      PayloadsDisjoint(h.blocks, g.base, g.base + g.size, i, j);
    }
  }

  /** Malloc fails exactly when no stretch of unallocated pool bytes has room for a header and
      the rounded request. */
  lemma MallocFailsRounded(g: Region, h: Heap, size: nat)
    requires Inv(g, h)
    ensures Malloc(g, h, size).1 == 0 <==> NoRoom(g, h, Rounded(Request(size), g.align))
  {
    var n := Rounded(Request(size), g.align);
    FailureIsExact(h.blocks, g.base, g.base + g.size, n);
    BestFitIsBest(h.blocks, n);
    if BestFit(h.blocks, n).Some? {
      PointerIsPayload(g, h, BestFit(h.blocks, n).value);
    }
  }

  /** No stretch of unallocated pool bytes has room for a header and n bytes. */
  ghost predicate NoRoom(g: Region, h: Heap, n: nat) {
    forall lo, hi :: g.base <= lo <= hi <= g.base + g.size && Untouched(h.blocks, lo, hi) ==> hi - lo < HEADER + n
  }

  /** n is the greatest multiple of the alignment that is at most x. */
  predicate IsGreatest(n: nat, k: nat, x: nat, a: nat) { n == k * a && n <= x < n + a }

  lemma GreatestIs(n: nat, k: nat, x: nat, a: nat)
    requires a > 0 && IsGreatest(n, k, x, a)
    ensures RoundDown(x, a) == n
  {
    ManyTimes(k, a);
    RoundDownFixed(n, x - n, a);
  }

  lemma RoundedIs(n: nat, k: nat, size: nat, a: nat)
    requires 0 < a <= HEADER && size + 2 * (a - 1) < W64 && IsGreatest(n, k, size + 2 * (a - 1), a)
    ensures Rounded(size, a) == n
  {
    GreatestIs(n, k, size + 2 * (a - 1), a);
  }

  /** Without wrap-around: exactly when there is no room for the greatest multiple of the alignment that is
      at most size + 2 * (align - 1), where a size of 0 counts as 1. */
  lemma MallocFailsIff(g: Region, h: Heap, size: nat, n: nat, k: nat)
    requires Inv(g, h) && size + 2 * (g.align - 1) < W64
    requires IsGreatest(n, k, (if size == 0 then 1 else size) + 2 * (g.align - 1), g.align)
    ensures Malloc(g, h, size).1 == 0 <==> NoRoom(g, h, n)
  {
    RoundedIs(n, k, if size == 0 then 1 else size, g.align);
    MallocFailsRounded(g, h, size);
  }

  lemma Unique(g: Region, h: Heap, i: nat, j: nat)
    requires Inv(g, h) && i < |h.blocks| && j < |h.blocks| && Pointer(h.blocks[i]) == Pointer(h.blocks[j])
    ensures i == j
  {
    if i != j {
      PayloadsDisjoint(h.blocks, g.base, g.base + g.size, i, j);
    }
  }

  lemma ReleaseUsed(bs: seq<Block>, i: nat)
    requires i < |bs| && bs[i].Used?
    ensures var r := Coalesce(MarkedFree(bs, i));
      forall b: Block :: b.Used? && Pointer(b) != Pointer(bs[i]) ==> (b in r <==> b in bs)
  {
    var r := MarkedFree(bs, i);
    CoalesceKeeps(r);
    assert r == bs[..i] + [r[i]] + bs[i + 1..];
    assert bs == bs[..i] + [bs[i]] + bs[i + 1..];
  }

  /** Free forgets exactly the block of p, and leaves every other live block as it is. */
  lemma ReleaseGives(g: Region, h: Heap, p: nat)
    requires Inv(g, h)
    ensures Live(Release(h, p).blocks) == Live(h.blocks) - {p}
    ensures forall b: Block :: b.Used? && Pointer(b) != p ==> (b in Release(h, p).blocks <==> b in h.blocks)
  {
    match Lookup(h.blocks, p)
    case None =>
      LiveIff(h.blocks, p);
    case Some(i) =>
      ReleaseUsed(h.blocks, i);
      ReleasedGone(g, h, i);
      CoalesceKeeps(MarkedFree(h.blocks, i));
      LiveMinus(h.blocks, Release(h, p).blocks, p);
  }

  lemma LiveMinus(bs: seq<Block>, r: seq<Block>, p: nat)
    requires forall b: Block :: b.Used? && Pointer(b) != p ==> (b in r <==> b in bs)
    requires forall b :: b in r && b.Used? ==> Pointer(b) != p
    ensures Live(r) == Live(bs) - {p}
  {
    forall q
      ensures q in Live(r) <==> q in Live(bs) - {p}
    {
      LiveIff(r, q);
      LiveIff(bs, q);
    }
  }

  lemma ReleasedGone(g: Region, h: Heap, i: nat)
    requires Inv(g, h) && i < |h.blocks| && h.blocks[i].Used?
    ensures forall b :: b in MarkedFree(h.blocks, i) && b.Used? ==> Pointer(b) != Pointer(h.blocks[i])
  {
    var r := MarkedFree(h.blocks, i);
    forall b | b in r && b.Used?
      ensures Pointer(b) != Pointer(h.blocks[i])
    {
      var j :| 0 <= j < |r| && r[j] == b;
      if Pointer(b) == Pointer(h.blocks[i]) {
        Unique(g, h, j, i);
      }
    }
  }

  // ------------------------------------------------------------ undoing

  lemma CarveReleaseCoalesce(bs: seq<Block>, i: nat, n: nat, original: nat)
    requires i < |bs| && bs[i].Free? && bs[i].size >= n && Coalesced(bs)
    ensures Coalesce(MarkedFree(Carve(bs, i, n, original), i)) == bs
  {
    var c := Carve(bs, i, n, original);
    var r := MarkedFree(c, i);
    if |c| > |bs| {
      var p, q := bs[..i], bs[i + 1..];
      assert r == p + [r[i], r[i + 1]] + q;
      CoalescePair(p, r[i], r[i + 1], q);
      assert Merge(r[i], r[i + 1]) == bs[i];
      assert p + [bs[i]] + q == bs;
    } else {
      assert r == bs;
    }
    CoalesceDone(bs);
  }

  lemma TakenThenFree(g: Region, h: Heap, i: nat, req: nat)
    requires Inv(g, h) && i < |h.blocks| && Sufficient(h.blocks[i], Rounded(req, g.align)) && 1 <= req < W64
    ensures var r := Release(Taken(g, h, i, req), Pointer(h.blocks[i]));
      r.blocks == h.blocks && r.current == h.current
  {
    var t := Taken(g, h, i, req);
    TakenInv(g, h, i, req);
    CarveParts(h.blocks, i, Rounded(req, g.align), req);
    LookupFinds(g, t, i);
    CarveReleaseCoalesce(h.blocks, i, Rounded(req, g.align), req);
    ReleaseInv(g, t, Pointer(t.blocks[i]));
  }

  /** A free straight after its malloc restores the block list exactly. */
  lemma MallocThenFree(g: Region, h: Heap, size: nat)
    requires Inv(g, h) && size < W64
    ensures var (r, p) := Malloc(g, h, size);
      p != 0 ==> Release(r, p).blocks == h.blocks && Release(r, p).current == h.current
  {
    var n := Rounded(Request(size), g.align);
    BestFitIsBest(h.blocks, n);
    if BestFit(h.blocks, n).Some? {
      var i := BestFit(h.blocks, n).value;
      PointerIsPayload(g, h, i);
      TakenThenFree(g, h, i, Request(size));
    }
  }

  lemma LookupFinds(g: Region, h: Heap, i: nat)
    requires Inv(g, h) && i < |h.blocks| && h.blocks[i].Used?
    ensures Lookup(h.blocks, Pointer(h.blocks[i])) == Some(i)
  {
    var r := Lookup(h.blocks, Pointer(h.blocks[i]));
    assert r.Some?;
    Unique(g, h, r.value, i);
  }

  /** With nothing live the pool is one free block again. */
  lemma NothingLive(g: Region, h: Heap)
    requires Inv(g, h) && Live(h.blocks) == {}
    ensures h.blocks == Init(g).blocks && h.current == 0
  {
    var bs := h.blocks;
    assert forall i :: 0 <= i < |bs| && bs[i].Used? ==> Pointer(bs[i]) in Live(bs);
    assert bs[0].Free?;
    assert |bs| == 1;
    assert bs == [bs[0]] && bs[1..] == [];
    assert InUse(bs) == 0;
  }

  function ReleaseAll(h: Heap, ps: seq<nat>): Heap {
    if ps == [] then h else Release(ReleaseAll(h, ps[..|ps| - 1]), ps[|ps| - 1])
  }

  lemma {:induction false} ReleaseAllGives(g: Region, h: Heap, ps: seq<nat>)
    requires Inv(g, h)
    ensures Inv(g, ReleaseAll(h, ps))
    ensures Live(ReleaseAll(h, ps).blocks) == Live(h.blocks) - (set p | p in ps)
  {
    if ps != [] {
      var k := |ps| - 1;
      var m := ReleaseAll(h, ps[..k]);
      ReleaseAllGives(g, h, ps[..k]);
      ReleaseInv(g, m, ps[k]);
      ReleaseGives(g, m, ps[k]);
      MembersOf(ps, k);
    }
  }

  lemma MembersOf(ps: seq<nat>, k: nat)
    requires |ps| == k + 1
    ensures (set p | p in ps) == (set p | p in ps[..k]) + {ps[k]}
  {
    assert ps == ps[..k] + [ps[k]];
  }

  // ------------------------------------------------------------ runs

  datatype Op = Alloc(size: nat) | Dealloc(p: nat)

  function Apply(g: Region, h: Heap, op: Op): Heap
    requires g.align > 0
  {
    match op
    case Alloc(size) => Malloc(g, h, size).0
    case Dealloc(p) => Release(h, p)
  }

  function Run(g: Region, ops: seq<Op>): Heap
    requires ValidRegion(g)
  {
    if ops == [] then Init(g) else Apply(g, Run(g, ops[..|ops| - 1]), ops[|ops| - 1])
  }

  predicate FitsWord(op: Op) { op.Alloc? ==> op.size < W64 }

  lemma {:induction false} RunInv(g: Region, ops: seq<Op>)
    requires ValidRegion(g) && forall op :: op in ops ==> FitsWord(op)
    ensures Inv(g, Run(g, ops))
  {
    if ops == [] {
      InitInv(g);
    } else {
      var k := |ops| - 1;
      RunInv(g, ops[..k]);
      assert FitsWord(ops[k]);
      match ops[k]
      case Alloc(size) => MallocInv(g, Run(g, ops[..k]), size);
      case Dealloc(p) => ReleaseInv(g, Run(g, ops[..k]), p);
    }
  }

  /** After any run, freeing every live pointer in any order restores the initial block. */
  lemma FreeingAllRestores(g: Region, ops: seq<Op>, ps: seq<nat>)
    requires ValidRegion(g) && forall op :: op in ops ==> FitsWord(op)
    requires Live(Run(g, ops).blocks) <= set p | p in ps
    ensures ReleaseAll(Run(g, ops), ps).blocks == Init(g).blocks
    ensures ReleaseAll(Run(g, ops), ps).current == 0
  {
    var h := Run(g, ops);
    RunInv(g, ops);
    ReleaseAllGives(g, h, ps);
    NothingLive(g, ReleaseAll(h, ps));
  }

  // ------------------------------------------------------------ statistics

  /** A request whose rounding does not wrap. */
  predicate Modest(g: Region, op: Op) { op.Alloc? ==> op.size + 2 * (g.align - 1) < W64 }

  /** The greatest usage that the run has seen. */
  function Greatest(g: Region, ops: seq<Op>): nat
    requires ValidRegion(g)
  {
    var now := Run(g, ops).current;
    if ops == [] then now
    else
      var before := Greatest(g, ops[..|ops| - 1]);
      if now > before then now else before
  }

  lemma {:induction false} InUseBound(bs: seq<Block>)
    requires forall b :: b in bs && b.Used? ==> b.original <= b.size
    ensures InUse(bs) + |bs| * HEADER <= TotalSize(bs)
  {
    if bs != [] {
      assert bs == [bs[0]] + bs[1..];
      InUseBound(bs[1..]);
    }
  }

  /** A used block of a modest request wastes at most 2 * (align - 1) bytes of rounding and the
      two headers that are too small to be cut off. */
  lemma WasteBound(g: Region, b: Block)
    requires ValidRegion(g) && b.Used? && WellUsed(g, b) && b.original + 2 * (g.align - 1) < W64
    ensures b.original <= b.size <= b.original + 2 * (g.align - 1) + 2 * HEADER
  {
    RoundedCovers(b.original, g.align);
  }

  ghost predicate AllModest(g: Region, bs: seq<Block>) {
    forall b :: b in bs && b.Used? ==> b.original + 2 * (g.align - 1) < W64
  }

  lemma ModestUsage(g: Region, h: Heap)
    requires Inv(g, h) && AllModest(g, h.blocks)
    ensures h.current == InUse(h.blocks) && InUse(h.blocks) <= g.size
  {
    forall b | b in h.blocks && b.Used?
      ensures b.original <= b.size
    {
      WasteBound(g, b);
    }
    InUseBound(h.blocks);
    TilesTotal(h.blocks, g.base, g.base + g.size);
  }

  lemma ModestStep(g: Region, h: Heap, op: Op)
    requires Inv(g, h) && AllModest(g, h.blocks) && FitsWord(op) && Modest(g, op)
    ensures AllModest(g, Apply(g, h, op).blocks)
  {
    match op
    case Alloc(size) =>
      var n := Rounded(Request(size), g.align);
      BestFitIsBest(h.blocks, n);
      if BestFit(h.blocks, n).Some? {
        CarveParts(h.blocks, BestFit(h.blocks, n).value, n, Request(size));
      }
    case Dealloc(p) =>
      ReleaseGives(g, h, p);
      if Lookup(h.blocks, p).Some? {
        CoalesceKeeps(MarkedFree(h.blocks, Lookup(h.blocks, p).value));
      }
  }

  /** The statistics tell the truth over every run of modest requests: current_usage is the sum
      of the requested sizes of the live blocks, and peak_usage is the most it ever was. */
  lemma {:induction false} StatisticsHonest(g: Region, ops: seq<Op>)
    requires ValidRegion(g) && forall op :: op in ops ==> FitsWord(op) && Modest(g, op)
    ensures var h := Run(g, ops);
      && Inv(g, h) && AllModest(g, h.blocks)
      && h.current == InUse(h.blocks) <= g.size && h.peak == Greatest(g, ops) >= h.current
  {
    RunInv(g, ops);
    if ops != [] {
      var k := |ops| - 1;
      StatisticsHonest(g, ops[..k]);
      assert FitsWord(ops[k]) && Modest(g, ops[k]);
      ModestStep(g, Run(g, ops[..k]), ops[k]);
      StatisticsStep(g, Run(g, ops[..k]), ops[k]);
    }
    ModestUsage(g, Run(g, ops));
  }

  lemma StatisticsStep(g: Region, h: Heap, op: Op)
    requires Inv(g, h) && AllModest(g, h.blocks) && FitsWord(op) && Modest(g, op) && h.current <= h.peak
    ensures var r := Apply(g, h, op);
      r.peak == if r.current > h.peak then r.current else h.peak
  {
    match op
    case Alloc(size) =>
    case Dealloc(p) =>
      ModestUsage(g, h);
      match Lookup(h.blocks, p) {
        case None =>
        case Some(i) => InUseAt(h.blocks, i);
      }
  }
}
