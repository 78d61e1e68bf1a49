/** A malloc step by step: which block it takes, how it cuts it, and what it counts. */
module MemExact {
  import opened InfraTypes
  import opened MemBlocks
  import opened MemHeap

  /** Block i is free, has room for n bytes, and is the first of the smallest ones. */
  ghost predicate IsBest(bs: seq<Block>, i: nat, n: nat) {
    && i < |bs| && bs[i].Free? && bs[i].size >= n
    && forall j :: 0 <= j < |bs| && bs[j].Free? && bs[j].size >= n ==>
         bs[i].size <= bs[j].size && (j < i ==> bs[i].size < bs[j].size)
  }

  /** What takes the place of a free block from which n bytes are used for req requested ones: two blocks
      if more than two headers are left, and otherwise one. */
  function Pieces(b: Block, n: nat, req: nat): seq<Block>
    requires b.size >= n
  {
    if b.size - n > 64 then [Used(b.addr, n, req), MemBlocks.Free(b.addr + 32 + n, b.size - n - 32)]
    else [Used(b.addr, b.size, req)]
  }

  lemma CarvePieces(bs: seq<Block>, i: nat, n: nat, req: nat)
    requires i < |bs| && bs[i].size >= n
    ensures Carve(bs, i, n, req) == bs[..i] + Pieces(bs[i], n, req) + bs[i + 1..]
  {
    var b := Used(bs[i].addr, bs[i].size, req);
    assert bs[i := b] == bs[..i] + [b] + bs[i + 1..];
  }

  lemma MallocTakesBest(g: Region, h: Heap, size: nat, n: nat) returns (i: nat)
    requires Inv(g, h) && Malloc(g, h, size).1 != 0 && n == Rounded(Request(size), g.align)
    ensures IsBest(h.blocks, i, n)
    ensures var (r, p) := Malloc(g, h, size);
      p == Pointer(h.blocks[i]) && r.blocks == Carve(h.blocks, i, n, Request(size))
  {
    BestFitIsBest(h.blocks, n);
    i := BestFit(h.blocks, n).value;
    PointerIsPayload(g, h, i);
  }

  /** Without wrap-around a malloc that succeeds takes the best fit for the rounded size, cuts it, and
      leaves all other blocks as they are. */
  lemma MallocPlaces(g: Region, h: Heap, size: nat, n: nat, k: nat) returns (i: nat)
    requires Inv(g, h) && size + 2 * (g.align - 1) < W64 && Malloc(g, h, size).1 != 0
    requires IsGreatest(n, k, (if size == 0 then 1 else size) + 2 * (g.align - 1), g.align)
    ensures var (r, p) := Malloc(g, h, size);
      && IsBest(h.blocks, i, n) && p == h.blocks[i].addr + 32
      && r.blocks == h.blocks[..i] + Pieces(h.blocks[i], n, if size == 0 then 1 else size) + h.blocks[i + 1..]
  {
    var req := if size == 0 then 1 else size;
    RoundedIs(n, k, req, g.align);
    i := MallocTakesBest(g, h, size, n);
    CarvePieces(h.blocks, i, n, req);
  }

  /** A malloc that fails changes nothing. */
  lemma FailureChangesNothing(g: Region, h: Heap, size: nat)
    requires Inv(g, h) && Malloc(g, h, size).1 == 0
    ensures Malloc(g, h, size).0 == h
  {
    var n := Rounded(Request(size), g.align);
    BestFitIsBest(h.blocks, n);
    if BestFit(h.blocks, n).Some? {
      PointerIsPayload(g, h, BestFit(h.blocks, n).value);
    }
  }

  predicate Succeeds(g: Region, h: Heap, op: Op)
    requires g.align > 0
  {
    op.Alloc? && Malloc(g, h, op.size).1 != 0
  }

  /** The mallocs of a run that return a pointer. */
  function Successes(g: Region, ops: seq<Op>): nat
    requires ValidRegion(g)
  {
    if ops == [] then 0
    else
      var k := |ops| - 1;
      Successes(g, ops[..k]) + if Succeeds(g, Run(g, ops[..k]), ops[k]) then 1 else 0
  }

  lemma CountOne(n: nat, total: nat, next: nat, counted: bool)
    requires total == Wrap(n) && next == if counted then Wrap(total + 1) else total
    ensures next == Wrap(n + if counted then 1 else 0)
  {
    WrapSum(n, 1);
  }

  lemma {:induction false} TotalWraps(g: Region, ops: seq<Op>)
    requires ValidRegion(g) && forall op :: op in ops ==> FitsWord(op)
    ensures Run(g, ops).total == Wrap(Successes(g, ops))
  {
    if ops != [] {
      var k := |ops| - 1;
      var h := Run(g, ops[..k]);
      TotalWraps(g, ops[..k]);
      RunInv(g, ops[..k]);
      TotalStep(g, h, ops[k]);
      CountOne(Successes(g, ops[..k]), h.total, Run(g, ops).total, Succeeds(g, h, ops[k]));
    }
  }

  /** total_allocations counts them modulo 2^64. */
  lemma TotalCounts(g: Region, ops: seq<Op>)
    requires ValidRegion(g) && forall op :: op in ops ==> FitsWord(op)
    ensures Run(g, ops).total == Successes(g, ops) % 0x1_0000_0000_0000_0000
  {
    TotalWraps(g, ops);
  }

  lemma TotalStep(g: Region, h: Heap, op: Op)
    requires Inv(g, h)
    ensures Apply(g, h, op).total == if Succeeds(g, h, op) then Wrap(h.total + 1) else h.total
  {
    match op
    case Dealloc(_) =>
    case Alloc(size) =>
      var n := Rounded(Request(size), g.align);
      BestFitIsBest(h.blocks, n);
      if BestFit(h.blocks, n).Some? {
        PointerIsPayload(g, h, BestFit(h.blocks, n).value);
      }
  }
}
