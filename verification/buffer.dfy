/** The growable byte buffer (infra_buffer_*): contents, growth and the cost of growing. */
module Buffers {
  import opened InfraTypes

  /** size_t arithmetic wraps at W64; no object is as large as HALF (PTRDIFF_MAX + 1).  Below,
      `available` says that the allocator returns a block with the bytes asked for, and so never holds
      for sizes from HALF on. */
  const HALF := 0x8000_0000_0000_0000

  function Max(a: int, b: int): int { if a < b then b else a }

  class Buffer {
    var data: array<Byte>
    var size: nat
    var capacity: nat
    ghost var initial: nat
    ghost var peak: nat
    ghost var moved: nat

    ghost predicate Valid()
      reads this
    {
      size <= capacity == data.Length && 0 < capacity < HALF && size <= peak
    }

    /** The bounds of a buffer that has grown only by writes: peak is the largest size it had,
        moved the number of bytes that all its reallocations may have copied. */
    ghost predicate Frugal()
      reads this
    {
      && capacity <= Max(initial, 2 * peak)
      && moved + initial <= capacity
    }

    ghost function Contents(): seq<Byte>
      requires Valid()
      reads this, data
    {
      data[..size]
    }

    /** infra_buffer_init with its memory. */
    constructor (capacity: nat)
      requires 0 < capacity < HALF
      ensures Valid() && Frugal() && fresh(data) && Contents() == []
      ensures this.capacity == initial == capacity && peak == moved == 0
    {
      data := new Byte[capacity];
      size, this.capacity := 0, capacity;
      initial, peak, moved := capacity, 0, 0;
    }

    /** A reallocation may copy the whole old block.  One that grows a buffer keeps the bounds of Frugal
        exactly when it grows it by enough, and by no more than its contents have ever called for. */
    method Reserve(capacity: nat, available: bool) returns (status: Status)
      requires Valid() && capacity < W64 && (available ==> capacity < HALF)
      modifies this`data, this`capacity, this`moved
      ensures Valid() && Contents() == old(Contents()) && (data == old(data) || fresh(data))
      ensures status == if capacity <= old(this.capacity) || available then OK else NO_MEMORY
      ensures this.capacity == if status == OK then Max(old(this.capacity), capacity) else old(this.capacity)
      ensures moved == old(moved) + if this.capacity > old(this.capacity) then old(this.capacity) else 0
      ensures status == OK && capacity > old(this.capacity) ==>
              (moved + initial <= this.capacity <==> old(moved) + initial + old(this.capacity) <= capacity)
      ensures status == OK && capacity > old(this.capacity) && old(Frugal()) ==>
              (Frugal() <==> old(moved) + initial + old(this.capacity) <= capacity <= Max(initial, 2 * peak))
    {
      if capacity <= this.capacity {
        return OK;
      }
      if !available {
        return NO_MEMORY;
      }
      var newData := new Byte[capacity];
      forall i | 0 <= i < this.capacity {
        newData[i] := data[i];
      }
      moved := moved + this.capacity;
      data := newData;
      this.capacity := capacity;
      return OK;
    }

    /** A write needs room that a buffer of this size and capacity lacks. */
    predicate Lacks(n: nat)
      reads this
    {
      size + n > capacity
    }

    /** The capacity that a write of n more bytes asks for. */
    function Wanted(n: nat): nat
      reads this
    {
      if Lacks(n) then Max(2 * capacity, size + n) else capacity
    }

    /** The growth at the start of a write, in size_t arithmetic. */
    method MakeRoom(n: nat, available: bool) returns (status: Status)
      requires Valid() && n < HALF && (available ==> Wanted(n) < HALF)
      modifies this`data, this`capacity, this`moved
      ensures Valid() && Contents() == old(Contents()) && (data == old(data) || fresh(data))
      ensures status == if old(size) + n > old(capacity) && !available then NO_MEMORY else OK
      ensures capacity == if status == OK then old(Wanted(n)) else old(capacity)
      ensures moved == old(moved) + if capacity > old(capacity) then old(capacity) else 0
    {
      status := OK;
      if (size + n) % W64 > capacity {
        var newCapacity := capacity * 2 % W64;
        if newCapacity < (size + n) % W64 {
          newCapacity := (size + n) % W64;
        }
        status := Reserve(newCapacity, available);
      }
    }

    method Append(chunk: seq<Byte>)
      requires Valid() && size + |chunk| <= capacity
      modifies this`size, this`peak, data
      ensures Valid() && Contents() == old(Contents()) + chunk && peak == Max(old(peak), size)
    {
      forall i | 0 <= i < |chunk| {
        data[size + i] := chunk[i];
      }
      size := (size + |chunk|) % W64;
      peak := Max(peak, size);
    }

    method Write(chunk: seq<Byte>, available: bool) returns (status: Status)
      requires Valid() && |chunk| < HALF && (available ==> Wanted(|chunk|) < HALF)
      modifies this, data
      ensures Valid() && (data == old(data) || fresh(data)) && initial == old(initial)
      ensures status == if chunk == [] then INVALID_PARAM
                        else if old(size) + |chunk| > old(capacity) && !available then NO_MEMORY
                        else OK
      ensures Contents() == old(Contents()) + if status == OK then chunk else []
      ensures status == OK && old(size) + |chunk| > old(capacity) ==>
                && capacity >= 2 * old(capacity) && capacity >= size
                && (capacity == 2 * old(capacity) || capacity == size)
      ensures status != OK || old(size) + |chunk| <= old(capacity) ==> capacity == old(capacity)
      ensures moved == old(moved) + if capacity > old(capacity) then old(capacity) else 0
      ensures peak == Max(old(peak), size)
      ensures old(Frugal()) ==> Frugal()
    {
      if chunk == [] {
        return INVALID_PARAM;
      }
      status := MakeRoom(|chunk|, available);
      if status != OK {
        return;
      }
      Append(chunk);
    }

    method Reset()
      requires Valid()
      modifies this`size
      ensures Valid() && Contents() == [] && (old(Frugal()) ==> Frugal())
    {
      size := 0;
    }
  }

  /** infra_buffer_init */
  method Init(capacity: nat, available: bool) returns (status: Status, buffer: Buffer?)
    requires available ==> capacity < HALF
    ensures status == if capacity == 0 then INVALID_PARAM else if available then OK else NO_MEMORY
    ensures (buffer != null) == (status == OK)
    ensures buffer != null ==> buffer.Valid() && buffer.Frugal()
    ensures buffer != null ==> buffer.Contents() == [] && buffer.capacity == capacity
  {
    if capacity == 0 {
      return INVALID_PARAM, null;
    }
    if !available {
      return NO_MEMORY, null;
    }
    buffer := new Buffer(capacity);
    status := OK;
  }

  // ------------------------------------------------------------ runs

  datatype Op = Write(chunk: seq<Byte>, available: bool) | Reset

  predicate WellFormed(op: Op) { op.Write? ==> |op.chunk| < HALF }

  /** A write with memory to be had and sizes far from the limits. */
  predicate Granted(op: Op, capacity: nat, peak: nat) {
    op.Write? && op.available && op.chunk != [] && 2 * (capacity + peak + |op.chunk|) < HALF
  }

  /** What an operation with that status makes of the contents. */
  function After(before: seq<Byte>, op: Op, status: Status): seq<Byte> {
    match op
    case Reset => []
    case Write(chunk, _) => before + if status == OK then chunk else []
  }

  /** What the buffer holds after each operation is decided by the statuses of the writes. */
  function Replay(ops: seq<Op>, statuses: seq<Status>): seq<Byte>
    requires |statuses| == |ops|
  {
    if ops == [] then [] else var n := |ops| - 1; After(Replay(ops[..n], statuses[..n]), ops[n], statuses[n])
  }

  /** The most bytes that it has held. */
  function Largest(ops: seq<Op>, statuses: seq<Status>): nat
    requires |statuses| == |ops|
  {
    if ops == [] then 0 else var n := |ops| - 1; Max(Largest(ops[..n], statuses[..n]), |Replay(ops, statuses)|)
  }

  /** The chunks that were accepted, one for each operation. */
  function Accepted(ops: seq<Op>, statuses: seq<Status>): seq<seq<Byte>>
    requires |statuses| == |ops|
  {
    seq(|ops|, i requires 0 <= i < |ops| => if ops[i].Write? && statuses[i] == OK then ops[i].chunk else [])
  }

  /** That is: the chunks accepted since the last reset, one after the other. */
  lemma {:induction false} SinceReset(ops: seq<Op>, statuses: seq<Status>, k: nat)
    requires |statuses| == |ops| && k <= |ops| && (k == 0 || ops[k - 1].Reset?)
    requires forall i :: k <= i < |ops| ==> ops[i].Write?
    ensures Replay(ops, statuses) == Flatten(Accepted(ops, statuses)[k..])
    decreases |ops|
  {
    if k < |ops| {
      var n := |ops| - 1;
      SinceReset(ops[..n], statuses[..n], k);
      var a := Accepted(ops, statuses);
      assert Accepted(ops[..n], statuses[..n]) == a[..n];
      FlattenLast(a, k);
    }
  }

  lemma FlattenLast(lists: seq<seq<Byte>>, k: nat)
    requires k < |lists|
    ensures Flatten(lists[k..]) == Flatten(lists[..|lists| - 1][k..]) + lists[|lists| - 1]
  {
    assert lists[k..][..|lists| - 1 - k] == lists[..|lists| - 1][k..];
  }

  lemma Extended(ops: seq<Op>, statuses: seq<Status>, i: nat, status: Status)
    requires i < |ops| && |statuses| == i
    ensures Replay(ops[..i + 1], statuses + [status]) == After(Replay(ops[..i], statuses), ops[i], status)
    ensures Largest(ops[..i + 1], statuses + [status])
         == Max(Largest(ops[..i], statuses), |Replay(ops[..i + 1], statuses + [status])|)
  {
    assert ops[..i + 1][..i] == ops[..i] && (statuses + [status])[..i] == statuses;
  }

  method Perform(buffer: Buffer, op: Op) returns (status: Status)
    requires buffer.Valid() && buffer.Frugal() && WellFormed(op)
    modifies buffer, buffer.data
    ensures buffer.Valid() && buffer.Frugal() && buffer.initial == old(buffer.initial)
    ensures buffer.data == old(buffer.data) || fresh(buffer.data)
    ensures buffer.Contents() == After(old(buffer.Contents()), op, status)
    ensures buffer.peak == Max(old(buffer.peak), buffer.size)
    ensures Granted(op, old(buffer.initial), buffer.peak) ==> status == OK
  {
    status := OK;
    match op
    case Reset => buffer.Reset();
    case Write(chunk, available) =>
      status := buffer.Write(chunk, available && buffer.Wanted(|chunk|) < HALF);
  }

  /** Every run of writes and resets, whatever the outcomes of the reallocations: the contents are
      the chunks written since the last reset, the capacity is at most twice the largest size ever
      held, and all reallocations together copied less than the capacity. */
  method Run(capacity: nat, ops: seq<Op>) returns (buffer: Buffer, statuses: seq<Status>)
    requires 0 < capacity < HALF && forall op :: op in ops ==> WellFormed(op)
    ensures fresh(buffer) && buffer.Valid()
    ensures |statuses| == |ops| && buffer.Contents() == Replay(ops, statuses)
    ensures forall i :: 0 <= i < |ops| && Granted(ops[i], capacity, Largest(ops, statuses)) ==> statuses[i] == OK
    ensures buffer.capacity <= Max(capacity, 2 * Largest(ops, statuses))
    ensures buffer.moved + capacity <= buffer.capacity
  {
    buffer := new Buffer(capacity);
    statuses := [];
    for i := 0 to |ops|
      invariant fresh(buffer) && fresh(buffer.data) && buffer.Valid() && buffer.Frugal()
      invariant buffer.initial == capacity && |statuses| == i
      invariant buffer.Contents() == Replay(ops[..i], statuses) && buffer.peak == Largest(ops[..i], statuses)
      invariant forall j :: 0 <= j < i && Granted(ops[j], capacity, buffer.peak) ==> statuses[j] == OK
    {
      assert ops[i] in ops;
      var status := Perform(buffer, ops[i]);
      Extended(ops, statuses, i, status);
      statuses := statuses + [status];
    }
    assert ops[..|ops|] == ops;
  }

  /** The bound is the work of the doubling in Write: reserving one byte more each time copies
      quadratically much. */
  method ReserveByOnes(n: nat) returns (buffer: Buffer)
    requires n < HALF - 1
    ensures buffer.capacity == n + 1 && 2 * buffer.moved == n * (n + 1)
  {
    buffer := new Buffer(1);
    for i := 0 to n
      invariant fresh(buffer) && buffer.Valid() && buffer.capacity == i + 1 && 2 * buffer.moved == i * (i + 1)
    {
      var _ := buffer.Reserve(i + 2, true);
    }
  }
}
