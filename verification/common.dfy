/** Types and constants shared by the models. */
module InfraTypes {

  /** An opaque `void*`: only its identity matters, and zero is the null pointer. */
  type Ptr = int

  const NULL: Ptr := 0

  type Byte = x: int | 0 <= x < 256

  /** One more than the largest 64-bit word. */
  const W64 := 0x1_0000_0000_0000_0000

  function Pow2(n: nat): nat { if n == 0 then 1 else 2 * Pow2(n - 1) }

  lemma ShiftWords(x: int, k: int)
    ensures (x + W64 * k) % W64 == x % W64
  {
    assert x + W64 * k == W64 * (x / W64 + k) + x % W64;
  }

  /** The error codes of infra_error.h that the modelled operations return. */
  datatype Status = OK | INVALID_PARAM | NO_MEMORY | NOT_READY

  datatype Option<T> = None | Some(value: T)

  /** The lists one after the other. */
  function Flatten<T>(lists: seq<seq<T>>): seq<T> {
    if lists == [] then [] else Flatten(lists[..|lists| - 1]) + lists[|lists| - 1]
  }

  // ------------------------------------------------------------ runs of a plain state

  /** The state after the operations of a run, one after the other. */
  function Replay<S, O>(init: S, apply: (S, O) -> S, ops: seq<O>): S {
    if ops == [] then init else apply(Replay(init, apply, ops[..|ops| - 1]), ops[|ops| - 1])
  }

  /** What each operation of a run answers, given the state that it finds. */
  function Answers<S, O, A>(init: S, apply: (S, O) -> S, answer: (S, O) -> A, ops: seq<O>): seq<A> {
    if ops == [] then []
    else
      var n := |ops| - 1;
      Answers(init, apply, answer, ops[..n]) + [answer(Replay(init, apply, ops[..n]), ops[n])]
  }

  lemma ReplayStep<S, O, A>(init: S, apply: (S, O) -> S, answer: (S, O) -> A, ops: seq<O>, i: nat)
    requires i < |ops|
    ensures Replay(init, apply, ops[..i + 1]) == apply(Replay(init, apply, ops[..i]), ops[i])
    ensures Answers(init, apply, answer, ops[..i + 1])
         == Answers(init, apply, answer, ops[..i]) + [answer(Replay(init, apply, ops[..i]), ops[i])]
  {
    assert ops[..i + 1][..i] == ops[..i];
  }
}
