/** The bit mask of ALIGN_SIZE on 64-bit words, and why it rounds down. */
module MemMask {
  import opened InfraTypes
  import opened MemHeap

  function And(x: nat, y: nat): nat {
    if x == 0 || y == 0 then 0 else 2 * And(x / 2, y / 2) + x % 2 * (y % 2)
  }

  /** The complement of an n-bit word. */
  function Not(x: nat, n: nat): nat {
    if n == 0 then 0 else 2 * Not(x / 2, n - 1) + 1 - x % 2
  }

  /** `x & ~(a - 1)` on size_t. */
  function Masked(x: nat, a: nat): nat
    requires a > 0
  {
    And(x, Not(a - 1, 64))
  }

  /** The test that the configuration makes. */
  predicate Accepted(a: nat) { 0 < a < W64 && And(a, a - 1) == 0 }

  lemma {:induction false} AndSelf(x: nat)
    ensures And(x, x) == x
  {
    if x > 0 {
      AndSelf(x / 2);
      assert x % 2 * (x % 2) == x % 2;
    }
  }

  /** An odd number above 1 is not accepted, and an even one exactly when its half is. */
  lemma AcceptedHalf(a: nat)
    requires a > 1
    ensures And(a, a - 1) == 0 <==> a % 2 == 0 && And(a / 2, a / 2 - 1) == 0
  {
    if a % 2 == 0 {
      assert (a - 1) / 2 == a / 2 - 1;
    } else {
      assert (a - 1) / 2 == a / 2;
      AndSelf(a / 2);
    }
  }

  lemma {:induction false} AcceptedPower(a: nat) returns (k: nat)
    requires a > 0 && And(a, a - 1) == 0
    ensures a == Pow2(k)
  {
    if a == 1 {
      k := 0;
    } else {
      AcceptedHalf(a);
      k := AcceptedPower(a / 2);
      k := k + 1;
    }
  }

  lemma {:induction false} PowerAccepted(k: nat)
    ensures Pow2(k) > 0 && And(Pow2(k), Pow2(k) - 1) == 0
  {
    if k > 0 {
      PowerAccepted(k - 1);
      AcceptedHalf(Pow2(k));
    }
  }

  /** The configuration accepts exactly the powers of two. */
  lemma AcceptedIff(a: nat)
    ensures Accepted(a) <==> a < W64 && exists k :: a == Pow2(k)
  {
    if Accepted(a) {
      var k := AcceptedPower(a);
    }
    if k :| a == Pow2(k) {
      PowerAccepted(k);
    }
  }

  lemma {:induction false} AndOnes(x: nat, n: nat)
    requires x < Pow2(n)
    ensures And(x, Not(0, n)) == x
  {
    if n > 0 && x > 0 {
      AndOnes(x / 2, n - 1);
    }
  }

  lemma {:induction false} RoundDownByOne(x: nat)
    ensures RoundDown(x, 1) == x
  {
    if x > 0 {
      RoundDownByOne(x - 1);
    }
  }

  lemma {:induction false} RoundDownDouble(x: nat, a: nat)
    requires a > 0
    ensures RoundDown(x, 2 * a) == 2 * RoundDown(x / 2, a)
  {
    if x >= 2 * a {
      RoundDownDouble(x - 2 * a, a);
      assert (x - 2 * a) / 2 == x / 2 - a;
    }
  }

  lemma {:induction false} MaskRounds(x: nat, a: nat, n: nat)
    requires 0 < a <= Pow2(n) && And(a, a - 1) == 0 && x < Pow2(n)
    ensures And(x, Not(a - 1, n)) == RoundDown(x, a)
  {
    if a == 1 {
      AndOnes(x, n);
      RoundDownByOne(x);
    } else {
      AcceptedHalf(a);
      MaskRounds(x / 2, a / 2, n - 1);
      RoundDownDouble(x, a / 2);
      assert (a - 1) / 2 == a / 2 - 1;
    }
  }

  lemma PowerOfByte(n: nat)
    ensures Pow2(n + 8) == 256 * Pow2(n)
  {
    assert Pow2(n + 8) == 4 * Pow2(n + 6);
    assert Pow2(n + 6) == 4 * Pow2(n + 4);
    assert Pow2(n + 4) == 4 * Pow2(n + 2);
  }

  lemma WordIsPower()
    ensures Pow2(64) == W64
  {
    PowerOfByte(0);
    PowerOfByte(8);
    PowerOfByte(16);
    PowerOfByte(24);
    PowerOfByte(32);
    PowerOfByte(40);
    PowerOfByte(48);
    PowerOfByte(56);
  }

  /** Clearing the low bits of a word gives the greatest multiple of the alignment that is not above it,
      for every alignment that is accepted. */
  lemma MaskIsGreatest(x: nat, a: nat)
    requires x < W64 && Accepted(a)
    ensures Masked(x, a) == RoundDown(x, a)
    ensures Multiple(Masked(x, a), a) && Masked(x, a) <= x
    ensures forall y: nat :: y <= x && Multiple(y, a) ==> y <= Masked(x, a)
  {
    WordIsPower();
    MaskRounds(x, a, 64);
    RoundDownFacts(x, a);
    forall y: nat | y <= x && Multiple(y, a)
      ensures y <= Masked(x, a)
    {
      RoundDownGreatest(x, y, a);
    }
  }

  /** ALIGN_SIZE as it is written is AlignUp. */
  lemma AlignSize(x: nat, a: nat)
    requires Accepted(a)
    ensures Masked(Wrap(x + (a - 1)), a) == AlignUp(x, a)
  {
    MaskIsGreatest(Wrap(x + (a - 1)), a);
  }
}
