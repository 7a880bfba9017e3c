/**
  The two places where src/merkle.ts uses 32-bit operators: `k << 1` in the split loop
  (line 36) and `x & (x - 1)` in the power-of-two test (line 205). The other modules use
  unbounded integers; this one says exactly where that is what the code computes.
 */
module Shift32 {
  import opened Merkle
  import opened Consistency

  const TWO_TO_30: int := 0x4000_0000
  const TWO_TO_31: int := 0x8000_0000
  const TWO_TO_32: int := 0x1_0000_0000

  /** `k << 1` on a signed 32-bit integer. */
  function ShiftLeft(k: int): int {
    var x := (2 * k) % TWO_TO_32;
    if x >= TWO_TO_31 then x - TWO_TO_32 else x
  }

  /** The value of k after i turns of the split loop. */
  function Doubled(i: nat): int {
    if i == 0 then 1 else ShiftLeft(Doubled(i - 1))
  }

  /** The loop guard `k << 1 < n` at turn i. */
  predicate Continues(i: nat, n: nat) {
    ShiftLeft(Doubled(i)) < n
  }

  lemma Pow2Of30()
    ensures Pow2(30) == TWO_TO_30
  {
    assert Pow2(10) == 1024;
    assert Pow2(20) == 1024 * 1024;
  }

  lemma ShiftLeftValue(k: int)
    ensures 0 <= k < TWO_TO_30 ==> ShiftLeft(k) == 2 * k
    ensures k == TWO_TO_30 ==> ShiftLeft(k) == -TWO_TO_31
    ensures k == -TWO_TO_31 ==> ShiftLeft(k) == 0
  {
  }

  lemma {:induction false} DoubledValue(i: nat)
    ensures i <= 30 ==> Doubled(i) == Pow2(i) <= TWO_TO_30
    ensures i == 31 ==> Doubled(i) == -TWO_TO_31
    ensures i >= 32 ==> Doubled(i) == 0
  {
    hide ShiftLeft;
    Pow2Of30();
    if i > 0 {
      DoubledValue(i - 1);
      ShiftLeftValue(Doubled(i - 1));
      if i < 31 {
        Pow2Apart(i - 1, 30);
      }
    }
  }

  /** The split loop stops exactly for n <= 2^30; it then leaves k at the mathematical split. */
  lemma SplitLoop32(n: nat)
    requires n > 1
    ensures (exists i: nat :: !Continues(i, n)) <==> n <= TWO_TO_30
    ensures n <= TWO_TO_30 ==>
      var e := SplitExponent(n);
      && !Continues(e, n) && Doubled(e) == Split(n)
      && forall i: nat :: i < e ==> Continues(i, n)
  {
    hide ShiftLeft;
    Pow2Of30();
    if n <= TWO_TO_30 {
      var e := SplitExponent(n);
      if e >= 30 {
        if e > 30 { Pow2Apart(30, e); }
        assert false;
      }
      forall i: nat | i <= e
        ensures Continues(i, n) <==> i < e
      {
        DoubledValue(i + 1);
        if i < e && i + 1 < e {
          Pow2Apart(i + 1, e);
        }
      }
      DoubledValue(e);
      assert !Continues(e, n);
    } else {
      forall i: nat
        ensures Continues(i, n)
      {
        DoubledValue(i + 1);
      }
    }
  }

  /** `x > 0 && (x & (x - 1)) === 0`, with both operands truncated to 32 bits. */
  predicate IsPowerOfTwo32(x: nat) {
    x > 0 && And(x % TWO_TO_32, (x - 1) % TWO_TO_32) == 0
  }

  /** The test sees only the low 32 bits, so it is the power-of-two test up to 2^32 and not beyond. */
  lemma PowerOfTwo32(x: nat)
    requires x > 0
    ensures IsPowerOfTwo32(x) <==> x % TWO_TO_32 == 0 || IsPow2(x % TWO_TO_32)
    ensures x <= TWO_TO_32 ==> (IsPowerOfTwo32(x) <==> IsPow2(x))
    ensures IsPowerOfTwo32(3 * TWO_TO_32) && !IsPow2(3 * TWO_TO_32)
  {
    hide And;
    var low := x % TWO_TO_32;
    if low == 0 {
      AndZero((x - 1) % TWO_TO_32);
    } else {
      assert (x - 1) % TWO_TO_32 == low - 1;
      IsPowerOfTwoCorrect(low);
    }
    Pow2Of32();
    AndZero((3 * TWO_TO_32 - 1) % TWO_TO_32);
    if e: nat :| 3 * TWO_TO_32 == Pow2(e) {
      if 33 < e {
        Pow2Apart(33, e);
      } else if e < 33 {
        Pow2Apart(e, 33);
      }
    }
  }

  lemma AndZero(b: nat)
    ensures And(0, b) == 0
  {
  }

  lemma Pow2Of32()
    ensures Pow2(32) == TWO_TO_32
    ensures Pow2(33) == 2 * TWO_TO_32
    ensures IsPow2(TWO_TO_32)
  {
    Pow2Of30();
    assert Pow2(31) == 2 * Pow2(30);
    assert Pow2(32) == 2 * Pow2(31);
    assert Pow2(33) == 2 * Pow2(32);
  }
}
