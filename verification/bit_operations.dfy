/** The program's `&` and `<<` on unsigned numbers, and what a mask of leading ones keeps. */
module BitOperations {
  import opened MachineTypes
  import opened Division

  /** `a & b`, bit by bit from the lowest. */
  function And(a: nat, b: nat): nat {
    if a == 0 || b == 0 then 0 else 2 * And(a / 2, b / 2) + (if a % 2 == b % 2 == 1 then 1 else 0)
  }

  /** `a << k`, cut to 32 bits. */
  function ShiftLeft(a: uint32, k: nat): uint32 {
    a * Pow2(k) % U32
  }

  /** Bit `k` of a number, the lowest being bit 0. */
  predicate Bit(a: nat, k: nat) {
    a / Pow2(k) % 2 == 1
  }

  lemma HalfThenDivide(a: nat, k: nat)
    ensures a / 2 / Pow2(k) == a / Pow2(k + 1)
  {
    DivideTwice(a, 2, Pow2(k));
  }

  /** `And` is what its name says, for every bit. */
  lemma {:induction false} AndIsBitwise(a: nat, b: nat, k: nat)
    ensures Bit(And(a, b), k) <==> Bit(a, k) && Bit(b, k)
  {
    if a == 0 || b == 0 {
      assert 0 / Pow2(k) == 0;
    } else if k == 0 {
      LowBit(a, b);
    } else {
      LowBit(a, b);
      AndIsBitwise(a / 2, b / 2, k - 1);
      HalfThenDivide(a, k - 1);
      HalfThenDivide(b, k - 1);
      HalfThenDivide(And(a, b), k - 1);
    }
  }

  lemma LowBit(a: nat, b: nat)
    requires a > 0 && b > 0
    ensures And(a, b) / 2 == And(a / 2, b / 2)
    ensures And(a, b) % 2 == 1 <==> a % 2 == 1 && b % 2 == 1
  {}

  /** Ones in all places keep everything. */
  lemma {:induction false} AndOnes(a: nat, n: nat)
    requires a < Pow2(n)
    ensures And(a, Pow2(n) - 1) == a
  {
    if n > 0 && a > 0 {
      var ones := Pow2(n) - 1;
      assert ones / 2 == Pow2(n - 1) - 1 && ones % 2 == 1;
      AndOnes(a / 2, n - 1);
    }
  }

  /** Ones in all places from `k` on, zeros below, round down to a multiple of 2^k. */
  lemma {:induction false} AndLeadingOnes(a: nat, n: nat, k: nat)
    requires a < Pow2(n) && k <= n
    ensures Pow2(k) <= Pow2(n) && And(a, Pow2(n) - Pow2(k)) == a / Pow2(k) * Pow2(k)
  {
    hide And;
    if k == 0 {
      AndOnes(a, n);
    } else {
      AndLeadingOnes(a / 2, n - 1, k - 1);
      HalfThenDivide(a, k - 1);
      AndEven(a, Pow2(n - 1) - Pow2(k - 1));
      Doubled(a / Pow2(k), Pow2(k - 1));
    }
  }

  lemma AndEven(a: nat, half: nat)
    ensures And(a, 2 * half) == 2 * And(a / 2, half)
  {
    assert 2 * half / 2 == half && 2 * half % 2 == 0;
  }

  lemma Doubled(q: nat, p: nat)
    ensures q * (2 * p) == 2 * (q * p)
  {}

  /** 32 ones shifted up by `k`. */
  lemma ShiftedOnes(k: nat)
    requires k < 32
    ensures Pow2(32) == U32 && ShiftLeft(0xffff_ffff, k) == U32 - Pow2(k)
  {
    PowersUpTo32(k);
    var p := Pow2(k);
    assert 0xffff_ffff * p == U32 * (p - 1) + (U32 - p);
    QuotientIs(0xffff_ffff * p, U32, p - 1, U32 - p);
  }

  lemma PowersUpTo32(k: nat)
    requires k <= 32
    ensures Pow2(k) <= Pow2(32) == U32
  {
    assert Pow2(4) == 16 && Pow2(8) == 256;
    assert Pow2(16) == 256 * Pow2(8) && Pow2(24) == 256 * Pow2(16) && Pow2(32) == 256 * Pow2(24);
    AndLeadingOnes(0, 32, k);
  }
}
