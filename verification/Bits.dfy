/** Bitwise operations on naturals, bit by bit, with the laws the paging code relies on. */
module Bits {

  function Pow2(k: nat): (p: nat)
    ensures p > 0
  {
    if k == 0 then 1 else 2 * Pow2(k - 1)
  }

  /** Bit k of x. */
  predicate Bit(x: nat, k: nat) {
    if k == 0 then x % 2 == 1 else Bit(x / 2, k - 1)
  }

  function Or(x: nat, y: nat): (r: nat)
    decreases x + y
  {
    if x == 0 then y else if y == 0 then x
    else 2 * Or(x / 2, y / 2) + (if x % 2 == 1 || y % 2 == 1 then 1 else 0)
  }

  function And(x: nat, y: nat): (r: nat)
    ensures r <= x && r <= y
  {
    if x == 0 || y == 0 then 0
    else 2 * And(x / 2, y / 2) + (if x % 2 == 1 && y % 2 == 1 then 1 else 0)
  }

  /** ~x on n bits. */
  function Not(x: nat, n: nat): nat
    requires x < Pow2(n)
  {
    Pow2(n) - 1 - x
  }

  lemma {:induction false} BitOfZero(k: nat)
    ensures !Bit(0, k)
  {
    if k > 0 { BitOfZero(k - 1); }
  }

  lemma {:induction false} BitOfOr(x: nat, y: nat, k: nat)
    ensures Bit(Or(x, y), k) <==> Bit(x, k) || Bit(y, k)
  {
    BitOfZero(k);
    if x != 0 && y != 0 && k > 0 {
      BitOfOr(x / 2, y / 2, k - 1);
    }
  }

  lemma {:induction false} BitOfAnd(x: nat, y: nat, k: nat)
    ensures Bit(And(x, y), k) <==> Bit(x, k) && Bit(y, k)
  {
    BitOfZero(k);
    if x != 0 && y != 0 && k > 0 {
      BitOfAnd(x / 2, y / 2, k - 1);
    }
  }

  lemma {:induction false} BitOfPow2(j: nat, k: nat)
    ensures Bit(Pow2(j), k) <==> j == k
  {
    if j == 0 {
      if k > 0 { BitOfZero(k - 1); }
    } else if k > 0 {
      BitOfPow2(j - 1, k - 1);
    }
  }

  lemma {:induction false} BitOfNot(x: nat, n: nat, k: nat)
    requires x < Pow2(n) && k < n
    ensures Bit(Not(x, n), k) <==> !Bit(x, k)
  {
    if k > 0 {
      BitOfNot(x / 2, n - 1, k - 1);
    }
  }

  /** All n bits are set exactly in the number 2^n - 1. */
  lemma AllOnes(x: nat, n: nat)
    requires x < Pow2(n)
    ensures x == Pow2(n) - 1 <==> forall k :: 0 <= k < n ==> Bit(x, k)
  {
    if x == Pow2(n) - 1 {
      forall k | 0 <= k < n
        ensures Bit(x, k)
      {
        BitOfZero(k);
        BitOfNot(0, n, k);
      }
    } else {
      var k := MissingBit(x, n);
      assert !Bit(x, k);
    }
  }

  /** An n-bit number other than 2^n - 1 has a bit clear. */
  lemma {:induction false} MissingBit(x: nat, n: nat) returns (k: nat)
    requires x < Pow2(n) && x != Pow2(n) - 1
    ensures k < n && !Bit(x, k)
  {
    if x % 2 == 0 {
      k := 0;
    } else {
      k := MissingBit(x / 2, n - 1);
      k := k + 1;
    }
  }

  lemma {:induction false} Pow2Less(j: nat, n: nat)
    requires j < n
    ensures Pow2(j) < Pow2(n)
  {
    if j + 1 < n { Pow2Less(j, n - 1); }
  }

  lemma OrParity(x: nat, y: nat)
    ensures Or(x, y) % 2 == 1 <==> x % 2 == 1 || y % 2 == 1
  {
  }

  lemma {:induction false} OrFits(x: nat, y: nat, n: nat)
    requires x < Pow2(n) && y < Pow2(n)
    ensures Or(x, y) < Pow2(n)
  {
    if x != 0 && y != 0 && n > 0 {
      OrFits(x / 2, y / 2, n - 1);
    }
  }

  /** x >> n. */
  function Shr(x: nat, n: nat): nat {
    if n == 0 then x else Shr(x / 2, n - 1)
  }

  lemma {:induction false} OrShift(x: nat, y: nat, n: nat)
    ensures Shr(Or(x, y), n) == Or(Shr(x, n), Shr(y, n))
  {
    ShrZero(n);
    if n > 0 && x != 0 && y != 0 {
      OrShift(x / 2, y / 2, n - 1);
    }
  }

  lemma {:induction false} ShrZero(n: nat)
    ensures Shr(0, n) == 0
  {
    if n > 0 { ShrZero(n - 1); }
  }

  lemma ShrBy4(x: nat, n: nat)
    ensures Shr(x, n + 4) == Shr(x / 16, n)
  {
    assert Shr(x, n + 4) == Shr(x / 2, n + 3);
    assert Shr(x / 2, n + 3) == Shr(x / 2 / 2, n + 2);
    assert Shr(x / 2 / 2, n + 2) == Shr(x / 2 / 2 / 2, n + 1);
    assert x / 16 == x / 2 / 2 / 2 / 2;
  }

  lemma ShrBy12(x: nat)
    ensures Shr(x, 12) == x / 4096
  {
    ShrBy4(x, 8);
    ShrBy4(x / 16, 4);
    ShrBy4(x / 16 / 16, 0);
  }

  /** Where the operands use different bits, Or is addition. */
  lemma {:induction false} OrIsSum(x: nat, y: nat, n: nat)
    requires y < Pow2(n)
    ensures Or(Pow2(n) * x, y) == Pow2(n) * x + y
  {
    if n == 0 || y == 0 {
    } else if x == 0 {
      assert Pow2(n) * x == 0;
    } else {
      var h := Pow2(n - 1) * x;
      assert Pow2(n) * x == 2 * h;
      OrIsSum(x, y / 2, n - 1);
      assert Pow2(n) * x > 0;
      assert Or(2 * h, y) == 2 * Or(h, y / 2) + y % 2;
    }
  }
}
