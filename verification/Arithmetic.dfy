/** sqrt, pow, gcd and lcm on 32-bit unsigned words. A result of None stands for the fault of a division by zero. */
module Arithmetic {
  import opened Words
  import opened Products

  // ----- Square root

  /** r is the square root of x rounded down. */
  predicate IsRoot(r: nat, x: nat) {
    r * r <= x && Above(r, x)
  }

  predicate Above(r: nat, x: nat) {
    x < (r + 1) * (r + 1)
  }

  /** One Newton step from r stays at or above the root, and its sum does not exceed x + 1. */
  lemma NewtonStep(r: nat, x: nat)
    requires 1 <= r <= x
    ensures 1 <= x / r && r + x / r <= x + 1 && Above((r + x / r) / 2, x)
  {
    var q := x / r;
    QuotientBounds(x, r);
    if q == 0 {
      assert false;
    }
    SumAndProduct(r, q);
    var m := (r + q) / 2;
    TwoSquares(r, q + 1, m + 1);
    assert r * (q + 1) == r * q + r;
  }

  lemma SumAndProduct(r: nat, q: nat)
    requires r >= 1 && q >= 1
    ensures r + q <= r * q + 1
  {
  }

  /** The product of two numbers is at most the square of half their sum. */
  lemma TwoSquares(a: nat, b: nat, m: nat)
    requires a + b <= 2 * m
    ensures a * b <= m * m
  {
  }

  /** When a step no longer goes down, the square fits. */
  lemma NewtonEnd(p: nat, x: nat)
    requires p > 0 && (p + x / p) / 2 >= p && Above(p, x)
    ensures IsRoot(p, x)
  {
  }

  lemma SelfQuotient(x: nat)
    requires x > 0
    ensures x / x == 1 && Above(x, x)
  {
  }

  /** (r + q) / 2 on 32 bits. */
  function Average(r: u32, q: u32): u32 {
    Add32(r, q) / 2
  }

  lemma NoWrap(r: u32, q: u32, x: u32)
    requires 1 <= r <= x < 0xFFFF_FFFF && 1 <= q && r + q <= x + 1
    ensures Average(r, q) == (r + q) / 2 && 1 <= Average(r, q) <= x
  {
  }

  /** One round of the loop of sqrt. */
  function NextGuess(x: u32, r: u32): u32
    requires r > 0
  {
    QuotientBounds(x, r);
    Average(r, x / r)
  }

  lemma GuessFacts(x: u32, r: u32)
    requires 1 <= r <= x < 0xFFFF_FFFF && Above(r, x)
    ensures 1 <= NextGuess(x, r) <= x && Above(NextGuess(x, r), x)
    ensures NextGuess(x, r) >= r ==> IsRoot(r, x)
  {
    hide Above, IsRoot, Average;
    NewtonStep(r, x);
    QuotientBounds(x, r);
    NoWrap(r, x / r, x);
    if NextGuess(x, r) >= r {
      NewtonEnd(r, x);
    }
  }

  /** The largest word is the one whose first sum wraps. */
  lemma FirstSumWraps()
    ensures NextGuess(0xFFFF_FFFF, 0xFFFF_FFFF) == 0
  {
  }

  /** sqrt: it faults exactly for 2^32 - 1, where the first sum wraps to 0, and is exact everywhere else. */
  method Sqrt(x: u32) returns (r: Option<u32>)
    ensures r.None? <==> x == 0xFFFF_FFFF
    ensures r.Some? ==> IsRoot(r.value, x)
  {
    if x == 0 {
      return Some(0);
    }
    hide Above, IsRoot, NextGuess;
    SelfQuotient(x);
    var result: u32, prev: u32 := x, x;
    while true
      invariant result <= x
      invariant if x == 0xFFFF_FFFF then result == x || result == 0 else result > 0
      invariant result > 0 ==> Above(result, x)
      decreases result
    {
      prev := result;
      if result == 0 {
        return None;
      }
      FirstSumWraps();
      if x < 0xFFFF_FFFF {
        GuessFacts(x, result);
      }
      result := NextGuess(x, result);
      if result >= prev {
        break;
      }
    }
    r := Some(prev);
  }

  /** The rounded root is unique and monotone, and it inverts squaring. */
  lemma RootsAreOrdered(r: nat, x: nat, s: nat, y: nat)
    requires IsRoot(r, x) && IsRoot(s, y) && x <= y
    ensures r <= s && (x == y ==> r == s)
    ensures IsRoot(r, r * r)
  {
    assert (r + 1) * (r + 1) == r * r + 2 * r + 1;
    if s < r {
      Grows(s + 1, s + 1, r);
      Grows(r, s + 1, r);
    }
    if x == y && r < s {
      Grows(r + 1, r + 1, s);
      Grows(s, r + 1, s);
    }
  }

  // ----- Power

  function Power(b: nat, e: nat): nat {
    if e == 0 then 1 else b * Power(b, e - 1)
  }

  lemma {:induction false} PowerOfSquare(b: nat, k: nat)
    ensures Power(b, 2 * k) == Power(b * b, k)
  {
    if k > 0 {
      PowerOfSquare(b, k - 1);
      assert Power(b, 2 * k) == b * Power(b, 2 * k - 1) == b * (b * Power(b, 2 * (k - 1)));
      assert b * (b * Power(b, 2 * (k - 1))) == (b * b) * Power(b, 2 * (k - 1));
    }
  }

  /** Multiplication may wrap at every step. */
  lemma WrappedProduct(a: nat, b: nat)
    ensures ((a % WORD) * (b % WORD)) % WORD == (a * b) % WORD
  {
    var i, j := a / WORD, b / WORD;
    var s, t := a % WORD, b % WORD;
    assert a == WORD * i + s && b == WORD * j + t;
    var m := i * (WORD * j) + i * t + s * j;
    assert a * b == s * t + WORD * m by {
      assert (WORD * i + s) * (WORD * j + t) == WORD * (i * (WORD * j)) + WORD * (i * t) + WORD * (s * j) + s * t;
      assert WORD * m == WORD * (i * (WORD * j)) + WORD * (i * t) + WORD * (s * j);
    }
    WholeWords(s * t, m);
  }

  lemma WholeWords(x: nat, m: nat)
    ensures (x + WORD * m) % WORD == x % WORD
  {
  }

  /** pow: the exact power, reduced once. */
  method Pow(base: u32, exp: u32) returns (result: u32)
    ensures result == Power(base, exp) % WORD
  {
    hide Power;
    var b: u32, e: u32 := base, exp;
    result := 1;
    ghost var exact: nat, square: nat := 1, base;
    while e > 0
      invariant result == exact % WORD && b == square % WORD
      invariant exact * Power(square, e) == Power(base, exp)
    {
      PowerStep(exact, square, e);
      if e % 2 == 1 {
        WrappedProduct(exact, square);
        result := Mul32(result, b);
        exact := exact * square;
      }
      WrappedProduct(square, square);
      b := Mul32(b, b);
      square := square * square;
      e := e / 2;
    }
    PowerZero(square);
  }

  lemma PowerZero(b: nat)
    ensures Power(b, 0) == 1
  {
  }

  lemma PowerStep(r: nat, b: nat, e: nat)
    requires e > 0
    ensures r * Power(b, e) == (if e % 2 == 1 then r * b else r) * Power(b * b, e / 2)
  {
    PowerOfSquare(b, e / 2);
    if e % 2 == 1 {
      Assoc(r, b, Power(b, e - 1));
    }
  }

  // ----- Greatest common divisor and least common multiple

  /** d divides n; only 0 is divisible by 0. */
  predicate Divides(d: nat, n: nat) {
    if d == 0 then n == 0 else n % d == 0
  }

  /** g is the greatest common divisor in the order of divisibility, where 0 is on top. */
  ghost predicate IsGcd(g: nat, a: nat, b: nat) {
    forall d: nat :: Divides(d, g) <==> Divides(d, a) && Divides(d, b)
  }

  /** m is the least common multiple in the same order. */
  ghost predicate IsLcm(m: nat, a: nat, b: nat) {
    forall n: nat :: Divides(m, n) <==> Divides(a, n) && Divides(b, n)
  }

  ghost function Factor(d: nat, n: nat): (k: nat)
    requires Divides(d, n)
    ensures n == d * k
  {
    if d == 0 then 0 else n / d
  }

  lemma IsMultiple(d: nat, k: nat)
    ensures Divides(d, d * k)
  {
  }

  lemma DividesSum(d: nat, x: nat, k: int, y: nat)
    requires Divides(d, x) && Divides(d, y) && x * k + y >= 0
    ensures Divides(d, x * k + y)
  {
    var i, j := Factor(d, x), Factor(d, y);
    assert x * k + y == d * (i * k + j) by {
      assert (d * i) * k == d * (i * k);
    }
    if d > 0 {
      Remainder(d, i * k + j, 0);
    }
  }

  /** Euclid's step keeps the common divisors. */
  lemma EuclidStep(a: nat, b: nat, d: nat)
    requires b > 0
    ensures Divides(d, a) && Divides(d, b) <==> Divides(d, b) && Divides(d, a % b)
  {
    var q := a / b;
    assert a == b * q + a % b;
    if Divides(d, b) && Divides(d, a % b) {
      DividesSum(d, b, q, a % b);
    }
    if Divides(d, a) && Divides(d, b) {
      assert a % b == b * -q + a;
      DividesSum(d, b, -q, a);
    }
  }

  function Euclid(a: nat, b: nat): nat
    decreases b
  {
    if b == 0 then a else Euclid(b, a % b)
  }

  lemma {:induction false} EuclidIsGcd(a: nat, b: nat)
    ensures IsGcd(Euclid(a, b), a, b)
    decreases b
  {
    if b == 0 {
      forall d: nat ensures Divides(d, 0) {
        if d > 0 { Remainder(d, 0, 0); }
      }
    } else {
      EuclidIsGcd(b, a % b);
      forall d: nat ensures Divides(d, Euclid(a, b)) <==> Divides(d, a) && Divides(d, b) {
        EuclidStep(a, b, d);
      }
    }
  }

  /** gcd */
  method Gcd(a: u32, b: u32) returns (g: u32)
    ensures IsGcd(g, a, b) && g == Euclid(a, b)
  {
    EuclidIsGcd(a, b);
    var x: u32, y: u32 := a, b;
    while y != 0
      invariant Euclid(x, y) == Euclid(a, b)
      decreases y
    {
      x, y := y, x % y;
    }
    g := x;
  }

  /** A common divisor of numbers that are not both 0 is at most the greatest one. */
  lemma GcdIsGreatest(g: nat, a: nat, b: nat, d: nat)
    requires IsGcd(g, a, b) && (a > 0 || b > 0)
    ensures g > 0 && Divides(g, a) && Divides(g, b)
    ensures Divides(d, a) && Divides(d, b) ==> d <= g
  {
    assert Divides(g, g) by {
      if g > 0 { Remainder(g, 1, 0); }
    }
    if Divides(d, g) {
      var k := Factor(d, g);
      assert k > 0;
      assert d * k >= d;
    }
  }

  lemma {:induction false} EuclidScales(m: nat, a: nat, b: nat)
    ensures Euclid(m * a, m * b) == m * Euclid(a, b)
    decreases b
  {
    if m > 0 && b > 0 {
      var q, r := a / b, a % b;
      assert m * r < m * b && m * a == (m * b) * q + m * r by {
        assert a == b * q + r;
        assert m * (b * q) == (m * b) * q;
      }
      Remainder(m * b, q, m * r);
      EuclidScales(m, b, r);
    }
  }

  lemma GcdDivides(a: nat, b: nat)
    ensures Divides(Euclid(a, b), a) && Divides(Euclid(a, b), b)
    ensures Euclid(a, b) == 0 <==> a == 0 && b == 0
  {
    EuclidIsGcd(a, b);
    Reflexive(Euclid(a, b));
    Reflexive(0);
    assert Divides(0, 0);
  }

  lemma Reflexive(d: nat)
    ensures Divides(d, d)
  {
  }

  /** The product divided by the greatest common divisor is the least common multiple. */
  lemma ProductOverGcd(a: nat, b: nat, g: nat)
    requires g == Euclid(a, b) > 0
    ensures (a * b) % g == 0 && IsLcm(a * b / g, a, b)
  {
    hide Divides, Euclid;
    GcdDivides(a, b);
    var i, j := Factor(g, a), Factor(g, b);
    var m := i * b;
    Assoc(g, i, b);
    Assoc(i, g, j);
    Assoc(g, i, j);
    Remainder(g, m, 0);
    forall n: nat ensures Divides(m, n) <==> Divides(a, n) && Divides(b, n) {
      CommonMultiple(a, b, g, m, n, i, j);
    }
  }

  lemma CommonMultiple(a: nat, b: nat, g: nat, m: nat, n: nat, i: nat, j: nat)
    requires g == Euclid(a, b) > 0 && m == i * b == a * j && g * m == a * b
    ensures Divides(m, n) <==> Divides(a, n) && Divides(b, n)
  {
    hide Divides, Euclid;
    if Divides(m, n) {
      var k := Factor(m, n);
      MultipleOfMultiple(a, j, k);
      MultipleOfMultiple(b, i, k);
    }
    if Divides(a, n) && Divides(b, n) {
      var p := a * b;
      ProductDivides(a, b, n);
      ProductDivides(b, a, n);
      EuclidIsGcd(n * a, n * b);
      EuclidScales(n, a, b);
      assert Divides(p, n * g);
      var h := Factor(p, n * g);
      Assoc(g, m, h);
      SameFactor(g, n, m * h);
      IsMultiple(m, h);
    }
  }

  lemma MultipleOfMultiple(a: nat, j: nat, k: nat)
    ensures Divides(a, (a * j) * k)
  {
    hide Divides;
    Assoc(a, j, k);
    IsMultiple(a, j * k);
  }

  lemma ProductDivides(a: nat, b: nat, n: nat)
    requires Divides(a, n)
    ensures Divides(a * b, n * b)
  {
  }

  lemma SameFactor(g: nat, x: nat, y: nat)
    requires g > 0 && g * x == g * y
    ensures x == y
  {
  }

  lemma LcmIsUnique(m: nat, n: nat, a: nat, b: nat)
    requires IsLcm(m, a, b) && IsLcm(n, a, b)
    ensures m == n
  {
    Reflexive(m);
    Reflexive(n);
    assert Divides(n, m) && Divides(m, n);
    var i, j := Factor(n, m), Factor(m, n);
    if m > 0 && n > 0 {
      assert i > 0 && j > 0;
      assert n * i >= n && m * j >= m;
    }
  }

  /** lcm: it faults exactly when both are 0, and is the least common multiple exactly when the product fits a word. */
  method Lcm(a: u32, b: u32) returns (r: Option<u32>)
    ensures r.None? <==> a == 0 && b == 0
    ensures r.Some? ==> (IsLcm(r.value, a, b) <==> a * b < WORD)
  {
    hide Divides, IsLcm, Euclid, IsGcd;
    var g := Gcd(a, b);
    GcdDivides(a, b);
    if g == 0 {
      return None;
    }
    ProductOverGcd(a, b, g);
    WrappedQuotient(a * b, g);
    var v := Mul32(a, b) / g;
    if IsLcm(v, a, b) {
      LcmIsUnique(v, a * b / g, a, b);
    }
    r := Some(v);
  }

  /** Dropping whole words from a multiple of g changes the quotient. */
  lemma WrappedQuotient(p: nat, g: u32)
    requires g > 0 && p % g == 0
    ensures (p % WORD) / g == p / g <==> p < WORD
    ensures 0 <= (p % WORD) / g < WORD
  {
  }
}
