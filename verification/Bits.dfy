/** Powers of two, division by them, and bitwise operations on natural numbers. */
module Bits {

  function Pow2(e: nat): (n: nat)
    ensures n > 0
  {
    if e == 0 then 1 else 2 * Pow2(e - 1)
  }

  // Shifting right.
  function Shr(n: nat, e: nat): nat
    decreases e
  {
    if e == 0 then n else Shr(n / 2, e - 1)
  }

  // Bitwise and, bitwise or.
  function And(a: nat, b: nat): (r: nat)
    ensures r <= a
  {
    if a == 0 then 0 else 2 * And(a / 2, b / 2) + if a % 2 == 1 && b % 2 == 1 then 1 else 0
  }

  function Or(a: nat, b: nat): nat
    decreases a + b
  {
    if a == 0 && b == 0 then 0 else 2 * Or(a / 2, b / 2) + if a % 2 == 1 || b % 2 == 1 then 1 else 0
  }

  lemma {:induction false} MulMono(a: nat, b: nat, d: nat)
    requires a < b
    ensures a * d + d <= b * d
  {
    if a + 1 < b {
      MulMono(a, b - 1, d);
      assert b * d == (b - 1) * d + d;
    } else {
      assert b * d == a * d + d;
    }
  }

  lemma DivUnique(n: nat, q: nat, r: nat, d: nat)
    requires 0 <= r < d && n == q * d + r
    ensures n / d == q && n % d == r
  {
    var q', r' := n / d, n % d;
    assert n == q' * d + r' && 0 <= r' < d;
    if q' > q {
      MulMono(q, q', d);
    } else if q' < q {
      MulMono(q', q, d);
    }
  }

  lemma {:induction false} Pow2Add(a: nat, b: nat)
    ensures Pow2(a + b) == Pow2(a) * Pow2(b)
    decreases a
  {
    if a > 0 {
      Pow2Add(a - 1, b);
      Pow2Step(a);
      Pow2Step(a + b);
      hide Pow2;
      MulTwice(Pow2(a - 1), Pow2(b));
    } else {
      assert Pow2(0) == 1;
    }
  }

  lemma Pow2Step(a: nat)
    requires a > 0
    ensures Pow2(a) == 2 * Pow2(a - 1)
  {
  }

  lemma MulTwice(x: nat, y: nat)
    ensures 2 * (x * y) == (2 * x) * y
  {
  }

  lemma {:induction false} Pow2Grows(a: nat, b: nat)
    requires a <= b
    ensures Pow2(a) <= Pow2(b) && (a < b ==> 2 * Pow2(a) <= Pow2(b))
    decreases b
  {
    if a < b {
      Pow2Grows(a, b - 1);
    }
  }

  // Dividing by a power one bit at a time.
  lemma HalfFirst(n: nat, e: nat)
    requires e > 0
    ensures n / Pow2(e) == n / 2 / Pow2(e - 1) && n % Pow2(e) == 2 * (n / 2 % Pow2(e - 1)) + n % 2
  {
    var d := Pow2(e - 1);
    var q, r := n / 2 / d, n / 2 % d;
    assert n / 2 == q * d + r;
    assert q * (2 * d) == 2 * (q * d);
    DivUnique(n, q, 2 * r + n % 2, 2 * d);
  }

  lemma {:induction false} ShrIsDiv(n: nat, e: nat)
    ensures Shr(n, e) == n / Pow2(e)
    decreases e
  {
    if e > 0 {
      ShrIsDiv(n / 2, e - 1);
      HalfFirst(n, e);
    } else {
      assert n / 1 == n;
    }
  }

  /** Masking with 2^e - 1 is the remainder. */
  lemma {:induction false} AndMask(n: nat, e: nat)
    ensures And(n, Pow2(e) - 1) == n % Pow2(e)
    decreases e
  {
    if e == 0 {
      AndZero(n);
    } else if n > 0 {
      var m := Pow2(e) - 1;
      assert m / 2 == Pow2(e - 1) - 1 && m % 2 == 1;
      assert And(n, m) == 2 * And(n / 2, m / 2) + n % 2;
      AndMask(n / 2, e - 1);
      HalfFirst(n, e);
    } else {
      DivUnique(0, 0, 0, Pow2(e));
    }
  }

  lemma {:induction false} AndZero(n: nat)
    ensures And(n, 0) == 0
  {
    if n > 0 {
      AndZero(n / 2);
    }
  }

  lemma {:induction false} OrZero(n: nat)
    ensures Or(n, 0) == n
  {
    if n > 0 {
      OrZero(n / 2);
    }
  }

  /** Setting the low e bits. */
  lemma {:induction false} OrMask(n: nat, e: nat)
    ensures Or(n, Pow2(e) - 1) == n / Pow2(e) * Pow2(e) + (Pow2(e) - 1)
    decreases e
  {
    hide Pow2, Or;
    if e == 0 {
      OrZero(n);
      PowZero();
      DivOne(n, Pow2(0));
    } else {
      Pow2Step(e);
      OrMask(n / 2, e - 1);
      HalfFirst(n, e);
      OrOdd(n, Pow2(e - 1) - 1);
      MaskStep(Or(n / 2, Pow2(e - 1) - 1), n / 2 / Pow2(e - 1), Pow2(e - 1), Pow2(e));
    }
  }

  lemma PowZero()
    ensures Pow2(0) == 1
  {
  }

  lemma DivOne(n: nat, d: nat)
    requires d == 1
    ensures n / d * d + (d - 1) == n
  {
  }

  // One step with a mask whose low bit is set.
  lemma OrOdd(n: nat, m: nat)
    ensures Or(n, 2 * m + 1) == 2 * Or(n / 2, m) + 1
  {
  }

  lemma MaskStep(x: int, q: nat, d: nat, d': nat)
    requires x == q * d + (d - 1) && d' == 2 * d
    ensures 2 * x + 1 == q * d' + (d' - 1)
  {
    MulTwice(q, d);
    assert q * d' == 2 * (q * d);
  }

  lemma Assoc(a: nat, b: nat, c: nat)
    ensures a * (b * c) == (a * b) * c
  {
  }

  lemma MultipleOfFactor(x: nat, a: nat, b: nat)
    requires a > 0 && b > 0 && a * b > 0 && x % (a * b) == 0
    ensures x % b == 0
  {
    var q := x / (a * b);
    assert x == q * (a * b);
    Assoc(q, a, b);
    DivUnique(x, q * a, 0, b);
  }

  // A multiple of a power is a multiple of every smaller one.
  lemma ModDown(x: nat, k: nat, j: nat)
    requires j <= k && x % Pow2(k) == 0
    ensures x % Pow2(j) == 0
  {
    hide Pow2;
    assert (k - j) + j == k;
    Pow2Add(k - j, j);
    MultipleOfFactor(x, Pow2(k - j), Pow2(j));
  }

  // Rounding down to a multiple.
  lemma FloorMultiple(n: nat, d: nat)
    requires d > 0
    ensures n - n % d == n / d * d && (n - n % d) % d == 0 && (n - n % d) / d == n / d
  {
    assert n == n / d * d + n % d;
    DivUnique(n - n % d, n / d, 0, d);
  }
}
