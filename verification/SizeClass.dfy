/** The nanokernel's size classes for sub-reservations: 1, 2, 3, then 4 to 7 times every power of two. */
module SizeClass {
  import opened Bits

  function ScaleToSize(scale: nat): (size: nat) {
    var s := scale + 1;
    var low, hi := s % 4, s / 4;
    if hi != 0 then (low + 4) * Pow2(hi - 1) else low
  }

  // Bits w to 2w - 1.
  predicate HighHalf(x: nat, w: nat) {
    And(Shr(x, w), Pow2(w) - 1) != 0
  }

  // The cascade of n stages, of widths 2^(n-1) down to 1.
  function Log(x: nat, n: nat): nat
    decreases n
  {
    if n == 0 then 0
    else
      var w := Pow2(n - 1);
      var b := if HighHalf(x, w) then w else 0;
      b + Log(Shr(x, b), n - 1)
  }

  function SizeToScale(size: nat, stages: nat): nat
    requires size > 0
  {
    var s := size - 1;
    if s <= 8 then s
    else
      var log := Log(s / 4, stages);
      Shr(s, log) % 4 + 4 * (log + 1)
  }

  /** With n stages the cascade is the logarithm of every number below 2^(2^n). */
  lemma {:induction false} LogIsLog(x: nat, n: nat)
    requires 0 < x < Pow2(Pow2(n))
    ensures Pow2(Log(x, n)) <= x < 2 * Pow2(Log(x, n))
    decreases n
  {
    if n == 0 {
      assert Pow2(Pow2(0)) == 2;
    } else {
      var w := Pow2(n - 1);
      Pow2Add(w, w);
      HighHalfIff(x, w);
      if HighHalf(x, w) {
        var y := Shr(x, w);
        ShrIsDiv(x, w);
        Quotient(x, Pow2(w), Pow2(w));
        LogIsLog(y, n - 1);
        Pow2Add(w, Log(y, n - 1));
        ScaledBounds(x, Pow2(w), Pow2(Log(y, n - 1)));
      } else {
        LogIsLog(x, n - 1);
      }
    }
  }

  lemma Quotient(x: nat, d: nat, e: nat)
    requires d > 0 && e > 0 && x < d * e
    ensures x / d < e
  {
  }

  lemma HighHalfIff(x: nat, w: nat)
    requires x < Pow2(w) * Pow2(w)
    ensures HighHalf(x, w) <==> x >= Pow2(w)
  {
    hide Pow2;
    var d := Pow2(w);
    ShrIsDiv(x, w);
    AndMask(Shr(x, w), w);
    Quotient(x, d, d);
    Small(x / d, d);
    ZeroQuotient(x, d);
  }

  lemma Small(x: nat, d: nat)
    requires x < d
    ensures x % d == x
  {
    DivUnique(x, 0, x, d);
  }

  lemma ZeroQuotient(x: nat, d: nat)
    requires d > 0
    ensures x / d == 0 <==> x < d
  {
    if x < d {
      DivUnique(x, 0, x, d);
    }
  }

  lemma ScaledBounds(x: nat, d: nat, p: nat)
    requires d > 0 && p <= x / d < 2 * p
    ensures d * p <= x < 2 * (d * p)
  {
    assert x == x / d * d + x % d;
    if p < x / d {
      MulMono(p, x / d, d);
    }
    MulMono(x / d, 2 * p, d);
    Assoc(2, p, d);
    assert p * d == d * p;
  }

  lemma {:induction false} LogBound(x: nat, n: nat)
    ensures Log(x, n) < Pow2(n)
    decreases n
  {
    if n > 0 {
      var w := Pow2(n - 1);
      LogBound(Shr(x, if HighHalf(x, w) then w else 0), n - 1);
    }
  }

  // ---------------------------------------------------------------- the classes

  // From 4 on, the classes are 4 to 7 times a power.
  lemma ClassAt(q: nat, l: nat)
    requires 4 <= q < 8
    ensures ScaleToSize(q + 4 * l - 1) == q * Pow2(l)
  {
    assert (q + 4 * l) / 4 == l + 1 && (q + 4 * l) % 4 == q - 4;
  }

  lemma ClassAbove(q: nat, l: nat)
    requires 4 <= q < 8
    ensures ScaleToSize(q + 4 * l) == (q + 1) * Pow2(l)
  {
    hide ScaleToSize;
    if q < 7 {
      ClassAt(q + 1, l);
    } else {
      assert 4 + 4 * (l + 1) - 1 == q + 4 * l;
      ClassAt(4, l + 1);
      assert Pow2(l + 1) == 2 * Pow2(l);
    }
  }

  lemma {:induction false} ScaleMonotone(a: nat, b: nat)
    requires a < b
    ensures ScaleToSize(a) < ScaleToSize(b)
    decreases b
  {
    if a + 1 < b {
      ScaleMonotone(a, b - 1);
    }
    if b <= 3 {
      SmallClasses();
    } else {
      var q, l := b % 4 + 4, b / 4 - 1;
      assert b == q + 4 * l;
      ClassAt(q, l);
      ClassAbove(q, l);
    }
  }

  lemma SmallClasses()
    ensures ScaleToSize(0) == 1 && ScaleToSize(1) == 2 && ScaleToSize(2) == 3 && ScaleToSize(3) == 4 && ScaleToSize(4) == 5
    ensures ScaleToSize(5) == 6 && ScaleToSize(6) == 7 && ScaleToSize(7) == 8 && ScaleToSize(8) == 10
  {
    assert Pow2(0) == 1 && Pow2(1) == 2;
  }

  // The scale found, by quotient and logarithm.
  lemma ScaleFound(size: nat, n: nat) returns (q: nat, l: nat)
    requires 9 < size <= 4 * Pow2(Pow2(n))
    ensures 4 <= q < 8 && SizeToScale(size, n) == q + 4 * l && q * Pow2(l) < size <= (q + 1) * Pow2(l)
  {
    hide Pow2, Log, Shr;
    var s := size - 1;
    LogIsLog(s / 4, n);
    l := Log(s / 4, n);
    q := Shr(s, l);
    ShrIsDiv(s, l);
    QuotientRange(s, Pow2(l));
    assert q % 4 == q - 4;
  }

  lemma QuotientRange(s: nat, p: nat)
    requires p > 0 && 4 * p <= s < 8 * p
    ensures 4 <= s / p < 8 && s / p * p <= s < (s / p + 1) * p
  {
    assert s == s / p * p + s % p;
    assert (s / p + 1) * p == s / p * p + p;
    if s / p < 4 {
      MulMono(s / p, 4, p);
    } else if s / p > 7 {
      MulMono(7, s / p, p);
    }
  }

  /** The class found is not below the size exactly when the size is within the cascade's reach, whatever the number of
      stages; it is then the smallest such class. */
  lemma SmallestClassIff(size: nat, n: nat)
    requires size > 0 && n > 0
    ensures size <= ScaleToSize(SizeToScale(size, n)) <==> size <= 4 * Pow2(Pow2(n))
    ensures size <= 4 * Pow2(Pow2(n)) ==>
              var t := SizeToScale(size, n); t > 0 ==> ScaleToSize(t - 1) < size
  {
    hide *;
    if size <= 9 {
      SmallSizes(size, n);
    } else if size <= 4 * Pow2(Pow2(n)) {
      WithinReach(size, n);
    } else {
      OutOfReach(size, n);
    }
  }

  lemma WithinReach(size: nat, n: nat)
    requires 9 < size <= 4 * Pow2(Pow2(n))
    ensures var t := SizeToScale(size, n); t > 0 && ScaleToSize(t - 1) < size <= ScaleToSize(t)
  {
    hide *;
    var q, l := ScaleFound(size, n);
    ClassAt(q, l);
    ClassAbove(q, l);
  }

  lemma SmallSizes(size: nat, n: nat)
    requires 0 < size <= 9 && n > 0
    ensures size <= ScaleToSize(SizeToScale(size, n)) && size <= 4 * Pow2(Pow2(n))
    ensures var t := SizeToScale(size, n); t > 0 ==> ScaleToSize(t - 1) < size
  {
    assert 4 * Pow2(2) == 16;
    assert SizeToScale(size, n) == size - 1;
    SmallClasses();
    hide ScaleToSize, SizeToScale;
    Pow2Grows(1, n);
    Pow2Grows(2, Pow2(n));
  }

  lemma OutOfReach(size: nat, n: nat)
    requires n > 0 && size > 9 && size > 4 * Pow2(Pow2(n))
    ensures ScaleToSize(SizeToScale(size, n)) < size
  {
    hide Log, Shr, ScaleToSize, Pow2;
    var s := size - 1;
    var l := Log(s / 4, n);
    var q := Shr(s, l) % 4 + 4;
    LogBound(s / 4, n);
    ClassAbove(q, l);
    Pow2Grows(l, Pow2(n) - 1);
    Pow2Step(Pow2(n));
    MulLe(q + 1, 8, Pow2(l));
  }

  lemma MulLe(a: nat, b: nat, d: nat)
    requires a <= b
    ensures a * d <= b * d
  {
    if a < b {
      MulMono(a, b, d);
    }
  }

  lemma SmallestOfAll(size: nat, n: nat, scale: nat)
    requires 0 < size <= 4 * Pow2(Pow2(n)) && n > 0 && ScaleToSize(scale) >= size
    ensures SizeToScale(size, n) <= scale && ScaleToSize(SizeToScale(size, n)) <= ScaleToSize(scale)
  {
    var t := SizeToScale(size, n);
    SmallestClassIff(size, n);
    hide ScaleToSize, SizeToScale;
    if scale < t {
      if scale < t - 1 {
        ScaleMonotone(scale, t - 1);
      }
    } else if t < scale {
      ScaleMonotone(t, scale);
    }
  }

  /** On the classes the two functions are inverse. */
  lemma ScaleRoundTrip(scale: nat, n: nat)
    requires n > 0 && ScaleToSize(scale) <= 4 * Pow2(Pow2(n))
    ensures ScaleToSize(scale) > 0 && SizeToScale(ScaleToSize(scale), n) == scale
  {
    SmallClasses();
    var size := ScaleToSize(scale);
    if scale > 0 {
      ScaleMonotone(0, scale);
    }
    SmallestOfAll(size, n, scale);
    SmallestClassIff(size, n);
    var t := SizeToScale(size, n);
    if t < scale {
      ScaleMonotone(t, scale);
    }
  }

  lemma SizeMonotone(a: nat, b: nat, n: nat)
    requires n > 0 && 0 < a <= b <= 4 * Pow2(Pow2(n))
    ensures SizeToScale(a, n) <= SizeToScale(b, n)
  {
    SmallestClassIff(b, n);
    SmallestOfAll(a, n, SizeToScale(b, n));
  }

  /** The stages run one after the other on the same variables. */
  method ComputeScale(size: nat, stages: nat) returns (scale: nat)
    requires size > 0
    ensures scale == SizeToScale(size, stages)
  {
    hide Pow2, Shr, HighHalf;
    var s := size - 1;
    if s <= 8 {
      return s;
    }
    var shifted: nat, log: nat, k: nat := s / 4, 0, stages;
    while k > 0
      invariant k <= stages && log + Log(shifted, k) == Log(s / 4, stages)
    {
      var w := Pow2(k - 1);
      var b := if HighHalf(shifted, w) then w else 0;
      shifted := Shr(shifted, b);
      log := log + b;
      k := k - 1;
    }
    scale := Shr(s, log) % 4 + 4 * (log + 1);
  }
}
