/** Rounding a length so that a compressed capability can bound it exactly, and carving a reservation to fit.  Constants
    are those of 128-bit capabilities. */
module Rounding {
  import opened Basics
  import opened Bits

  const U64: nat := 0x1_0000_0000_0000_0000
  // Two to the LARGE_PRECISION - 1.
  const PRECISION: nat := 0x200
  const SMALL_OBJECT_THRESHOLD: nat := 0x2000
  const RES_META_SIZE: nat := 16

  datatype Rounded = Rounded(length: nat, mask: nat)

  function Spread(m: nat, t: nat): nat {
    Or(m, Shr(m, t))
  }

  // The shifts and ors that set every bit below the highest.
  function Smeared(m: nat): nat {
    Spread(Spread(Spread(Spread(Spread(Spread(m, 1), 2), 4), 8), 16), 32)
  }

  // Clearing the bits of a mask.
  function Cleared(n: nat, mask: nat): nat {
    n - And(n, mask)
  }

  function RoundCheriLength(length: nat): Rounded {
    if length < SMALL_OBJECT_THRESHOLD then Rounded(length, 0)
    else
      var mask := Smeared(length / PRECISION + 1);
      Rounded(Cleared((length + mask) % U64, mask), mask)
  }

  // ---------------------------------------------------------------- the mask

  lemma PlusOne(q: nat, d: nat)
    ensures (q + 1) * d == q * d + d
  {
  }

  lemma {:induction false} ShrHalf(n: nat, t: nat)
    ensures Shr(n, t) / 2 == Shr(n / 2, t)
    decreases t
  {
    if t > 0 {
      ShrHalf(n / 2, t - 1);
    }
  }

  function Min(a: nat, b: nat): nat {
    if a < b then a else b
  }

  // The top t of k bits are ones.
  ghost predicate TopOnes(m: nat, k: nat, t: nat)
    requires t <= k
  {
    Pow2(k) - Pow2(k - t) <= m < Pow2(k)
  }

  // A number just below a power is all ones, divided by a smaller power.
  lemma TopPart(m: nat, a: nat, b: nat)
    requires Pow2(a + b) - Pow2(b) <= m < Pow2(a + b)
    ensures m / Pow2(b) == Pow2(a) - 1
  {
    Pow2Add(a, b);
    PlusOne(Pow2(a) - 1, Pow2(b));
    DivUnique(m, Pow2(a) - 1, m - (Pow2(a) - 1) * Pow2(b), Pow2(b));
  }

  lemma SpreadLast(m: nat, k: nat, t: nat)
    requires 1 <= t <= k <= 2 * t && TopOnes(m, k, t)
    ensures Spread(m, t) == Pow2(k) - 1
  {
    hide Pow2, Or;
    Pow2Grows(k - t, t);
    assert (k - t) + t == k;
    TopPart(m, k - t, t);
    TopPart(m, t, k - t);
    OrMask(m, k - t);
    Pow2Add(t, k - t);
    PlusOne(Pow2(t) - 1, Pow2(k - t));
    ShrIsDiv(m, t);
    assert Spread(m, t) == Or(m, Pow2(k - t) - 1);
  }

  /** One shift and or doubles the run of ones at the top. */
  lemma {:induction false} SpreadDoubles(m: nat, k: nat, t: nat)
    requires 1 <= t <= k && TopOnes(m, k, t)
    ensures TopOnes(Spread(m, t), k, Min(2 * t, k))
    decreases k
  {
    if k <= 2 * t {
      SpreadLast(m, k, t);
    } else {
      SpreadDoubles(m / 2, k - 1, t);
      ShrHalf(m, t);
    }
  }

  lemma SmearedIsMask(m: nat, k: nat)
    requires 1 <= k <= 64 && Pow2(k - 1) <= m < Pow2(k)
    ensures Smeared(m) == Pow2(k) - 1
  {
    hide Spread;
    var m1 := Spread(m, 1);
    SpreadDoubles(m, k, 1);
    var m2 := SmearOn(m1, k, 2);
    var m4 := SmearOn(m2, k, 4);
    var m8 := SmearOn(m4, k, 8);
    var m16 := SmearOn(m8, k, 16);
    var m32 := SmearOn(m16, k, 32);
  }

  lemma SmearOn(m: nat, k: nat, t: nat) returns (r: nat)
    requires 1 <= t && 1 <= k && TopOnes(m, k, Min(t, k))
    ensures r == Spread(m, t) && TopOnes(r, k, Min(2 * t, k))
  {
    r := Spread(m, t);
    if t <= k {
      SpreadDoubles(m, k, t);
    } else {
      // Everything is set already.
      assert m == Pow2(k) - 1;
      Pow2Grows(k, t);
      ShrIsDiv(m, t);
      DivUnique(m, 0, m, Pow2(t));
      OrZero(m);
    }
  }

  lemma {:induction false} Bracket(m: nat) returns (k: nat)
    requires m >= 1
    ensures k >= 1 && Pow2(k - 1) <= m < Pow2(k)
  {
    if m == 1 {
      k := 1;
    } else {
      var j := Bracket(m / 2);
      k := j + 1;
    }
  }

  // Clearing the bits of a mask rounds down to a multiple.
  lemma ClearedIsFloor(n: nat, k: nat)
    ensures Cleared(n, Pow2(k) - 1) == n - n % Pow2(k)
  {
    AndMask(n, k);
  }

  // ---------------------------------------------------------------- the rounded length

  lemma MaskOf(length: nat) returns (k: nat)
    requires SMALL_OBJECT_THRESHOLD <= length < U64
    ensures 5 <= k && Smeared(length / PRECISION + 1) == Pow2(k) - 1
    ensures length / PRECISION + 1 < Pow2(k) <= 2 * (length / PRECISION + 1)
  {
    hide Smeared;
    var m := length / PRECISION + 1;
    k := Bracket(m);
    assert Pow2(4) == 16;
    if k > 64 {
      Pow2Grows(64, k - 1);
      Pow2Of64();
    }
    if k < 5 {
      Pow2Grows(k, 4);
    }
    SmearedIsMask(m, k);
  }

  lemma Pow2Of64()
    ensures Pow2(64) == U64
  {
    assert Pow2(8) == 0x100;
    Pow2Add(8, 8);
    Pow2Add(16, 16);
    Pow2Add(32, 32);
  }

  // Rounding up to a multiple of p in 64 bits, p being more than a 512th of the length.
  lemma RoundUp(length: nat, p: nat)
    requires SMALL_OBJECT_THRESHOLD <= length < U64 && length / PRECISION + 1 < p <= 2 * (length / PRECISION + 1)
    ensures var n := (length + (p - 1)) % U64;
            var r := n - n % p;
            && r % p == 0
            && (length + (p - 1) < U64 <==> length <= r)
            && (length + (p - 1) < U64 ==> r < length + p && r / p <= PRECISION)
  {
    var n := (length + (p - 1)) % U64;
    FloorMultiple(n, p);
    if length + (p - 1) < U64 {
      assert n == length + (p - 1);
      if n / p > PRECISION {
        MulMono(PRECISION, n / p, p);
      }
    } else {
      assert n == length + (p - 1) - U64;
    }
  }

  /** At or above the threshold the mask is 2^k - 1, with 2^k at least the metadata's alignment.  The rounded length is the
      least multiple of 2^k not below the length, and its quotient fits the precision, exactly when adding the mask does
      not overflow; when it does the rounded length comes out smaller than the length. */
  lemma RoundedIsLeast(length: nat) returns (k: nat)
    requires SMALL_OBJECT_THRESHOLD <= length < U64
    ensures var r := RoundCheriLength(length);
            && 5 <= k && r.mask == Pow2(k) - 1 && r.length % Pow2(k) == 0
            && (length + r.mask < U64 <==> length <= r.length)
            && (length + r.mask < U64 ==> r.length < length + Pow2(k) && r.length / Pow2(k) <= PRECISION)
  {
    hide Pow2, Smeared, Cleared;
    k := MaskOf(length);
    ClearedIsFloor((length + (Pow2(k) - 1)) % U64, k);
    RoundUp(length, Pow2(k));
  }

  // ---------------------------------------------------------------- carving a reservation

  // A reservation's usable bytes; its metadata lies just below the base.
  datatype Reservation = Reservation(base: nat, length: nat)

  /** The nanokernel's split: the first part keeps `size` bytes, the second pays for its own metadata. */
  function Split(r: Reservation, size: nat): Option<(Reservation, Reservation)>
    requires r.length % RES_META_SIZE == 0
  {
    if size % RES_META_SIZE != 0 || size >= r.length then None
    else Some((r.(length := size), Reservation(r.base + size + RES_META_SIZE, r.length - size - RES_META_SIZE)))
  }

  // What pieces cut off take up, metadata included.
  function Total(pieces: seq<Reservation>): nat {
    if pieces == [] then 0 else Total(pieces[..|pieces| - 1]) + pieces[|pieces| - 1].length + RES_META_SIZE
  }

  ghost predicate Aligned(x: nat, k: nat) {
    x % Pow2(k) == 0
  }

  /** Carves out an aligned reservation.  No split underflows, the base is a multiple of 2^k inside the original range,
      and the length is exactly the one asked for unless the last split is refused, which happens exactly when there is
      something to cut off and the length is not a multiple of the metadata size. */
  method PrecisionAlign(res: Reservation, length: nat, ghost k: nat, mask: nat)
    returns (r: Reservation, pieces: seq<Reservation>)
    requires mask == Pow2(k) - 1 && res.base % RES_META_SIZE == 0 && res.length % RES_META_SIZE == 0
    requires length + mask <= res.length
    ensures Aligned(r.base, k) && res.base <= r.base && r.base - res.base <= mask
    ensures length <= r.length && r.base + r.length <= res.base + res.length
    ensures r.length == length <==> length % RES_META_SIZE == 0 || r.base + length == res.base + res.length
    ensures r.length + Total(pieces) == res.length
  {
    hide Pow2, Cleared, Total, Aligned;
    var roundedBase := Cleared(res.base + mask, mask);
    SkipAligned(res.base, k);
    assert Total([]) == 0 by { TotalNone(); }
    var skip := roundedBase - res.base;
    r, pieces := res, [];
    if skip != 0 {
      var s := Split(r, skip - RES_META_SIZE);
      TotalSnoc([], s.value.0);
      pieces, r := [] + [s.value.0], s.value.1;
    }
    if r.length != length {
      var s := Split(r, length);
      if s.Some? {
        TotalSnoc(pieces, s.value.1);
        pieces, r := pieces + [s.value.1], s.value.0;
      }
    }
  }

  lemma TotalNone()
    ensures Total([]) == 0
  {
  }

  lemma TotalSnoc(pieces: seq<Reservation>, x: Reservation)
    ensures Total(pieces + [x]) == Total(pieces) + x.length + RES_META_SIZE
  {
    assert (pieces + [x])[..|pieces|] == pieces;
  }

  // Aligning up skips nothing or at least room for metadata, and keeps the metadata's alignment.
  lemma SkipAligned(base: nat, k: nat)
    requires base % RES_META_SIZE == 0
    ensures var skip := Cleared(base + (Pow2(k) - 1), Pow2(k) - 1) - base;
            && 0 <= skip < Pow2(k) && (skip == 0 || skip >= RES_META_SIZE) && skip % RES_META_SIZE == 0
            && Aligned(base + skip, k)
  {
    hide Pow2, Cleared, Aligned;
    var c := Cleared(base + (Pow2(k) - 1), Pow2(k) - 1);
    ClearedAligned(base + (Pow2(k) - 1), k);
    if k >= 4 {
      MetaAligned(c, k);
      MetaApart(base, c);
    } else {
      SmallPower(base, k);
    }
  }

  lemma MetaApart(a: nat, b: nat)
    requires a <= b && a % RES_META_SIZE == 0 && b % RES_META_SIZE == 0
    ensures (a == b || b - a >= RES_META_SIZE) && (b - a) % RES_META_SIZE == 0
  {
  }

  lemma ClearedAligned(n: nat, k: nat)
    ensures var c := Cleared(n, Pow2(k) - 1); Aligned(c, k) && c <= n < c + Pow2(k)
  {
    hide Pow2, Cleared;
    ClearedIsFloor(n, k);
    FloorMultiple(n, Pow2(k));
  }

  // A base aligned for metadata is aligned for every power below that.
  lemma SmallPower(base: nat, k: nat)
    requires base % RES_META_SIZE == 0 && k < 4
    ensures Cleared(base + (Pow2(k) - 1), Pow2(k) - 1) == base
  {
    hide Pow2, Cleared;
    MetaPower();
    ModDown(base, 4, k);
    ClearedIsFloor(base + (Pow2(k) - 1), k);
    AlignedStays(base, Pow2(k));
  }

  lemma AlignedStays(base: nat, p: nat)
    requires p > 0 && base % p == 0
    ensures (base + (p - 1)) - (base + (p - 1)) % p == base
  {
    assert base == base / p * p;
    DivUnique(base + (p - 1), base / p, p - 1, p);
  }

  /** Allocating from any reservation of the size requested.  From the threshold on the result is exactly representable:
      the rounded length, on a boundary of the same power.  Below it the reservation is cut at its own start, to the
      length asked for unless there is something to cut off and that length is not a multiple of the metadata size. */
  method CapMalloc(s: nat, res: Reservation) returns (r: Reservation, ghost k: nat)
    requires s < U64 && s + RoundCheriLength(s).mask < U64
    requires res.base % RES_META_SIZE == 0 && res.length % RES_META_SIZE == 0
    requires RoundCheriLength(s).length + RoundCheriLength(s).mask <= res.length
    ensures res.base <= r.base && r.base + r.length <= res.base + res.length && s <= r.length
    ensures s >= SMALL_OBJECT_THRESHOLD ==>
              Aligned(r.base, k) && Aligned(r.length, k) && r.length < s + Pow2(k) && r.length == RoundCheriLength(s).length
    ensures s < SMALL_OBJECT_THRESHOLD ==>
              r.base == res.base && (r.length == s <==> s % RES_META_SIZE == 0 || s == res.length)
  {
    hide Pow2, Smeared, Cleared;
    var pr := RoundCheriLength(s);
    var pieces;
    if s >= SMALL_OBJECT_THRESHOLD {
      k := RoundedIsLeast(s);
      assert pr.length % RES_META_SIZE == 0 by { MetaAligned(pr.length, k); }
    } else {
      k := 0;
      MetaPower();
    }
    r, pieces := PrecisionAlign(res, pr.length, k, pr.mask);
  }

  lemma MetaAligned(x: nat, k: nat)
    requires k >= 4 && Aligned(x, k)
    ensures x % RES_META_SIZE == 0
  {
    hide Pow2;
    MetaPower();
    ModDown(x, k, 4);
  }

  lemma MetaPower()
    ensures Pow2(4) == RES_META_SIZE && Pow2(0) == 1
  {
  }
}
