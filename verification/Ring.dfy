/** The ring in which a socket copies the bytes it writes: whole blocks are copied in one or two parts, single characters
    are stored one at a time. */
module Ring {
  import opened Basics
  import opened Bits
  import opened Wire

  // Where position p of the stream lies in a ring of 2^k bytes.
  function Slot(p: nat, k: nat): (s: nat)
    ensures s < Pow2(k) && s == p % Pow2(k)
  {
    AndMask(p, k);
    And(p, Pow2(k) - 1)
  }

  /** The simple form: the bytes stored one after the other from position p on. */
  function Stored(ring: seq<Byte>, p: nat, data: seq<Byte>, k: nat): (r: seq<Byte>)
    requires |ring| == Pow2(k)
    ensures |r| == |ring|
    decreases |data|
  {
    if data == [] then ring else Stored(ring[Slot(p, k) := data[0]], p + 1, data[1..], k)
  }

  // Storing a block is storing its parts, so a block is as good as its characters.
  lemma {:induction false} StoredConcat(ring: seq<Byte>, p: nat, a: seq<Byte>, b: seq<Byte>, k: nat)
    requires |ring| == Pow2(k)
    ensures Stored(ring, p, a + b, k) == Stored(Stored(ring, p, a, k), p + |a|, b, k)
    decreases |a|
  {
    if a == [] {
      assert a + b == b;
    } else {
      assert (a + b)[1..] == a[1..] + b;
      StoredConcat(ring[Slot(p, k) := a[0]], p + 1, a[1..], b, k);
    }
  }

  // ---------------------------------------------------------------- the fast form

  // The block laid from `start` to the end of the ring and on from its beginning.
  function Laid(ring: seq<Byte>, start: nat, data: seq<Byte>): (r: seq<Byte>)
    requires start < |ring| && |data| <= |ring|
    ensures |r| == |ring|
  {
    seq(|ring|, i requires 0 <= i < |ring| =>
      if start <= i < start + |data| then data[i - start]
      else if i + |ring| < start + |data| then data[i + |ring| - start]
      else ring[i])
  }

  lemma NextSlot(p: nat, k: nat)
    ensures Slot(p + 1, k) == if Slot(p, k) + 1 == Pow2(k) then 0 else Slot(p, k) + 1
  {
    hide Slot, Pow2;
    NextMod(p, Pow2(k));
  }

  lemma NextMod(p: nat, d: nat)
    requires d > 0
    ensures (p + 1) % d == if p % d + 1 == d then 0 else p % d + 1
  {
    var q, r := p / d, p % d;
    assert p == q * d + r;
    if r + 1 == d {
      assert (q + 1) * d == q * d + d;
      DivUnique(p + 1, q + 1, 0, d);
    } else {
      DivUnique(p + 1, q, r + 1, d);
    }
  }

  lemma LaidStep(ring: seq<Byte>, start: nat, data: seq<Byte>)
    requires start < |ring| && 0 < |data| <= |ring|
    ensures Laid(ring, start, data) ==
            Laid(ring[start := data[0]], if start + 1 == |ring| then 0 else start + 1, data[1..])
  {
  }

  /** The two-part copy leaves what storing the bytes one at a time leaves. */
  lemma {:induction false} LaidIsStored(ring: seq<Byte>, p: nat, data: seq<Byte>, k: nat)
    requires |ring| == Pow2(k) && |data| <= |ring|
    ensures Laid(ring, Slot(p, k), data) == Stored(ring, p, data, k)
    decreases |data|
  {
    hide Slot, Pow2;
    if data == [] {
      assert Laid(ring, Slot(p, k), data) == ring;
    } else {
      NextSlot(p, k);
      LaidStep(ring, Slot(p, k), data);
      LaidIsStored(ring[Slot(p, k) := data[0]], p + 1, data[1..], k);
    }
  }

  /** The block copy as written, for any block: the wrap test, then one or two parts.  None means that a part leaves the
      block or the ring, where the bounds of the capabilities stop it. */
  function CopiedInto(ring: seq<Byte>, start: nat, data: seq<Byte>): (r: Option<seq<Byte>>)
    requires start < |ring|
    ensures r.Some? ==> |r.value| == |ring|
  {
    var size, n := |ring|, |data|;
    var end := (start + n) % size;
    var two := end <= start;
    var first := if two then size - start else n;
    if first > n || start + first > size || (two && end > n) then None
    else
      Some(seq(size, i requires 0 <= i < size =>
        if two && i < end then data[n - end + i] else if start <= i < start + first then data[i - start] else ring[i]))
  }

  // The parts, byte by byte.
  lemma CopiedParts(ring: seq<Byte>, start: nat, data: seq<Byte>)
    requires start < |ring|
    ensures var size, n, end := |ring|, |data|, (start + |data|) % |ring|;
            var first := if end <= start then size - start else n;
            var r := CopiedInto(ring, start, data);
            && (r.None? <==> first > n || start + first > size || (end <= start && end > n))
            && (r.Some? ==> forall i :: 0 <= i < size ==>
                  r.value[i] == if end <= start && i < end then data[n - end + i]
                                else if start <= i < start + first then data[i - start] else ring[i])
  {
  }

  lemma CopiedIsLaid(ring: seq<Byte>, start: nat, data: seq<Byte>)
    requires start < |ring| && |data| <= |ring|
    ensures CopiedInto(ring, start, data) == if data == [] then None else Some(Laid(ring, start, data))
  {
    if data == [] {
      DivUnique(start, 0, start, |ring|);
    } else {
      WrapPoint(start, |data|, |ring|);
      assert CopiedInto(ring, start, data).value == Laid(ring, start, data);
    }
  }

  /** For a block no longer than the ring: an empty one is stopped, any other is stored as its bytes would be, whether there
      is room for it or not. */
  lemma CopiedIntoIs(ring: seq<Byte>, p: nat, data: seq<Byte>, k: nat)
    requires |ring| == Pow2(k) && |data| <= |ring|
    ensures CopiedInto(ring, Slot(p, k), data) == if data == [] then None else Some(Stored(ring, p, data, k))
  {
    hide Slot, Pow2, CopiedInto, Stored, Laid;
    CopiedIsLaid(ring, Slot(p, k), data);
    LaidIsStored(ring, p, data, k);
  }

  // ---------------------------------------------------------------- what is kept

  lemma SlotsDiffer(x: nat, y: nat, k: nat)
    requires x < y < x + Pow2(k)
    ensures Slot(x, k) != Slot(y, k)
  {
    hide Slot, Pow2;
    ModDiffer(x, y, Pow2(k));
  }

  lemma ModDiffer(x: nat, y: nat, d: nat)
    requires x < y < x + d
    ensures x % d != y % d
  {
    assert x == x / d * d + x % d && y == y / d * d + y % d;
    if x / d < y / d {
      MulMono(x / d, y / d, d);
    } else if y / d < x / d {
      MulMono(y / d, x / d, d);
    }
  }

  lemma SlotAgain(x: nat, k: nat)
    ensures Slot(x + Pow2(k), k) == Slot(x, k)
  {
    hide Slot, Pow2;
    ModAgain(x, Pow2(k));
  }

  lemma ModAgain(x: nat, d: nat)
    requires d > 0
    ensures (x + d) % d == x % d
  {
    assert x == x / d * d + x % d;
    assert (x / d + 1) * d == x / d * d + d;
    DivUnique(x + d, x / d + 1, x % d, d);
  }

  /** What becomes of a byte at position x that the server has yet to take when a block no longer than the ring is stored
      at p: it stays exactly as long as the block ends within a ring's length of it, and otherwise it is replaced by
      the block's byte that comes round to it. */
  lemma {:induction false} OutstandingAfter(ring: seq<Byte>, p: nat, data: seq<Byte>, k: nat, x: nat)
    requires |ring| == Pow2(k) && x < p <= x + Pow2(k) && |data| <= Pow2(k)
    ensures Stored(ring, p, data, k)[Slot(x, k)] ==
            if p + |data| <= x + Pow2(k) then ring[Slot(x, k)] else data[x + Pow2(k) - p]
    decreases |data|
  {
    if data != [] {
      var ring' := ring[Slot(p, k) := data[0]];
      if p == x + Pow2(k) {
        SlotAgain(x, k);
        StoredPast(ring', p + 1, data[1..], k, x);
      } else {
        SlotsDiffer(x, p, k);
        OutstandingAfter(ring', p + 1, data[1..], k, x);
      }
    }
  }

  // Bytes stored once round and before the next time round do not reach x.
  lemma {:induction false} StoredPast(ring: seq<Byte>, p: nat, data: seq<Byte>, k: nat, x: nat)
    requires |ring| == Pow2(k) && x + Pow2(k) < p && p + |data| <= x + 2 * Pow2(k)
    ensures Stored(ring, p, data, k)[Slot(x, k)] == ring[Slot(x, k)]
    decreases |data|
  {
    if data != [] {
      SlotAgain(x, k);
      SlotsDiffer(x + Pow2(k), p, k);
      StoredPast(ring[Slot(p, k) := data[0]], p + 1, data[1..], k, x);
    }
  }

  // The bytes at positions p, p + 1, ...
  function Window(ring: seq<Byte>, p: nat, n: nat, k: nat): (w: seq<Byte>)
    requires |ring| == Pow2(k)
    ensures |w| == n
  {
    seq(n, i requires 0 <= i => ring[Slot(p + i, k)])
  }

  /** A block no longer than the ring can be read back from where it was stored. */
  lemma {:induction false} StoredWindow(ring: seq<Byte>, p: nat, data: seq<Byte>, k: nat)
    requires |ring| == Pow2(k) && |data| <= Pow2(k)
    ensures Window(Stored(ring, p, data, k), p, |data|, k) == data
    decreases |data|
  {
    hide Slot, Pow2;
    if data != [] {
      var ring' := ring[Slot(p, k) := data[0]];
      var r := Stored(ring', p + 1, data[1..], k);
      StoredWindow(ring', p + 1, data[1..], k);
      OutstandingAfter(ring', p + 1, data[1..], k, p);
      forall i | 0 < i < |data| ensures Window(r, p, |data|, k)[i] == data[i] {
        assert Window(r, p + 1, |data| - 1, k)[i - 1] == data[1..][i - 1];
        assert p + 1 + (i - 1) == p + i;
      }
      assert Window(r, p, |data|, k)[0] == r[Slot(p + 0, k)] == data[0];
    }
  }

  /** With room, what is waiting reads as before. */
  lemma WindowKept(ring: seq<Byte>, p: nat, data: seq<Byte>, k: nat, x: nat, n: nat)
    requires |ring| == Pow2(k) && x + n <= p && p + |data| <= x + Pow2(k)
    ensures Window(Stored(ring, p, data, k), x, n, k) == Window(ring, x, n, k)
  {
    hide Slot, Pow2, Stored;
    var r := Stored(ring, p, data, k);
    forall i | 0 <= i < n ensures Window(r, x, n, k)[i] == Window(ring, x, n, k)[i] {
      OutstandingAfter(ring, p, data, k, x + i);
    }
  }

  /** No outstanding byte is overwritten, whatever the block's n bytes are, exactly when there is room for them next to the
      `used` bytes outstanding. */
  lemma KeptIffRoom(p: nat, used: nat, n: nat, k: nat)
    requires used <= p && used <= Pow2(k) && n <= Pow2(k)
    ensures Keeps(p, used, n, k) <==> used == 0 || n + used <= Pow2(k)
  {
    var ring, data := seq(Pow2(k), _ => 0 as Byte), seq(n, _ => 1 as Byte);
    if used == 0 || n + used <= Pow2(k) {
      forall r: seq<Byte>, d: seq<Byte>, x: nat | |r| == Pow2(k) && |d| == n && p - used <= x < p
        ensures Stored(r, p, d, k)[Slot(x, k)] == r[Slot(x, k)]
      {
        OutstandingAfter(r, p, d, k, x);
      }
    } else {
      var x := p - used;
      OutstandingAfter(ring, p, data, k, x);
      assert Stored(ring, p, data, k)[Slot(x, k)] != ring[Slot(x, k)];
    }
  }

  ghost predicate Keeps(p: nat, used: nat, n: nat, k: nat)
    requires used <= p
  {
    forall r: seq<Byte>, d: seq<Byte>, x: nat :: |r| == Pow2(k) && |d| == n && p - used <= x < p ==>
      Stored(r, p, d, k)[Slot(x, k)] == r[Slot(x, k)]
  }

  /** The space test as written adds the bytes in use instead of subtracting them. */
  predicate SpaceTest(used: int, n: nat, size: nat) {
    n <= size + used
  }

  /** So for a block and a filling no larger than the ring it gives the answer it should exactly when there is room. */
  lemma SpaceTestRightIff(used: nat, n: nat, size: nat)
    requires used <= size && n <= size
    ensures (SpaceTest(used, n, size) <==> n + used <= size) <==> n + used <= size
  {
  }

  /** One that it lets through: two bytes are waiting at the start of a ring of four, and a block of four replaces them. */
  lemma AcceptedBlockOverwrites()
    ensures SpaceTest(2, 4, 4) && Pow2(2) == 4
    ensures var ring := [1, 2, 0, 0]; Stored(ring, 2, [3, 4, 5, 6], 2) == [5, 6, 3, 4]
  {
    assert Pow2(2) == 4;
    var ring: seq<Byte> := [1, 2, 0, 0];
    LaidIsStored(ring, 2, [3, 4, 5, 6], 2);
    assert Slot(2, 2) == 2;
    assert Laid(ring, 2, [3, 4, 5, 6]) == [5, 6, 3, 4];
  }

  // ---------------------------------------------------------------- the code

  datatype Copy = Refused | Stopped | Copied

  class DataRingBuffer {
    const buffer: array<Byte>
    ghost const k: nat
    var requestPtr: nat
    var fulfillPtr: nat
    var partialLength: nat

    ghost predicate Shaped()
      reads this
    {
      buffer.Length == Pow2(k) && fulfillPtr <= requestPtr
    }

    function Used(): nat
      requires fulfillPtr <= requestPtr
      reads this
    {
      requestPtr + partialLength - fulfillPtr
    }

    constructor (ghost e: nat, size: nat)
      requires size == Pow2(e)
      ensures Shaped() && k == e && requestPtr == fulfillPtr == partialLength == 0 && fresh(buffer)
    {
      buffer := new Byte[size](_ => 0);
      k := e;
      requestPtr, fulfillPtr, partialLength := 0, 0, 0;
    }

    method Memcpy(at: nat, data: seq<Byte>, from: nat, n: nat)
      requires at + n <= buffer.Length && from + n <= |data|
      modifies buffer
      ensures forall i :: 0 <= i < buffer.Length ==>
                buffer[i] == if at <= i < at + n then data[from + (i - at)] else old(buffer[i])
    {
      var j := 0;
      while j < n
        invariant 0 <= j <= n
        invariant forall i :: 0 <= i < buffer.Length ==>
                    buffer[i] == if at <= i < at + j then data[from + (i - at)] else old(buffer[i])
      {
        buffer[at + j] := data[from + j];
        j := j + 1;
      }
    }

    /** The copy of a block that was given its space: the part up to the end of the ring, and the rest at its beginning. */
    method Store(p: nat, data: seq<Byte>)
      requires buffer.Length == Pow2(k) && |data| <= buffer.Length
      modifies buffer
      ensures buffer[..] == Stored(old(buffer[..]), p, data, k)
    {
      hide And, Pow2, Stored;
      AndMask(p, k);
      var start := And(p, buffer.Length - 1);
      var part1 := buffer.Length - start;
      if part1 < |data| {
        Memcpy(start, data, 0, part1);
        Memcpy(0, data, part1, |data| - part1);
      } else {
        Memcpy(start, data, 0, |data|);
      }
      LaidIsStored(old(buffer[..]), p, data, k);
      assert buffer[..] == Laid(old(buffer[..]), start, data);
    }

    // The two copies; false when one of them is stopped.
    method CopyParts(start: nat, data: seq<Byte>) returns (ok: bool)
      requires buffer.Length == Pow2(k) && start < buffer.Length
      modifies buffer
      ensures var r := CopiedInto(old(buffer[..]), start, data);
              ok == r.Some? && buffer[..] == if ok then r.value else old(buffer[..])
    {
      hide And, Pow2, CopiedInto;
      var size := buffer.Length;
      AndMask(start + |data|, k);
      var end := And(start + |data|, size - 1);
      var twoParts := end <= start;
      CopiedParts(buffer[..], start, data);
      var first := if twoParts then size - start else |data|;
      if first > |data| || start + first > size || (twoParts && end > |data|) {
        return false;
      }
      Memcpy(start, data, 0, first);
      if twoParts {
        Memcpy(0, data, |data| - end, end);
      }
      assert buffer[..] == CopiedInto(old(buffer[..]), start, data).value;
      ok := true;
    }

    /** Line by line what the block copy does: the space test, then the parts.  A block that passes goes in at the end of
        what is waiting, whether there is room or not; with room nothing waiting changes. */
    method CopyIntoDrb(data: seq<Byte>) returns (r: Copy)
      requires Shaped()
      modifies this`partialLength, buffer
      ensures Shaped() && (r.Refused? <==> !SpaceTest(old(Used()), |data|, buffer.Length))
      ensures r.Refused? || r.Stopped? ==> buffer[..] == old(buffer[..]) && partialLength == old(partialLength)
      ensures r.Copied? ==>
                && partialLength == old(partialLength) + |data|
                && CopiedInto(old(buffer[..]), Slot(requestPtr + old(partialLength), k), data) == Some(buffer[..])
      ensures r.Stopped? <==>
                !r.Refused? && CopiedInto(old(buffer[..]), Slot(requestPtr + old(partialLength), k), data).None?
    {
      hide And, Pow2, Stored, Laid, CopiedInto;
      AndMask(requestPtr + partialLength, k);
      if buffer.Length + (requestPtr + partialLength - fulfillPtr) < |data| {
        return Refused;
      }
      var start := And(requestPtr + partialLength, buffer.Length - 1);
      var ok := CopyParts(start, data);
      if !ok {
        return Stopped;
      }
      partialLength := partialLength + |data|;
      r := Copied;
    }

    method Fputc(b: Byte)
      requires Shaped() && Used() != buffer.Length
      modifies this`partialLength, buffer
      ensures Shaped() && partialLength == old(partialLength) + 1
      ensures buffer[..] == Stored(old(buffer[..]), requestPtr + old(partialLength), [b], k)
    {
      AndMask(requestPtr + partialLength, k);
      buffer[And(requestPtr + partialLength, buffer.Length - 1)] := b;
      partialLength := partialLength + 1;
    }
  }

  lemma WrapPoint(start: nat, n: nat, size: nat)
    requires start < size && 0 < n <= size
    ensures (start + n) % size == if start + n < size then start + n else start + n - size
  {
    if start + n < size {
      DivUnique(start + n, 0, start + n, size);
    } else {
      DivUnique(start + n, 1, start + n - size, size);
    }
  }

  /** Why the block must not be empty: for no bytes the wrap test is true as well, and the first part then runs from the
      start to the end of the ring, past the end of the block. */
  lemma FirstPartFitsIff(start: nat, n: nat, size: nat)
    requires start < size && n <= size
    ensures (if (start + n) % size <= start then size - start else n) <= n <==> n > 0
  {
    if n > 0 {
      WrapPoint(start, n, size);
    } else {
      DivUnique(start, 0, start, size);
    }
  }
}
