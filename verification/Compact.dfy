/** Sliding compaction of a code segment: the objects that relocations still name are copied down over the gaps,
    in place, and every relocated capability is re-derived for its object's new position.  Addresses are offsets
    into the segment, whose base is word aligned. */
module Compact {
  import opened Wire

  // struct capreloc, as far as compaction reads it; `slot` is where the capability lives.
  datatype Reloc = Reloc(slot: nat, obj: nat, offset: nat, size: nat)

  // The bounds and cursor of a capability into the segment.
  datatype Cap = Cap(base: nat, length: nat, cursor: nat)

  const RELOC_SZ: nat := 40

  /** Where the relocation table is: elsewhere, or inside the segment being compacted. */
  datatype Table = Outside(rows: seq<Reloc>) | Inside(at: nat)

  // Row k of the table, decoded from wherever the table is now.
  function Row(t: Table, mem: seq<Byte>, k: nat, decode: seq<Byte> -> Reloc): Reloc {
    match t
    case Outside(rows) => if k < |rows| then rows[k] else Reloc(0, 0, 0, 0)
    case Inside(at) =>
      if at + (k + 1) * RELOC_SZ <= |mem| then decode(mem[at + k * RELOC_SZ..at + (k + 1) * RELOC_SZ])
        else Reloc(0, 0, 0, 0)
  }

  // ---------------------------------------------------------------- the order

  // (int)x for a 64-bit x.
  function AsInt(x: int): int {
    var y := x % 0x1_0000_0000;
    if y < 0x8000_0000 then y else y - 0x1_0000_0000
  }

  // reloc_cmp: 32-bit differences of truncated values.
  function RelocCmp(a: Reloc, b: Reloc): int {
    var diff := AsInt(AsInt(a.obj) - AsInt(b.obj));
    if diff == 0 then AsInt(b.size - a.size) else diff
  }

  predicate Before(a: Reloc, b: Reloc) {
    a.obj < b.obj || (a.obj == b.obj && a.size >= b.size)
  }

  // What the comparison subtracts is within 31 bits.
  predicate Close(a: Reloc, b: Reloc) {
    if a.obj != b.obj then -0x8000_0000 <= a.obj - b.obj < 0x8000_0000 else -0x8000_0000 <= b.size - a.size < 0x8000_0000
  }

  /** The comparison, made in 32-bit differences, orders two relocations by address and then by falling size when what it
      subtracts is within 31 bits; and only then, as long as addresses and sizes differ by less than 2^32. */
  lemma CmpIsOrderIff(a: Reloc, b: Reloc)
    ensures Close(a, b) ==> (RelocCmp(a, b) <= 0 <==> Before(a, b))
    ensures -0x1_0000_0000 < a.obj - b.obj < 0x1_0000_0000 && -0x1_0000_0000 < a.size - b.size < 0x1_0000_0000 ==>
              && ((RelocCmp(a, b) <= 0 <==> Before(a, b)) <==> Close(a, b))
              && (RelocCmp(a, b) == 0 <==> a.obj == b.obj && a.size == b.size)
  {
    TruncatedDifference(a.obj, b.obj);
  }

  lemma TruncatedDifference(x: nat, y: nat)
    ensures AsInt(AsInt(x) - AsInt(y)) == AsInt(x - y)
  {
  }

  // ---------------------------------------------------------------- one object

  function CopyWord(mem: seq<Byte>, src: nat, dst: nat): (r: seq<Byte>)
    requires src + 4 <= |mem| && dst + 4 <= |mem|
    ensures |r| == |mem|
    ensures forall x :: 0 <= x < |mem| ==> r[x] == if dst <= x < dst + 4 then mem[x - dst + src] else mem[x]
  {
    mem[dst := mem[src]][dst + 1 := mem[src + 1]][dst + 2 := mem[src + 2]][dst + 3 := mem[src + 3]]
  }

  // The first i bytes of an object have been copied down.
  ghost predicate CopiedTo(mem: seq<Byte>, was: seq<Byte>, src: nat, dst: nat, i: nat) {
    && |mem| == |was| && dst <= src && src + i <= |was|
    && (forall x :: dst <= x < dst + i ==> mem[x] == was[x - dst + src])
    && (forall x :: 0 <= x < |mem| && !(dst <= x < dst + i) ==> mem[x] == was[x])
  }

  // Copying on does not read what was written.
  lemma CopiedOn(mem: seq<Byte>, mem': seq<Byte>, was: seq<Byte>, src: nat, dst: nat, i: nat, n: nat)
    requires CopiedTo(mem, was, src, dst, i) && CopiedTo(mem', mem, src + i, dst + i, n)
    ensures CopiedTo(mem', was, src, dst, i + n)
  {
    forall x | dst <= x < dst + (i + n) ensures mem'[x] == was[x - dst + src] {
      if x >= dst + i {
        assert mem'[x] == mem[x - (dst + i) + (src + i)];
        assert mem[x - dst + src] == was[x - dst + src];
      }
    }
  }

  lemma WordCopied(mem: seq<Byte>, src: nat, dst: nat)
    requires dst <= src && src + 4 <= |mem|
    ensures CopiedTo(CopyWord(mem, src, dst), mem, src, dst, 4)
  {
  }

  lemma ByteCopied(mem: seq<Byte>, src: nat, dst: nat)
    requires dst <= src < |mem|
    ensures CopiedTo(mem[dst := mem[src]], mem, src, dst, 1)
  {
  }

  lemma NoneCopied(mem: seq<Byte>, src: nat, dst: nat)
    requires dst <= src <= |mem|
    ensures CopiedTo(mem, mem, src, dst, 0)
  {
  }

  /** The bytes after the copy loop, from byte i of the object on, wherever the copy goes. */
  function CopiedRun(mem: seq<Byte>, src: nat, dst: nat, i: nat, size: nat, words: bool): (r: seq<Byte>)
    requires i <= size && src + size <= |mem| && dst + size <= |mem| && (words ==> (size - i) % 4 == 0)
    ensures |r| == |mem|
    decreases size - i
  {
    if i == size then mem
    else if words then CopiedRun(CopyWord(mem, src + i, dst + i), src, dst, i + 4, size, words)
    else CopiedRun(mem[dst + i := mem[src + i]], src, dst, i + 1, size, words)
  }

  // One 32-bit load and store.
  method MoveWord(mem: array<Byte>, src: nat, dst: nat)
    requires dst <= src && src + 4 <= mem.Length
    modifies mem
    ensures mem[..] == CopyWord(old(mem[..]), src, dst) && CopiedTo(mem[..], old(mem[..]), src, dst, 4)
  {
    WordCopied(mem[..], src, dst);
    hide CopiedTo;
    mem[dst], mem[dst + 1], mem[dst + 2], mem[dst + 3] := mem[src], mem[src + 1], mem[src + 2], mem[src + 3];
    assert mem[..] == CopyWord(old(mem[..]), src, dst);
  }

  method MoveByte(mem: array<Byte>, src: nat, dst: nat)
    requires dst <= src < mem.Length
    modifies mem
    ensures mem[..] == old(mem[..])[dst := old(mem[..])[src]] && CopiedTo(mem[..], old(mem[..]), src, dst, 1)
  {
    ByteCopied(mem[..], src, dst);
    hide CopiedTo;
    mem[dst] := mem[src];
    assert mem[..] == old(mem[..])[dst := old(mem[..])[src]];
  }

  // One turn of the copy loop.
  method MoveOn(mem: array<Byte>, src: nat, dst: nat, i: nat, size: nat, words: bool, ghost was: seq<Byte>)
    returns (i': nat)
    requires dst <= src && i < size && src + size <= mem.Length && (words ==> (size - i) % 4 == 0)
    requires CopiedTo(mem[..], was, src, dst, i)
    modifies mem
    ensures i < i' <= size && (words ==> (size - i') % 4 == 0) && CopiedTo(mem[..], was, src, dst, i')
    ensures CopiedRun(mem[..], src, dst, i', size, words) == CopiedRun(old(mem[..]), src, dst, i, size, words)
  {
    hide CopiedTo, CopyWord;
    if words {
      MoveWord(mem, src + i, dst + i);
      CopiedOn(old(mem[..]), mem[..], was, src, dst, i, 4);
      i' := i + 4;
    } else {
      MoveByte(mem, src + i, dst + i);
      CopiedOn(old(mem[..]), mem[..], was, src, dst, i, 1);
      i' := i + 1;
    }
  }

  /** Copies an object down, by words or by bytes. */
  method CopyDown(mem: array<Byte>, src: nat, dst: nat, size: nat, words: bool)
    requires dst <= src && src + size <= mem.Length && (words ==> size % 4 == 0)
    modifies mem
    ensures CopiedTo(mem[..], old(mem[..]), src, dst, size)
    ensures mem[..] == CopiedRun(old(mem[..]), src, dst, 0, size, words)
  {
    ghost var was := mem[..];
    NoneCopied(was, src, dst);
    var i := 0;
    while i < size
      invariant i <= size && (words ==> (size - i) % 4 == 0)
      invariant CopiedTo(mem[..], was, src, dst, i)
      invariant CopiedRun(mem[..], src, dst, i, size, words) == CopiedRun(was, src, dst, 0, size, words)
    {
      hide CopiedTo, CopiedRun;
      i := MoveOn(mem, src, dst, i, size, words, was);
    }
  }

  // ---------------------------------------------------------------- the whole list

  // The relocations to move, in list order.
  function Entries(rows: seq<Reloc>, order: seq<nat>): seq<Reloc>
    requires forall k :: 0 <= k < |order| ==> order[k] < |rows|
  {
    seq(|order|, k requires 0 <= k < |order| => rows[order[k]])
  }

  /** No entry straddles the end of the object copied last; the assertion in the loop checks just this. */
  predicate Fits(es: seq<Reloc>, i: nat, end: nat)
    decreases |es| - i
  {
    if i >= |es| then true
    else if es[i].obj >= end then Fits(es, i + 1, es[i].obj + es[i].size)
    else es[i].obj + es[i].size <= end && Fits(es, i + 1, end)
  }

  // The entry is copied by words.
  predicate ByWords(e: Reloc) {
    (e.obj + e.offset) % 4 == 0 && e.size % 4 == 0
  }

  // What the loader and the sort guarantee about the entries and their slots.
  ghost predicate Loaded(es: seq<Reloc>, slots: map<nat, Cap>, top: nat) {
    && (forall k :: 0 <= k < |es| ==>
          && es[k].size > 0 && es[k].obj + es[k].size <= top
          && es[k].slot in slots && slots[es[k].slot].cursor == es[k].obj + es[k].offset)
    && (forall i, j :: 0 <= i < j < |es| ==> Before(es[i], es[j]) && es[i].slot != es[j].slot)
  }

  // If the table is inside the segment, one entry names exactly it, and everything before that entry ends below it and
  // does not have its cursor on it.
  ghost predicate Tracked(t: Table, es: seq<Reloc>, n: nat, j: nat) {
    t.Inside? ==>
      && j < |es| && es[j].obj == t.at && es[j].offset == 0 && n * RELOC_SZ <= es[j].size
      && forall i :: 0 <= i < j ==> es[i].obj + es[i].size <= t.at != es[i].obj + es[i].offset
  }

  ghost predicate Readable(t: Table, mem: seq<Byte>, rows: seq<Reloc>, decode: seq<Byte> -> Reloc) {
    forall k :: 0 <= k < |rows| ==> Row(t, mem, k, decode) == rows[k]
  }

  // The capability covers the bytes its object had before compaction, with the same cursor offset, and it did not
  // move up.
  predicate Names(c: Cap, e: Reloc, mem: seq<Byte>, was: seq<Byte>, newSize: nat) {
    && c.length == e.size && c.cursor == c.base + e.offset
    && c.base <= e.obj && c.base + e.size <= newSize <= |mem| && e.obj + e.size <= |was|
    && mem[c.base..c.base + e.size] == was[e.obj..e.obj + e.size]
  }

  // A table whose bytes are intact at its place reads as before.
  lemma TableMoved(mem: seq<Byte>, at: nat, mem': seq<Byte>, at': nat, rows: seq<Reloc>, decode: seq<Byte> -> Reloc)
    requires at + |rows| * RELOC_SZ <= |mem| && at' + |rows| * RELOC_SZ <= |mem'|
    requires mem[at..at + |rows| * RELOC_SZ] == mem'[at'..at' + |rows| * RELOC_SZ]
    requires Readable(Inside(at), mem, rows, decode)
    ensures Readable(Inside(at'), mem', rows, decode)
  {
    var n := |rows| * RELOC_SZ;
    forall k | 0 <= k < |rows| ensures Row(Inside(at'), mem', k, decode) == rows[k] {
      var a, b := k * RELOC_SZ, (k + 1) * RELOC_SZ;
      assert b <= n;
      Slice(mem, at, at + n, a, b);
      Slice(mem', at', at' + n, a, b);
      assert Row(Inside(at), mem, k, decode) == rows[k];
    }
  }

  /** The cursors of the loop: how much is written, and the object copied last with its new place. */
  datatype Slide = Slide(newSize: nat, lastBase: nat, lastLoc: nat, lastSize: nat) {
    function End(): nat { lastLoc + lastSize }
  }

  // The write cursor is not past the read cursor, everything from it on is untouched, and the last object is copied.
  ghost predicate Slid(s: Slide, mem: seq<Byte>, was: seq<Byte>) {
    && |mem| == |was| && s.newSize == s.lastBase + s.lastSize
    && s.lastBase <= s.lastLoc && s.End() <= |was|
    && mem[s.lastBase..s.newSize] == was[s.lastLoc..s.End()]
    && mem[s.newSize..] == was[s.newSize..]
  }

  lemma Slice<T>(s: seq<T>, a: nat, b: nat, c: nat, d: nat)
    requires a <= b <= |s| && c <= d <= b - a
    ensures s[a..b][c..d] == s[a + c..a + d]
  {
    var x, y := s[a..b][c..d], s[a + c..a + d];
    assert |x| == |y| && forall i :: 0 <= i < |x| ==> x[i] == y[i];
  }

  lemma SubObject(s: Slide, mem: seq<Byte>, was: seq<Byte>, e: Reloc)
    requires Slid(s, mem, was) && s.lastLoc <= e.obj && e.obj + e.size <= s.End()
    ensures var b := s.lastBase + (e.obj - s.lastLoc); Names(Cap(b, e.size, b + e.offset), e, mem, was, s.newSize)
  {
    var d := e.obj - s.lastLoc;
    Slice(mem, s.lastBase, s.newSize, d, d + e.size);
    Slice(was, s.lastLoc, s.End(), d, d + e.size);
  }

  lemma CopiedSlices(mem: seq<Byte>, mem': seq<Byte>, src: nat, dst: nat, n: nat)
    requires CopiedTo(mem', mem, src, dst, n)
    ensures |mem'| == |mem| && mem'[dst..dst + n] == mem[src..src + n] && mem'[..dst] == mem[..dst]
            && mem'[dst + n..] == mem[dst + n..]
  {
    var a, b := mem'[dst..dst + n], mem[src..src + n];
    forall k | 0 <= k < n ensures a[k] == b[k] {
      assert mem'[dst + k] == mem[dst + k - dst + src];
    }
  }

  // What is above the write cursor is still what it was, wherever one looks from.
  lemma UntouchedAbove(s: Slide, mem: seq<Byte>, was: seq<Byte>, a: nat, b: nat)
    requires Slid(s, mem, was) && s.newSize <= a <= b <= |was|
    ensures mem[a..b] == was[a..b]
  {
    Slice(mem, s.newSize, |mem|, a - s.newSize, b - s.newSize);
    Slice(was, s.newSize, |was|, a - s.newSize, b - s.newSize);
  }

  // The parts of the segment after a fresh copy.
  lemma FreshParts(s: Slide, mem: seq<Byte>, mem': seq<Byte>, was: seq<Byte>, src: nat, to: nat, n: nat)
    requires Slid(s, mem, was) && src + n <= |was| && s.newSize <= to <= src && CopiedTo(mem', mem, src, to, n)
    ensures |mem'| == |was| && mem'[to..to + n] == was[src..src + n] && mem'[to + n..] == was[to + n..]
    ensures s.newSize <= |mem'| && s.newSize <= |mem| && mem'[..s.newSize] == mem[..s.newSize]
  {
    CopiedSlices(mem, mem', src, to, n);
    SlidSize(s, mem, was);
    hide CopiedTo;
    UntouchedAbove(s, mem, was, src, src + n);
    UntouchedAbove(s, mem, was, to + n, |was|);
    hide Slid;
    assert mem[to + n..|was|] == mem[to + n..] && was[to + n..|was|] == was[to + n..];
    Prefixes(mem, mem', to, s.newSize);
  }

  // An object above everything read so far, copied to a place at or above the write cursor and not above the object.
  lemma FreshCopy(s: Slide, mem: seq<Byte>, mem': seq<Byte>, was: seq<Byte>, e: Reloc, to: nat)
    requires Slid(s, mem, was) && s.End() <= e.obj && e.obj + e.size <= |was| && s.newSize <= to <= e.obj
    requires CopiedTo(mem', mem, e.obj, to, e.size)
    ensures Slid(Slide(to + e.size, to, e.obj, e.size), mem', was)
    ensures s.newSize <= |mem'| && s.newSize <= |mem| && mem'[..s.newSize] == mem[..s.newSize]
    ensures Names(Cap(to, e.size, to + e.offset), e, mem', was, to + e.size)
  {
    hide CopiedTo, Slid, Names;
    FreshParts(s, mem, mem', was, e.obj, to, e.size);
    AtRest(Slide(to + e.size, to, e.obj, e.size), mem', was);
    NamesIntro(Cap(to, e.size, to + e.offset), e, mem', was, to + e.size);
  }

  lemma AtRest(s: Slide, mem: seq<Byte>, was: seq<Byte>)
    requires |mem| == |was| && s.newSize == s.lastBase + s.lastSize && s.lastBase <= s.lastLoc && s.End() <= |was|
    requires mem[s.lastBase..s.newSize] == was[s.lastLoc..s.End()] && mem[s.newSize..] == was[s.newSize..]
    ensures Slid(s, mem, was)
  {
  }

  lemma NamesIntro(c: Cap, e: Reloc, mem: seq<Byte>, was: seq<Byte>, n: nat)
    requires c == Cap(c.base, e.size, c.base + e.offset) && c.base <= e.obj && c.base + e.size <= n <= |mem|
    requires e.obj + e.size <= |was| && mem[c.base..c.base + e.size] == was[e.obj..e.obj + e.size]
    ensures Names(c, e, mem, was, n)
  {
  }

  lemma Prefixes(a: seq<Byte>, b: seq<Byte>, n: nat, m: nat)
    requires m <= n <= |a| && n <= |b| && a[..n] == b[..n]
    ensures a[..m] == b[..m]
  {
    assert a[..m] == a[..n][..m] && b[..m] == b[..n][..m];
  }

  /** Where an object may start: at the write cursor, or for a word copy at the least multiple of four not below it. */
  function Target(newSize: nat, words: bool): (to: nat)
    ensures newSize <= to < newSize + 4 && (if words then to % 4 == 0 else to == newSize)
    ensures words ==> forall x: nat :: x % 4 == 0 && newSize <= x ==> to <= x
  {
    if words then newSize + (4 - newSize % 4) % 4 else newSize
  }

  /** Where the entries from i on are put. */
  function Homes(es: seq<Reloc>, i: nat, s: Slide): (homes: seq<int>)
    ensures |homes| == if i <= |es| then |es| - i else 0
    decreases |es| - i
  {
    if i >= |es| then []
    else
      var e := es[i];
      if e.obj >= s.End() then
        var to := Target(s.newSize, ByWords(e));
        [to] + Homes(es, i + 1, Slide(to + e.size, to, e.obj, e.size))
      else [s.lastBase + (e.obj - s.lastLoc)] + Homes(es, i + 1, s)
  }

  /** Where the write cursor ends. */
  function Extent(es: seq<Reloc>, i: nat, s: Slide): nat
    decreases |es| - i
  {
    if i >= |es| then s.newSize
    else
      var e := es[i];
      if e.obj >= s.End() then
        var to := Target(s.newSize, ByWords(e));
        Extent(es, i + 1, Slide(to + e.size, to, e.obj, e.size))
      else Extent(es, i + 1, s)
  }

  /** The loop on values, from entry i on: what it leaves in the segment, wherever the write cursor goes.  It stops where an
      entry straddles the last object, and where a copy would leave the segment. */
  function Compacted(es: seq<Reloc>, i: nat, mem: seq<Byte>, newSize: nat, end: nat): seq<Byte>
    decreases |es| - i
  {
    if i >= |es| then mem
    else
      var e := es[i];
      if e.obj >= end then
        var to := Target(newSize, ByWords(e));
        if to + e.size > |mem| || e.obj + e.size > |mem| then mem
        else Compacted(es, i + 1, CopiedRun(mem, e.obj, to, 0, e.size, ByWords(e)), to + e.size, e.obj + e.size)
      else if e.obj + e.size <= end then Compacted(es, i + 1, mem, newSize, end)
      else mem
  }

  /** The rounded write cursor passes no object that is copied: what the loop needs of the alignment of its entries. */
  predicate Clear(es: seq<Reloc>, i: nat, newSize: nat, end: nat)
    decreases |es| - i
  {
    if i >= |es| then true
    else
      var e := es[i];
      if e.obj >= end then
        var to := Target(newSize, ByWords(e));
        to <= e.obj && Clear(es, i + 1, to + e.size, e.obj + e.size)
      else e.obj + e.size <= end ==> Clear(es, i + 1, newSize, end)
  }

  /** It is enough that word-copied objects have offsets of whole words. */
  lemma {:induction false} WholeWordsClear(es: seq<Reloc>, i: nat, newSize: nat, end: nat)
    requires forall k :: 0 <= k < |es| && ByWords(es[k]) ==> es[k].offset % 4 == 0
    requires newSize <= end
    ensures Clear(es, i, newSize, end)
    decreases |es| - i
  {
    if i < |es| {
      var e := es[i];
      if e.obj >= end {
        assert ByWords(e) ==> e.obj % 4 == 0;
        WholeWordsClear(es, i + 1, Target(newSize, ByWords(e)) + e.size, e.obj + e.size);
      } else if e.obj + e.size <= end {
        WholeWordsClear(es, i + 1, newSize, end);
      }
    }
  }

  /** The rounded write cursor can pass a word-copied object exactly when the object's offset is not a whole number of
      words. */
  lemma TargetBelowIff(e: Reloc)
    requires ByWords(e)
    ensures (forall n: nat :: n <= e.obj ==> Target(n, true) <= e.obj) <==> e.offset % 4 == 0
  {
    if e.offset % 4 == 0 {
      assert e.obj % 4 == 0;
    } else {
      RoundsPast(e.obj);
    }
  }

  lemma RoundsPast(n: nat)
    requires n % 4 != 0
    ensures Target(n, true) > n
  {
  }

  /** And then the copy eats its own source.  A byte at 0 and eight bytes at 1 that are named with offset 3: the eight go
      to 4, and their second half is overwritten before it is read. */
  lemma PassedCopyCorrupts(mem: seq<Byte>)
    requires |mem| == 12 && mem[5] != mem[2]
    ensures var es := [Reloc(0, 0, 0, 1), Reloc(1, 1, 3, 8)];
            && Fits(es, 0, 0) && !Clear(es, 0, 0, 0) && Target(1, ByWords(es[1])) == 4
            && Compacted(es, 0, mem, 0, 0)[4..12] != mem[1..9]
  {
    hide CopiedRun, Target, ByWords;
    var a, e := Reloc(0, 0, 0, 1), Reloc(1, 1, 3, 8);
    EatenCopy(mem);
    PassedTarget();
    PassedRun([a, e], mem);
    assert !Clear([a, e], 1, 1, 1);
    assert Fits([a, e], 2, 9) && Fits([a, e], 1, 1);
  }

  lemma PassedRun(es: seq<Reloc>, mem: seq<Byte>)
    requires es == [Reloc(0, 0, 0, 1), Reloc(1, 1, 3, 8)] && |mem| == 12 && CopiedRun(mem, 0, 0, 0, 1, false) == mem
    ensures Compacted(es, 0, mem, 0, 0) == CopiedRun(mem, 1, 4, 0, 8, true)
  {
    hide CopiedRun, Target, ByWords;
    PassedTarget();
    var mem' := CopiedRun(mem, 1, 4, 0, 8, true);
    assert Compacted(es, 2, mem', 12, 9) == mem';
    assert Compacted(es, 1, mem, 1, 1) == mem';
  }

  lemma PassedTarget()
    ensures Target(0, ByWords(Reloc(0, 0, 0, 1))) == 0 && Target(1, ByWords(Reloc(1, 1, 3, 8))) == 4
    ensures ByWords(Reloc(1, 1, 3, 8)) && !ByWords(Reloc(0, 0, 0, 1))
  {
  }

  lemma EatenCopy(mem: seq<Byte>)
    requires |mem| == 12 && mem[5] != mem[2]
    ensures CopiedRun(mem, 0, 0, 0, 1, false) == mem && CopiedRun(mem, 1, 4, 0, 8, true)[4..12] != mem[1..9]
  {
    assert mem[0 := mem[0]] == mem;
    var once := CopyWord(mem, 1, 4);
    var twice := CopyWord(once, 5, 8);
    hide CopyWord;
    assert CopiedRun(twice, 1, 4, 8, 8, true) == twice;
    assert CopiedRun(once, 1, 4, 4, 8, true) == twice;
    assert twice[4..12][4] == twice[8] == once[5] == mem[2];
    assert mem[1..9][4] == mem[5];
  }

  // What one call of Place does, seen from the whole loop.
  ghost predicate Placed(s: Slide, s': Slide, e: Reloc, cap: Cap, mem: seq<Byte>, mem': seq<Byte>, was: seq<Byte>) {
    && Slid(s, mem, was) && Slid(s', mem', was) && s.newSize <= s'.newSize && mem'[..s.newSize] == mem[..s.newSize]
    && s'.lastLoc <= e.obj && e.obj + e.size <= s'.End() && Names(cap, e, mem', was, s'.newSize)
    && cap.base == s'.lastBase + (e.obj - s'.lastLoc)
    && (if e.obj >= s.End() then s'.lastLoc == e.obj && s'.lastSize == e.size else s' == s)
  }

  lemma FreshPlaced(s: Slide, mem: seq<Byte>, mem': seq<Byte>, was: seq<Byte>, e: Reloc, to: nat)
    requires Slid(s, mem, was) && s.End() <= e.obj && e.obj + e.size <= |was| && s.newSize <= to <= e.obj
    requires CopiedTo(mem', mem, e.obj, to, e.size)
    ensures Placed(s, Slide(to + e.size, to, e.obj, e.size), e, Cap(to, e.size, to + e.offset), mem, mem', was)
  {
    FreshCopy(s, mem, mem', was, e, to);
    hide Slid, Names, CopiedTo;
  }

  lemma DerivedPlaced(s: Slide, mem: seq<Byte>, was: seq<Byte>, e: Reloc)
    requires Slid(s, mem, was) && s.lastLoc <= e.obj && e.obj < s.End() && e.obj + e.size <= s.End()
    ensures var base := s.lastBase + (e.obj - s.lastLoc);
            Placed(s, s, e, Cap(base, e.size, base + e.offset), mem, mem, was)
  {
    SubObject(s, mem, was, e);
    hide Slid, Names;
  }

  // A fresh copy.
  method PlaceFresh(mem: array<Byte>, s: Slide, e: Reloc, cursor: nat, ghost was: seq<Byte>) returns (s': Slide, cap: Cap)
    requires Slid(s, mem[..], was) && e.size > 0 && e.obj + e.size <= mem.Length
    requires cursor == e.obj + e.offset && e.obj >= s.End() && Target(s.newSize, ByWords(e)) <= e.obj
    modifies mem
    ensures Placed(s, s', e, cap, old(mem[..]), mem[..], was) && s'.lastBase == Target(s.newSize, ByWords(e))
    ensures mem[..] == CopiedRun(old(mem[..]), e.obj, s'.lastBase, 0, e.size, ByWords(e))
  {
    hide Slid, Names, CopiedTo, Placed, CopiedRun;
    SlidSize(s, mem[..], was);
    var words := cursor % 4 == 0 && e.size % 4 == 0;
    assert words == ByWords(e);
    var to := Target(s.newSize, words);
    hide Target, ByWords;
    ghost var before := mem[..];
    CopyDown(mem, cursor - e.offset, to, e.size, words);
    FreshPlaced(s, before, mem[..], was, e, to);
    s', cap := Slide(to + e.size, to, e.obj, e.size), Cap(to, e.size, to + e.offset);
  }

  /** The loop body for one relocation: a fresh copy, or a capability derived from the last copy. */
  method Place(mem: array<Byte>, s: Slide, e: Reloc, cursor: nat, ghost was: seq<Byte>)
    returns (ok: bool, s': Slide, cap: Cap)
    requires Slid(s, mem[..], was) && s.lastLoc <= e.obj && e.size > 0 && e.obj + e.size <= mem.Length
    requires cursor == e.obj + e.offset && (e.obj >= s.End() ==> Target(s.newSize, ByWords(e)) <= e.obj)
    modifies mem
    ensures ok <==> e.obj >= s.End() || e.obj + e.size <= s.End()
    ensures ok ==> Placed(s, s', e, cap, old(mem[..]), mem[..], was)
    ensures ok ==> if e.obj >= s.End() then
                     && s'.lastBase == Target(s.newSize, ByWords(e))
                     && mem[..] == CopiedRun(old(mem[..]), e.obj, s'.lastBase, 0, e.size, ByWords(e))
                   else mem[..] == old(mem[..])
  {
    hide Slid, Names, CopiedTo, Placed, CopiedRun, Target, ByWords;
    if e.obj >= s.End() {
      ok := true;
      s', cap := PlaceFresh(mem, s, e, cursor, was);
    } else if e.obj + e.size > s.End() {
      return false, s, Cap(0, 0, 0);
    } else {
      DerivedPlaced(s, mem[..], was, e);
      var base := s.lastBase + (e.obj - s.lastLoc);
      return true, s, Cap(base, e.size, base + e.offset);
    }
  }

  ghost predicate AllNamed(es: seq<Reloc>, i: nat, slots: map<nat, Cap>, mem: seq<Byte>, was: seq<Byte>, newSize: nat)
    requires i <= |es|
  {
    forall k :: 0 <= k < i ==> es[k].slot in slots && Names(slots[es[k].slot], es[k], mem, was, newSize)
  }

  /** After i entries: their capabilities name the copies, the others are as they were. */
  ghost predicate Patched(es: seq<Reloc>, i: nat, caps: map<nat, Cap>, slots: map<nat, Cap>, mem: seq<Byte>,
                          was: seq<Byte>, newSize: nat)
    requires i <= |es|
  {
    && AllNamed(es, i, slots, mem, was, newSize)
    && (forall k :: i <= k < |es| ==> es[k].slot in slots && es[k].slot in caps && slots[es[k].slot] == caps[es[k].slot])
    && Untouched(es, caps, slots)
  }

  ghost predicate Untouched(es: seq<Reloc>, caps: map<nat, Cap>, slots: map<nat, Cap>) {
    forall p :: p in caps && (forall k :: 0 <= k < |es| ==> es[k].slot != p) ==> p in slots && slots[p] == caps[p]
  }

  lemma StartPatched(es: seq<Reloc>, caps: map<nat, Cap>, was: seq<Byte>)
    requires Loaded(es, caps, |was|)
    ensures Patched(es, 0, caps, caps, was, was, 0)
    ensures |es| > 0 ==> 0 <= es[0].obj
  {
  }

  lemma EntryFacts(es: seq<Reloc>, i: nat, caps: map<nat, Cap>, slots: map<nat, Cap>, mem: seq<Byte>, was: seq<Byte>,
                   n: nat, top: nat, end: nat)
    requires i < |es| && Loaded(es, caps, top) && Patched(es, i, caps, slots, mem, was, n)
    ensures var e := es[i];
            && e.size > 0 && e.obj + e.size <= top && e.slot in slots && slots[e.slot].cursor == e.obj + e.offset
            && (i + 1 < |es| ==> e.obj <= es[i + 1].obj)
            && (!(e.obj >= end || e.obj + e.size <= end) ==> !Fits(es, i, end))
  {
    if i + 1 < |es| {
      assert Before(es[i], es[i + 1]);
    }
  }

  lemma FitsOn(es: seq<Reloc>, i: nat, end: nat, end': nat)
    requires i < |es| && (if es[i].obj >= end then end' == es[i].obj + es[i].size
             else es[i].obj + es[i].size <= end && end' == end)
    ensures Fits(es, i, end) <==> Fits(es, i + 1, end')
  {
  }

  // The same for the loop on values.
  lemma CompactedOn(es: seq<Reloc>, i: nat, mem: seq<Byte>, mem': seq<Byte>, s: Slide, s': Slide)
    requires i < |es| && Clear(es, i, s.newSize, s.End()) && es[i].obj + es[i].size <= |mem|
    requires var e := es[i];
             if e.obj >= s.End() then
               && s'.lastBase == Target(s.newSize, ByWords(e)) && s'.lastLoc == e.obj && s'.lastSize == e.size
               && s'.newSize == s'.lastBase + e.size && s'.lastBase <= e.obj
               && mem' == CopiedRun(mem, e.obj, s'.lastBase, 0, e.size, ByWords(e))
             else e.obj + e.size <= s.End() && s' == s && mem' == mem
    ensures Clear(es, i + 1, s'.newSize, s'.End())
    ensures Compacted(es, i, mem, s.newSize, s.End()) == Compacted(es, i + 1, mem', s'.newSize, s'.End())
    ensures Homes(es, i, s) == [s'.lastBase + (es[i].obj - s'.lastLoc)] + Homes(es, i + 1, s')
    ensures Extent(es, i, s) == Extent(es, i + 1, s')
  {
    hide CopiedRun, Target, ByWords;
  }

  lemma PatchedOn(es: seq<Reloc>, i: nat, caps: map<nat, Cap>, slots: map<nat, Cap>, mem: seq<Byte>, mem': seq<Byte>,
                  was: seq<Byte>,
                  n: nat, n': nat, cap: Cap)
    requires i < |es| && Patched(es, i, caps, slots, mem, was, n) && Loaded(es, caps, |was|)
    requires n <= n' <= |mem'| && n <= |mem| && mem'[..n] == mem[..n] && Names(cap, es[i], mem', was, n')
    ensures Patched(es, i + 1, caps, slots[es[i].slot := cap], mem', was, n')
  {
    hide Names;
    StillNamed(es, i, slots, mem, mem', was, n, n');
    forall k | 0 <= k < i ensures es[k].slot != es[i].slot {
      SlotsApart(es, caps, |was|, k, i);
    }
  }

  lemma SlotsApart(es: seq<Reloc>, caps: map<nat, Cap>, top: nat, k: nat, i: nat)
    requires Loaded(es, caps, top) && k < i < |es|
    ensures es[k].slot != es[i].slot
  {
  }

  // Copies further up leave the capabilities made so far alone.
  lemma StillNamed(es: seq<Reloc>, i: nat, slots: map<nat, Cap>, mem: seq<Byte>, mem': seq<Byte>, was: seq<Byte>,
                   n: nat, n': nat)
    requires i <= |es| && AllNamed(es, i, slots, mem, was, n)
    requires n <= n' <= |mem'| && n <= |mem| && mem'[..n] == mem[..n]
    ensures AllNamed(es, i, slots, mem', was, n')
  {
    forall k | 0 <= k < i ensures Names(slots[es[k].slot], es[k], mem', was, n') {
      var c, e := slots[es[k].slot], es[k];
      assert Names(c, e, mem, was, n);
      assert mem'[c.base..c.base + e.size] == mem'[..n][c.base..c.base + e.size] == mem[c.base..c.base + e.size];
    }
  }

  // The table is where the loop believes it is: untouched above the read cursor until its own entry is reached, and
  // inside the finished part from then on.
  ghost predicate Located(table: Table, start: Table, n: nat, i: nat, j: nat, s: Slide) {
    if table.Outside? then start == table
    else
      && start.Inside?
      && (i <= j ==> start == table && s.End() <= table.at)
      && (i > j ==>
            && s.lastSize > 0 && start.at <= table.at <= s.lastLoc && start.at + n * RELOC_SZ <= s.newSize
            && (s.lastLoc == table.at ==> s.lastBase == start.at))
  }

  function NextStart(start: Table, e: Reloc, cap: Cap): Table {
    if start.Inside? && e.obj + e.offset == start.at then Inside(cap.cursor) else start
  }

  lemma StillLocated(table: Table, start: Table, es: seq<Reloc>, n: nat, i: nat, j: nat, s: Slide, s': Slide, cap: Cap,
                     mem: seq<Byte>, mem': seq<Byte>, was: seq<Byte>)
    requires i < |es| && es[i].size > 0 && Placed(s, s', es[i], cap, mem, mem', was) && Tracked(table, es, n, j)
    requires forall a, b :: 0 <= a < b < |es| ==> Before(es[a], es[b])
    requires Located(table, start, n, i, j, s)
    ensures Located(table, NextStart(start, es[i], cap), n, i + 1, j, s')
  {
    hide Slid;
    assert Slid(s, mem, was) && Slid(s', mem', was);
    if table.Inside? {
      var e := es[i];
      if i < j {
        assert e.obj + e.size <= table.at;
      } else if i == j {
        assert e.obj >= s.End();
      } else {
        assert Before(es[j], e);
      }
    }
  }

  // A table not reached yet is where it was.
  lemma TableAhead(s: Slide, mem: seq<Byte>, was: seq<Byte>, at: nat, rows: seq<Reloc>, decode: seq<Byte> -> Reloc)
    requires Slid(s, mem, was) && s.newSize <= at && at + |rows| * RELOC_SZ <= |was|
             && Readable(Inside(at), was, rows, decode)
    ensures Readable(Inside(at), mem, rows, decode)
  {
    var n, d := |rows| * RELOC_SZ, at - s.newSize;
    Slice(mem, s.newSize, |mem|, d, d + n);
    Slice(was, s.newSize, |was|, d, d + n);
    TableMoved(was, at, mem, at, rows, decode);
  }

  // A table just copied is where its capability says.
  lemma TableCopied(cap: Cap, e: Reloc, mem: seq<Byte>, was: seq<Byte>, newSize: nat, rows: seq<Reloc>,
                    decode: seq<Byte> -> Reloc)
    requires Names(cap, e, mem, was, newSize) && |rows| * RELOC_SZ <= e.size && Readable(Inside(e.obj), was, rows, decode)
    ensures Readable(Inside(cap.base), mem, rows, decode)
  {
    var n := |rows| * RELOC_SZ;
    Slice(mem, cap.base, cap.base + e.size, 0, n);
    Slice(was, e.obj, e.obj + e.size, 0, n);
    TableMoved(was, e.obj, mem, cap.base, rows, decode);
  }

  // A table already copied lies below the write cursor.
  lemma TableBehind(mem: seq<Byte>, mem': seq<Byte>, newSize: nat, at: nat, rows: seq<Reloc>, decode: seq<Byte> -> Reloc)
    requires newSize <= |mem| && newSize <= |mem'| && mem'[..newSize] == mem[..newSize]
    requires at + |rows| * RELOC_SZ <= newSize && Readable(Inside(at), mem, rows, decode)
    ensures Readable(Inside(at), mem', rows, decode)
  {
    var n := |rows| * RELOC_SZ;
    assert mem[..newSize] == mem[0..newSize] && mem'[..newSize] == mem'[0..newSize];
    Slice(mem, 0, newSize, at, at + n);
    Slice(mem', 0, newSize, at, at + n);
    TableMoved(mem, at, mem', at, rows, decode);
  }

  lemma StillReadable(table: Table, start: Table, es: seq<Reloc>, rows: seq<Reloc>, i: nat, j: nat, s: Slide,
                      s': Slide, cap: Cap,
                      mem: seq<Byte>, mem': seq<Byte>, was: seq<Byte>, decode: seq<Byte> -> Reloc)
    requires i < |es| && es[i].size > 0 && Placed(s, s', es[i], cap, mem, mem', was) && Tracked(table, es, |rows|, j)
    requires forall a, b :: 0 <= a < b < |es| ==> Before(es[a], es[b])
    requires forall k :: 0 <= k < |es| ==> es[k].obj + es[k].size <= |was|
    requires Located(table, start, |rows|, i, j, s)
    requires Readable(table, was, rows, decode) && Readable(start, mem, rows, decode)
    ensures Readable(NextStart(start, es[i], cap), mem', rows, decode)
  {
    StillLocated(table, start, es, |rows|, i, j, s, s', cap, mem, mem', was);
    SlidSize(s, mem, was);
    SlidSize(s', mem', was);
    if table.Inside? {
      if i < j {
        assert s'.newSize <= s'.End() by { SlidBelow(s', mem', was); }
        hide Readable, Slid, Names;
        TableAhead(s', mem', was, table.at, rows, decode);
      } else if i == j {
        hide Readable, Slid, Names;
        TableCopied(cap, es[j], mem', was, s'.newSize, rows, decode);
        assert cap.cursor == cap.base by { NamesCursor(cap, es[j], mem', was, s'.newSize); }
      } else {
        hide Readable, Slid, Names;
        TableBehind(mem, mem', s.newSize, start.at, rows, decode);
      }
    } else {
      assert forall k :: 0 <= k < |rows| ==> Row(start, mem', k, decode) == Row(start, mem, k, decode);
    }
  }

  lemma SlidBelow(s: Slide, mem: seq<Byte>, was: seq<Byte>)
    requires Slid(s, mem, was)
    ensures s.newSize <= s.End()
  {
  }

  lemma NamesCursor(c: Cap, e: Reloc, mem: seq<Byte>, was: seq<Byte>, newSize: nat)
    requires Names(c, e, mem, was, newSize)
    ensures c.cursor == c.base + e.offset
  {
  }

  /** What the loop keeps. */
  ghost predicate Going(table: Table, start: Table, es: seq<Reloc>, i: nat, j: nat, rows: seq<Reloc>,
                        decode: seq<Byte> -> Reloc,
                        caps: map<nat, Cap>, slots: map<nat, Cap>, mem: seq<Byte>, was: seq<Byte>, s: Slide)
  {
    && i <= |es| && Slid(s, mem, was) && (i < |es| ==> s.lastLoc <= es[i].obj)
    && Patched(es, i, caps, slots, mem, was, s.newSize)
    && Readable(start, mem, rows, decode) && Located(table, start, |rows|, i, j, s)
  }

  // What stays fixed over the loop.
  ghost predicate Given(table: Table, es: seq<Reloc>, j: nat, rows: seq<Reloc>, decode: seq<Byte> -> Reloc,
                        caps: map<nat, Cap>, was: seq<Byte>) {
    Readable(table, was, rows, decode) && Loaded(es, caps, |was|) && Tracked(table, es, |rows|, j)
  }

  // One turn of the loop.
  method PatchNext(mem: array<Byte>, start: Table, k: nat, caps: map<nat, Cap>, s: Slide, decode: seq<Byte> -> Reloc,
                   ghost table: Table, ghost es: seq<Reloc>, ghost i: nat, ghost j: nat, ghost rows: seq<Reloc>,
                   ghost given: map<nat, Cap>, ghost was: seq<Byte>)
    returns (fine: bool, slots: map<nat, Cap>, start': Table, s': Slide)
    requires i < |es| && k < |rows| && rows[k] == es[i] && Given(table, es, j, rows, decode, given, was)
    requires Going(table, start, es, i, j, rows, decode, given, caps, mem[..], was, s) && Clear(es, i, s.newSize, s.End())
    requires Laid(es, i, caps, s)
    modifies mem
    ensures !fine ==> !Fits(es, i, s.End())
    ensures fine ==>
              && Going(table, start', es, i + 1, j, rows, decode, given, slots, mem[..], was, s')
              && (Fits(es, i, s.End()) <==> Fits(es, i + 1, s'.End())) && Clear(es, i + 1, s'.newSize, s'.End())
              && Compacted(es, i, old(mem[..]), s.newSize, s.End()) == Compacted(es, i + 1, mem[..], s'.newSize, s'.End())
              && Laid(es, i + 1, slots, s')
  {
    hide Homes, Extent, Laid, Compacted, CopiedRun, Target, ByWords, Slid, Names, Readable, Located, Row, Patched, Fits,
      Loaded, Tracked, NextStart;
    var e := Row(start, mem[..], k, decode);
    ReadRow(start, mem[..], rows, decode, k);
    EntryFacts(es, i, given, caps, mem[..], was, s.newSize, |was|, s.End());
    SlidSize(s, mem[..], was);
    ghost var before := mem[..];
    var cap;
    fine, s', cap := Place(mem, s, e, caps[e.slot].cursor, was);
    slots, start' := caps, start;
    if fine {
      Onward(table, start, es, rows, i, j, s, s', cap, before, mem[..], was, decode, given);
      SlidSize(s', mem[..], was);
      FitsOn(es, i, s.End(), s'.End());
      CompactedOn(es, i, before, mem[..], s, s');
      OneMoreLaid(es, i, given, |was|, caps, s, s', cap);
      PatchedOn(es, i, given, caps, before, mem[..], was, s.newSize, s'.newSize, cap);
      slots := caps[e.slot := cap];
      start' := NextStart(start, e, cap);
    }
  }

  // The capabilities have their bases at the given places.
  ghost predicate BasesAre(es: seq<Reloc>, slots: map<nat, Cap>, homes: seq<int>) {
    |homes| == |es| && forall k :: 0 <= k < |es| ==> es[k].slot in slots && slots[es[k].slot].base == homes[k]
  }

  // So far for the first i, with the others still to be put.
  ghost predicate Laid(es: seq<Reloc>, i: nat, slots: map<nat, Cap>, s: Slide) {
    var homes := Homes(es, 0, Slide(0, 0, 0, 0));
    && i <= |es| && homes[i..] == Homes(es, i, s) && Extent(es, 0, Slide(0, 0, 0, 0)) == Extent(es, i, s)
    && forall k :: 0 <= k < i ==> es[k].slot in slots && slots[es[k].slot].base == homes[k]
  }

  /** Compaction preserves meaning.  compact_code, from the sorted list on: it completes exactly when no entry straddles
      the end of the last copied object, and then every patched capability, derived sub-objects included, covers
      bytes equal to the ones its object had, at an address that is not higher; the other capabilities are left
      alone, the relocation table can still be read wherever it ended up, and nothing above the new size changed. */
  method CompactCode(mem: array<Byte>, table: Table, order: seq<nat>, caps: map<nat, Cap>, decode: seq<Byte> -> Reloc,
                     ghost rows: seq<Reloc>, ghost j: nat)
    returns (ok: bool, slots: map<nat, Cap>, start: Table, newSize: nat)
    requires forall k :: 0 <= k < |order| ==> order[k] < |rows|
    requires Readable(table, mem[..], rows, decode)
    requires Loaded(Entries(rows, order), caps, mem.Length)
    requires Tracked(table, Entries(rows, order), |rows|, j) && Clear(Entries(rows, order), 0, 0, 0)
    modifies mem
    ensures ok <==> Fits(Entries(rows, order), 0, 0)
    ensures ok ==> mem[..] == Compacted(Entries(rows, order), 0, old(mem[..]), 0, 0)
    ensures ok ==> BasesAre(Entries(rows, order), slots, Homes(Entries(rows, order), 0, Slide(0, 0, 0, 0)))
    ensures ok ==> newSize == Extent(Entries(rows, order), 0, Slide(0, 0, 0, 0))
    ensures var es := Entries(rows, order);
            ok ==>
              && AllNamed(es, |es|, slots, mem[..], old(mem[..]), newSize)
              && Untouched(es, caps, slots)
              && Readable(start, mem[..], rows, decode)
              && newSize <= mem.Length && mem[..][newSize..] == old(mem[..])[newSize..]
  {
    hide Given, Going, Fits, Clear, Compacted, Laid, Homes, Extent, Readable, Loaded, Tracked, AllNamed, Untouched;
    ghost var es, was := Entries(rows, order), mem[..];
    slots, start := caps, table;
    var s := Slide(0, 0, 0, 0);
    Started(table, es, j, rows, decode, caps, was);
    NoneLaid(es, slots);
    var i, fine := 0, true;
    while i < |order|
      invariant i <= |order| && Going(table, start, es, i, j, rows, decode, caps, slots, mem[..], was, s)
      invariant Fits(es, 0, 0) <==> Fits(es, i, s.End())
      invariant Clear(es, i, s.newSize, s.End())
      invariant Compacted(es, 0, was, 0, 0) == Compacted(es, i, mem[..], s.newSize, s.End())
      invariant Laid(es, i, slots, s)
    {
      fine, slots, start, s := PatchNext(mem, start, order[i], slots, s, decode, table, es, i, j, rows, caps, was);
      if !fine {
        return false, slots, start, 0;
      }
      i := i + 1;
    }
    Arrived(table, start, es, j, rows, decode, caps, slots, mem[..], was, s);
    AllCompacted(es, mem[..], s.newSize, s.End());
    AllLaid(es, slots, s);
    ok, newSize := true, s.newSize;
  }

  lemma Started(table: Table, es: seq<Reloc>, j: nat, rows: seq<Reloc>, decode: seq<Byte> -> Reloc,
                caps: map<nat, Cap>, was: seq<Byte>)
    requires Readable(table, was, rows, decode) && Loaded(es, caps, |was|) && Tracked(table, es, |rows|, j)
    ensures Given(table, es, j, rows, decode, caps, was)
    ensures Going(table, table, es, 0, j, rows, decode, caps, caps, was, was, Slide(0, 0, 0, 0))
  {
    hide Slid, Patched, Readable, Located, Tracked;
    StartSlide(was, table, |rows|, j);
    StartPatched(es, caps, was);
  }

  lemma NoneLaid(es: seq<Reloc>, slots: map<nat, Cap>)
    ensures Laid(es, 0, slots, Slide(0, 0, 0, 0))
  {
    var homes := Homes(es, 0, Slide(0, 0, 0, 0));
    assert homes[0..] == homes;
  }

  lemma OneMoreLaid(es: seq<Reloc>, i: nat, caps: map<nat, Cap>, top: nat, slots: map<nat, Cap>, s: Slide, s': Slide,
                    cap: Cap)
    requires i < |es| && Loaded(es, caps, top) && Laid(es, i, slots, s)
    requires Homes(es, i, s) == [cap.base] + Homes(es, i + 1, s') && Extent(es, i, s) == Extent(es, i + 1, s')
    ensures Laid(es, i + 1, slots[es[i].slot := cap], s')
  {
    hide Homes, Loaded, Extent;
    var homes := Homes(es, 0, Slide(0, 0, 0, 0));
    assert homes[i] == homes[i..][0] && homes[i + 1..] == homes[i..][1..];
    forall k | 0 <= k < i ensures es[k].slot != es[i].slot {
      SlotsApart(es, caps, top, k, i);
    }
  }

  lemma AllLaid(es: seq<Reloc>, slots: map<nat, Cap>, s: Slide)
    requires Laid(es, |es|, slots, s)
    ensures BasesAre(es, slots, Homes(es, 0, Slide(0, 0, 0, 0))) && s.newSize == Extent(es, 0, Slide(0, 0, 0, 0))
  {
    hide Homes, Extent, Target;
    ExtentDone(es, s);
  }

  lemma ExtentDone(es: seq<Reloc>, s: Slide)
    ensures Extent(es, |es|, s) == s.newSize
  {
  }

  lemma AllCompacted(es: seq<Reloc>, mem: seq<Byte>, newSize: nat, end: nat)
    ensures Compacted(es, |es|, mem, newSize, end) == mem
  {
  }

  lemma Arrived(table: Table, start: Table, es: seq<Reloc>, j: nat, rows: seq<Reloc>, decode: seq<Byte> -> Reloc,
                caps: map<nat, Cap>, slots: map<nat, Cap>, mem: seq<Byte>, was: seq<Byte>, s: Slide)
    requires Going(table, start, es, |es|, j, rows, decode, caps, slots, mem, was, s)
    ensures AllNamed(es, |es|, slots, mem, was, s.newSize) && Untouched(es, caps, slots) && Fits(es, |es|, s.End())
    ensures Readable(start, mem, rows, decode) && s.newSize <= |mem| == |was| && mem[s.newSize..] == was[s.newSize..]
  {
    hide Names, Row, Located;
  }

  lemma Onward(table: Table, start: Table, es: seq<Reloc>, rows: seq<Reloc>, i: nat, j: nat, s: Slide, s': Slide, cap: Cap,
               mem: seq<Byte>, mem': seq<Byte>, was: seq<Byte>, decode: seq<Byte> -> Reloc, caps: map<nat, Cap>)
    requires i < |es| && Placed(s, s', es[i], cap, mem, mem', was) && Tracked(table, es, |rows|, j)
             && Loaded(es, caps, |was|)
    requires Located(table, start, |rows|, i, j, s)
    requires Readable(table, was, rows, decode) && Readable(start, mem, rows, decode)
    ensures Readable(NextStart(start, es[i], cap), mem', rows, decode)
    ensures Located(table, NextStart(start, es[i], cap), |rows|, i + 1, j, s')
  {
    hide Placed, Tracked, Located, Readable, NextStart;
    StillReadable(table, start, es, rows, i, j, s, s', cap, mem, mem', was, decode);
    StillLocated(table, start, es, |rows|, i, j, s, s', cap, mem, mem', was);
  }

  lemma StartSlide(was: seq<Byte>, table: Table, n: nat, j: nat)
    ensures Slid(Slide(0, 0, 0, 0), was, was) && Located(table, table, n, 0, j, Slide(0, 0, 0, 0))
  {
  }

  lemma SlidSize(s: Slide, mem: seq<Byte>, was: seq<Byte>)
    requires Slid(s, mem, was)
    ensures s.newSize <= |mem| == |was| && mem[s.newSize..] == was[s.newSize..] && s.newSize == s.lastBase + s.lastSize
  {
  }

  lemma ReadRow(t: Table, mem: seq<Byte>, rows: seq<Reloc>, decode: seq<Byte> -> Reloc, k: nat)
    requires Readable(t, mem, rows, decode) && k < |rows|
    ensures Row(t, mem, k, decode) == rows[k]
  {
  }
}
