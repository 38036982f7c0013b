/** Formatting into a string of unknown length.  The first ASPRINT_BUF_SIZE characters go to a stack buffer; after that
    each buffer is twice the last, starts with a pointer back to it, and is filled from the position where the last one
    ended.  At the end the pieces are copied into the newest buffer and the others are freed. */
module Asprintf {
  import opened Bits
  import opened Wire

  const ASPRINT_BUF_SIZE: nat := 0x200

  type Ptr = nat

  // A byte of memory: a character, one byte of a stored pointer, or nothing known.
  datatype Cell = Char(b: Byte) | PtrByte(p: Ptr, k: nat) | Junk

  function Size(k: nat): (n: nat)
    ensures n >= ASPRINT_BUF_SIZE && n % 2 == 0
  {
    if k == 0 then ASPRINT_BUF_SIZE else 2 * Size(k - 1)
  }

  // Where the characters of buffer k begin.
  function Lo(k: nat): nat {
    if k == 0 then 0 else Size(k - 1)
  }

  // The callback's test, which calls zero a power too.
  predicate IsPower2(n: nat) {
    n == 0 || And(n, n - 1) == 0
  }

  lemma {:induction false} AndSelf(n: nat)
    ensures And(n, n) == n
  {
    if n > 0 {
      AndSelf(n / 2);
    }
  }

  lemma IsPower2Halves(n: nat)
    requires n > 1
    ensures IsPower2(n) <==> n % 2 == 0 && IsPower2(n / 2)
  {
    if n % 2 == 1 {
      assert (n - 1) / 2 == n / 2;
      AndSelf(n / 2);
    } else {
      assert (n - 1) / 2 == n / 2 - 1;
    }
  }

  // Between two neighbouring powers there is none.
  lemma {:induction false} PowerGap(e: nat, n: nat)
    requires Pow2(e) < n <= Pow2(e + 1)
    ensures IsPower2(n) <==> n == Pow2(e + 1)
  {
    IsPower2Halves(n);
    if e == 0 {
      assert n == 2 && IsPower2(1);
    } else if n % 2 == 0 {
      PowerGap(e - 1, n / 2);
    }
  }

  lemma {:induction false} SizeIsPower(k: nat)
    ensures Size(k) == Pow2(k + 9) && IsPower2(Size(k))
  {
    if k > 0 {
      SizeIsPower(k - 1);
    } else {
      assert Pow2(9) == 512;
    }
    PowerGap(k + 8, Size(k));
  }

  /** The callback's test starts a new buffer exactly when the last one is full. */
  lemma FullIffPower(k: nat, fill: nat)
    requires fill <= Size(k) && (k > 0 ==> Size(k - 1) < fill)
    ensures fill >= ASPRINT_BUF_SIZE && IsPower2(fill) <==> fill == Size(k)
  {
    SizeIsPower(k);
    if k > 0 {
      SizeIsPower(k - 1);
      PowerGap(k + 8, fill);
    }
  }

  // ---------------------------------------------------------------- memory

  type Cells = map<Ptr, seq<Cell>>

  // A pointer to p is stored at the front.
  ghost predicate Linked(buf: seq<Cell>, capSize: nat, p: Ptr) {
    |buf| >= capSize && forall k :: 0 <= k < capSize ==> buf[k] == PtrByte(p, k)
  }

  function Copied(dst: seq<Cell>, at: nat, src: seq<Cell>, n: nat): (r: seq<Cell>)
    requires at + n <= |dst| && at + n <= |src|
    ensures |r| == |dst|
    ensures forall x :: 0 <= x < |r| ==> r[x] == if at <= x < at + n then src[x] else dst[x]
  {
    dst[..at] + src[at..at + n] + dst[at + n..]
  }

  class Memory {
    const capSize: nat
    var cells: Cells
    var stack: set<Ptr>
    var next: Ptr

    ghost predicate Valid()
      reads this
    {
      && 0 < capSize <= ASPRINT_BUF_SIZE
      && stack <= cells.Keys && forall p :: p in cells ==> p < next
    }

    method Malloc(n: nat) returns (p: Ptr)
      requires Valid()
      modifies this`cells, this`next
      ensures Valid() && p !in old(cells) && p !in stack && cells == old(cells)[p := seq(n, _ => Junk)]
    {
      p := next;
      next := next + 1;
      cells := cells[p := seq(n, _ => Junk)];
    }

    // Only live heap memory can be freed.
    method Free(p: Ptr)
      requires Valid() && p in cells && p !in stack
      modifies this`cells
      ensures Valid() && cells == old(cells) - {p}
    {
      cells := cells - {p};
    }

    method Memcpy(dst: Ptr, src: Ptr, at: nat, n: nat)
      requires Valid() && dst in cells && src in cells && at + n <= |cells[dst]| && at + n <= |cells[src]|
      modifies this`cells
      ensures Valid() && cells == old(cells)[dst := Copied(old(cells)[dst], at, old(cells)[src], n)]
    {
      cells := cells[dst := Copied(cells[dst], at, cells[src], n)];
    }

    method Put(p: Ptr, at: nat, c: Cell)
      requires Valid() && p in cells && at < |cells[p]|
      modifies this`cells
      ensures Valid() && cells == old(cells)[p := old(cells)[p][at := c]]
    {
      cells := cells[p := cells[p][at := c]];
    }

    method StorePtr(p: Ptr, q: Ptr)
      requires Valid() && p in cells && capSize <= |cells[p]|
      modifies this`cells
      ensures Valid() && p in cells && cells == old(cells)[p := cells[p]]
      ensures |cells[p]| == |old(cells)[p]| && Linked(cells[p], capSize, q)
      ensures forall x :: capSize <= x < |cells[p]| ==> cells[p][x] == old(cells)[p][x]
    {
      var b := cells[p];
      cells := cells[p := seq(capSize, k requires 0 <= k => PtrByte(q, k)) + b[capSize..]];
    }

    // A stored pointer can be loaded only while all its bytes are intact.
    method LoadPtr(p: Ptr, ghost q: Ptr) returns (r: Ptr)
      requires Valid() && p in cells && Linked(cells[p], capSize, q)
      ensures r == q
    {
      r := cells[p][0].p;
    }
  }

  // ---------------------------------------------------------------- the chain of buffers

  /** Buffer k of the chain: its size, its pointer back, and its share of the characters s. */
  ghost predicate LevelOk(cells: Cells, capSize: nat, chain: seq<Ptr>, k: nat, s: seq<Byte>)
    requires k < |chain|
  {
    && chain[k] in cells && |cells[chain[k]]| == Size(k)
    && (k > 0 ==> Linked(cells[chain[k]], capSize, chain[k - 1]))
    && forall x :: Lo(k) <= x < Size(k) && x < |s| ==> cells[chain[k]][x] == Char(s[x])
  }

  ghost predicate Distinct(chain: seq<Ptr>) {
    forall j, k :: 0 <= j < k < |chain| ==> chain[j] != chain[k]
  }

  // The newest buffer is the one being filled.
  ghost predicate Filling(chain: seq<Ptr>, n: nat) {
    |chain| > 0 && n <= Size(|chain| - 1) && (|chain| > 1 ==> Size(|chain| - 2) < n)
  }

  ghost predicate ChainOk(cells: Cells, capSize: nat, chain: seq<Ptr>, s: seq<Byte>) {
    && Distinct(chain) && Filling(chain, |s|)
    && forall k :: 0 <= k < |chain| ==> LevelOk(cells, capSize, chain, k, s)
  }

  /** The chain starts with the stack buffer, the rest is heap memory that was not there before, and all other memory
      is as it was. */
  ghost predicate Owned(cells: Cells, stack: set<Ptr>, chain: seq<Ptr>, before: Cells, tmp: Ptr) {
    && |chain| > 0 && chain[0] == tmp && tmp in stack
    && (forall k :: 0 < k < |chain| ==> chain[k] !in stack)
    && (forall p :: p in cells <==> p in before || p in chain)
    && (forall p :: p in before ==> p !in chain && cells[p] == before[p])
  }

  lemma OwnedSnoc(cells: Cells, stack: set<Ptr>, chain: seq<Ptr>, before: Cells, tmp: Ptr, p: Ptr, b: seq<Cell>)
    requires Owned(cells, stack, chain, before, tmp) && p !in cells && p !in stack
    ensures Owned(cells[p := b], stack, chain + [p], before, tmp)
  {
  }

  lemma OwnedPut(cells: Cells, stack: set<Ptr>, chain: seq<Ptr>, before: Cells, tmp: Ptr, p: Ptr, b: seq<Cell>)
    requires Owned(cells, stack, chain, before, tmp) && p in chain
    ensures Owned(cells[p := b], stack, chain, before, tmp)
  {
  }

  lemma {:induction false} SizesGrow(j: nat, k: nat)
    requires j <= k
    ensures Size(j) <= Size(k) && (j < k ==> 2 * Size(j) <= Size(k))
    decreases k
  {
    if j < k {
      SizesGrow(j, k - 1);
    }
  }

  // A character added to the newest buffer, which has room.
  lemma PutKeeps(cells: Cells, capSize: nat, chain: seq<Ptr>, s: seq<Byte>, ch: Byte)
    requires capSize <= ASPRINT_BUF_SIZE && ChainOk(cells, capSize, chain, s) && |s| < Size(|chain| - 1)
    ensures var p := chain[|chain| - 1];
            && p in cells && |s| < |cells[p]|
            && ChainOk(cells[p := cells[p][|s| := Char(ch)]], capSize, chain, s + [ch])
  {
    var last := |chain| - 1;
    var p := chain[last];
    assert LevelOk(cells, capSize, chain, last, s);
    var cells' := cells[p := cells[p][|s| := Char(ch)]];
    forall k | 0 <= k < |chain| ensures LevelOk(cells', capSize, chain, k, s + [ch]) {
      assert LevelOk(cells, capSize, chain, k, s);
      if k < last {
        SizesGrow(k, last - 1);
      }
    }
  }

  // A new buffer, once the newest is full.
  lemma GrowKeeps(cells: Cells, capSize: nat, chain: seq<Ptr>, s: seq<Byte>, p: Ptr, b: seq<Cell>, ch: Byte)
    requires capSize <= ASPRINT_BUF_SIZE && ChainOk(cells, capSize, chain, s) && |s| == Size(|chain| - 1)
    requires p !in cells && |b| == 2 * |s| && Linked(b, capSize, chain[|chain| - 1])
    ensures ChainOk(cells[p := b[|s| := Char(ch)]], capSize, chain + [p], s + [ch])
  {
    var chain', cells' := chain + [p], cells[p := b[|s| := Char(ch)]];
    forall k | 0 <= k < |chain| ensures chain[k] in cells {
      assert LevelOk(cells, capSize, chain, k, s);
    }
    assert Distinct(chain');
    forall k | 0 <= k < |chain'| ensures LevelOk(cells', capSize, chain', k, s + [ch]) {
      if k < |chain| {
        assert LevelOk(cells, capSize, chain, k, s);
        SizesGrow(k, |chain| - 1);
      }
    }
  }

  // The newest buffer holds the characters from where buffer t begins.
  ghost predicate Gathered(cells: Cells, chain: seq<Ptr>, t: nat, s: seq<Byte>)
    requires t < |chain|
  {
    var p := chain[|chain| - 1];
    && p in cells && |cells[p]| == Size(|chain| - 1)
    && forall x :: Lo(t) <= x < |s| ==> x < |cells[p]| && cells[p][x] == Char(s[x])
  }

  /** Condensing with t buffers below the newest still to copy: those t are intact and live, the heap buffers above them
      are gone, and the newest holds everything from where buffer t began. */
  ghost predicate Condensing(cells: Cells, capSize: nat, stack: set<Ptr>, chain: seq<Ptr>, t: nat, s: seq<Byte>,
                             before: Cells, tmp: Ptr)
  {
    && 1 <= t < |chain| && Distinct(chain) && Filling(chain, |s|) && Gathered(cells, chain, t, s)
    && (forall k :: 0 <= k < t ==> LevelOk(cells, capSize, chain, k, s))
    && Owned(cells, stack, chain[..t] + [chain[|chain| - 1]], before, tmp)
  }

  lemma {:induction false} SizeIsShift(k: nat)
    ensures Size(k) == ASPRINT_BUF_SIZE * Pow2(k)
  {
    if k > 0 {
      SizeIsShift(k - 1);
    }
  }

  lemma CondenseStart(cells: Cells, capSize: nat, stack: set<Ptr>, chain: seq<Ptr>, s: seq<Byte>, before: Cells, tmp: Ptr)
    requires ChainOk(cells, capSize, chain, s) && Owned(cells, stack, chain, before, tmp) && |chain| > 1
    ensures Condensing(cells, capSize, stack, chain, |chain| - 1, s, before, tmp)
    ensures chain[|chain| - 1] in cells && Linked(cells[chain[|chain| - 1]], capSize, chain[|chain| - 2])
  {
    var last := |chain| - 1;
    assert LevelOk(cells, capSize, chain, last, s);
    assert chain[..last] + [chain[last]] == chain;
  }

  // One turn of the loop: copy, then free.
  lemma CondenseStep(cells: Cells, capSize: nat, stack: set<Ptr>, chain: seq<Ptr>, t: nat, s: seq<Byte>, before: Cells,
                     tmp: Ptr)
    requires Condensing(cells, capSize, stack, chain, t, s, before, tmp) && t > 1
    ensures var top, b, off := chain[|chain| - 1], chain[t - 1], Size(t - 2);
            && top in cells && b in cells && top != b && b !in stack
            && 2 * off <= |cells[top]| && 2 * off <= |cells[b]| && Linked(cells[b], capSize, chain[t - 2])
            && Condensing(cells[top := Copied(cells[top], off, cells[b], off)] - {b}, capSize, stack, chain, t - 1, s,
              before, tmp)
  {
    var top, b, off := chain[|chain| - 1], chain[t - 1], Size(t - 2);
    assert LevelOk(cells, capSize, chain, t - 1, s);
    SizesGrow(t - 1, |chain| - 1);
    assert (chain[..t] + [top])[t - 1] == b;
    var cells' := cells[top := Copied(cells[top], off, cells[b], off)] - {b};
    forall k | 0 <= k < t - 1 ensures LevelOk(cells', capSize, chain, k, s) {
      assert LevelOk(cells, capSize, chain, k, s);
    }
    OwnedDrop(cells, stack, chain, t, before, tmp, cells'[top]);
    assert Gathered(cells', chain, t - 1, s);
  }

  lemma OwnedDrop(cells: Cells, stack: set<Ptr>, chain: seq<Ptr>, t: nat, before: Cells, tmp: Ptr, a: seq<Cell>)
    requires 1 < t < |chain| && Distinct(chain)
    requires Owned(cells, stack, chain[..t] + [chain[|chain| - 1]], before, tmp)
    ensures Owned(cells[chain[|chain| - 1] := a] - {chain[t - 1]}, stack, chain[..t - 1] + [chain[|chain| - 1]],
            before, tmp)
  {
    var top := chain[|chain| - 1];
    var c, c' := chain[..t] + [top], chain[..t - 1] + [top];
    assert c[t - 1] == chain[t - 1];
    assert c'[t - 1] == c[t] && forall k :: 0 <= k < t - 1 ==> c'[k] == c[k];
    assert forall p :: p in c' <==> p in c && p != chain[t - 1];
  }

  /** The finished string: exactly the characters, in a buffer of their size or, past the stack buffer's size, in one of
      less than twice that; no other heap memory is left and none has changed. */
  ghost predicate Done(cells: Cells, strp: Ptr, before: Cells, tmp: Ptr, s: seq<Byte>) {
    && strp !in before && strp != tmp && cells.Keys == before.Keys + {strp, tmp}
    && (forall p :: p in before ==> p in cells && cells[p] == before[p])
    && |s| <= |cells[strp]| && (forall x :: 0 <= x < |s| ==> cells[strp][x] == Char(s[x]))
    && (|cells[strp]| == |s| || (|s| > ASPRINT_BUF_SIZE && |cells[strp]| < 2 * |s|))
  }

  // The last copy, from the stack buffer, overwrites the pointer back.
  lemma CondenseLast(cells: Cells, capSize: nat, stack: set<Ptr>, chain: seq<Ptr>, s: seq<Byte>, before: Cells, tmp: Ptr)
    requires Condensing(cells, capSize, stack, chain, 1, s, before, tmp)
    ensures var top := chain[|chain| - 1];
            && chain[0] == tmp && top in cells && tmp in cells
            && ASPRINT_BUF_SIZE <= |cells[top]| && ASPRINT_BUF_SIZE == |cells[tmp]|
            && (tmp !in before ==>
                  Done(cells[top := Copied(cells[top], 0, cells[tmp], ASPRINT_BUF_SIZE)], top, before, tmp, s))
  {
    var top, c := chain[|chain| - 1], chain[..1] + [chain[|chain| - 1]];
    assert c == [tmp, top];
    assert LevelOk(cells, capSize, chain, 0, s);
    SizesGrow(0, |chain| - 1);
    SizesGrow(0, |chain| - 2);
    assert top in c && tmp in c;
  }

  class State {
    const mem: Memory
    var buf: Ptr
    var curFill: nat
    var curIndex: nat
    // The buffers so far, oldest first, and the characters so far.
    ghost var chain: seq<Ptr>
    ghost var emitted: seq<Byte>
    // What memory held before, and the stack buffer.
    ghost const before: Cells
    ghost const tmp: Ptr

    ghost predicate Valid()
      reads this, mem
    {
      && mem.Valid() && ChainOk(mem.cells, mem.capSize, chain, emitted)
      && curFill == |emitted| && curIndex == |chain| - 1 && buf == chain[curIndex]
      && Owned(mem.cells, mem.stack, chain, before, tmp)
    }

    constructor (mem: Memory, tmpBuf: Ptr)
      requires mem.Valid() && tmpBuf in mem.cells && tmpBuf in mem.stack && |mem.cells[tmpBuf]| == ASPRINT_BUF_SIZE
      ensures Valid() && this.mem == mem && emitted == [] && before == mem.cells - {tmpBuf} && tmp == tmpBuf
    {
      this.mem := mem;
      buf, curFill, curIndex := tmpBuf, 0, 0;
      chain, emitted, before, tmp := [tmpBuf], [], mem.cells - {tmpBuf}, tmpBuf;
    }

    /** The callback: the character goes to the end of the newest buffer, after starting a new one if that is full. */
    method Emit(ch: Byte)
      requires Valid()
      modifies this, mem`cells, mem`next
      ensures Valid() && emitted == old(emitted) + [ch]
    {
      hide LevelOk, Distinct, IsPower2, Owned;
      FullIffPower(curIndex, curFill);
      if curFill >= ASPRINT_BUF_SIZE && IsPower2(curFill) {
        EmitToNew(ch);
      } else {
        PutKeeps(mem.cells, mem.capSize, chain, emitted, ch);
        OwnedPut(mem.cells, mem.stack, chain, before, tmp, buf, mem.cells[buf][curFill := Char(ch)]);
        mem.Put(buf, curFill, Char(ch));
        curFill := curFill + 1;
        emitted := emitted + [ch];
      }
    }

    method EmitAll(out: seq<Byte>)
      requires Valid() && emitted == []
      modifies this, mem`cells, mem`next
      ensures Valid() && emitted == out
    {
      hide ChainOk, Owned;
      var i := 0;
      while i < |out|
        invariant 0 <= i <= |out| && Valid() && emitted == out[..i]
      {
        Emit(out[i]);
        i := i + 1;
      }
    }

    method EmitToNew(ch: Byte)
      requires Valid() && curFill == Size(curIndex)
      modifies this, mem`cells, mem`next
      ensures Valid() && emitted == old(emitted) + [ch]
    {
      hide LevelOk, Distinct, Owned, ChainOk;
      ghost var cells := mem.cells;
      var nextBuf := mem.Malloc(curFill * 2);
      mem.StorePtr(nextBuf, buf);
      ghost var b := mem.cells[nextBuf];
      mem.Put(nextBuf, curFill, Char(ch));
      GrowKeeps(cells, mem.capSize, chain, emitted, nextBuf, b, ch);
      OwnedSnoc(cells, mem.stack, chain, before, tmp, nextBuf, b[curFill := Char(ch)]);
      assert mem.cells == cells[nextBuf := b[curFill := Char(ch)]];
      buf := nextBuf;
      curIndex := curIndex + 1;
      curFill := curFill + 1;
      chain := chain + [nextBuf];
      emitted := emitted + [ch];
    }
  
    /** Copies the pieces of all heap buffers but the newest into it and frees each of those once. */
    method Condense() returns (oldest: Ptr)
      requires Valid() && curIndex > 0
      modifies mem`cells
      ensures mem.Valid() && oldest == chain[0]
              && Condensing(mem.cells, mem.capSize, mem.stack, chain, 1, emitted, before, tmp)
    {
      hide LevelOk, Owned, Distinct, Gathered, Copied, Filling;
      var topIndex := curIndex;
      CondenseStart(mem.cells, mem.capSize, mem.stack, chain, emitted, before, tmp);
      var b := mem.LoadPtr(buf, chain[curIndex - 1]);
      // The shift is not used when there was only one doubling.
      var off := if topIndex == 1 then 0 else ASPRINT_BUF_SIZE * Pow2(topIndex - 2);
      if topIndex > 1 {
        SizeIsShift(topIndex - 2);
      }
      while topIndex != 1
        invariant 1 <= topIndex <= curIndex && b == chain[topIndex - 1] && mem.Valid()
        invariant topIndex > 1 ==> off == Size(topIndex - 2)
        invariant Condensing(mem.cells, mem.capSize, mem.stack, chain, topIndex, emitted, before, tmp)
      {
        CondenseStep(mem.cells, mem.capSize, mem.stack, chain, topIndex, emitted, before, tmp);
        mem.Memcpy(buf, b, off, off);
        var prev := mem.LoadPtr(b, chain[topIndex - 2]);
        mem.Free(b);
        off := off / 2;
        b := prev;
        topIndex := topIndex - 1;
      }
      oldest := b;
    }

    // Everything fitted in the stack buffer.
    method Small() returns (strp: Ptr)
      requires Valid() && curIndex == 0
      modifies mem`cells, mem`next
      ensures mem.Valid() && Done(mem.cells, strp, before, tmp, emitted)
    {
      hide Copied;
      assert LevelOk(mem.cells, mem.capSize, chain, 0, emitted);
      assert chain == [tmp];
      strp := mem.Malloc(curFill);
      mem.Memcpy(strp, buf, 0, curFill);
    }

    method Large() returns (strp: Ptr)
      requires Valid() && curIndex > 0
      modifies mem`cells
      ensures mem.Valid() && Done(mem.cells, strp, before, tmp, emitted)
    {
      hide Copied, Done, Condensing, ChainOk;
      strp := buf;
      assert tmp !in before;
      var oldest := Condense();
      CondenseLast(mem.cells, mem.capSize, mem.stack, chain, emitted, before, tmp);
      mem.Memcpy(strp, oldest, 0, ASPRINT_BUF_SIZE);
    }
  }

  /** What a caller gets: the string's memory is all that is new, and holds exactly the characters. */
  ghost predicate Formatted(before: Cells, cells: Cells, strp: Ptr, s: seq<Byte>) {
    && strp !in before && cells.Keys == before.Keys + {strp}
    && (forall p :: p in before ==> p in cells && cells[p] == before[p])
    && |s| <= |cells[strp]| && (forall x :: 0 <= x < |s| ==> cells[strp][x] == Char(s[x]))
    && (|cells[strp]| == |s| || (|s| > ASPRINT_BUF_SIZE && |cells[strp]| < 2 * |s|))
  }

  lemma DoneThenPopped(cells: Cells, strp: Ptr, before: Cells, tmp: Ptr, s: seq<Byte>)
    requires Done(cells, strp, before, tmp, s) && tmp !in before
    ensures tmp in cells && Formatted(before, cells - {tmp}, strp, s)
  {
    assert tmp in cells.Keys && strp in cells.Keys;
    assert (cells - {tmp}).Keys == before.Keys + {strp};
  }

  /** Formatting the characters `out`: the string returned holds exactly those, everything allocated on the way is freed,
      and no other memory changes. */
  method Vasprintf(mem: Memory, out: seq<Byte>) returns (strp: Ptr)
    requires mem.Valid()
    modifies mem
    ensures mem.Valid() && mem.stack == old(mem.stack) && Formatted(old(mem.cells), mem.cells, strp, out)
  {
    hide ChainOk, Owned, Done, Formatted;
    var tmpBuf := mem.Malloc(ASPRINT_BUF_SIZE);
    mem.stack := mem.stack + {tmpBuf};
    var state := new State(mem, tmpBuf);
    assert state.before == old(mem.cells);
    state.EmitAll(out);
    if state.curIndex == 0 {
      strp := state.Small();
    } else {
      strp := state.Large();
    }
    DoneThenPopped(mem.cells, strp, state.before, tmpBuf, out);
    // The stack buffer goes with the call.
    mem.stack := mem.stack - {tmpBuf};
    mem.Free(tmpBuf);
    assert mem.stack == old(mem.stack);
  }
}
