/** Exactly which entry lists compaction keeps intact, whatever the bytes of the segment are. */
module CompactExact {
  import opened Compact
  import opened Wire

  // The object's bytes stand at b.
  predicate InPlace(final: seq<Byte>, b: nat, was: seq<Byte>, e: Reloc) {
    && b + e.size <= |final| && e.obj + e.size <= |was|
    && final[b..b + e.size] == was[e.obj..e.obj + e.size]
  }

  // The cursors after a fresh copy of e.
  function Onto(s: Slide, e: Reloc): Slide {
    var to := Target(s.newSize, ByWords(e));
    Slide(to + e.size, to, e.obj, e.size)
  }

  /** From entry i on, nothing straddles and every object has the bytes it had, where its new capability points. */
  predicate Intact(es: seq<Reloc>, i: nat, s: Slide, was: seq<Byte>, final: seq<Byte>)
    decreases |es| - i
  {
    if i >= |es| then true
    else
      var e := es[i];
      if e.obj >= s.End() then InPlace(final, Onto(s, e).lastBase, was, e) && Intact(es, i + 1, Onto(s, e), was, final)
      else
        && e.obj + e.size <= s.End() && s.lastLoc <= e.obj
        && InPlace(final, s.lastBase + (e.obj - s.lastLoc), was, e) && Intact(es, i + 1, s, was, final)
  }

  // One fresh copy does no harm: its source was not overwritten, it stays in the segment, and if the rounded cursor has
  // passed the object then it is a single word, which is read before it is written.
  predicate Harmless(s: Slide, e: Reloc, top: nat) {
    var to := Target(s.newSize, ByWords(e));
    s.newSize <= e.obj && to + e.size <= top && (to <= e.obj || e.size == 4)
  }

  /** What the entries must be like, from entry i on; no byte of the segment matters. */
  predicate Safe(es: seq<Reloc>, i: nat, s: Slide, top: nat)
    decreases |es| - i
  {
    if i >= |es| then true
    else
      var e := es[i];
      if e.obj >= s.End() then Harmless(s, e, top) && Safe(es, i + 1, Onto(s, e), top)
      else e.obj + e.size <= s.End() && s.lastLoc <= e.obj && Safe(es, i + 1, s, top)
  }

  ghost predicate Listed(es: seq<Reloc>, top: nat) {
    && (forall k :: 0 <= k < |es| ==> es[k].size > 0 && es[k].obj + es[k].size <= top)
    && forall i, j :: 0 <= i < j < |es| ==> es[i].obj <= es[j].obj
  }

  // ---------------------------------------------------------------- the copy loop on values

  // One turn of the loop.
  function Stepped(mem: seq<Byte>, src: nat, dst: nat, words: bool): (r: seq<Byte>)
    requires src + (if words then 4 else 1) <= |mem| && dst + (if words then 4 else 1) <= |mem|
    ensures |r| == |mem|
  {
    if words then CopyWord(mem, src, dst) else mem[dst := mem[src]]
  }

  lemma SteppedCopied(mem: seq<Byte>, src: nat, dst: nat, words: bool)
    requires dst <= src && src + (if words then 4 else 1) <= |mem|
    ensures CopiedTo(Stepped(mem, src, dst, words), mem, src, dst, if words then 4 else 1)
  {
    hide CopiedTo;
    if words {
      WordCopied(mem, src, dst);
    } else {
      ByteCopied(mem, src, dst);
    }
  }

  lemma RunStep(mem: seq<Byte>, src: nat, dst: nat, i: nat, size: nat, words: bool)
    requires i < size && src + size <= |mem| && dst + size <= |mem| && (words ==> (size - i) % 4 == 0)
    ensures var n := if words then 4 else 1;
            && i + n <= size
            && CopiedRun(mem, src, dst, i, size, words) ==
               CopiedRun(Stepped(mem, src + i, dst + i, words), src, dst, i + n, size, words)
  {
    hide CopyWord;
  }

  lemma RunDone(mem: seq<Byte>, src: nat, dst: nat, size: nat, words: bool)
    requires src + size <= |mem| && dst + size <= |mem|
    ensures CopiedRun(mem, src, dst, size, size, words) == mem
  {
  }

  lemma {:induction false} RunCopies(mem: seq<Byte>, src: nat, dst: nat, i: nat, size: nat, words: bool)
    requires dst <= src && i <= size && src + size <= |mem| && (words ==> (size - i) % 4 == 0)
    ensures CopiedTo(CopiedRun(mem, src, dst, i, size, words), mem, src + i, dst + i, size - i)
    decreases size - i
  {
    hide CopiedTo, Stepped, CopiedRun;
    if i == size {
      RunDone(mem, src, dst, size, words);
      NoneCopied(mem, src + i, dst + i);
    } else {
      var n := if words then 4 else 1;
      var mem' := Stepped(mem, src + i, dst + i, words);
      RunStep(mem, src, dst, i, size, words);
      SteppedCopied(mem, src + i, dst + i, words);
      RunCopies(mem', src, dst, i + n, size, words);
      CopiedOn(mem', CopiedRun(mem', src, dst, i + n, size, words), mem, src + i, dst + i, n, size - i - n);
    }
  }

  // What a copy never changes: everything below the place it has reached.
  lemma {:induction false} RunKeepsBelow(mem: seq<Byte>, src: nat, dst: nat, i: nat, size: nat, words: bool, x: nat)
    requires i <= size && src + size <= |mem| && dst + size <= |mem| && (words ==> (size - i) % 4 == 0)
    requires x < dst + i
    ensures CopiedRun(mem, src, dst, i, size, words)[x] == mem[x]
    decreases size - i
  {
    if i < size {
      if words {
        RunKeepsBelow(CopyWord(mem, src + i, dst + i), src, dst, i + 4, size, words, x);
      } else {
        RunKeepsBelow(mem[dst + i := mem[src + i]], src, dst, i + 1, size, words, x);
      }
    }
  }

  lemma {:induction false} CompactedKeepsBelow(es: seq<Reloc>, i: nat, mem: seq<Byte>, newSize: nat, end: nat)
    ensures var r := Compacted(es, i, mem, newSize, end);
            |r| == |mem| && forall x :: 0 <= x < newSize && x < |mem| ==> r[x] == mem[x]
    decreases |es| - i
  {
    hide CopiedRun, Target;
    if i < |es| {
      var e := es[i];
      var to := Target(newSize, ByWords(e));
      if e.obj >= end {
        if to + e.size <= |mem| && e.obj + e.size <= |mem| {
          var mem' := CopiedRun(mem, e.obj, to, 0, e.size, ByWords(e));
          CompactedKeepsBelow(es, i + 1, mem', to + e.size, e.obj + e.size);
          forall x | 0 <= x < newSize ensures mem'[x] == mem[x] {
            RunKeepsBelow(mem, e.obj, to, 0, e.size, ByWords(e), x);
          }
        }
      } else if e.obj + e.size <= end {
        CompactedKeepsBelow(es, i + 1, mem, newSize, end);
      }
    }
  }

  // ---------------------------------------------------------------- on safe lists everything stays

  // Part of the way: the last object is in place, everything from the write cursor on is untouched, and only a word has
  // ever been passed.
  ghost predicate Midway(s: Slide, mem: seq<Byte>, was: seq<Byte>) {
    && |mem| == |was| && s.newSize == s.lastBase + s.lastSize <= |mem| && s.End() <= |was|
    && (s.lastBase <= s.lastLoc || (s.lastSize == 4 && s.lastBase < s.lastLoc + 4))
    && (forall x :: s.lastBase <= x < s.newSize ==> mem[x] == was[x - s.lastBase + s.lastLoc])
    && (forall x :: s.newSize <= x < |mem| ==> mem[x] == was[x])
  }

  lemma DownArrives(s: Slide, mem: seq<Byte>, mem': seq<Byte>, was: seq<Byte>, e: Reloc, to: nat)
    requires Midway(s, mem, was) && s.newSize <= to <= e.obj && e.obj + e.size <= |was|
    requires CopiedTo(mem', mem, e.obj, to, e.size)
    ensures Midway(Slide(to + e.size, to, e.obj, e.size), mem', was)
  {
  }

  lemma WordArrives(s: Slide, mem: seq<Byte>, was: seq<Byte>, e: Reloc, to: nat)
    requires Midway(s, mem, was) && s.newSize <= e.obj < to < e.obj + 4 && e.size == 4 && to + 4 <= |was|
    ensures Midway(Slide(to + 4, to, e.obj, 4), CopyWord(mem, e.obj, to), was)
  {
    var mem' := CopyWord(mem, e.obj, to);
    forall x | to <= x < to + 4 ensures mem'[x] == was[x - to + e.obj] {
      assert mem'[x] == mem[x - to + e.obj];
    }
  }

  lemma OneWord(mem: seq<Byte>, src: nat, dst: nat)
    requires src + 4 <= |mem| && dst + 4 <= |mem|
    ensures CopiedRun(mem, src, dst, 0, 4, true) == CopyWord(mem, src, dst)
  {
    hide CopyWord;
    assert CopiedRun(CopyWord(mem, src, dst), src, dst, 4, 4, true) == CopyWord(mem, src, dst);
  }

  lemma TargetFacts(s: Slide, e: Reloc)
    ensures var to := Target(s.newSize, ByWords(e));
            s.newSize <= to < s.newSize + 4 && (ByWords(e) ==> e.size % 4 == 0) && (!ByWords(e) ==> to == s.newSize)
  {
  }

  // A harmless copy arrives.
  lemma HarmlessArrives(s: Slide, mem: seq<Byte>, was: seq<Byte>, e: Reloc)
    requires Midway(s, mem, was) && e.size > 0 && e.obj + e.size <= |was| && Harmless(s, e, |was|)
    ensures ByWords(e) ==> e.size % 4 == 0
    ensures var to := Target(s.newSize, ByWords(e));
            |mem| == |was| && Midway(Onto(s, e), CopiedRun(mem, e.obj, to, 0, e.size, ByWords(e)), was)
  {
    hide Midway, CopiedTo, CopiedRun, Target, ByWords, CopyWord;
    TargetFacts(s, e);
    MidwaySize(s, mem, was);
    var to := Target(s.newSize, ByWords(e));
    if to <= e.obj {
      RunCopies(mem, e.obj, to, 0, e.size, ByWords(e));
      DownArrives(s, mem, CopiedRun(mem, e.obj, to, 0, e.size, ByWords(e)), was, e, to);
    } else {
      OneWord(mem, e.obj, to);
      WordArrives(s, mem, was, e, to);
    }
  }

  lemma LastInPlace(s: Slide, mem: seq<Byte>, was: seq<Byte>, final: seq<Byte>, e: Reloc)
    requires Midway(s, mem, was) && |final| == |mem| && (forall x :: 0 <= x < s.newSize ==> final[x] == mem[x])
    requires s.lastLoc <= e.obj && e.obj + e.size <= s.End()
    ensures InPlace(final, s.lastBase + (e.obj - s.lastLoc), was, e)
  {
    var b := s.lastBase + (e.obj - s.lastLoc);
    var l, r := final[b..b + e.size], was[e.obj..e.obj + e.size];
    forall x | 0 <= x < e.size ensures l[x] == r[x] {
      assert l[x] == final[b + x] == mem[b + x] == was[b + x - s.lastBase + s.lastLoc];
    }
  }

  lemma {:induction false} SafeIsIntact(es: seq<Reloc>, i: nat, s: Slide, mem: seq<Byte>, was: seq<Byte>)
    requires Midway(s, mem, was) && Listed(es, |was|) && Safe(es, i, s, |was|)
    ensures Intact(es, i, s, was, Compacted(es, i, mem, s.newSize, s.End()))
    decreases |es| - i
  {
    hide Midway, CopiedRun, Target, ByWords, InPlace;
    if i < |es| {
      var e := es[i];
      var final := Compacted(es, i, mem, s.newSize, s.End());
      MidwaySize(s, mem, was);
      if e.obj >= s.End() {
        var s' := Onto(s, e);
        HarmlessArrives(s, mem, was, e);
        var mem' := CopiedRun(mem, e.obj, s'.lastBase, 0, e.size, ByWords(e));
        CompactedKeepsBelow(es, i + 1, mem', s'.newSize, s'.End());
        LastInPlace(s', mem', was, final, e);
        SafeIsIntact(es, i + 1, s', mem', was);
      } else {
        CompactedKeepsBelow(es, i + 1, mem, s.newSize, s.End());
        LastInPlace(s, mem, was, final, e);
        SafeIsIntact(es, i + 1, s, mem, was);
      }
    }
  }

  lemma MidwaySize(s: Slide, mem: seq<Byte>, was: seq<Byte>)
    requires Midway(s, mem, was)
    ensures |mem| == |was| && s.newSize <= |mem|
  {
  }

  // ---------------------------------------------------------------- on other lists some byte is lost

  // A segment of zeros with one byte set.
  function Spike(top: nat, y: nat): (was: seq<Byte>)
    ensures |was| == top
  {
    seq(top, x => if x == y then 1 else 0)
  }

  /** The byte that is lost: the first one of an object that an earlier copy wrote over, or the first one of the second
      word of an object that its own copy passes. */
  function LostByte(es: seq<Reloc>, i: nat, s: Slide, top: nat): nat
    decreases |es| - i
  {
    if i >= |es| then 0
    else
      var e := es[i];
      if e.obj < s.End() then LostByte(es, i + 1, s, top)
      else if !Harmless(s, e, top) then if s.newSize > e.obj then e.obj else e.obj + 4
      else LostByte(es, i + 1, Onto(s, e), top)
  }

  lemma FirstByte(mem: seq<Byte>, src: nat, dst: nat, size: nat, words: bool)
    requires 0 < size && src + size <= |mem| && dst + size <= |mem| && (words ==> size % 4 == 0)
    ensures CopiedRun(mem, src, dst, 0, size, words)[dst] == mem[src]
  {
    hide CopiedRun;
    RunStep(mem, src, dst, 0, size, words);
    var n, mem' := if words then 4 else 1, Stepped(mem, src, dst, words);
    RunKeepsBelow(mem', src, dst, n, size, words, dst);
  }

  // The second word of an object copied up by less than a word.
  lemma SecondWord(mem: seq<Byte>, src: nat, dst: nat, size: nat)
    requires 8 <= size && size % 4 == 0 && src + size <= |mem| && dst + size <= |mem| && src < dst < src + 4
    ensures CopiedRun(mem, src, dst, 0, size, true)[dst + 4] == mem[src + 4 - dst + src]
  {
    hide CopiedRun, CopyWord;
    RunStep(mem, src, dst, 0, size, true);
    var once := Stepped(mem, src, dst, true);
    RunStep(once, src, dst, 4, size, true);
    var twice := Stepped(once, src + 4, dst + 4, true);
    RunKeepsBelow(twice, src, dst, 8, size, true, dst + 4);
    assert twice[dst + 4] == once[src + 4];
  }

  // An object that an earlier copy wrote over.
  lemma OverwrittenShows(s: Slide, mem: seq<Byte>, was: seq<Byte>, e: Reloc, to: nat, words: bool, final: seq<Byte>)
    requires Midway(s, mem, was) && e.size > 0 && s.End() <= e.obj < s.newSize && e.obj + e.size <= |was|
    requires was == Spike(|was|, e.obj) && to + e.size <= |was| == |final| && (words ==> e.size % 4 == 0)
    requires final[to] == CopiedRun(mem, e.obj, to, 0, e.size, words)[to]
    ensures !InPlace(final, to, was, e)
  {
    hide CopiedRun;
    FirstByte(mem, e.obj, to, e.size, words);
    assert mem[e.obj] == was[e.obj - s.lastBase + s.lastLoc] == 0;
    assert final[to..to + e.size][0] == 0 && was[e.obj..e.obj + e.size][0] == 1;
  }

  // An object of two words or more that its own copy passes.
  lemma PassedShows(s: Slide, mem: seq<Byte>, was: seq<Byte>, e: Reloc, to: nat, final: seq<Byte>)
    requires Midway(s, mem, was) && s.newSize <= e.obj < to < e.obj + 4 && 8 <= e.size && e.size % 4 == 0
    requires was == Spike(|was|, e.obj + 4) && e.obj + e.size <= |was| && to + e.size <= |was| == |final|
    requires final[to + 4] == CopiedRun(mem, e.obj, to, 0, e.size, true)[to + 4]
    ensures !InPlace(final, to, was, e)
  {
    hide CopiedRun;
    SecondWord(mem, e.obj, to, e.size);
    assert mem[e.obj + 4 - to + e.obj] == was[e.obj + 4 - to + e.obj] == 0;
    assert final[to..to + e.size][4] == 0 && was[e.obj..e.obj + e.size][4] == 1;
  }

  // A copy that does harm, on the segment in which the byte it loses is the only one set.
  lemma HarmShows(s: Slide, mem: seq<Byte>, was: seq<Byte>, e: Reloc, final: seq<Byte>)
    requires Midway(s, mem, was) && e.size > 0 && s.End() <= e.obj && e.obj + e.size <= |was| && !Harmless(s, e, |was|)
    requires was == Spike(|was|, if s.newSize > e.obj then e.obj else e.obj + 4)
    requires |final| == |mem|
    requires var to := Target(s.newSize, ByWords(e));
             to + e.size <= |was| ==>
               && (ByWords(e) ==> e.size % 4 == 0)
               && forall x :: to <= x < to + e.size ==> final[x] == CopiedRun(mem, e.obj, to, 0, e.size, ByWords(e))[x]
    ensures !InPlace(final, Target(s.newSize, ByWords(e)), was, e)
  {
    hide CopiedRun, Target, ByWords, Midway, Spike;
    MidwaySize(s, mem, was);
    TargetFacts(s, e);
    var to := Target(s.newSize, ByWords(e));
    if to + e.size <= |was| {
      if s.newSize > e.obj {
        OverwrittenShows(s, mem, was, e, to, ByWords(e), final);
      } else {
        PassedShows(s, mem, was, e, to, final);
      }
    }
  }

  lemma {:induction false} UnsafeBreaks(es: seq<Reloc>, i: nat, s: Slide, mem: seq<Byte>, was: seq<Byte>)
    requires Midway(s, mem, was) && Listed(es, |was|) && !Safe(es, i, s, |was|)
    requires was == Spike(|was|, LostByte(es, i, s, |was|))
    ensures !Intact(es, i, s, was, Compacted(es, i, mem, s.newSize, s.End()))
    decreases |es| - i
  {
    hide Midway, CopiedRun, Target, ByWords, InPlace, Spike, Harmless;
    var e := es[i];
    var final := Compacted(es, i, mem, s.newSize, s.End());
    MidwaySize(s, mem, was);
    TargetFacts(s, e);
    if e.obj < s.End() {
      if e.obj + e.size <= s.End() && s.lastLoc <= e.obj {
        UnsafeBreaks(es, i + 1, s, mem, was);
      }
    } else {
      var s' := Onto(s, e);
      if Harmless(s, e, |was|) {
        HarmlessArrives(s, mem, was, e);
        HarmlessFits(s, e, |was|);
        UnsafeBreaks(es, i + 1, s', CopiedRun(mem, e.obj, s'.lastBase, 0, e.size, ByWords(e)), was);
      } else {
        CompactedKeepsBelow(es, i, mem, s.newSize, s.End());
        if s'.newSize <= |was| {
          CompactedKeepsBelow(es, i + 1, CopiedRun(mem, e.obj, s'.lastBase, 0, e.size, ByWords(e)), s'.newSize, s'.End());
        }
        HarmShows(s, mem, was, e, final);
      }
    }
  }

  lemma HarmlessFits(s: Slide, e: Reloc, top: nat)
    requires Harmless(s, e, top)
    ensures Target(s.newSize, ByWords(e)) + e.size <= top
  {
  }

  /** Exactly when compaction keeps every object, whatever bytes the segment holds: no entry straddles, no copy writes over
      an object still to be copied or leaves the segment, and the rounded cursor passes at most single words. */
  lemma IntactIff(es: seq<Reloc>, top: nat)
    requires Listed(es, top)
    ensures (forall was: seq<Byte> :: |was| == top ==>
               Intact(es, 0, Slide(0, 0, 0, 0), was, Compacted(es, 0, was, 0, 0)))
            <==> Safe(es, 0, Slide(0, 0, 0, 0), top)
  {
    hide Safe, Intact, Compacted;
    var s := Slide(0, 0, 0, 0);
    if Safe(es, 0, s, top) {
      forall was: seq<Byte> | |was| == top ensures Intact(es, 0, s, was, Compacted(es, 0, was, 0, 0)) {
        SafeIsIntact(es, 0, s, was, was);
      }
    } else {
      var was := Spike(top, LostByte(es, 0, s, top));
      UnsafeBreaks(es, 0, s, was, was);
      assert |was| == top && !Intact(es, 0, s, was, Compacted(es, 0, was, 0, 0));
    }
  }

  /** Lists on which the cursor passes nothing, and no entry straddles, are among them. */
  lemma {:induction false} ClearIsSafe(es: seq<Reloc>, i: nat, s: Slide, top: nat)
    requires Listed(es, top) && Clear(es, i, s.newSize, s.End()) && Fits(es, i, s.End())
    requires s.newSize <= s.End() && (i < |es| ==> s.lastLoc <= es[i].obj)
    ensures Safe(es, i, s, top)
    decreases |es| - i
  {
    hide Target, ByWords;
    if i < |es| {
      var e := es[i];
      ClearIsSafe(es, i + 1, if e.obj >= s.End() then Onto(s, e) else s, top);
    }
  }

  // ---------------------------------------------------------------- where the objects go

  // The entry is copied, not derived from an earlier one: everything before it in the list ends at or below it.
  ghost predicate Fresh(es: seq<Reloc>, k: nat)
    requires k < |es|
  {
    forall j :: 0 <= j < k ==> es[j].obj + es[j].size <= es[k].obj
  }

  // The entry's capability and its size are whole words.
  predicate WholeWords(e: Reloc) {
    (e.obj + e.offset) % 4 == 0 && e.size % 4 == 0
  }

  // b is as low as an object may start above an earlier end: right there, or for whole words on the next word.
  predicate Least(b: int, end: int, words: bool) {
    end <= b && if words then b % 4 == 0 && b - end < 4 else b == end
  }

  ghost predicate EndsAt(es: seq<Reloc>, homes: seq<int>, k: nat, end: int)
    requires |homes| <= |es|
  {
    if k == 0 then end == 0 else exists j :: 0 <= j < k && j < |homes| && homes[j] + es[j].size == end
  }

  /** Where one entry goes: a copied object starts as low as it may after the end of one copied before it, or at the start
      of the segment, and above the ends of all of them; a derived one lies within one copied before it, at the same
      distance. */
  ghost predicate WellPut(es: seq<Reloc>, homes: seq<int>, k: nat)
    requires k < |homes| == |es|
  {
    if Fresh(es, k) then
      && (forall j :: 0 <= j < k ==> homes[j] + es[j].size <= homes[k])
      && exists end :: EndsAt(es, homes, k, end) && Least(homes[k], end, WholeWords(es[k]))
    else exists j :: 0 <= j < k && Within(es, homes, j, k)
  }

  ghost predicate Packed(es: seq<Reloc>, homes: seq<int>, n: nat) {
    n <= |homes| == |es| && forall k :: 0 <= k < n ==> WellPut(es, homes, k)
  }

  ghost predicate Within(es: seq<Reloc>, homes: seq<int>, j: nat, k: nat)
    requires j < |homes| <= |es| && k < |homes|
  {
    && es[j].obj <= es[k].obj && es[k].obj + es[k].size <= es[j].obj + es[j].size
    && homes[k] - homes[j] == es[k].obj - es[j].obj
  }

  // The objects end at n and not before.
  ghost predicate Spans(es: seq<Reloc>, homes: seq<int>, n: nat)
    requires |homes| == |es|
  {
    && (forall k :: 0 <= k < |es| ==> homes[k] + es[k].size <= n)
    && (if es == [] then n == 0 else exists k :: 0 <= k < |es| && homes[k] + es[k].size == n)
  }

  // After i entries: the last one copied is at the cursors, and nothing lies above them.
  ghost predicate Cursors(es: seq<Reloc>, homes: seq<int>, i: nat, s: Slide) {
    && i <= |es| == |homes| && s.newSize == s.lastBase + s.lastSize
    && (if i == 0 then s == Slide(0, 0, 0, 0) else exists f :: 0 <= f < i && LastCopied(es, homes, f, s))
    && forall j :: 0 <= j < i ==> es[j].obj + es[j].size <= s.End() && homes[j] + es[j].size <= s.newSize
  }

  predicate LastCopied(es: seq<Reloc>, homes: seq<int>, f: nat, s: Slide)
    requires f < |es| == |homes|
  {
    es[f].obj == s.lastLoc && es[f].size == s.lastSize && homes[f] == s.lastBase
  }

  lemma CopiedWellPut(es: seq<Reloc>, homes: seq<int>, i: nat, s: Slide)
    requires i < |es| && Cursors(es, homes, i, s) && es[i].obj >= s.End() && homes[i] == Onto(s, es[i]).lastBase
    ensures WellPut(es, homes, i)
  {
    hide Target, ByWords;
    LeastTarget(s, es[i]);
    assert Fresh(es, i);
    if i > 0 {
      var f :| 0 <= f < i && LastCopied(es, homes, f, s);
      assert homes[f] + es[f].size == s.newSize;
    }
    assert EndsAt(es, homes, i, s.newSize);
  }

  lemma DerivedWellPut(es: seq<Reloc>, homes: seq<int>, i: nat, s: Slide, top: nat)
    requires i < |es| && Listed(es, top) && Cursors(es, homes, i, s) && es[i].obj < s.End()
    requires es[i].obj + es[i].size <= s.End() && homes[i] == s.lastBase + (es[i].obj - s.lastLoc)
    ensures WellPut(es, homes, i) && homes[i] + es[i].size <= s.newSize
  {
    var f :| 0 <= f < i && LastCopied(es, homes, f, s);
    assert !Fresh(es, i);
    assert Within(es, homes, f, i);
  }

  // One entry more.
  lemma CursorsStep(es: seq<Reloc>, homes: seq<int>, i: nat, s: Slide, s': Slide, top: nat)
    requires i < |es| && Listed(es, top) && Cursors(es, homes, i, s)
    requires var e := es[i];
             if e.obj >= s.End() then s' == Onto(s, e) && homes[i] == s'.lastBase
             else s' == s && e.obj + e.size <= s.End() && homes[i] + e.size <= s.newSize
    ensures Cursors(es, homes, i + 1, s')
  {
    hide Target, ByWords, Listed;
    TargetFacts(s, es[i]);
    if es[i].obj >= s.End() {
      assert LastCopied(es, homes, i, s');
    } else if i > 0 {
      var f :| 0 <= f < i && LastCopied(es, homes, f, s);
      assert 0 <= f < i + 1;
    }
  }

  lemma LeastTarget(s: Slide, e: Reloc)
    ensures Least(Target(s.newSize, ByWords(e)), s.newSize, WholeWords(e))
  {
  }

  lemma {:induction false} PackedFrom(es: seq<Reloc>, homes: seq<int>, i: nat, s: Slide, top: nat)
    requires Listed(es, top) && Fits(es, i, s.End()) && Cursors(es, homes, i, s) && Packed(es, homes, i)
    requires homes[i..] == Homes(es, i, s)
    ensures Packed(es, homes, |es|) && Spans(es, homes, Extent(es, i, s))
    decreases |es| - i
  {
    hide Cursors, WellPut, Target, ByWords, Listed;
    CursorsIn(es, homes, i, s);
    if i < |es| {
      var e := es[i];
      var s' := if e.obj >= s.End() then Onto(s, e) else s;
      assert homes[i] == homes[i..][0] && homes[i + 1..] == homes[i..][1..];
      if e.obj >= s.End() {
        CopiedWellPut(es, homes, i, s);
      } else {
        DerivedWellPut(es, homes, i, s, top);
      }
      CursorsStep(es, homes, i, s, s', top);
      PackedFrom(es, homes, i + 1, s', top);
    } else {
      CursorsSpan(es, homes, s);
    }
  }

  lemma CursorsSpan(es: seq<Reloc>, homes: seq<int>, s: Slide)
    requires Cursors(es, homes, |es|, s)
    ensures Spans(es, homes, s.newSize)
  {
    if es != [] {
      var f :| 0 <= f < |es| && LastCopied(es, homes, f, s);
      assert homes[f] + es[f].size == s.newSize;
    }
  }

  lemma CursorsIn(es: seq<Reloc>, homes: seq<int>, i: nat, s: Slide)
    requires Cursors(es, homes, i, s)
    ensures i <= |es| == |homes|
  {
  }

  /** Compaction packs: on every list without straddling entries the objects are laid out one after the other with no more
      room between them than whole words need, objects of whole words start on words, and the new size is where the last
      of them ends. */
  lemma HomesPacked(es: seq<Reloc>, top: nat)
    requires Listed(es, top) && Fits(es, 0, 0)
    ensures var homes := Homes(es, 0, Slide(0, 0, 0, 0));
            Packed(es, homes, |es|) && Spans(es, homes, Extent(es, 0, Slide(0, 0, 0, 0)))
  {
    var s := Slide(0, 0, 0, 0);
    var homes := Homes(es, 0, s);
    assert homes[0..] == homes;
    PackedFrom(es, homes, 0, s, top);
  }

  /** So, of the capabilities compaction leaves: one for a copied object of whole words has a base that is a multiple of
      four. */
  lemma CopiedWordsAligned(es: seq<Reloc>, slots: map<nat, Cap>, top: nat, k: nat)
    requires Listed(es, top) && Fits(es, 0, 0) && k < |es|
    requires BasesAre(es, slots, Homes(es, 0, Slide(0, 0, 0, 0)))
    ensures Fresh(es, k) && (es[k].obj + es[k].offset) % 4 == 0 && es[k].size % 4 == 0 ==> slots[es[k].slot].base % 4 == 0
  {
    hide Homes, Extent, Fits, Listed, Fresh, WellPut, Spans, WholeWords;
    HomesPacked(es, top);
    PutAligned(es, Homes(es, 0, Slide(0, 0, 0, 0)), k);
  }

  lemma PutAligned(es: seq<Reloc>, homes: seq<int>, k: nat)
    requires k < |es| == |homes| && WellPut(es, homes, k)
    ensures Fresh(es, k) && (es[k].obj + es[k].offset) % 4 == 0 && es[k].size % 4 == 0 ==> homes[k] % 4 == 0
  {
    hide Fresh, EndsAt, Within;
  }
}
