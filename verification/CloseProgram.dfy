/** The handle table and the parked list as the code keeps them: a free list threaded through an array, and sockets
    linked through their own next fields and filtered in place. */
module CloseProgram {
  import opened Basics
  import opened Closing

  // The handles reached from n along the free list.
  ghost predicate Chain(freeNs: seq<nat>, n: nat, l: seq<nat>)
    decreases |l|
  {
    if l == [] then n == MAX_SOCKNS
    else n == l[0] && n < |freeNs| && Chain(freeNs, freeNs[n], l[1..])
  }

  lemma {:induction false} ChainFrame(a: seq<nat>, b: seq<nat>, n: nat, l: seq<nat>)
    requires Chain(a, n, l) && |a| == |b| && forall x :: x in l ==> x < |a| && b[x] == a[x]
    ensures Chain(b, n, l)
    decreases |l|
  {
    if l != [] {
      assert forall x :: x in l[1..] ==> x in l;
      ChainFrame(a, b, a[n], l[1..]);
    }
  }

  lemma {:induction false} ChainFrom(a: seq<nat>, k: nat, l: seq<nat>)
    requires |a| == MAX_SOCKNS && (forall i :: 0 <= i < |a| ==> a[i] == i + 1) && k <= MAX_SOCKNS
    requires |l| == MAX_SOCKNS - k && forall i :: 0 <= i < |l| ==> l[i] == k + i
    ensures Chain(a, k, l)
    decreases |l|
  {
    if l != [] {
      ChainFrom(a, k + 1, l[1..]);
    }
  }

  lemma AllFree()
    ensures var free := NewWorld().free;
            && |free| == MAX_SOCKNS && (forall i :: 0 <= i < |free| ==> free[i] == i) && NoDup(free)
            && forall n :: n in free <==> 0 <= n < MAX_SOCKNS
  {
    var free := NewWorld().free;
    forall n | 0 <= n < MAX_SOCKNS ensures n in free {
      assert free[n] == n;
    }
  }

  class HandleTable {
    const freeNs: array<nat>
    const inverse: array<Option<Id>>
    var freeN: nat
    ghost var free: seq<nat>

    ghost predicate Valid()
      reads this, freeNs, inverse
    {
      && freeNs.Length == inverse.Length == MAX_SOCKNS
      && NoDup(free) && Chain(freeNs[..], freeN, free)
      && (forall n :: n in free ==> n < MAX_SOCKNS)
      && (forall n :: 0 <= n < MAX_SOCKNS ==> (n in free <==> inverse[n].None?))
    }

    // The handles in use.
    ghost function Used(): map<nat, Id>
      requires inverse.Length == MAX_SOCKNS
      reads this, inverse
    {
      map n | 0 <= n < MAX_SOCKNS && inverse[n].Some? :: inverse[n].value
    }

    constructor ()
      ensures Valid() && free == NewWorld().free && Used() == map[] && fresh(freeNs) && fresh(inverse)
    {
      freeNs := new nat[MAX_SOCKNS](i => i + 1);
      inverse := new Option<Id>[MAX_SOCKNS](_ => None);
      freeN := 0;
      free := NewWorld().free;
      new;
      hide Chain, NoDup, NewWorld;
      AllFree();
      ChainFrom(freeNs[..], 0, free);
    }

    method AllocSockn(sock: Id) returns (n: nat)
      requires Valid() && free != []
      modifies this`freeN, this`free, inverse
      ensures Valid() && n == old(free)[0] && free == old(free)[1..] && Used() == old(Used())[n := sock]
    {
      n := freeN;
      assert n in free && n !in free[1..];
      assert free == [n] + free[1..];
      freeN := freeNs[freeN];
      inverse[n] := Some(sock);
      assert forall x :: x in free[1..] ==> x in free;
      free := free[1..];
    }

    method FreeSockn(n: nat)
      requires Valid() && n < MAX_SOCKNS && inverse[n].Some?
      modifies this`freeN, this`free, freeNs, inverse
      ensures Valid() && free == [n] + old(free) && Used() == old(Used()) - {n}
    {
      ghost var was := freeNs[..];
      freeNs[n] := freeN;
      ChainFrame(was, freeNs[..], freeN, free);
      NoDupSnoc(free, n);
      freeN := n;
      inverse[n] := None;
      free := [n] + free;
      assert free[1..] == old(free);
    }
  }

  // ---------------------------------------------------------------- the parked list

  type Links = map<Id, Option<Id>>

  ghost predicate IsList(next: Links, at: Option<Id>, l: seq<Id>)
    decreases |l|
  {
    if l == [] then at.None? else at == Some(l[0]) && l[0] in next && IsList(next, next[l[0]], l[1..])
  }

  // A list whose last link is still to be written.
  ghost predicate IsOpenList(next: Links, head: Option<Id>, l: seq<Id>, last: Option<Id>)
    decreases |l|
  {
    if l == [] then last.None?
    else
      && head == Some(l[0]) && l[0] in next
      && if |l| == 1 then last == Some(l[0]) else IsOpenList(next, next[l[0]], l[1..], last)
  }

  lemma {:induction false} ListFrame(next: Links, next': Links, at: Option<Id>, l: seq<Id>)
    requires IsList(next, at, l) && forall x :: x in l ==> x in next' && x in next && next'[x] == next[x]
    ensures IsList(next', at, l)
    decreases |l|
  {
    if l != [] {
      assert forall x :: x in l[1..] ==> x in l;
      ListFrame(next, next', next[l[0]], l[1..]);
    }
  }

  // Writing through the last link, `at` being what it now points to.
  function Rewritten(next: Links, head: Option<Id>, last: Option<Id>, at: Option<Id>): (Links, Option<Id>) {
    if last.Some? then (next[last.value := at], head) else (next, at)
  }

  lemma {:induction false} OpenListSnoc(next: Links, head: Option<Id>, l: seq<Id>, last: Option<Id>, f: Id)
    requires IsOpenList(next, head, l, last) && NoDup(l + [f]) && f in next
    ensures var (next', head') := Rewritten(next, head, last, Some(f)); IsOpenList(next', head', l + [f], Some(f))
    decreases |l|
  {
    if l != [] {
      assert (l + [f])[1..] == l[1..] + [f];
      assert last.value in l by { LastIn(next, head, l, last); }
      if |l| > 1 {
        assert NoDup(l[1..] + [f]) by {
          assert forall i :: 0 <= i < |l| ==> (l[1..] + [f])[i] == (l + [f])[i + 1];
        }
        OpenListSnoc(next, next[l[0]], l[1..], last, f);
        LastIn(next, next[l[0]], l[1..], last);
        assert last.value == (l + [f])[|l| - 1] && l[0] == (l + [f])[0];
      } else {
        assert l[1..] + [f] == [f];
      }
    }
  }

  lemma {:induction false} LastIn(next: Links, head: Option<Id>, l: seq<Id>, last: Option<Id>)
    requires IsOpenList(next, head, l, last) && l != []
    ensures last == Some(l[|l| - 1])
    decreases |l|
  {
    if |l| > 1 {
      LastIn(next, next[l[0]], l[1..], last);
    }
  }

  lemma {:induction false} OpenListClose(next: Links, head: Option<Id>, l: seq<Id>, last: Option<Id>)
    requires IsOpenList(next, head, l, last) && NoDup(l)
    ensures var (next', head') := Rewritten(next, head, last, None); IsList(next', head', l)
    decreases |l|
  {
    if |l| > 1 {
      OpenListClose(next, next[l[0]], l[1..], last);
      LastIn(next, head, l, last);
      assert last.value != l[0];
    }
  }

  lemma OpenNone(next: Links, head: Option<Id>)
    ensures IsOpenList(next, head, [], None)
  {
  }

  lemma ListEnd(next: Links, at: Option<Id>, l: seq<Id>)
    requires IsList(next, at, l)
    ensures at.None? <==> l == []
  {
  }

  // A socket put at the front, being in no list yet.
  lemma PushFront(next: Links, head: Option<Id>, id: Id, l: seq<Id>)
    requires IsList(next, head, l) && id !in l
    ensures IsList(next[id := head], Some(id), [id] + l)
  {
    AllLinked(next, head, l);
    ListFrame(next, next[id := head], head, l);
    assert ([id] + l)[1..] == l;
  }

  lemma {:induction false} AllLinked(next: Links, at: Option<Id>, l: seq<Id>)
    requires IsList(next, at, l)
    ensures forall x :: x in l ==> x in next
    decreases |l|
  {
    if l != [] {
      AllLinked(next, next[l[0]], l[1..]);
      assert l == [l[0]] + l[1..];
    }
  }

  // The next socket of the parked list is passed, kept or not.
  lemma LinkStep(next: Links, head: Option<Id>, kept: seq<Id>, todo: seq<Id>, last: Option<Id>, f: Option<Id>)
    requires IsOpenList(next, head, kept, last) && IsList(next, f, todo) && NoDup(kept + todo) && f.Some?
    ensures todo != [] && f == Some(todo[0]) && f.value in next && f.value !in todo[1..]
    ensures IsList(next, next[f.value], todo[1..]) && NoDup(kept + todo[1..])
    ensures var (next', head') := Rewritten(next, head, last, f);
            && IsOpenList(next', head', kept + [f.value], f) && IsList(next', next[f.value], todo[1..])
            && NoDup(kept + [f.value] + todo[1..])
  {
    var id, all := f.value, kept + todo;
    assert forall i :: 0 <= i < |todo| ==> all[|kept| + i] == todo[i];
    assert forall i :: 0 <= i < |kept| ==> all[i] == kept[i];
    assert kept + [id] + todo[1..] == all;
    assert kept + [id] == all[..|kept| + 1];
    NoDupParts(kept, id, todo[1..]);
    OpenListSnoc(next, head, kept, last, id);
    AllLinked(next, next[id], todo[1..]);
    if kept != [] {
      LastIn(next, head, kept, last);
    }
    ListFrame(next, Rewritten(next, head, last, f).0, next[id], todo[1..]);
  }

  lemma NoDupParts(a: seq<Id>, x: Id, b: seq<Id>)
    requires NoDup(a + [x] + b)
    ensures NoDup(a + [x]) && NoDup(a + b) && x !in b && forall y :: y in a ==> y !in b
  {
    var s := a + [x] + b;
    assert forall i :: 0 <= i < |a + b| ==> (a + b)[i] == s[if i < |a| then i else i + 1];
    assert forall i :: 0 <= i < |a + [x]| ==> (a + [x])[i] == s[i];
    assert s[|a|] == x && forall i :: 0 <= i < |b| ==> s[|a| + 1 + i] == b[i];
    assert forall i :: 0 <= i < |a| ==> s[i] == a[i];
  }

  lemma ProcessedStep(w: World, todo: seq<Id>, blocks: map<Id, set<Stage>>)
    requires forall id :: id in todo ==> id in w.socks
    ensures todo == [] ==> Processed(w, todo, blocks) == (w, [])
    ensures todo != [] ==>
              var m := TryClose(w, todo[0], Blocks(blocks, todo[0]));
              && Processed(w, todo, blocks).0 == Processed(m, todo[1..], blocks).0
              && Processed(w, todo, blocks).1 ==
                 (if todo[0] in m.socks then [todo[0]] else []) + Processed(m, todo[1..], blocks).1
  {
  }

  /** The first two cases of the switch, which a shutdown stops after.  The close request goes out in the second, once
      there is space for it, and only on a socket that writes by pushing. */
  method ReqStages(s: Sock, blocks: set<Stage>) returns (stage: Stage, sent: bool)
    ensures stage == StageShut(s.stage, s.pushWrite, blocks)
    ensures sent <==> s.pushWrite && Rank(s.stage) < 2 <= Rank(stage)
  {
    stage, sent := s.stage, false;
    if stage.NeedFlushDrb? && stage !in blocks {
      stage := NeedReqClose;
    }
    if stage.NeedReqClose? {
      if s.pushWrite {
        if stage in blocks {
          return;
        }
        sent := true;
      }
      stage := NeedReqsWrite;
    }
  }

  // The whole switch.  A stage of FreeRes means the last stage can be run.
  method Stages(s: Sock, blocks: set<Stage>) returns (stage: Stage, sent: bool)
    requires Rank(s.stage) < 4
    ensures var after := StageAfter(s.stage, s.pushWrite, s.pullRead, blocks);
            stage == if after.Done? then FreeRes else after
    ensures sent <==> s.pushWrite && Rank(s.stage) < 2 <= Rank(stage)
  {
    stage, sent := ReqStages(s, blocks);
    if stage.NeedReqsWrite? && !(s.pushWrite && stage in blocks) {
      stage := NeedReqsRead;
    }
    if stage.NeedReqsRead? && !(s.pullRead && stage in blocks) {
      stage := FreeRes;
    }
  }

  lemma ReleasedMoved(w: World, f: Id, stage: Stage)
    requires f in w.socks
    ensures Released(Moved(w, f, Done), f) == Released(w, f).(requests := Moved(w, f, Done).requests)
    ensures stage.FreeRes? ==> Moved(w, f, Done).requests == Moved(w, f, stage).requests
    ensures Moved(w, f, stage).requests ==
            w.requests + if w.socks[f].pushWrite && Rank(w.socks[f].stage) < 2 <= Rank(stage) then [f] else []
    ensures var m := Moved(w, f, stage);
            && m.socks == w.socks[f := w.socks[f].(stage := stage)] && m.free == w.free && m.handles == w.handles
            && m.delayed == w.delayed
  {
    assert w.socks[f := w.socks[f].(stage := Done)] - {f} == w.socks - {f};
  }

  class Closer {
    const table: HandleTable
    var socks: map<Id, Sock>
    var next: Links          // delay_close_next of each socket
    var head: Option<Id>     // async_free_head
    var sent: seq<Id>        // the sockets whose close request went out, in order
    ghost var w: World

    // Everything but the parked list.
    ghost predicate Core()
      reads this, table, table.freeNs, table.inverse
    {
      && table.Valid() && TableOk(w) && HistoryOk(w)
      && w.socks == socks && w.free == table.free && w.handles == table.Used() && w.requests == sent
    }

    ghost predicate Valid()
      reads this, table, table.freeNs, table.inverse
    {
      Core() && ListOk(w) && IsList(next, head, w.delayed)
    }

    constructor ()
      ensures Valid() && w == NewWorld() && fresh(table) && fresh(table.freeNs) && fresh(table.inverse)
    {
      table := new HandleTable();
      socks, next, head, sent, w := map[], map[], None, [], NewWorld();
      RunKeeps([]);
    }

    method SocketInit(id: Id, pushWrite: bool, pullRead: bool, numbered: bool)
      requires Valid() && id !in w.ever && (numbered ==> table.free != [])
      modifies this`socks, this`w, table, table.inverse
      ensures Valid() && w == Next(old(w), Open(id, pushWrite, pullRead, numbered))
    {
      hide TableOk, HistoryOk, IsList, NoDup, HandleTable.Valid, HandleTable.Used;
      OpenKeeps(w, id, pushWrite, pullRead, numbered);
      w := Next(w, Open(id, pushWrite, pullRead, numbered));
      var handle: Option<nat> := None;
      if numbered {
        var n := table.AllocSockn(id);
        handle := Some(n);
      }
      socks := socks[id := Sock(NeedFlushDrb, pushWrite, pullRead, handle)];
    }

    /** The stages from the one reached, until one would block or the socket is gone. */
    method TryCloseFile(f: Id, blocks: set<Stage>) returns (stage: Stage)
      requires Core() && f in socks
      modifies this`socks, this`sent, this`w, table, table.freeNs, table.inverse
      ensures Core() && w == TryClose(old(w), f, blocks) && (stage.Done? <==> f !in socks) && OnlyTouches(old(w), w, f)
    {
      hide TableOk, HistoryOk, StageAfter, OnlyTouches, Moved, HandleTable.Valid, HandleTable.Used, NoDup;
      ghost var was := w;
      var s := socks[f];
      LiveStage(w, f);
      var out: bool;
      stage, out := Stages(s, blocks);
      if out {
        sent := sent + [f];
      }
      TryCloseKeeps(w, f, blocks);
      ReleasedMoved(was, f, stage);
      if stage.FreeRes? {
        Release(f);
        w := w.(requests := Moved(was, f, Done).requests);
        stage := Done;
      } else {
        socks := socks[f := s.(stage := stage)];
        w := Moved(w, f, stage);
      }
    }

    // Close the socket and free what it holds.
    method Release(f: Id)
      requires table.Valid() && TableOk(w) && w.socks == socks && w.free == table.free && w.handles == table.Used()
               && f in socks
      modifies this`socks, this`w, table, table.freeNs, table.inverse
      ensures table.Valid() && w.socks == socks && w.free == table.free && w.handles == table.Used()
      ensures w == Released(old(w), f)
    {
      var h := socks[f].handle;
      if h.Some? {
        assert h.value in table.Used();
        table.FreeSockn(h.value);
      }
      w := Released(w, f);
      socks := socks - {f};
    }

    // Where the links stand part of the way through the parked list.
    ghost predicate Midway(kept: seq<Id>, todo: seq<Id>, last: Option<Id>, f: Option<Id>)
      reads this
    {
      && IsOpenList(next, head, kept, last) && IsList(next, f, todo) && NoDup(kept + todo)
      && (forall id :: id in todo ==> id in socks) && (f.Some? <==> todo != [])
    }

    // One turn of the loop over the parked list.
    method ResumeOne(ghost kept: seq<Id>, ghost todo: seq<Id>, last: Option<Id>, f: Option<Id>, blocks: map<Id, set<Stage>>)
      returns (ghost kept': seq<Id>, ghost todo': seq<Id>, last': Option<Id>, f': Option<Id>)
      requires Core() && Midway(kept, todo, last, f) && f.Some?
      modifies this, table, table.freeNs, table.inverse
      ensures Core() && Midway(kept', todo', last', f') && todo' == todo[1..]
      ensures w == TryClose(old(w), todo[0], Blocks(blocks, todo[0]))
      ensures kept' == kept + if todo[0] in w.socks then [todo[0]] else []
    {
      hide TableOk, HistoryOk, IsList, IsOpenList, TryClose, NoDup;
      LinkStep(next, head, kept, todo, last, f);
      var id := f.value;
      f', last', kept', todo' := next[id], last, kept, todo[1..];
      ListEnd(next, f', todo');
      var stage := TryCloseFile(id, Blocks(blocks, id));
      if !stage.Done? {
        if last.Some? {
          next := next[last.value := Some(id)];
        } else {
          head := Some(id);
        }
        last', kept' := Some(id), kept + [id];
      }
    }

    // The loop over the parked list; what is left behind `last` is still linked to what came next.
    method ResumeAll(blocks: map<Id, set<Stage>>) returns (ghost kept: seq<Id>, last: Option<Id>)
      requires Valid()
      modifies this, table, table.freeNs, table.inverse
      ensures Core() && IsOpenList(next, head, kept, last) && NoDup(kept)
      ensures (w, kept) == Processed(old(w), old(w).delayed, blocks)
    {
      hide TableOk, HistoryOk, IsList, IsOpenList, Processed, TryClose, NoDup, HandleTable.Valid, HandleTable.Used;
      ghost var was := w;
      ghost var todo := w.delayed;
      kept, last := [], None;
      var f := head;
      OpenNone(next, head);
      ListEnd(next, head, todo);
      assert kept + todo == todo;
      while f.Some?
        invariant Core() && Midway(kept, todo, last, f)
        invariant Processed(w, todo, blocks).0 == Processed(was, was.delayed, blocks).0
        invariant kept + Processed(w, todo, blocks).1 == Processed(was, was.delayed, blocks).1
        decreases |todo|
      {
        ProcessedStep(w, todo, blocks);
        kept, todo, last, f := ResumeOne(kept, todo, last, f, blocks);
      }
      ProcessedStep(w, todo, blocks);
      assert kept + todo == kept;
    }

    /** The parked closes are resumed in order, and the list is rewritten in place to hold the unfinished ones. */
    method ProcessAsyncCloses(blocks: map<Id, set<Stage>>)
      requires Valid()
      modifies this, table, table.freeNs, table.inverse
      ensures Valid() && w == ProcessedAll(old(w), blocks)
    {
      hide TableOk, HistoryOk, IsList, IsOpenList, Processed, StillThere, NoDup, HandleTable.Valid, HandleTable.Used;
      ProcessedAllKeeps(w, blocks);
      ghost var kept;
      var last;
      kept, last := ResumeAll(blocks);
      OpenListClose(next, head, kept, last);
      if last.Some? {
        next := next[last.value := None];
      } else {
        head := None;
      }
      DelayedIrrelevant(w, kept);
      w := w.(delayed := kept);
    }

    /** Resume the parked closes, then try this one, and park it if it cannot finish. */
    method Close(id: Id, blocks: map<Id, set<Stage>>)
      requires Valid() && id in socks && id !in w.closed
      modifies this, table, table.freeNs, table.inverse
      ensures Valid() && w == Next(old(w), CloseFile(id, blocks))
    {
      hide TableOk, HistoryOk, IsList, ProcessedAll, TryClose, NoDup, HandleTable.Valid, HandleTable.Used;
      NotParkedYet(w, id, blocks);
      CloseKeeps(w, id, blocks);
      ProcessAsyncCloses(blocks);
      var stage := TryCloseFile(id, Blocks(blocks, id));
      if !stage.Done? {
        Park(id);
      }
      w := Parked(w, id);
    }

    // The socket goes to the front of the list.
    method Park(id: Id)
      requires IsList(next, head, w.delayed) && id !in w.delayed
      modifies this`next, this`head
      ensures IsList(next, head, [id] + w.delayed)
    {
      PushFront(next, head, id, w.delayed);
      next := next[id := head];
      head := Some(id);
    }

    method ShutdownWrite(id: Id, blocks: set<Stage>)
      requires Valid() && id in socks
      modifies this`socks, this`sent, this`w
      ensures Valid() && w == Next(old(w), Shutdown(id, blocks))
    {
      hide TableOk, HistoryOk, ListOk, IsList, HandleTable.Valid, HandleTable.Used, StageShut, Moved;
      NextKeeps(w, Shutdown(id, blocks));
      var s := socks[id];
      var stage, out := ReqStages(s, blocks);
      if out {
        sent := sent + [id];
      }
      ReleasedMoved(w, id, stage);
      socks := socks[id := s.(stage := stage)];
      w := Moved(w, id, stage);
    }
  }
}
