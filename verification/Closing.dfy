/** Closing sockets without waiting: a close that would block is parked on a list and resumed later from the stage it
    had reached, while a table hands out small handle numbers to the sockets that want one. */
module Closing {
  import opened Basics

  const MAX_SOCKNS: nat := 64

  type Id = nat

  datatype Stage = NeedFlushDrb | NeedReqClose | NeedReqsWrite | NeedReqsRead | FreeRes | Done

  function Rank(s: Stage): nat {
    match s
    case NeedFlushDrb => 0
    case NeedReqClose => 1
    case NeedReqsWrite => 2
    case NeedReqsRead => 3
    case FreeRes => 4
    case Done => 5
  }

  datatype Sock = Sock(stage: Stage, pushWrite: bool, pullRead: bool, handle: Option<nat>)

  // The fall-through switch: on from the stage reached until one whose wait would block.
  function StageAfter(stage: Stage, pushWrite: bool, pullRead: bool, blocks: set<Stage>): (r: Stage)
    ensures Rank(stage) <= Rank(r) && r != FreeRes
    decreases 5 - Rank(stage)
  {
    match stage
    case NeedFlushDrb => if stage in blocks then stage else StageAfter(NeedReqClose, pushWrite, pullRead, blocks)
    case NeedReqClose => if pushWrite && stage in blocks then stage
      else StageAfter(NeedReqsWrite, pushWrite, pullRead, blocks)
    case NeedReqsWrite => if pushWrite && stage in blocks then stage
      else StageAfter(NeedReqsRead, pushWrite, pullRead, blocks)
    case NeedReqsRead => if pullRead && stage in blocks then stage else StageAfter(FreeRes, pushWrite, pullRead, blocks)
    case FreeRes => Done
    case Done => Done
  }

  // Shutting down writing stops once the close request is out.
  function StageShut(stage: Stage, pushWrite: bool, blocks: set<Stage>): (r: Stage)
    ensures Rank(stage) <= Rank(r)
    decreases 5 - Rank(stage)
  {
    match stage
    case NeedFlushDrb => if stage in blocks then stage else StageShut(NeedReqClose, pushWrite, blocks)
    case NeedReqClose => if pushWrite && stage in blocks then stage else NeedReqsWrite
    case _ => stage
  }

  /** The state of a program's sockets.  `ever`, `closed`, `requests` and `freed` are history: every socket ever
      opened, those close_file was called on, the close requests sent and the sockets freed, in order. */
  datatype World = World(socks: map<Id, Sock>, delayed: seq<Id>, free: seq<nat>, handles: map<nat, Id>,
                         ever: set<Id>, closed: set<Id>, requests: seq<Id>, freed: seq<Id>)

  function NewWorld(): World {
    World(map[], [], seq(MAX_SOCKNS, i => i), map[], {}, {}, [], [])
  }

  datatype Event =
    | Open(id: Id, pushWrite: bool, pullRead: bool, numbered: bool)
    | Shutdown(id: Id, waits: set<Stage>)
    | CloseFile(id: Id, blocks: map<Id, set<Stage>>)
    | ProcessCloses(blocks: map<Id, set<Stage>>)

  function Blocks(blocks: map<Id, set<Stage>>, id: Id): set<Stage> {
    if id in blocks then blocks[id] else {}
  }

  // A socket whose stage moves on, perhaps past the point where the close request goes out.
  function Moved(w: World, id: Id, stage: Stage): World
    requires id in w.socks
  {
    var s := w.socks[id];
    w.(socks := w.socks[id := s.(stage := stage)],
       requests := if s.pushWrite && Rank(s.stage) < 2 <= Rank(stage) then w.requests + [id] else w.requests)
  }

  // The last stage: the handle goes back to the table, the memory is freed.
  function Released(w: World, id: Id): World
    requires id in w.socks
  {
    var h := w.socks[id].handle;
    w.(socks := w.socks - {id}, freed := w.freed + [id],
       free := if h.Some? then [h.value] + w.free else w.free,
       handles := if h.Some? then w.handles - {h.value} else w.handles)
  }

  function TryClose(w: World, id: Id, blocks: set<Stage>): World
    requires id in w.socks
  {
    var s := w.socks[id];
    var stage := StageAfter(s.stage, s.pushWrite, s.pullRead, blocks);
    var m := Moved(w, id, stage);
    if stage.Done? then Released(m, id) else m
  }

  // Resuming the parked closes in list order; those that finish leave the list.
  function Processed(w: World, list: seq<Id>, blocks: map<Id, set<Stage>>): (World, seq<Id>)
    decreases |list|
  {
    if list == [] then (w, [])
    else
      var m := if list[0] in w.socks then TryClose(w, list[0], Blocks(blocks, list[0])) else w;
      var (w', rest) := Processed(m, list[1..], blocks);
      (w', if list[0] in m.socks then [list[0]] + rest else rest)
  }

  function ProcessedAll(w: World, blocks: map<Id, set<Stage>>): World {
    var (w', list) := Processed(w, w.delayed, blocks);
    w'.(delayed := list)
  }

  // close_file was called; an unfinished socket goes to the front of the list.
  function Parked(w: World, id: Id): World {
    w.(closed := w.closed + {id}, delayed := if id in w.socks then [id] + w.delayed else w.delayed)
  }

  /** One call; a call the interface forbids (a second close of a file, a call on a freed socket, opening with no handle
      left) changes nothing. */
  function Next(w: World, e: Event): World {
    match e
    case Open(id, pw, pr, numbered) =>
      if id in w.ever || (numbered && w.free == []) then w
      else
        w.(socks := w.socks[id := Sock(NeedFlushDrb, pw, pr, if numbered then Some(w.free[0]) else None)],
           ever := w.ever + {id},
           free := if numbered then w.free[1..] else w.free,
           handles := if numbered then w.handles[w.free[0] := id] else w.handles)
    case Shutdown(id, blocks) =>
      if id in w.socks then Moved(w, id, StageShut(w.socks[id].stage, w.socks[id].pushWrite, blocks)) else w
    case ProcessCloses(blocks) => ProcessedAll(w, blocks)
    case CloseFile(id, blocks) =>
      if id !in w.socks || id in w.closed then w
      else
        var p := ProcessedAll(w, blocks);
        if id !in p.socks then p
        else
          Parked(TryClose(p, id, Blocks(blocks, id)), id)
  }

  function Run(events: seq<Event>): World {
    if events == [] then NewWorld() else Next(Run(events[..|events| - 1]), events[|events| - 1])
  }

  // ---------------------------------------------------------------- the invariant

  /** The handle table is a bijection between the handles in use and the numbered sockets, and the free list has every
      other handle once. */
  ghost predicate TableOk(w: World) {
    && NoDup(w.free)
    && (forall n :: n in w.free ==> n < MAX_SOCKNS && n !in w.handles)
    && (forall n :: 0 <= n < MAX_SOCKNS && n !in w.handles ==> n in w.free)
    && (forall n :: n in w.handles ==> n < MAX_SOCKNS && w.handles[n] in w.socks && w.socks[w.handles[n]].handle == Some(n))
    && (forall id :: id in w.socks && w.socks[id].handle.Some? ==>
          w.socks[id].handle.value in w.handles && w.handles[w.socks[id].handle.value] == id)
  }

  /** Close requests go out once, when the stage says so; memory is freed once. */
  ghost predicate HistoryOk(w: World) {
    && NoDup(w.requests) && NoDup(w.freed)
    && (forall id :: id in w.socks || id in w.freed || id in w.requests || id in w.closed ==> id in w.ever)
    && (forall id :: id in w.freed ==> id !in w.socks)
    && (forall id :: id in w.ever ==> id in w.socks || id in w.freed)
    && (forall id :: id in w.socks ==>
          Rank(w.socks[id].stage) < 4 && (id in w.requests <==> w.socks[id].pushWrite && Rank(w.socks[id].stage) >= 2))
  }

  ghost predicate ListOk(w: World) {
    && NoDup(w.delayed) && (forall id :: id in w.delayed <==> id in w.closed && id in w.socks)
    && (forall id :: id in w.freed ==> id in w.closed)
  }

  ghost predicate Inv(w: World) {
    TableOk(w) && HistoryOk(w) && ListOk(w)
  }

  // What trying to close one socket leaves alone.
  ghost predicate OnlyTouches(w: World, w': World, id: Id) {
    && w'.delayed == w.delayed && w'.closed == w.closed && w'.ever == w.ever
    && (forall x :: x != id ==> (x in w'.socks <==> x in w.socks) && (x in w.socks ==> w'.socks[x] == w.socks[x]))
    && (id in w'.socks ==> id in w.socks && Rank(w.socks[id].stage) <= Rank(w'.socks[id].stage))
    && (forall x :: x in w'.freed ==> x in w.freed || x == id)
  }

  lemma MovedKeeps(w: World, id: Id, stage: Stage)
    requires id in w.socks && TableOk(w) && HistoryOk(w) && Rank(w.socks[id].stage) <= Rank(stage) < 4
    ensures var m := Moved(w, id, stage); TableOk(m) && HistoryOk(m) && OnlyTouches(w, m, id)
  {
    if id !in w.requests {
      NoDupSnoc(w.requests, id);
    }
  }

  lemma ReleasedTable(w: World, id: Id)
    requires id in w.socks && TableOk(w)
    ensures TableOk(Released(w, id))
  {
    hide NoDup;
    var h := w.socks[id].handle;
    if h.Some? {
      assert w.handles[h.value] == id;
      NoDupSnoc(w.free, h.value);
    }
  }

  lemma ReleasedHistory(w: World, id: Id)
    requires id in w.socks && HistoryOk(w)
    ensures HistoryOk(Released(Moved(w, id, Done), id))
  {
    hide NoDup;
    if id !in w.requests {
      NoDupSnoc(w.requests, id);
    }
    NoDupSnoc(w.freed, id);
  }

  lemma ReleasedKeeps(w: World, id: Id, stage: Stage)
    requires id in w.socks && TableOk(w) && HistoryOk(w) && stage.Done?
    ensures var r := Released(Moved(w, id, stage), id);
            TableOk(r) && HistoryOk(r) && OnlyTouches(w, r, id) && id !in r.socks
  {
    ReleasedHistory(w, id);
    MovedTable(w, id, stage);
    hide TableOk, HistoryOk;
    ReleasedTable(Moved(w, id, stage), id);
  }

  lemma MovedTable(w: World, id: Id, stage: Stage)
    requires id in w.socks && TableOk(w)
    ensures TableOk(Moved(w, id, stage))
  {
    hide NoDup;
  }

  lemma TryCloseKeeps(w: World, id: Id, blocks: set<Stage>)
    requires id in w.socks && TableOk(w) && HistoryOk(w)
    ensures var t := TryClose(w, id, blocks); TableOk(t) && HistoryOk(t) && OnlyTouches(w, t, id)
  {
    var s := w.socks[id];
    var stage := StageAfter(s.stage, s.pushWrite, s.pullRead, blocks);
    hide TableOk, OnlyTouches, StageAfter;
    if stage.Done? {
      ReleasedKeeps(w, id, stage);
    } else {
      MovedKeeps(w, id, stage);
    }
  }

  // The members of the list that are still there, in list order.
  function StillThere(list: seq<Id>, socks: map<Id, Sock>): seq<Id> {
    if list == [] then []
    else (if list[0] in socks then [list[0]] else []) + StillThere(list[1..], socks)
  }

  // What a whole call leaves alone, for the sockets in `touched`.
  ghost predicate Progress(w: World, w': World, touched: set<Id>) {
    && w'.closed == w.closed && w'.ever == w.ever && w'.delayed == w.delayed
    && (forall x :: x !in touched ==> (x in w'.socks <==> x in w.socks) && (x in w.socks ==> w'.socks[x] == w.socks[x]))
    && (forall x :: x in w'.socks ==> x in w.socks && Rank(w.socks[x].stage) <= Rank(w'.socks[x].stage))
    && (forall x :: x in w'.freed ==> x in w.freed || x in touched)
  }

  ghost function Members(list: seq<Id>): set<Id> {
    set id | id in list
  }

  lemma ProgressNone(w: World)
    ensures Progress(w, w, {})
  {
  }

  /** Resuming the parked closes keeps exactly the unfinished ones, in their order. */
  lemma {:induction false} ProcessedKeeps(w: World, list: seq<Id>, blocks: map<Id, set<Stage>>)
    requires TableOk(w) && HistoryOk(w) && NoDup(list) && forall id :: id in list ==> id in w.socks
    ensures var (w', rest) := Processed(w, list, blocks);
            && TableOk(w') && HistoryOk(w') && Progress(w, w', Members(list))
            && rest == StillThere(list, w'.socks)
    decreases |list|
  {
    hide TableOk, HistoryOk, TryClose, Progress, OnlyTouches, NoDup;
    if list == [] {
      ProgressNone(w);
      assert Members(list) == {};
    } else {
      var first, rest := list[0], list[1..];
      var m := TryClose(w, first, Blocks(blocks, first));
      TryCloseKeeps(w, first, Blocks(blocks, first));
      NoDupRest(list);
      OthersStay(w, m, first, rest);
      ProcessedKeeps(m, rest, blocks);
      ProgressFrom(w, m, Processed(m, rest, blocks).0, first, Members(rest));
      assert Members(list) == Members(rest) + {first};
    }
  }

  lemma OthersStay(w: World, m: World, id: Id, rest: seq<Id>)
    requires OnlyTouches(w, m, id) && id !in rest && forall x :: x in rest ==> x in w.socks
    ensures forall x :: x in rest ==> x in m.socks
  {
  }

  lemma ProgressFrom(w: World, m: World, w': World, id: Id, rest: set<Id>)
    requires OnlyTouches(w, m, id) && Progress(m, w', rest) && id !in rest
    ensures Progress(w, w', rest + {id}) && (id in w'.socks <==> id in m.socks)
  {
  }

  lemma {:induction false} StillThereOk(list: seq<Id>, socks: map<Id, Sock>)
    requires NoDup(list)
    ensures NoDup(StillThere(list, socks)) && forall id :: id in StillThere(list, socks) <==> id in list && id in socks
    decreases |list|
  {
    if list != [] {
      StillThereOk(list[1..], socks);
      assert list == [list[0]] + list[1..];
      assert list[0] !in list[1..];
      if list[0] in socks {
        NoDupSnoc(StillThere(list[1..], socks), list[0]);
      }
    }
  }

  lemma ProcessedAllKeeps(w: World, blocks: map<Id, set<Stage>>)
    requires Inv(w)
    ensures var p := ProcessedAll(w, blocks);
            && Inv(p) && p.delayed == StillThere(w.delayed, p.socks)
            && Progress(w, p.(delayed := w.delayed), Members(w.delayed))
  {
    var (w', list) := Processed(w, w.delayed, blocks);
    ProcessedKeeps(w, w.delayed, blocks);
    StillThereOk(w.delayed, w'.socks);
    DelayedIrrelevant(w', list);
    hide TableOk, HistoryOk, Processed, StillThere;
  }

  lemma DelayedIrrelevant(w: World, list: seq<Id>)
    ensures TableOk(w.(delayed := list)) == TableOk(w) && HistoryOk(w.(delayed := list)) == HistoryOk(w)
  {
  }

  // ---------------------------------------------------------------- every call keeps it

  lemma OpenTable(w: World, id: Id, pushWrite: bool, pullRead: bool, numbered: bool)
    requires TableOk(w) && id !in w.socks && (numbered ==> w.free != [])
    ensures TableOk(w.(socks := w.socks[id := Sock(NeedFlushDrb, pushWrite, pullRead,
                                                   if numbered then Some(w.free[0]) else None)],
                       free := if numbered then w.free[1..] else w.free,
                       handles := if numbered then w.handles[w.free[0] := id] else w.handles))
  {
    hide NoDup;
    if numbered {
      NoDupRest(w.free);
      assert w.free[0] in w.free;
    }
  }

  lemma OpenKeeps(w: World, id: Id, pushWrite: bool, pullRead: bool, numbered: bool)
    requires Inv(w)
    ensures Inv(Next(w, Open(id, pushWrite, pullRead, numbered)))
  {
    hide TableOk, NoDup;
    if id !in w.ever && (numbered ==> w.free != []) {
      var w' := Next(w, Open(id, pushWrite, pullRead, numbered));
      OpenTable(w, id, pushWrite, pullRead, numbered);
      TableFrame(w'.(ever := w.ever), w');
    }
  }

  lemma TableFrame(w: World, w': World)
    requires w'.socks == w.socks && w'.free == w.free && w'.handles == w.handles
    ensures TableOk(w') == TableOk(w)
  {
  }

  // Recording that close_file was called, and parking the socket if it is not finished.
  lemma ParkKeeps(t: World, id: Id)
    requires TableOk(t) && HistoryOk(t) && id in t.ever && id !in t.closed
    requires NoDup(t.delayed) && forall x :: x in t.delayed <==> x in t.closed && x in t.socks
    requires forall x :: x in t.freed ==> x in t.closed || x == id
    ensures Inv(Parked(t, id))
  {
    var n := Parked(t, id);
    TableFrame(t, n);
    hide TableOk;
    if id in t.socks {
      NoDupSnoc(t.delayed, id);
    }
    assert HistoryOk(n);
  }

  // A socket not closed before is not parked by the closes that are resumed first.
  lemma NotParkedYet(w: World, id: Id, blocks: map<Id, set<Stage>>)
    requires Inv(w) && id in w.socks && id !in w.closed
    ensures var p := ProcessedAll(w, blocks); Inv(p) && id in p.socks && id !in p.closed && id !in p.delayed
  {
    hide TableOk, HistoryOk, ProcessedAll, StillThere, NoDup;
    ProcessedAllKeeps(w, blocks);
    assert id !in w.delayed;
  }

  lemma CloseKeeps(w: World, id: Id, blocks: map<Id, set<Stage>>)
    requires Inv(w) && id in w.socks && id !in w.closed
    ensures Inv(Next(w, CloseFile(id, blocks))) && id in ProcessedAll(w, blocks).socks
  {
    hide TableOk, TryClose, ProcessedAll, StillThere, NoDup;
    var p := ProcessedAll(w, blocks);
    ProcessedAllKeeps(w, blocks);
    assert id !in w.delayed;
    assert id in p.socks;
    TryCloseKeeps(p, id, Blocks(blocks, id));
    ParkKeeps(TryClose(p, id, Blocks(blocks, id)), id);
  }

  lemma NextKeeps(w: World, e: Event)
    requires Inv(w)
    ensures Inv(Next(w, e))
  {
    hide TableOk, ProcessedAll;
    match e
    case Open(id, pw, pr, numbered) => OpenKeeps(w, id, pw, pr, numbered);
    case Shutdown(id, waits) =>
      if id in w.socks {
        MovedKeeps(w, id, StageShut(w.socks[id].stage, w.socks[id].pushWrite, waits));
      }
    case ProcessCloses(blocks) => ProcessedAllKeeps(w, blocks);
    case CloseFile(id, blocks) =>
      if id in w.socks && id !in w.closed {
        CloseKeeps(w, id, blocks);
      }
  }

  lemma {:induction false} RunKeeps(events: seq<Event>)
    ensures Inv(Run(events))
    decreases |events|
  {
    if events == [] {
      forall n | 0 <= n < MAX_SOCKNS ensures n in NewWorld().free {
        assert NewWorld().free[n] == n;
      }
    } else {
      RunKeeps(events[..|events| - 1]);
      NextKeeps(Run(events[..|events| - 1]), events[|events| - 1]);
    }
  }

  // ---------------------------------------------------------------- what holds in every run

  /** However calls to open, shutdown, close and resume are mixed, and wherever they would block: a close request goes out
      at most once per socket, a socket is freed at most once and only after close_file, the parked list has each
      unfinished socket once, and nothing that was closed is lost. */
  lemma ClosedOnce(events: seq<Event>, id: Id)
    ensures var w := Run(events);
            && NoDup(w.requests) && NoDup(w.freed) && NoDup(w.delayed)
            && (id in w.delayed <==> id in w.closed && id in w.socks)
            && !(id in w.freed && id in w.socks)
            && (id in w.closed <==> id in w.delayed || id in w.freed)
  {
    RunKeeps(events);
  }

  /** In every run the handles in use and the numbered sockets correspond one to one, and every other handle is on the
      free list exactly once. */
  lemma HandlesMatch(events: seq<Event>, id: Id, n: nat)
    requires n < MAX_SOCKNS
    ensures var w := Run(events);
            && NoDup(w.free)
            && (n in w.free <==> n !in w.handles)
            && (n in w.handles && w.handles[n] == id <==> id in w.socks && w.socks[id].handle == Some(n))
  {
    RunKeeps(events);
  }

  /** No call ever takes a socket back to an earlier stage. */
  lemma StagesAdvance(w: World, e: Event, id: Id)
    requires Inv(w) && id in w.socks && id in Next(w, e).socks
    ensures Rank(w.socks[id].stage) <= Rank(Next(w, e).socks[id].stage)
  {
    hide TableOk, ProcessedAll, TryClose;
    match e
    case Open(_, _, _, _) =>
    case Shutdown(_, _) =>
    case ProcessCloses(blocks) => ProcessedAllKeeps(w, blocks);
    case CloseFile(c, blocks) =>
      if c in w.socks && c !in w.closed {
        ProcessedAllKeeps(w, blocks);
        CloseKeeps(w, c, blocks);
        TryCloseKeeps(ProcessedAll(w, blocks), c, Blocks(blocks, c));
      }
  }

  // ---------------------------------------------------------------- where a close stops

  // The stages that wait at all, by the kind of socket.
  predicate Applies(stage: Stage, pushWrite: bool, pullRead: bool) {
    match stage
    case NeedFlushDrb => true
    case NeedReqClose => pushWrite
    case NeedReqsWrite => pushWrite
    case NeedReqsRead => pullRead
    case _ => false
  }

  predicate Stops(stage: Stage, pushWrite: bool, pullRead: bool, blocks: set<Stage>) {
    stage in blocks && Applies(stage, pushWrite, pullRead)
  }

  /** A close goes on to the first stage, from the one reached on, that applies and would block, and is done exactly when
      there is none. */
  lemma StageAfterIs(stage: Stage, pushWrite: bool, pullRead: bool, blocks: set<Stage>)
    requires Rank(stage) <= 4
    ensures var r := StageAfter(stage, pushWrite, pullRead, blocks);
            && (r.Done? <==> forall x :: Rank(stage) <= Rank(x) ==> !Stops(x, pushWrite, pullRead, blocks))
            && (!r.Done? ==>
                  && Rank(stage) <= Rank(r) && Stops(r, pushWrite, pullRead, blocks)
                  && forall x :: Rank(stage) <= Rank(x) < Rank(r) ==> !Stops(x, pushWrite, pullRead, blocks))
    decreases 5 - Rank(stage)
  {
    hide Stops;
    StagesFrom(stage, pushWrite, pullRead, blocks);
    if Rank(stage) < 4 && !Stops(stage, pushWrite, pullRead, blocks) {
      StageAfterIs(Following(stage), pushWrite, pullRead, blocks);
    }
  }

  function Following(stage: Stage): (r: Stage)
    requires Rank(stage) < 4
    ensures Rank(r) == Rank(stage) + 1
  {
    match stage
    case NeedFlushDrb => NeedReqClose
    case NeedReqClose => NeedReqsWrite
    case NeedReqsWrite => NeedReqsRead
    case NeedReqsRead => FreeRes
  }

  lemma StagesFrom(stage: Stage, pushWrite: bool, pullRead: bool, blocks: set<Stage>)
    requires Rank(stage) <= 4
    ensures Stops(stage, pushWrite, pullRead, blocks) ==> StageAfter(stage, pushWrite, pullRead, blocks) == stage
    ensures !Stops(stage, pushWrite, pullRead, blocks) && Rank(stage) < 4 ==>
              StageAfter(stage, pushWrite, pullRead, blocks) == StageAfter(Following(stage), pushWrite, pullRead, blocks)
    ensures forall x, y: Stage :: Rank(x) == Rank(y) ==> x == y
    ensures forall x :: Rank(x) >= 4 ==> !Stops(x, pushWrite, pullRead, blocks)
  {
  }

  /** A shutdown likewise, up to the close request. */
  lemma StageShutIs(stage: Stage, pushWrite: bool, blocks: set<Stage>)
    ensures var r := StageShut(stage, pushWrite, blocks);
            if Rank(stage) >= 2 then r == stage
            else if Stops(stage, pushWrite, true, blocks) then r == stage
            else if stage.NeedFlushDrb? && Stops(NeedReqClose, pushWrite, true, blocks) then r == NeedReqClose
            else r == NeedReqsWrite
  {
  }

  /** close_file frees the socket at once exactly when no stage it has still to go through would block, and otherwise parks
      it, in front of the others, at the first that would. */
  lemma CloseFinishesIff(w: World, id: Id, blocks: map<Id, set<Stage>>)
    requires Inv(w) && id in w.socks && id !in w.closed
    ensures var w', s, b := Next(w, CloseFile(id, blocks)), w.socks[id], Blocks(blocks, id);
            && (id !in w'.socks <==> forall x :: Rank(s.stage) <= Rank(x) ==> !Stops(x, s.pushWrite, s.pullRead, b))
            && (id in w'.socks ==>
                  && w'.delayed != [] && w'.delayed[0] == id && Stops(w'.socks[id].stage, s.pushWrite, s.pullRead, b)
                  && forall x :: Rank(s.stage) <= Rank(x) < Rank(w'.socks[id].stage) ==>
                       !Stops(x, s.pushWrite, s.pullRead, b))
  {
    hide TableOk, HistoryOk, ProcessedAll, StillThere, NoDup, StageAfter, Stops;
    var p := ProcessedAll(w, blocks);
    NotParkedYet(w, id, blocks);
    ProcessedAllKeeps(w, blocks);
    assert id !in w.delayed && p.socks[id] == w.socks[id];
    LiveStage(w, id);
    StageAfterIs(w.socks[id].stage, w.socks[id].pushWrite, w.socks[id].pullRead, Blocks(blocks, id));
  }

  lemma LiveStage(w: World, id: Id)
    requires HistoryOk(w) && id in w.socks
    ensures Rank(w.socks[id].stage) < 4
  {
  }

  lemma Unblocked(stage: Stage, pushWrite: bool, pullRead: bool)
    ensures StageAfter(stage, pushWrite, pullRead, {}).Done?
    decreases 5 - Rank(stage)
  {
  }

  lemma {:induction false} NoneLeft(w: World, list: seq<Id>)
    requires TableOk(w) && HistoryOk(w) && NoDup(list) && forall id :: id in list ==> id in w.socks
    ensures Processed(w, list, map[]).1 == []
    decreases |list|
  {
    hide TableOk, HistoryOk, StageAfter;
    if list != [] {
      var s := w.socks[list[0]];
      Unblocked(s.stage, s.pushWrite, s.pullRead);
      TryCloseKeeps(w, list[0], {});
      assert list[0] !in list[1..];
      NoneLeft(TryClose(w, list[0], {}), list[1..]);
    }
  }

  /** Forcing the parked closes to wait finishes them all. */
  lemma ForceFinishes(w: World)
    requires Inv(w)
    ensures var p := ProcessedAll(w, map[]); p.delayed == [] && forall id :: id in w.closed ==> id !in p.socks
  {
    NoneLeft(w, w.delayed);
    ProcessedAllKeeps(w, map[]);
  }
}
