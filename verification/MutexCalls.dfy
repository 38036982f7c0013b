/** What the calls of the mutex come to: a thread that is made the owner returns from its lock whatever the others do, and
    each call run without interference has its effect. */
module MutexCalls {
  import opened Mutex

  // ---------------------------------------------------------------- steps of one thread

  // A thread seen alone; `quiet` says that none of its steps changed a history variable.
  datatype View = View(mem: Shared, local: Local, quiet: bool)

  function Next(v: View, t: nat, call: Call): View {
    var o := Act(v.mem, t, v.local.pc, v.local.depth, call);
    View(o.mem, Local(o.pc, o.depth),
         v.quiet && o.depth < WORD && !(v.local.pc.UnlockStore? && v.local.depth == 0)
           && !RemovesItself(v.mem, t, v.local.pc))
  }

  /** n successive steps of thread t. */
  function Solo(v: View, t: nat, call: Call, n: nat): View
    decreases n
  {
    if n == 0 then v else Solo(Next(v, t, call), t, call, n - 1)
  }

  lemma {:induction false} SoloWasQuiet(v: View, t: nat, call: Call, n: nat)
    requires Solo(v, t, call, n).quiet
    ensures v.quiet
    decreases n
  {
    if n > 0 {
      SoloWasQuiet(Next(v, t, call), t, call, n - 1);
    }
  }

  lemma RunSnoc(s: State, sch: seq<Choice>, c: Choice)
    ensures Run(s, sch + [c]) == Step(Run(s, sch), c.thread, c.call)
  {
    hide Step;
    assert (sch + [c])[..|sch|] == sch;
  }

  lemma {:induction false} SoloSplit(v: View, t: nat, call: Call, a: nat, b: nat)
    ensures Solo(v, t, call, a + b) == Solo(Solo(v, t, call, a), t, call, b)
    decreases a
  {
    hide Next;
    if a > 0 {
      SoloSplit(Next(v, t, call), t, call, a - 1, b);
    }
  }

  function Turns(t: nat, call: Call, n: nat): seq<Choice> {
    seq(n, _ => Choice(t, call))
  }

  lemma {:induction false} RunConcat(s: State, a: seq<Choice>, b: seq<Choice>)
    ensures Run(s, a + b) == Run(Run(s, a), b)
    decreases |b|
  {
    hide Step;
    if b == [] {
      assert a + b == a;
    } else {
      assert (a + b)[..|a + b| - 1] == a + b[..|b| - 1];
      RunConcat(s, a, b[..|b| - 1]);
    }
  }

  // What a thread does by itself is what the schedule that gives it all the turns does.
  lemma {:induction false} SoloRuns(s: State, t: nat, call: Call, n: nat, v: View)
    requires t in s.threads && Solo(View(s.mem, s.threads[t], true), t, call, n) == v && v.quiet && !s.overflowed
    ensures Run(s, Turns(t, call, n)) == s.(mem := v.mem, threads := s.threads[t := v.local])
    decreases n
  {
    hide Act, RemovesItself, Popping, Run;
    if n == 0 {
      RunNone(s, Turns(t, call, 0));
      assert s.threads == s.threads[t := v.local];
    } else {
      var v1 := Next(View(s.mem, s.threads[t], true), t, call);
      SoloWasQuiet(v1, t, call, n - 1);
      var s1 := Step(s, t, call);
      assert s1 == s.(mem := v1.mem, threads := s.threads[t := v1.local]);
      SoloRuns(s1, t, call, n - 1, v);
      assert Turns(t, call, n) == [Choice(t, call)] + Turns(t, call, n - 1);
      RunConcat(s, [Choice(t, call)], Turns(t, call, n - 1));
      RunSnoc(s, [], Choice(t, call));
      RunNone(s, []);
      assert [] + [Choice(t, call)] == [Choice(t, call)];
      assert s.threads[t := v1.local][t := v.local] == s.threads[t := v.local];
    }
  }

  lemma RunNone(s: State, sch: seq<Choice>)
    requires sch == []
    ensures Run(s, sch) == s
  {
  }

  // ---------------------------------------------------------------- the new owner returns

  /** How many steps a waiter that has been made the owner still takes until its lock returns. */
  function StepsLeft(p: Pc): nat {
    match p
    case ParkHead => 6
    case ParkOwner(_) => 5
    case ParkNext => 6
    case ParkCas(_) => 5
    case Wait => 4
    case LockOwned => 3
    case LockBumpLoad => 2
    case LockBumpStore(_) => 1
    case _ => 0
  }

  function CountOf(schedule: seq<Choice>, t: nat): nat {
    if schedule == [] then 0
    else CountOf(schedule[..|schedule| - 1], t) + if schedule[|schedule| - 1].thread == t then 1 else 0
  }

  // t owns the mutex, with `left` steps to go before its lock returns, or none and the lock has returned.
  predicate Returning(s: State, t: nat, left: nat) {
    && t in s.threads && s.mem.owner == t && left == StepsLeft(s.threads[t].pc)
    && if left > 0 then s.threads[t].depth == s.mem.count == 0
       else s.threads[t] == Local(Idle, 1) && s.mem.count == 1
  }

  // The owner's own step on the way out of the lock.
  lemma OwnAct(m: Shared, t: nat, p: Pc, call: Call)
    requires t != 0 && m.owner == t && m.count == 0 && StepsLeft(p) > 0 && (p.ParkCas? ==> m.head != t)
    requires p.LockBumpStore? ==> p.loaded == 0
    ensures var o := Act(m, t, p, 0, call);
            && StepsLeft(o.pc) == StepsLeft(p) - 1
            && (if StepsLeft(p) > 1 then o == Outcome(m, o.pc, 0) else o == Outcome(m.(count := 1), Idle, 1))
  {
  }

  // With a queue that it is not in.
  lemma OwnStep(s: State, q: seq<nat>, t: nat, call: Call, left: nat)
    requires QueueInv(s, q) && Returning(s, t, left) && left > 0
    ensures Returning(Step(s, t, call), t, left - 1)
  {
    hide Act, Chain;
    var l := s.threads[t];
    assert Placed(s.mem, q, Heir(s), t, l.pc, l.depth) && Knows(s.mem, t, l.pc, l.depth);
    assert 0 !in s.threads && t !in q;
    ChainFront(s.mem.next, s.mem.head, q);
    hide Placed, Knows, QueueInv;
    OwnAct(s.mem, t, l.pc, call);
  }

  // Another thread's step does not take the mutex away.
  lemma OtherStep(s: State, t: nat, u: nat, call: Call, left: nat)
    requires OwnerInv(s) && Returning(s, t, left) && u != t && !Step(s, u, call).misused && !Step(s, u, call).overflowed
    ensures Returning(Step(s, u, call), t, left)
  {
    if u in s.threads {
      var l := s.threads[u];
      assert Knows(s.mem, u, l.pc, l.depth) && 0 !in s.threads;
      ActKeepsOwner(s.mem, u, l.pc, l.depth, call);
      hide Act, Knows, OwnerInv;
    }
  }

  lemma NoTurns(more: seq<Choice>, t: nat)
    requires more == []
    ensures CountOf(more, t) == 0
  {
  }

  lemma LastTurn(s: State, schedule: seq<Choice>, more: seq<Choice>, t: nat)
    requires more != []
    ensures var n := |more| - 1;
            var a, b, c := Run(s, schedule + more[..n]), Run(s, schedule + more), more[n];
            && b == Step(a, c.thread, c.call)
            && CountOf(more, t) == CountOf(more[..n], t) + (if c.thread == t then 1 else 0)
            && (a.misused ==> b.misused) && (a.overflowed ==> b.overflowed) && (a.raced ==> b.raced)
  {
    hide Act, RemovesItself, Popping;
    assert (schedule + more)[..|schedule + more| - 1] == schedule + more[..|more| - 1];
  }

  lemma {:induction false} StillReturning(ids: set<Tid>, schedule: seq<Choice>, more: seq<Choice>, t: nat, left: nat)
    requires var s := Run(Init(ids), schedule + more); !s.raced && !s.overflowed
    requires Returning(Run(Init(ids), schedule), t, left) && CountOf(more, t) <= left
    ensures Returning(Run(Init(ids), schedule + more), t, left - CountOf(more, t))
    decreases |more|
  {
    hide Returning, QueueInv, Step, Run, CountOf, Init;
    if more == [] {
      assert schedule + more == schedule;
      NoTurns(more, t);
    } else {
      var n := |more| - 1;
      var before, c := schedule + more[..n], more[n];
      LastTurn(Init(ids), schedule, more, t);
      StillReturning(ids, schedule, more[..n], t, left);
      var q := RunKeepsQueue(ids, before);
      var q' := RunKeepsQueue(ids, schedule + more);
      QueueOwner(Run(Init(ids), before), q);
      var s := Run(Init(ids), before);
      if c.thread == t {
        OwnStep(s, q, t, c.call, left - CountOf(more[..n], t));
      } else {
        OtherStep(s, t, c.thread, c.call, left - CountOf(more[..n], t));
      }
    }
  }

  lemma QueueOwner(s: State, q: seq<nat>)
    requires QueueInv(s, q)
    ensures OwnerInv(s)
  {
  }

  /** A waiter that an unlock has made the owner comes back from its lock with the mutex: after every continuation of the
      schedule in which it takes the steps it has left, whatever the other threads do in between, it is outside all
      calls, owns the mutex, and has locked it once. */
  lemma NewOwnerReturns(ids: set<Tid>, schedule: seq<Choice>, more: seq<Choice>, t: nat)
    requires var s := Run(Init(ids), schedule); t in s.threads && s.mem.owner == t && Parked(s.threads[t].pc)
    requires CountOf(more, t) == StepsLeft(Run(Init(ids), schedule).threads[t].pc)
    requires var s := Run(Init(ids), schedule + more); !s.raced && !s.overflowed
    ensures var s := Run(Init(ids), schedule + more);
            t in s.threads && s.threads[t] == Local(Idle, 1) && s.mem.owner == t && s.mem.count == 1
    ensures 4 <= CountOf(more, t) <= 6
  {
    var s := Run(Init(ids), schedule);
    assert (schedule + more)[..|schedule|] == schedule;
    HistoryOnlyGrows(Init(ids), schedule + more, |schedule|);
    var q := RunKeepsQueue(ids, schedule);
    assert Placed(s.mem, q, Heir(s), t, s.threads[t].pc, s.threads[t].depth);
    assert Knows(s.mem, t, s.threads[t].pc, s.threads[t].depth);
    hide Placed, Knows, QueueInv;
    StillReturning(ids, schedule, more, t, StepsLeft(s.threads[t].pc));
  }

  // On the way out from the wait no link is looked at, so nothing need be known about the queue.
  lemma AwakeStep(s: State, t: nat, call: Call, left: nat)
    requires OwnerInv(s) && Returning(s, t, left) && 0 < left <= 4
    ensures Returning(Step(s, t, call), t, left - 1)
  {
    hide Act;
    var l := s.threads[t];
    assert Knows(s.mem, t, l.pc, l.depth) && 0 !in s.threads;
    OwnAct(s.mem, t, l.pc, call);
  }

  lemma {:induction false} StillAwake(ids: set<Tid>, schedule: seq<Choice>, more: seq<Choice>, t: nat, left: nat)
    requires var s := Run(Init(ids), schedule + more); !s.misused && !s.overflowed
    requires Returning(Run(Init(ids), schedule), t, left) && CountOf(more, t) <= left <= 4
    ensures Returning(Run(Init(ids), schedule + more), t, left - CountOf(more, t))
    decreases |more|
  {
    hide Returning, OwnerInv, Step, Run, CountOf, Init;
    if more == [] {
      assert schedule + more == schedule;
      NoTurns(more, t);
    } else {
      var n := |more| - 1;
      var before, c := schedule + more[..n], more[n];
      LastTurn(Init(ids), schedule, more, t);
      StillAwake(ids, schedule, more[..n], t, left);
      RunKeepsOwner(ids, before);
      var s := Run(Init(ids), before);
      if c.thread == t {
        AwakeStep(s, t, c.call, left - CountOf(more[..n], t));
      } else {
        OtherStep(s, t, c.thread, c.call, left - CountOf(more[..n], t));
      }
    }
  }

  /** The same from the wait loop on, in every run, raced or not: four steps of the thread after owner_id names it, and any
      steps of the others in between. */
  lemma WokenReturns(ids: set<Tid>, schedule: seq<Choice>, more: seq<Choice>, t: nat)
    requires var s := Run(Init(ids), schedule);
             t in s.threads && s.mem.owner == t && s.threads[t] == Local(Wait, 0) && CountOf(more, t) == 4
    requires var s := Run(Init(ids), schedule + more); !s.misused && !s.overflowed
    ensures var s := Run(Init(ids), schedule + more);
            t in s.threads && s.threads[t] == Local(Idle, 1) && s.mem.owner == t && s.mem.count == 1
  {
    var s := Run(Init(ids), schedule);
    assert (schedule + more)[..|schedule|] == schedule;
    HistoryOnlyGrows(Init(ids), schedule + more, |schedule|);
    RunKeepsOwner(ids, schedule);
    assert Knows(s.mem, t, s.threads[t].pc, s.threads[t].depth);
    hide Knows, OwnerInv;
    StillAwake(ids, schedule, more, t, 4);
  }

  // ---------------------------------------------------------------- under interference

  /** trylock fails exactly when it sees an owner, at its test or at its swap, and then has changed nothing. */
  lemma TryFailsIff(m: Shared, t: nat, p: Pc, d: nat, call: Call)
    requires p.TryFree? || p.TryClaim?
    ensures var o := Act(m, t, p, d, call);
            && (o.pc == Busy(p.inLock) <==> m.owner != 0)
            && (m.owner != 0 ==> o.mem == m && o.depth == d)
  {
  }

  // Inside a call of the given kind.
  predicate Inside(p: Pc, call: Call) {
    match call
    case Trylock => Trying(p) && !p.inLock
    case Lock =>
      || (Trying(p) && p.inLock)
      || p.LockOwned? || p.LockBumpLoad? || p.LockBumpStore? || Enqueuing(p) || Parked(p)
    case Unlock => p.UnlockCheck? || p.UnlockLoad? || p.UnlockStore? || Leaving(p)
  }

  // One step inside a lock or a trylock stays inside it, or ends it as that call ends.
  lemma StepInside(m: Shared, t: nat, p: Pc, d: nat, call: Call, other: Call)
    requires Acting(p) ==> m.owner == t
    requires Inside(p, call) && !call.Unlock?
    ensures var o := Act(m, t, p, d, other);
            || (Inside(o.pc, call) && o.depth == d)
            || (o.pc.Idle? && o.depth == d + 1 && m.owner == t == o.mem.owner)
            || (call.Trylock? && o.pc.Idle? && o.depth == d && o.mem == m && m.owner != 0)
  {
  }

  lemma IdleOutside(call: Call)
    ensures !Inside(Idle, call)
  {
  }

  /** How calls end, in every schedule.  A lock ends only by holding the mutex, nested one deeper than before.  A trylock
      does too, or it has just seen an owner and changes nothing. */
  lemma LockEndsHolding(ids: set<Tid>, schedule: seq<Choice>, t: nat, other: Call)
    requires var s := Run(Init(ids), schedule); !s.misused && !s.overflowed && t in s.threads
    requires var s := Run(Init(ids), schedule); Inside(s.threads[t].pc, Lock) || Inside(s.threads[t].pc, Trylock)
    ensures var s := Run(Init(ids), schedule);
            var s', call := Step(s, t, other), if Inside(s.threads[t].pc, Lock) then Lock else Trylock;
            && (Inside(s'.threads[t].pc, call) || s'.threads[t].pc.Idle?)
            && (s'.threads[t].pc.Idle? ==>
                  || (s'.mem.owner == t && s'.threads[t].depth == s.threads[t].depth + 1)
                  || (call.Trylock? && s'.mem == s.mem && s.mem.owner != 0
                      && s'.threads[t] == Local(Idle, s.threads[t].depth)))
  {
    hide Run, Init, Act, Inside;
    RunKeepsOwner(ids, schedule);
    var s := Run(Init(ids), schedule);
    var l := s.threads[t];
    assert Knows(s.mem, t, l.pc, l.depth) && 0 !in s.threads;
    hide Knows, OwnerInv, Acting;
    IdleOutside(if Inside(l.pc, Lock) then Lock else Trylock);
    StepInside(s.mem, t, l.pc, l.depth, if Inside(l.pc, Lock) then Lock else Trylock, other);
  }

  /** An unlock leaves the mutex without an owner only if it has found the queue empty. */
  lemma FreedOnlyWhenEmpty(ids: set<Tid>, schedule: seq<Choice>, t: nat, call: Call)
    requires var s := Run(Init(ids), schedule); !s.raced && !s.overflowed && t in s.threads
    requires var s := Run(Init(ids), schedule);
             s.threads[t].pc != Release(0) && Step(s, t, call).threads[t].pc == Release(0)
    ensures Run(Init(ids), schedule).mem.head == 0
  {
    hide Run, Init, QueueInv, Act;
    var s := Run(Init(ids), schedule);
    var q := RunKeepsQueue(ids, schedule);
    GivesUp(s.mem, t, s.threads[t].pc, s.threads[t].depth, call);
    if s.threads[t].pc.PopNotify? {
      HeirNamed(s, q, t);
    }
  }

  lemma GivesUp(m: Shared, t: nat, p: Pc, d: nat, call: Call)
    requires p != Release(0) && Act(m, t, p, d, call).pc == Release(0)
    ensures (p.PopRead? && m.head == 0) || (p.PopNotify? && Get(m.notify, p.hd) == 0)
  {
  }

  lemma HeirNamed(s: State, q: seq<nat>, t: nat)
    requires QueueInv(s, q) && t in s.threads && s.threads[t].pc.PopNotify?
    ensures Get(s.mem.notify, s.threads[t].pc.hd) != 0
  {
    var l := s.threads[t];
    assert Knows(s.mem, t, l.pc, l.depth) && Placed(s.mem, q, Heir(s), t, l.pc, l.depth);
    var h := l.pc.hd;
    assert h == Heir(s) && h in s.threads;
    assert Placed(s.mem, q, Heir(s), h, s.threads[h].pc, s.threads[h].depth);
  }

  // ---------------------------------------------------------------- calls without interference

  // Deciding to queue on a locked mutex.
  lemma SoloSeeLocked(m: Shared, t: nat, d: nat)
    requires m.owner != 0 && m.owner != t && d < WORD
    ensures Solo(View(m, Local(Idle, d), true), t, Lock, 3) ==
            View(m, Local(PushNotify, d), true)
  {
  }

  // Naming itself in its link.
  lemma SoloNotify(m: Shared, t: nat, d: nat)
    requires d < WORD
    ensures Solo(View(m, Local(PushNotify, d), true), t, Lock, 1) ==
            View(m.(notify := m.notify[t := t]), Local(PushRead, d), true)
  {
  }

  // Pushing the link.
  lemma SoloPush(m: Shared, t: nat, d: nat)
    requires d < WORD
    ensures Solo(View(m, Local(PushRead, d), true), t, Lock, 3) ==
            View(m.(next := m.next[t := m.head], head := t), Local(ParkHead, d), true)
  {
  }

  // Going to sleep in the queue of a locked mutex.
  lemma SoloSleep(m: Shared, t: nat, d: nat)
    requires m.owner != 0 && d < WORD
    ensures Solo(View(m, Local(ParkHead, d), true), t, Lock, 2) ==
            View(m, Local(Wait, d), true)
  {
  }

  // Unlocking up to the store of owner_id when nobody waits.
  lemma SoloUnlock(m: Shared, t: nat, d: nat)
    requires 0 < d < WORD && m.owner == t && m.count == 1 && m.head == 0
    ensures Solo(View(m, Local(Idle, d), true), t, Unlock, 5) ==
            View(m.(count := 0), Local(Release(0), d - 1), true)
  {
  }

  // Unlocking up to the swap of the head when somebody waits.
  lemma SoloPop(m: Shared, t: nat, d: nat)
    requires 0 < d < WORD && m.owner == t && m.count == 1 && m.head != 0
    ensures Solo(View(m, Local(Idle, d), true), t, Unlock, 6) ==
            View(m.(count := 0), Local(PopCas(m.head, Get(m.next, m.head)), d - 1), true)
  {
  }

  /** trylock: a thread that owns the mutex nests, a free mutex is taken, and otherwise nothing changes. */
  lemma TrylockAlone(m: Shared, t: nat, d: nat)
    requires t != 0 && d + 1 < WORD
    ensures var v := View(m, Local(Idle, d), true);
            if m.owner == t then Solo(v, t, Trylock, 4) == View(m.(count := (m.count + 1) % WORD), Local(Idle, d + 1), true)
            else if m.owner == 0 then Solo(v, t, Trylock, 5) == View(m.(owner := t, count := 1), Local(Idle, d + 1), true)
            else Solo(v, t, Trylock, 3) == v
  {
    var v := View(m, Local(Idle, d), true);
    SoloSplit(v, t, Trylock, 2, 3);
    if m.owner == t {
      SoloSplit(v, t, Trylock, 2, 2);
    }
  }

  /** lock: the same, but on a mutex that another thread owns the caller queues itself in front and sleeps. */
  lemma LockAlone(m: Shared, t: nat, d: nat)
    requires t != 0 && d + 1 < WORD
    ensures var v := View(m, Local(Idle, d), true);
            if m.owner == t then Solo(v, t, Lock, 4) == View(m.(count := (m.count + 1) % WORD), Local(Idle, d + 1), true)
            else if m.owner == 0 then Solo(v, t, Lock, 7) == View(m.(owner := t, count := 1), Local(Idle, d + 1), true)
            else
              Solo(v, t, Lock, 9) ==
              View(m.(notify := m.notify[t := t], next := m.next[t := m.head], head := t), Local(Wait, d), true)
  {
    var v := View(m, Local(Idle, d), true);
    if m.owner == t {
      SoloSplit(v, t, Lock, 2, 2);
    } else if m.owner == 0 {
      SoloSplit(v, t, Lock, 3, 4);
    } else {
      QueueAlone(m, t, d);
    }
  }

  lemma QueueAlone(m: Shared, t: nat, d: nat)
    requires t != 0 && d < WORD && m.owner != 0 && m.owner != t
    ensures Solo(View(m, Local(Idle, d), true), t, Lock, 9) ==
            View(m.(notify := m.notify[t := t], next := m.next[t := m.head], head := t), Local(Wait, d), true)
  {
    hide Solo, Act, Next;
    var v, m1 := View(m, Local(Idle, d), true), m.(notify := m.notify[t := t]);
    var m2 := m1.(next := m1.next[t := m1.head], head := t);
    SoloSeeLocked(m, t, d);
    SoloNotify(m, t, d);
    SoloPush(m1, t, d);
    SoloSleep(m2, t, d);
    SoloSplit(v, t, Lock, 3, 6);
    SoloSplit(View(m, Local(PushNotify, d), true), t, Lock, 1, 5);
    SoloSplit(View(m1, Local(PushRead, d), true), t, Lock, 3, 2);
  }

  /** unlock: the assertion stops a thread that does not own the mutex; a nested lock is given back; and the last one hands
      the mutex to the thread named by the link at the front, which is taken out, or to nobody. */
  lemma UnlockAlone(m: Shared, t: nat, d: nat)
    requires 0 < d < WORD && m.count < WORD
    ensures var v := View(m, Local(Idle, d), true);
            if m.owner != t then Solo(v, t, Unlock, 2) == View(m, Local(Aborted, d), true)
            else if m.count != 1 then
              Solo(v, t, Unlock, 4) == View(m.(count := (m.count + WORD - 1) % WORD), Local(Idle, d - 1), true)
            else if m.head == 0 then
              Solo(v, t, Unlock, 6) == View(m.(count := 0, owner := 0), Local(Idle, d - 1), true)
            else
              Solo(v, t, Unlock, 9) ==
              View(m.(count := 0, head := Get(m.next, m.head), owner := Get(m.notify, m.head)), Local(Idle, d - 1), true)
  {
    var v := View(m, Local(Idle, d), true);
    if m.owner == t && m.count != 1 {
      SoloSplit(v, t, Unlock, 2, 2);
    } else if m.owner == t && m.count == 1 {
      LastUnlock(m, t, d);
    }
  }

  lemma LastUnlock(m: Shared, t: nat, d: nat)
    requires 0 < d < WORD && m.owner == t && m.count == 1
    ensures var v := View(m, Local(Idle, d), true);
            if m.head == 0 then Solo(v, t, Unlock, 6) == View(m.(count := 0, owner := 0), Local(Idle, d - 1), true)
            else Solo(v, t, Unlock, 9) ==
                 View(m.(count := 0, head := Get(m.next, m.head), owner := Get(m.notify, m.head)), Local(Idle, d - 1), true)
  {
    hide Solo, Act, Next;
    var v, m1 := View(m, Local(Idle, d), true), m.(count := 0);
    if m.head == 0 {
      SoloUnlock(m, t, d);
      SoloRelease(m1, t, d - 1, 0);
      SoloSplit(v, t, Unlock, 5, 1);
    } else {
      var h, nx := m.head, Get(m.next, m.head);
      SoloPop(m, t, d);
      SoloHandOver(m1, t, d - 1, nx);
      SoloSplit(v, t, Unlock, 6, 3);
    }
  }

  lemma SoloRelease(m: Shared, t: nat, d: nat, heir: nat)
    requires d < WORD
    ensures Solo(View(m, Local(Release(heir), d), true), t, Unlock, 1) == View(m.(owner := heir), Local(Idle, d), true)
  {
  }

  // The front is swapped out and the mutex given to the thread it names.
  lemma SoloHandOver(m: Shared, t: nat, d: nat, after: nat)
    requires d < WORD
    ensures Solo(View(m, Local(PopCas(m.head, after), d), true), t, Unlock, 3) ==
            View(m.(head := after, owner := Get(m.notify, m.head)), Local(Idle, d), true)
  {
  }

  /** In the schedule itself: a trylock that gets all the turns leaves every other thread and the history alone. */
  lemma TrylockRuns(s: State, t: nat)
    requires t in s.threads && t != 0 && s.threads[t].pc.Idle? && s.threads[t].depth + 1 < WORD && !s.overflowed
    ensures var m, d := s.mem, s.threads[t].depth;
            if m.owner == t then
              Run(s, Turns(t, Trylock, 4)) ==
              s.(mem := m.(count := (m.count + 1) % WORD), threads := s.threads[t := Local(Idle, d + 1)])
            else if m.owner == 0 then
              Run(s, Turns(t, Trylock, 5)) ==
              s.(mem := m.(owner := t, count := 1), threads := s.threads[t := Local(Idle, d + 1)])
            else Run(s, Turns(t, Trylock, 3)) == s
  {
    hide *;
    var m, d := s.mem, s.threads[t].depth;
    TrylockAlone(m, t, d);
    if m.owner == t {
      SoloRuns(s, t, Trylock, 4, View(m.(count := (m.count + 1) % WORD), Local(Idle, d + 1), true));
    } else if m.owner == 0 {
      SoloRuns(s, t, Trylock, 5, View(m.(owner := t, count := 1), Local(Idle, d + 1), true));
    } else {
      SoloRuns(s, t, Trylock, 3, View(m, Local(Idle, d), true));
      assert s.threads[t := Local(Idle, d)] == s.threads;
    }
  }
}
