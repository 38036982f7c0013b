/** A schedule of the mutex in which a self-removal from the waiter queue races with a pop and a sleeping
    waiter is lost.  It shows that the condition on the queue theorem of module Mutex is needed. */
module MutexRace {
  import opened Mutex
  import opened MutexCalls

  // Three threads in memory m, and whether a self-removal has raced.
  function Three(m: Shared, a: Local, b: Local, c: Local, raced: bool): State {
    State(m, map[1 := a, 2 := b, 3 := c], false, false, raced)
  }

  // In a run of three threads, t takes n steps and the others stand still.
  lemma Hop(sch: seq<Choice>, t: nat, call: Call, n: nat, m: Shared, a: Local, b: Local, c: Local, raced: bool,
            m': Shared, l: Local)
    returns (sch': seq<Choice>)
    requires t in {1, 2, 3} && Run(Init({1, 2, 3}), sch) == Three(m, a, b, c, raced)
    requires Solo(View(m, if t == 1 then a else if t == 2 then b else c, true), t, call, n) == View(m', l, true)
    ensures Run(Init({1, 2, 3}), sch') ==
            Three(m', if t == 1 then l else a, if t == 2 then l else b, if t == 3 then l else c, raced)
  {
    hide Run, Solo;
    sch' := sch + Turns(t, call, n);
    RunConcat(Init({1, 2, 3}), sch, Turns(t, call, n));
    SoloRuns(Three(m, a, b, c, raced), t, call, n, View(m', l, true));
  }

  // Locking a free mutex.
  lemma SoloLock(m: Shared, t: nat)
    requires t != 0 && m.owner == 0
    ensures Solo(View(m, Local(Idle, 0), true), t, Lock, 7) ==
            View(m.(owner := t, count := 1), Local(Idle, 1), true)
  {
  }

  // Freeing the mutex and locking it again up to the claim.
  lemma SoloReclaim(m: Shared, t: nat)
    requires t != 0
    ensures Solo(View(m, Local(Release(0), 0), true), t, Lock, 6) ==
            View(m.(owner := 0), Local(TryClaim(true), 0), true)
  {
    var m', v := m.(owner := 0), View(m, Local(Release(0), 0), true);
    assert Next(v, t, Lock) == View(m', Local(Idle, 0), true);
    SoloSplit(v, t, Lock, 1, 5);
    SoloTry(m', t);
  }

  // From outside to the claim of a free mutex.
  lemma SoloTry(m: Shared, t: nat)
    requires t != 0 && m.owner == 0
    ensures Solo(View(m, Local(Idle, 0), true), t, Lock, 5) == View(m, Local(TryClaim(true), 0), true)
  {
  }

  // The claim succeeds.
  lemma SoloClaim(m: Shared, t: nat)
    requires m.owner == 0
    ensures Solo(View(m, Local(TryClaim(true), 0), true), t, Lock, 2) ==
            View(m.(owner := t, count := 1), Local(Idle, 1), true)
  {
  }

  // Deciding to queue again after a self-removal, up to the push.
  lemma SoloQueueAgain(m: Shared, t: nat)
    requires m.owner != 0 && m.owner != t
    ensures Solo(View(m, Local(LockOwned, 0), true), t, Lock, 3) ==
            View(m.(notify := m.notify[t := t]), Local(PushRead, 0), true)
  {
  }

  // Starting to leave the queue of a free mutex.
  lemma SoloLeave(m: Shared, t: nat)
    requires m.owner == 0 && m.head == t
    ensures Solo(View(m, Local(ParkHead, 0), true), t, Lock, 2) ==
            View(m, Local(ParkNext, 0), true)
  {
  }

  // Reading its own link before the self-removal.
  lemma SoloReadNext(m: Shared, t: nat)
    ensures Solo(View(m, Local(ParkNext, 0), true), t, Lock, 1) ==
            View(m, Local(ParkCas(Get(m.next, t)), 0), true)
  {
  }

  // The pop takes out the head it read.
  lemma SoloSwapHead(m: Shared, t: nat, after: nat)
    ensures Solo(View(m, Local(PopCas(m.head, after), 0), true), t, Lock, 1) ==
            View(m.(head := after), Local(PopNotify(m.head), 0), true)
  {
  }

  lemma Start() returns (sch: seq<Choice>)
    ensures Run(Init({1, 2, 3}), sch) ==
            Three(Shared(0, 0, 0, map[], map[]), Local(Idle, 0), Local(Idle, 0), Local(Idle, 0), false)
  {
    sch := [];
  }

  // Thread 2 has found the mutex locked; thread 1 has freed it and is about to claim it again.
  lemma QueueOnFreeMutex() returns (sch: seq<Choice>)
    ensures Run(Init({1, 2, 3}), sch) ==
            Three(Shared(0, 0, 0, map[], map[]), Local(TryClaim(true), 0), Local(PushNotify, 0), Local(Idle, 0), false)
  {
    hide Run, Step, Act, Next, Solo, Three, Init;
    var idle, m0 := Local(Idle, 0), Shared(0, 0, 0, map[], map[]);
    var m1, m2 := m0.(owner := 1, count := 1), m0.(owner := 1);
    sch := Start();
    SoloLock(m0, 1);
    sch := Hop(sch, 1, Lock, 7, m0, idle, idle, idle, false, m1, Local(Idle, 1));
    SoloUnlock(m1, 1, 1);
    sch := Hop(sch, 1, Unlock, 5, m1, Local(Idle, 1), idle, idle, false, m2, Local(Release(0), 0));
    SoloSeeLocked(m2, 2, 0);
    sch := Hop(sch, 2, Lock, 3, m2, Local(Release(0), 0), idle, idle, false, m2, Local(PushNotify, 0));
    SoloReclaim(m2, 1);
    sch := Hop(sch, 1, Lock, 6, m2, Local(Release(0), 0), Local(PushNotify, 0), idle, false, m0, Local(TryClaim(true), 0));
  }

  // Thread 1 has read thread 2's link as the head of the queue; thread 2, which saw the mutex free, is about to
  // take the link out.
  lemma PopMeetsRemoval() returns (sch: seq<Choice>)
    ensures Run(Init({1, 2, 3}), sch) ==
            Three(Shared(1, 0, 2, map[2 := 0], map[2 := 2]), Local(PopCas(2, 0), 0), Local(ParkCas(0), 0),
              Local(Idle, 0), false)
  {
    hide Run, Step, Act, Next, Solo, Three, Init;
    var idle, claim := Local(Idle, 0), Local(TryClaim(true), 0);
    var m0, m1, m2 := Shared(0, 0, 0, map[], map[]), Shared(0, 0, 0, map[], map[2 := 2]),
      Shared(0, 0, 2, map[2 := 0], map[2 := 2]);
    var m3, m4 := m2.(owner := 1, count := 1), m2.(owner := 1);
    sch := QueueOnFreeMutex();
    SoloNotify(m0, 2, 0);
    sch := Hop(sch, 2, Lock, 1, m0, claim, Local(PushNotify, 0), idle, false, m1, Local(PushRead, 0));
    SoloPush(m1, 2, 0);
    sch := Hop(sch, 2, Lock, 3, m1, claim, Local(PushRead, 0), idle, false, m2, Local(ParkHead, 0));
    SoloLeave(m2, 2);
    sch := Hop(sch, 2, Lock, 2, m2, claim, Local(ParkHead, 0), idle, false, m2, Local(ParkNext, 0));
    SoloClaim(m2, 1);
    sch := Hop(sch, 1, Lock, 2, m2, claim, Local(ParkNext, 0), idle, false, m3, Local(Idle, 1));
    SoloPop(m3, 1, 1);
    sch := Hop(sch, 1, Unlock, 6, m3, Local(Idle, 1), Local(ParkNext, 0), idle, false, m4, Local(PopCas(2, 0), 0));
    SoloReadNext(m4, 2);
    sch := Hop(sch, 2, Lock, 1, m4, Local(PopCas(2, 0), 0), Local(ParkNext, 0), idle, false, m4, Local(ParkCas(0), 0));
  }

  // A self-removal of thread 2 while thread 1 is popping it.
  lemma RemovalRaces(m: Shared, pop: Local, c: Local)
    requires m.head == 2 && Popping(pop.pc, 2)
    ensures Step(Three(m, pop, Local(ParkCas(0), 0), c, false), 2, Lock) ==
            Three(m.(head := 0), pop, Local(LockOwned, 0), c, true)
  {
    hide Popping;
    var s := Three(m, pop, Local(ParkCas(0), 0), c, false);
    assert s.threads[1] == pop;
    assert s.threads[2 := Local(LockOwned, 0)] == map[1 := pop, 2 := Local(LockOwned, 0), 3 := c];
  }

  // The self-removal, and the moment the run becomes raced.
  lemma RemoveUnderPop() returns (sch: seq<Choice>)
    ensures Run(Init({1, 2, 3}), sch) ==
            Three(Shared(1, 0, 0, map[2 := 0], map[2 := 2]), Local(PopCas(2, 0), 0), Local(LockOwned, 0),
              Local(Idle, 0), true)
  {
    hide Run, Step, Three, Init;
    var before := PopMeetsRemoval();
    sch := before + [Choice(2, Lock)];
    RunSnoc(Init({1, 2, 3}), before, Choice(2, Lock));
    RemovalRaces(Shared(1, 0, 2, map[2 := 0], map[2 := 2]), Local(PopCas(2, 0), 0), Local(Idle, 0));
  }

  // Thread 3 queues, thread 2 queues again in front of it, and thread 1's pop takes out both.
  lemma PopWithStaleNext() returns (sch: seq<Choice>)
    ensures Run(Init({1, 2, 3}), sch) ==
            Three(Shared(1, 0, 0, map[2 := 3, 3 := 0], map[2 := 2, 3 := 3]), Local(PopNotify(2), 0),
              Local(ParkHead, 0), Local(Wait, 0), true)
  {
    hide Run, Step, Act, Next, Solo, Three, Init;
    var m0, m1 := Shared(1, 0, 0, map[2 := 0], map[2 := 2]), Shared(1, 0, 0, map[2 := 0], map[2 := 2, 3 := 3]);
    var m2, m3 := Shared(1, 0, 3, map[2 := 0, 3 := 0], map[2 := 2, 3 := 3]),
      Shared(1, 0, 2, map[2 := 3, 3 := 0], map[2 := 2, 3 := 3]);
    var m4, pop := m3.(head := 0), Local(PopCas(2, 0), 0);
    assert m0.notify[2 := 2] == m0.notify;
    sch := RemoveUnderPop();
    SoloQueueAgain(m0, 2);
    sch := Hop(sch, 2, Lock, 3, m0, pop, Local(LockOwned, 0), Local(Idle, 0), true, m0, Local(PushRead, 0));
    SoloSeeLocked(m0, 3, 0);
    sch := Hop(sch, 3, Lock, 3, m0, pop, Local(PushRead, 0), Local(Idle, 0), true, m0, Local(PushNotify, 0));
    SoloNotify(m0, 3, 0);
    sch := Hop(sch, 3, Lock, 1, m0, pop, Local(PushRead, 0), Local(PushNotify, 0), true, m1, Local(PushRead, 0));
    SoloPush(m1, 3, 0);
    sch := Hop(sch, 3, Lock, 3, m1, pop, Local(PushRead, 0), Local(PushRead, 0), true, m2, Local(ParkHead, 0));
    SoloPush(m2, 2, 0);
    sch := Hop(sch, 2, Lock, 3, m2, pop, Local(PushRead, 0), Local(ParkHead, 0), true, m3, Local(ParkHead, 0));
    SoloSwapHead(m3, 1, 0);
    sch := Hop(sch, 1, Lock, 1, m3, pop, Local(ParkHead, 0), Local(ParkHead, 0), true, m4, Local(PopNotify(2), 0));
    SoloSleep(m4, 3, 0);
    sch := Hop(sch, 3, Lock, 2, m4, Local(PopNotify(2), 0), Local(ParkHead, 0), Local(ParkHead, 0), true, m4,
      Local(Wait, 0));
  }

  /** Why the queue theorem excludes raced self-removals: thread 1 pops with a stale `next` after thread 2 left
      and re-entered the queue, and thread 3, asleep, is in no list, held by no unlock and not the owner. */
  lemma RaceStrandsWaiter() returns (sch: seq<Choice>)
    ensures var s := Run(Init({1, 2, 3}), sch);
            && s.raced && !s.misused && !s.overflowed
            && 3 in s.threads && s.threads[3].pc == Wait && s.mem.owner != 3 && Heir(s) != 3
            && (forall q :: Chain(s.mem.next, s.mem.head, q) ==> 3 !in q)
  {
    sch := PopWithStaleNext();
  }
}
