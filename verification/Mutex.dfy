/** The recursive, hand-off pthread mutex as a transition system.

    Every step performs exactly one access to shared memory (`owner_id`, `lock_count`, `head` or one
    thread's `own_link`), so a schedule is an arbitrary interleaving of any number of threads at the
    granularity of single loads, stores and compare-and-swaps.  A thread's link node is named by the
    thread that owns it; 0 stands for the null link and for "no owner".
 */
module Mutex {

  type Tid = t: nat | 0 < t witness 1

  // lock_count is a uint64_t.
  const WORD: nat := 0x1_0000_0000_0000_0000

  datatype Call = Trylock | Lock | Unlock

  /** Where a thread stands; the comment gives the shared access it performs next.
      `inLock` says that pthread_mutex_trylock was called from pthread_mutex_lock. */
  datatype Pc =
    | Idle
    | Aborted                                  // the assertion in pthread_mutex_unlock failed
    | TryOwned(inLock: bool)                   // load owner_id, compare with own id
    | TryBumpLoad(inLock: bool)                // load lock_count
    | TryBumpStore(loaded: nat, inLock: bool)  // store lock_count
    | TryFree(inLock: bool)                    // load owner_id, compare with 0
    | TryClaim(inLock: bool)                   // compare-and-swap owner_id
    | TryFill(inLock: bool)                    // store lock_count = 1
    | LockOwned                                // load owner_id, compare with own id
    | LockBumpLoad                             // load lock_count
    | LockBumpStore(loaded: nat)               // store lock_count
    | LockFree                                 // load owner_id, compare with 0
    | PushNotify                               // store own_link.notify_me
    | PushRead                                 // load head
    | PushLink(top: nat)                       // store own_link.next
    | PushCas(top: nat)                        // compare-and-swap head
    | ParkHead                                 // load head
    | ParkOwner(headCopy: nat)                 // load owner_id
    | ParkNext                                 // load own_link.next
    | ParkCas(after: nat)                      // compare-and-swap head (self-removal)
    | Wait                                     // load owner_id, sleep unless it is us
    | UnlockCheck                              // load owner_id (the assertion)
    | UnlockLoad                               // load lock_count
    | UnlockStore(loaded: nat)                 // store lock_count
    | PopRead                                  // load head
    | PopNext(hd: nat)                         // load hd->next
    | PopCas(hd: nat, after: nat)              // compare-and-swap head
    | PopNotify(hd: nat)                       // load hd->notify_me
    | Release(heir: nat)                       // store owner_id

  /** The mutex fields, and the link node of every thread. */
  datatype Shared = Shared(owner: nat, count: nat, head: nat, next: map<nat, nat>, notify: map<nat, nat>)

  function Get(m: map<nat, nat>, k: nat): nat {
    if k in m then m[k] else 0
  }

  /** What one step of a thread leaves behind: shared memory, its program counter and its nesting
      depth, i.e. its successful locks minus its unlocks. */
  datatype Outcome = Outcome(mem: Shared, pc: Pc, depth: nat)

  // lock_count takes the value v and lock or trylock returns 0.
  function Enter(m: Shared, d: nat, v: nat): Outcome {
    Outcome(m.(count := v % WORD), Idle, d + 1)
  }

  // pthread_mutex_trylock returned EBUSY.
  function Busy(inLock: bool): Pc {
    if inLock then LockFree else Idle
  }

  /** The next step of thread t at program counter p; `call` is the function it enters when it is
      outside all of them. */
  function Act(m: Shared, t: nat, p: Pc, d: nat, call: Call): Outcome {
    match p
    case Idle =>
      Outcome(m, if call.Trylock? then TryOwned(false) else if call.Lock? then LockOwned else UnlockCheck, d)
    case Aborted => Outcome(m, p, d)
    case TryOwned(b) => Outcome(m, if m.owner == t then TryBumpLoad(b) else TryFree(b), d)
    case TryBumpLoad(b) => Outcome(m, TryBumpStore(m.count, b), d)
    case TryBumpStore(c, b) => Enter(m, d, c + 1)
    case TryFree(b) => Outcome(m, if m.owner != 0 then Busy(b) else TryClaim(b), d)
    case TryClaim(b) => if m.owner == 0 then Outcome(m.(owner := t), TryFill(b), d) else Outcome(m, Busy(b), d)
    case TryFill(b) => Enter(m, d, 1)
    case LockOwned => Outcome(m, if m.owner == t then LockBumpLoad else LockFree, d)
    case LockBumpLoad => Outcome(m, LockBumpStore(m.count), d)
    case LockBumpStore(c) => Enter(m, d, c + 1)
    case LockFree => Outcome(m, if m.owner == 0 then TryOwned(true) else PushNotify, d)
    case PushNotify => Outcome(m.(notify := m.notify[t := t]), PushRead, d)
    case PushRead => Outcome(m, PushLink(m.head), d)
    case PushLink(top) => Outcome(m.(next := m.next[t := top]), PushCas(top), d)
    case PushCas(top) =>
      if m.head == top then Outcome(m.(head := t), ParkHead, d) else Outcome(m, PushRead, d)
    case ParkHead => Outcome(m, ParkOwner(m.head), d)
    case ParkOwner(hc) => Outcome(m, if m.owner == 0 && hc == t then ParkNext else Wait, d)
    case ParkNext => Outcome(m, ParkCas(Get(m.next, t)), d)
    case ParkCas(nx) =>
      if m.head == t then Outcome(m.(head := nx), LockOwned, d) else Outcome(m, Wait, d)
    case Wait => Outcome(m, if m.owner == t then LockOwned else Wait, d)
    case UnlockCheck => Outcome(m, if m.owner == t then UnlockLoad else Aborted, d)
    case UnlockLoad => Outcome(m, UnlockStore(m.count), d)
    case UnlockStore(c) =>
      var v := if c == 0 then WORD - 1 else c - 1;
      Outcome(m.(count := v), if v == 0 then PopRead else Idle, if d == 0 then 0 else d - 1)
    case PopRead => Outcome(m, if m.head == 0 then Release(0) else PopNext(m.head), d)
    case PopNext(h) => Outcome(m, PopCas(h, Get(m.next, h)), d)
    case PopCas(h, nx) =>
      if m.head == h then Outcome(m.(head := nx), PopNotify(h), d) else Outcome(m, PopRead, d)
    case PopNotify(h) => Outcome(m, Release(Get(m.notify, h)), d)
    case Release(n) => Outcome(m.(owner := n), Idle, d)
  }

  // p is an unlock that has read h as the head and not yet swapped it out.
  predicate Popping(p: Pc, h: nat) {
    p == PopNext(h) || (p.PopCas? && p.hd == h)
  }

  /** A thread's own part of the state. */
  datatype Local = Local(pc: Pc, depth: nat)

  /** `depth`, `misused`, `overflowed` and `raced` are history variables: no step reads them. */
  datatype State = State(
    mem: Shared,
    threads: map<nat, Local>,
    misused: bool,          // some unlock went through although its caller held no lock
    overflowed: bool,       // some thread nested WORD locks
    raced: bool             // some thread removed itself from the queue under a pending pop
  )

  function Init(ids: set<Tid>): State {
    State(Shared(0, 0, 0, map[], map[]), map t: nat | t in ids :: Local(Idle, 0), false, false, false)
  }

  // t's step is a successful removal of its own link from the front of the queue.
  predicate RemovesItself(m: Shared, t: nat, p: Pc) {
    p.ParkCas? && m.head == t
  }

  function Step(s: State, t: nat, call: Call): State {
    if t !in s.threads then s
    else
      var l := s.threads[t];
      var o := Act(s.mem, t, l.pc, l.depth, call);
      State(o.mem, s.threads[t := Local(o.pc, o.depth)],
            s.misused || (l.pc.UnlockStore? && l.depth == 0),
            s.overflowed || o.depth >= WORD,
            s.raced || (RemovesItself(s.mem, t, l.pc)
                        && exists u :: u in s.threads && Popping(s.threads[u].pc, t)))
  }

  datatype Choice = Choice(thread: nat, call: Call)

  /** The state after a schedule, i.e. any sequence of scheduling choices. */
  function Run(s: State, schedule: seq<Choice>): State {
    if schedule == [] then s
    else
      var last := schedule[|schedule| - 1];
      Step(Run(s, schedule[..|schedule| - 1]), last.thread, last.call)
  }

  // Between the push of its link and its next look at the top of the lock loop.
  predicate Parked(p: Pc) {
    p.ParkHead? || p.ParkOwner? || p.ParkNext? || p.ParkCas? || p.Wait?
  }

  // Inside unlock after the last nesting level was given up and before owner_id is stored.
  predicate Leaving(p: Pc) {
    p.PopRead? || p.PopNext? || p.PopCas? || p.PopNotify? || p.Release?
  }

  // Program points a thread only reaches by having seen itself as the owner.
  predicate Acting(p: Pc) {
    p.TryBumpLoad? || p.TryBumpStore? || p.TryFill? || p.LockBumpLoad? || p.LockBumpStore?
    || p.UnlockLoad? || p.UnlockStore? || Leaving(p)
  }

  /** t is between a successful claim of the mutex and the store that gives it up. */
  predicate InSection(s: State, t: nat) {
    t in s.threads && (s.threads[t].depth > 0 || Acting(s.threads[t].pc))
  }

  // ---------------------------------------------------------------- mutual exclusion

  // What a thread's program counter and depth say about owner_id and lock_count.
  predicate Knows(m: Shared, t: nat, p: Pc, d: nat) {
    && (Acting(p) ==> m.owner == t)
    && d == (if m.owner == t then m.count else 0)
    && (p.TryBumpStore? ==> p.loaded == m.count)
    && (p.LockBumpStore? ==> p.loaded == m.count)
    && (p.UnlockStore? ==> p.loaded == m.count)
    && (p.TryFill? || Leaving(p) ==> m.count == 0)
  }

  ghost predicate OwnerInv(s: State) {
    && 0 !in s.threads
    && (s.mem.owner !in s.threads ==> s.mem.count == 0)
    && (forall t :: t in s.threads ==> Knows(s.mem, t, s.threads[t].pc, s.threads[t].depth))
  }

  /** The owner's side: a step keeps what its thread knows, and touches owner_id and lock_count only
      while it owns the mutex or claims a free one. */
  lemma ActKeepsOwner(m: Shared, t: nat, p: Pc, d: nat, call: Call)
    requires t != 0 && Knows(m, t, p, d)
    requires m.owner == 0 ==> m.count == 0
    requires !(p.UnlockStore? && d == 0)
    requires Act(m, t, p, d, call).depth < WORD
    ensures var o := Act(m, t, p, d, call);
            && Knows(o.mem, t, o.pc, o.depth)
            && (o.mem.count == m.count || m.owner == t == o.mem.owner)
            && (o.mem.owner == m.owner || (m.owner in {0, t} && o.mem.count == 0))
  {
  }

  lemma StepKeepsOwner(s: State, t: nat, call: Call)
    requires OwnerInv(s) && !Step(s, t, call).misused && !Step(s, t, call).overflowed
    ensures OwnerInv(Step(s, t, call))
  {
    if t in s.threads {
      ActKeepsOwner(s.mem, t, s.threads[t].pc, s.threads[t].depth, call);
      var s' := Step(s, t, call);
      forall u | u in s'.threads ensures Knows(s'.mem, u, s'.threads[u].pc, s'.threads[u].depth) {
        assert u != t ==> Knows(s.mem, u, s.threads[u].pc, s.threads[u].depth);
      }
    }
  }

  // ---------------------------------------------------------------- the waiter queue

  /** q spells out the linked list that starts at `head`: it is finite, ends in null and repeats no link. */
  predicate Chain(next: map<nat, nat>, head: nat, q: seq<nat>)
    decreases q
  {
    if q == [] then head == 0
    else head == q[0] != 0 && head !in q[1..] && Chain(next, Get(next, head), q[1..])
  }

  // The waiter an unlock has taken off the queue and not yet made the owner.
  function HeldBy(p: Pc): nat {
    match p
    case PopNotify(h) => h
    case Release(n) => n
    case _ => 0
  }

  function Heir(s: State): nat {
    if s.mem.owner in s.threads then HeldBy(s.threads[s.mem.owner].pc) else 0
  }

  // Has seen another owner and is on its way into the queue.
  predicate Enqueuing(p: Pc) {
    p.LockFree? || p.PushNotify? || p.PushRead? || p.PushLink? || p.PushCas?
  }

  // Where thread t stands with respect to the queue q and the waiter `heir` held by an unlock.
  predicate Placed(m: Shared, q: seq<nat>, heir: nat, t: nat, p: Pc, d: nat) {
    && (t in q ==> Parked(p) && m.owner != t && heir != t)
    && (heir == t ==> Parked(p) && m.owner != t)
    && (Parked(p) ==> t in q || heir == t || m.owner == t)
    && (Parked(p) || p.PushRead? || p.PushLink? || p.PushCas? ==> Get(m.notify, t) == t)
    && (Parked(p) ==> d == 0)
    && (p.UnlockLoad? || p.UnlockStore? ==> d > 0)
    && (p.PushCas? ==> Get(m.next, t) == p.top)
    && (p.ParkCas? ==> Get(m.next, t) == p.after)
    && (p.PopNext? ==> p.hd in q && p.hd != 0)
    && (p.PopCas? ==> p.hd in q && p.hd != 0 && p.after == Get(m.next, p.hd))
    && (p.PopNotify? ==> p.hd != 0)
    && (Enqueuing(p) || p.TryFree? || p.TryClaim? ==> m.owner != t)
    && (m.owner == t && d == 0 ==> Parked(p) || p.LockOwned? || Acting(p))
  }

  ghost predicate QueueInv(s: State, q: seq<nat>) {
    && OwnerInv(s)
    && Chain(s.mem.next, s.mem.head, q)
    && (s.mem.owner != 0 ==> s.mem.owner in s.threads)
    && (Heir(s) != 0 ==> Heir(s) in s.threads)
    && (forall t :: t in q ==> t in s.threads)
    && (forall t :: t in s.threads ==> Placed(s.mem, q, Heir(s), t, s.threads[t].pc, s.threads[t].depth))
  }

  /** A step prepends its own thread, removes the front, or leaves the queue alone. */
  function NextQueue(m: Shared, q: seq<nat>, t: nat, p: Pc): seq<nat> {
    if p.PushCas? && m.head == p.top then [t] + q
    else if q != [] && ((p.PopCas? && m.head == p.hd) || RemovesItself(m, t, p)) then q[1..]
    else q
  }

  lemma {:induction false} ChainFrame(next: map<nat, nat>, next': map<nat, nat>, head: nat, q: seq<nat>)
    requires Chain(next, head, q)
    requires forall h :: h in q ==> Get(next', h) == Get(next, h)
    ensures Chain(next', head, q)
    decreases q
  {
    if q != [] {
      ChainFrame(next, next', Get(next, head), q[1..]);
    }
  }

  // What a step does to the links.
  lemma ActLinks(m: Shared, t: nat, p: Pc, d: nat, call: Call)
    ensures var m' := Act(m, t, p, d, call).mem;
            && m'.next == (if p.PushLink? then m.next[t := p.top] else m.next)
            && m'.head == if p.PushCas? && m.head == p.top then t
                          else if p.PopCas? && m.head == p.hd then p.after
                          else if p.ParkCas? && m.head == t then p.after else m.head
  {
  }

  lemma ActKeepsChain(m: Shared, q: seq<nat>, heir: nat, t: nat, p: Pc, d: nat, call: Call)
    requires t != 0 && Chain(m.next, m.head, q) && Placed(m, q, heir, t, p, d)
    ensures var m' := Act(m, t, p, d, call).mem;
            && Chain(m'.next, m'.head, NextQueue(m, q, t, p))
            && (forall h :: h in q && h != t ==> Get(m'.next, h) == Get(m.next, h))
  {
    assert (t in q ==> Parked(p)) && (p.PushCas? ==> Get(m.next, t) == p.top)
        && (p.ParkCas? ==> Get(m.next, t) == p.after) && (p.PopCas? ==> p.after == Get(m.next, p.hd));
    hide Placed, Act;
    ActLinks(m, t, p, d, call);
    if p.PushLink? {
      hide Chain;
      ChainFrame(m.next, Act(m, t, p, d, call).mem.next, m.head, q);
    } else if p.PushCas? && m.head == p.top {
      assert ([t] + q)[1..] == q;
    }
  }

  lemma ChainFront(next: map<nat, nat>, head: nat, q: seq<nat>)
    requires Chain(next, head, q)
    ensures head == 0 <==> q == []
    ensures q != [] ==> q[0] == head && forall x :: x in q[1..] <==> x in q && x != head
  {
    if q != [] {
      assert q == [q[0]] + q[1..];
    }
  }

  // The waiter held by an unlock after thread t went to program counter p' and owner_id to owner'.
  function NextHeir(owner: nat, owner': nat, heir: nat, t: nat, p': Pc): nat {
    if owner' == t then HeldBy(p') else if owner' == owner then heir else 0
  }

  predicate PlaceBefore(m: Shared, q: seq<nat>, heir: nat, t: nat, p: Pc, d: nat) {
    && t != 0
    && Chain(m.next, m.head, q)
    && Knows(m, t, p, d)
    && Placed(m, q, heir, t, p, d)
    && (m.owner == t ==> heir == HeldBy(p))
    && (heir != 0 ==> Get(m.notify, heir) == heir)
  }

  predicate PlaceAfter(m: Shared, q: seq<nat>, heir: nat, t: nat, p: Pc, d: nat, call: Call) {
    var o := Act(m, t, p, d, call);
    Placed(o.mem, NextQueue(m, q, t, p), NextHeir(m.owner, o.mem.owner, heir, t, o.pc), t, o.pc, o.depth)
  }

  lemma EnqueueKeepsPlace(m: Shared, q: seq<nat>, heir: nat, t: nat, p: Pc, d: nat, call: Call)
    requires PlaceBefore(m, q, heir, t, p, d) && Enqueuing(p)
    ensures PlaceAfter(m, q, heir, t, p, d, call)
  {
    hide Chain;
  }

  lemma ParkKeepsPlace(m: Shared, q: seq<nat>, heir: nat, t: nat, p: Pc, d: nat, call: Call)
    requires PlaceBefore(m, q, heir, t, p, d) && Parked(p)
    ensures PlaceAfter(m, q, heir, t, p, d, call)
  {
    hide Chain;
    ChainFront(m.next, m.head, q);
  }

  lemma LeaveKeepsPlace(m: Shared, q: seq<nat>, heir: nat, t: nat, p: Pc, d: nat, call: Call)
    requires PlaceBefore(m, q, heir, t, p, d) && Leaving(p)
    ensures PlaceAfter(m, q, heir, t, p, d, call)
  {
    hide Chain;
    ChainFront(m.next, m.head, q);
  }

  predicate Trying(p: Pc) {
    p.TryOwned? || p.TryBumpLoad? || p.TryBumpStore? || p.TryFree? || p.TryClaim? || p.TryFill?
  }

  lemma TryKeepsPlace(m: Shared, q: seq<nat>, heir: nat, t: nat, p: Pc, d: nat, call: Call)
    requires PlaceBefore(m, q, heir, t, p, d) && Trying(p)
    ensures PlaceAfter(m, q, heir, t, p, d, call)
  {
    hide Chain;
  }

  lemma OutsideKeepsPlace(m: Shared, q: seq<nat>, heir: nat, t: nat, p: Pc, d: nat, call: Call)
    requires PlaceBefore(m, q, heir, t, p, d) && !Enqueuing(p) && !Parked(p) && !Leaving(p) && !Trying(p)
    ensures PlaceAfter(m, q, heir, t, p, d, call)
  {
    hide Chain;
  }

  /** The moving thread keeps its place. */
  lemma ActKeepsPlace(m: Shared, q: seq<nat>, heir: nat, t: nat, p: Pc, d: nat, call: Call)
    requires PlaceBefore(m, q, heir, t, p, d)
    ensures PlaceAfter(m, q, heir, t, p, d, call)
  {
    if Enqueuing(p) {
      EnqueueKeepsPlace(m, q, heir, t, p, d, call);
    } else if Parked(p) {
      ParkKeepsPlace(m, q, heir, t, p, d, call);
    } else if Leaving(p) {
      LeaveKeepsPlace(m, q, heir, t, p, d, call);
    } else if Trying(p) {
      TryKeepsPlace(m, q, heir, t, p, d, call);
    } else {
      OutsideKeepsPlace(m, q, heir, t, p, d, call);
    }
  }

  /** What the threads that stand still may rely on when t takes a step that leads from memory m, queue q
      and held waiter `heir` to m', q' and heir'. */
  predicate Relied(m: Shared, q: seq<nat>, heir: nat, m': Shared, q': seq<nat>, heir': nat, t: nat) {
    && (q' == q
        || q' == [t] + q
        || (q != [] && q' == q[1..] && (q[0] == t || (m.owner == t == m'.owner && heir' == q[0]))))
    && (m'.owner == m.owner || (m.owner == 0 && m'.owner == t) || (m.owner == t && m'.owner == heir))
    && (m'.owner != m.owner ==> heir' == 0)
    && (heir != 0 && heir' != heir ==> m'.owner == heir)
    && (heir' != 0 && heir' != heir ==> m.owner == t == m'.owner && q != [] && heir' == q[0] && q' == q[1..])
  }

  lemma ActRelied(m: Shared, q: seq<nat>, heir: nat, t: nat, p: Pc, d: nat, call: Call)
    requires PlaceBefore(m, q, heir, t, p, d) && (m.owner == 0 ==> heir == 0)
    ensures var o := Act(m, t, p, d, call);
            && Relied(m, q, heir, o.mem, NextQueue(m, q, t, p), NextHeir(m.owner, o.mem.owner, heir, t, o.pc), t)
            && (forall u :: u != t ==> Get(o.mem.notify, u) == Get(m.notify, u))
            && (forall u :: u != t || u in q ==> Get(o.mem.next, u) == Get(m.next, u))
  {
  }

  lemma StandStill(m: Shared, q: seq<nat>, heir: nat, m': Shared, q': seq<nat>, heir': nat, t: nat, u: nat, p: Pc, d: nat)
    requires u != t && u != 0 && Knows(m, u, p, d) && Placed(m, q, heir, u, p, d)
    requires Relied(m, q, heir, m', q', heir', t)
    requires q != [] ==> q[0] !in q[1..]
    requires Get(m'.notify, u) == Get(m.notify, u)
    requires forall v :: v == u || v in q ==> Get(m'.next, v) == Get(m.next, v)
    requires q' != q && q' != [t] + q && q[0] == t ==> !Popping(p, t)
    ensures Placed(m', q', heir', u, p, d)
  {
    assert q != [] ==> q == [q[0]] + q[1..];
  }

  lemma BeforeStep(s: State, q: seq<nat>, t: nat)
    requires t in s.threads && QueueInv(s, q)
    ensures PlaceBefore(s.mem, q, Heir(s), t, s.threads[t].pc, s.threads[t].depth)
    ensures s.threads[t].pc.UnlockStore? ==> s.threads[t].depth > 0
  {
    var l, heir := s.threads[t], Heir(s);
    assert Placed(s.mem, q, heir, t, l.pc, l.depth) && Knows(s.mem, t, l.pc, l.depth);
    assert heir != 0 ==> Placed(s.mem, q, heir, heir, s.threads[heir].pc, s.threads[heir].depth);
  }

  lemma HeirAfterStep(s: State, q: seq<nat>, t: nat, call: Call)
    requires t in s.threads && QueueInv(s, q)
    ensures var s' := Step(s, t, call);
            && Heir(s') == NextHeir(s.mem.owner, s'.mem.owner, Heir(s), t, s'.threads[t].pc)
            && (Heir(s') != 0 ==> Heir(s') in s'.threads)
            && (s'.mem.owner != 0 ==> s'.mem.owner in s'.threads)
  {
    var l, s', heir := s.threads[t], Step(s, t, call), Heir(s);
    BeforeStep(s, q, t);
    ActRelied(s.mem, q, heir, t, l.pc, l.depth, call);
    if s'.mem.owner != s.mem.owner && s'.mem.owner in s.threads {
      assert heir != 0 ==> Placed(s.mem, q, heir, heir, s.threads[heir].pc, s.threads[heir].depth);
    }
  }

  lemma OthersKeepPlace(s: State, q: seq<nat>, t: nat, call: Call, u: nat)
    requires t in s.threads && QueueInv(s, q) && !Step(s, t, call).raced
    requires u in s.threads && u != t
    ensures var s' := Step(s, t, call);
            Placed(s'.mem, NextQueue(s.mem, q, t, s.threads[t].pc), Heir(s'), u, s.threads[u].pc, s.threads[u].depth)
  {
    var l, v, s' := s.threads[t], s.threads[u], Step(s, t, call);
    BeforeStep(s, q, t);
    HeirAfterStep(s, q, t, call);
    ActRelied(s.mem, q, Heir(s), t, l.pc, l.depth, call);
    assert Placed(s.mem, q, Heir(s), u, v.pc, v.depth) && Knows(s.mem, u, v.pc, v.depth);
    StandStill(s.mem, q, Heir(s), s'.mem, NextQueue(s.mem, q, t, l.pc), Heir(s'), t, u, v.pc, v.depth);
  }

  /** One step keeps the queue invariant, and changes the queue exactly as NextQueue says, unless it is a
      self-removal that races with a pop. */
  lemma StepKeepsQueue(s: State, q: seq<nat>, t: nat, call: Call)
    requires t in s.threads && QueueInv(s, q) && !s.misused
    ensures !Step(s, t, call).misused
    ensures !Step(s, t, call).overflowed && !Step(s, t, call).raced ==>
              QueueInv(Step(s, t, call), NextQueue(s.mem, q, t, s.threads[t].pc))
  {
    var l, s', heir := s.threads[t], Step(s, t, call), Heir(s);
    BeforeStep(s, q, t);
    if !s'.overflowed && !s'.raced {
      StepKeepsOwner(s, t, call);
      ActKeepsChain(s.mem, q, heir, t, l.pc, l.depth, call);
      ActKeepsPlace(s.mem, q, heir, t, l.pc, l.depth, call);
      HeirAfterStep(s, q, t, call);
      var q' := NextQueue(s.mem, q, t, l.pc);
      forall u | u in s'.threads ensures Placed(s'.mem, q', Heir(s'), u, s'.threads[u].pc, s'.threads[u].depth) {
        if u != t {
          OthersKeepPlace(s, q, t, call, u);
        }
      }
    }
  }

  // ---------------------------------------------------------------- whole runs

  lemma {:induction false} HistoryOnlyGrows(s: State, schedule: seq<Choice>, n: nat)
    requires n <= |schedule|
    ensures var a, b := Run(s, schedule[..n]), Run(s, schedule);
            && (a.misused ==> b.misused) && (a.overflowed ==> b.overflowed) && (a.raced ==> b.raced)
    decreases |schedule| - n
  {
    if n < |schedule| {
      assert schedule[..n + 1][..n] == schedule[..n];
      HistoryOnlyGrows(s, schedule, n + 1);
    } else {
      assert schedule[..n] == schedule;
    }
  }

  lemma {:induction false} RunKeepsOwner(ids: set<Tid>, schedule: seq<Choice>)
    requires var s := Run(Init(ids), schedule); !s.misused && !s.overflowed
    ensures OwnerInv(Run(Init(ids), schedule))
  {
    if schedule != [] {
      var n := |schedule| - 1;
      HistoryOnlyGrows(Init(ids), schedule, n);
      RunKeepsOwner(ids, schedule[..n]);
      StepKeepsOwner(Run(Init(ids), schedule[..n]), schedule[n].thread, schedule[n].call);
    }
  }

  /** Mutual exclusion.  For any number of threads and every schedule, at most one thread is between a
      successful lock or trylock and the store of owner_id that ends it; owner_id names that thread,
      lock_count is its nesting depth, and it is 0 while the mutex is being handed over. */
  lemma MutualExclusion(ids: set<Tid>, schedule: seq<Choice>, t: nat, u: nat)
    requires var s := Run(Init(ids), schedule); !s.misused && !s.overflowed
    ensures var s := Run(Init(ids), schedule);
            && (InSection(s, t) && InSection(s, u) ==> t == u)
            && (InSection(s, t) ==> s.mem.owner == t && s.mem.count == s.threads[t].depth)
            && (InSection(s, t) && Leaving(s.threads[t].pc) ==> s.mem.count == 0)
            && (s.mem.owner == 0 ==> s.mem.count == 0)
  {
    RunKeepsOwner(ids, schedule);
    var s := Run(Init(ids), schedule);
    assert t in s.threads ==> Knows(s.mem, t, s.threads[t].pc, s.threads[t].depth);
    assert u in s.threads ==> Knows(s.mem, u, s.threads[u].pc, s.threads[u].depth);
  }

  lemma {:induction false} RunKeepsQueue(ids: set<Tid>, schedule: seq<Choice>) returns (q: seq<nat>)
    requires var s := Run(Init(ids), schedule); !s.raced && !s.overflowed
    ensures !Run(Init(ids), schedule).misused
    ensures QueueInv(Run(Init(ids), schedule), q)
  {
    if schedule == [] {
      q := [];
    } else {
      var n := |schedule| - 1;
      HistoryOnlyGrows(Init(ids), schedule, n);
      q := RunKeepsQueue(ids, schedule[..n]);
      var s, c := Run(Init(ids), schedule[..n]), schedule[n];
      if c.thread in s.threads {
        StepKeepsQueue(s, q, c.thread, c.call);
        q := NextQueue(s.mem, q, c.thread, s.threads[c.thread].pc);
      }
    }
  }

  /** Exactly one of three places accounts for every parked thread. */
  predicate Accounted(s: State, q: seq<nat>, t: nat) {
    || (t in q && t != Heir(s) && t != s.mem.owner)
    || (t !in q && t == Heir(s) && t != s.mem.owner)
    || (t !in q && t != Heir(s) && t == s.mem.owner)
  }

  /** The waiter queue.  In every schedule without a raced self-removal the list at `head` is acyclic, holds
      only parked threads, each once, and every parked thread is in the list, or held by the unlock in
      progress, or already the owner.  No unlock passes its assertion without holding the mutex. */
  lemma WaitersAccounted(ids: set<Tid>, schedule: seq<Choice>) returns (q: seq<nat>)
    requires var s := Run(Init(ids), schedule); !s.raced && !s.overflowed
    ensures var s := Run(Init(ids), schedule);
            && !s.misused
            && Chain(s.mem.next, s.mem.head, q)
            && (forall t :: t in q ==> t in s.threads && Parked(s.threads[t].pc))
            && (forall t :: t in s.threads && Parked(s.threads[t].pc) ==> Accounted(s, q, t))
  {
    q := RunKeepsQueue(ids, schedule);
    var s := Run(Init(ids), schedule);
    forall t | t in s.threads
      ensures t in q ==> Parked(s.threads[t].pc)
      ensures Parked(s.threads[t].pc) ==> Accounted(s, q, t)
    {
      assert Placed(s.mem, q, Heir(s), t, s.threads[t].pc, s.threads[t].depth);
    }
  }

  /** The hand-over.  The thread an unlock makes the owner is one that is parked, and it finds lock_count 0. */
  lemma HandOverToWaiter(ids: set<Tid>, schedule: seq<Choice>, u: nat, n: nat)
    requires var s := Run(Init(ids), schedule);
             !s.raced && !s.overflowed && u in s.threads && s.threads[u].pc == Release(n) && n != 0
    ensures var s := Run(Init(ids), schedule);
            n in s.threads && n != u && Parked(s.threads[n].pc) && s.mem.count == 0 && s.mem.owner == u
  {
    var q := RunKeepsQueue(ids, schedule);
    var s := Run(Init(ids), schedule);
    assert Knows(s.mem, u, s.threads[u].pc, s.threads[u].depth);
    assert Placed(s.mem, q, Heir(s), n, s.threads[n].pc, s.threads[n].depth);
  }
}
