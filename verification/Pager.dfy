/** The SIGSEGV pager: a lazy page cache in front of a remote region, compared with flat memory. */
module PagerModel {
  import opened Basics
  import opened Wire

  datatype Prot = NoAccess | ReadOnly | ReadWrite

  // page_meta_t
  datatype Meta = Meta(resident: bool, dirty: bool, writable: bool)

  /** The mapped range page by page, its protection and metadata, and the server's copy of the region. */
  datatype Pager = Pager(remote: seq<Page>, mem: seq<Page>, prot: seq<Prot>, meta: seq<Meta>)

  ghost predicate Valid(p: Pager) {
    && |p.mem| == |p.prot| == |p.meta| == |p.remote|
    && (forall i :: 0 <= i < |p.meta| ==> MetaOk(p.meta[i], p.prot[i]))
  }

  predicate MetaOk(m: Meta, a: Prot) {
    && (m.dirty ==> m.writable) && (m.writable ==> m.resident)
    && a == (if !m.resident then NoAccess else if !m.writable then ReadOnly else ReadWrite)
  }

  // disagg_open: nothing resident, the range mapped without access.
  function Open(remote: seq<Page>): Pager {
    Pager(remote, seq(|remote|, _ => ZeroPage()), seq(|remote|, _ => NoAccess),
      seq(|remote|, _ => Meta(false, false, false)))
  }

  /** segv_handler for an address in page i, when its own copy into the page goes through: fetch the page read-only,
      or else make it writable and dirty. */
  function Fault(p: Pager, i: nat): Pager
    requires i < |p.mem| == |p.prot| == |p.meta| == |p.remote|
  {
    if !p.meta[i].resident then
      p.(mem := p.mem[i := p.remote[i]], prot := p.prot[i := ReadOnly],
         meta := p.meta[i := p.meta[i].(resident := true, writable := false)])
    else if !p.meta[i].writable then
      p.(prot := p.prot[i := ReadWrite], meta := p.meta[i := p.meta[i].(writable := true, dirty := true)])
    else p
  }

  predicate Allows(a: Prot, write: bool) {
    a == ReadWrite || (a == ReadOnly && !write)
  }

  /** The handler with its own copy into the page spelled out.  The copy comes after the page was made read-only; if stores
      are `checked` against the protection at that point, it faults and the handler is entered again.  `depth` bounds the
      entries; None means that they were not enough. */
  function Handler(p: Pager, i: nat, checked: bool, depth: nat): Option<Pager>
    requires i < |p.mem| == |p.prot| == |p.meta| == |p.remote|
    decreases depth
  {
    if depth == 0 then None
    else if p.meta[i].resident then Some(Fault(p, i))
    else
      var q := p.(prot := p.prot[i := ReadOnly]);
      if checked && !Allows(q.prot[i], true) then Handler(q, i, checked, depth - 1)
      else Some(q.(mem := q.mem[i := q.remote[i]], meta := q.meta[i := q.meta[i].(resident := true, writable := false)]))
  }

  lemma {:induction false} CheckedCopyLoops(p: Pager, i: nat, depth: nat)
    requires i < |p.mem| == |p.prot| == |p.meta| == |p.remote| && !p.meta[i].resident
    ensures Handler(p, i, true, depth).None?
    decreases depth
  {
    if depth > 0 {
      CheckedCopyLoops(p.(prot := p.prot[i := ReadOnly]), i, depth - 1);
    }
  }

  /** The handler returns, having done what Fault says, exactly when the page is resident already or its copy into the
      read-only page is not checked; otherwise no number of entries is enough. */
  lemma HandlerReturnsIff(p: Pager, i: nat, checked: bool)
    requires i < |p.mem| == |p.prot| == |p.meta| == |p.remote|
    ensures (exists depth :: Handler(p, i, checked, depth).Some?) <==> p.meta[i].resident || !checked
    ensures p.meta[i].resident || !checked ==> Handler(p, i, checked, 1) == Some(Fault(p, i))
  {
    if p.meta[i].resident || !checked {
      assert Handler(p, i, checked, 1).Some?;
    } else {
      forall depth: nat ensures Handler(p, i, checked, depth).None? {
        CheckedCopyLoops(p, i, depth);
      }
    }
  }

  // An access faults until the protection allows it; two faults are enough.
  function Touch(p: Pager, i: nat, write: bool): Pager
    requires i < |p.mem| == |p.prot| == |p.meta| == |p.remote|
  {
    var p1 := if Allows(p.prot[i], write) then p else Fault(p, i);
    if Allows(p1.prot[i], write) then p1 else Fault(p1, i)
  }

  /** What becomes of one netmem_write_page call: it is acknowledged, or it fails after so many bytes of the request reached
      the server. */
  datatype Fate = Acked | Lost(arrived: nat)

  // The page at the server once the connection is gone: the part of the payload that arrived, in front of what was there.
  function Arrived(was: Page, sent: Page, arrived: nat): Page {
    var n := if arrived <= HDR_SZ then 0 else if arrived >= HDR_SZ + PAGE_SZ then PAGE_SZ else arrived - HDR_SZ;
    sent[..n] + was[n..]
  }

  datatype Flushed = Flushed(pager: Pager, ok: bool)

  /** disagg_flush from page i on; fates(j) says what happens to the write of page j. */
  function FlushFrom(p: Pager, i: nat, fates: nat -> Fate): Flushed
    requires |p.mem| == |p.prot| == |p.meta| == |p.remote|
    decreases |p.mem| - i
  {
    if i >= |p.mem| then Flushed(p, true)
    else if p.meta[i].resident && p.meta[i].dirty then
      match fates(i)
      case Acked =>
        FlushFrom(p.(remote := p.remote[i := p.mem[i]], meta := p.meta[i := p.meta[i].(dirty := false)]), i + 1, fates)
      case Lost(n) => Flushed(p.(remote := p.remote[i := Arrived(p.remote[i], p.mem[i], n)]), false)
    else FlushFrom(p, i + 1, fates)
  }

  // ---------------------------------------------------------------- runs

  datatype Op = Load(page: nat, at: nat) | Store(page: nat, at: nat, val: Byte) | Flush(fates: nat -> Fate)

  /** A run: the pager, the flat memory a program expects to see, and for every page the contents it had when it
      was last flushed as a dirty page. */
  datatype Run = Run(pager: Pager, flat: seq<Page>, stamp: seq<Option<Page>>)

  predicate InRegion(op: Op, n: nat) {
    op.Flush? || (op.page < n && op.at < PAGE_SZ)
  }

  function Stamp(before: Pager, after: Pager, stamp: seq<Option<Page>>): seq<Option<Page>>
    requires |before.mem| == |stamp| == |before.meta| == |after.meta|
  {
    seq(|stamp|, i requires 0 <= i < |stamp| =>
      if before.meta[i].dirty && !after.meta[i].dirty then Some(before.mem[i]) else stamp[i])
  }

  function Begin(remote: seq<Page>): Run {
    Run(Open(remote), remote, seq(|remote|, _ => None))
  }

  ghost predicate Sized(r: Run) {
    |r.pager.mem| == |r.pager.prot| == |r.pager.meta| == |r.pager.remote| == |r.flat| == |r.stamp|
  }

  ghost function Next(r: Run, op: Op): Run
    requires Sized(r) && InRegion(op, |r.flat|)
  {
    match op
    case Load(i, _) => r.(pager := Touch(r.pager, i, false))
    case Store(i, o, v) =>
      var p := Touch(r.pager, i, true);
      Run(p.(mem := p.mem[i := p.mem[i][o := v]]), r.flat[i := r.flat[i][o := v]], r.stamp)
    case Flush(fates) =>
      var p := FlushFrom(r.pager, 0, fates).pager;
      FlushKeepsSize(r.pager, 0, fates);
      Run(p, r.flat, Stamp(r.pager, p, r.stamp))
  }

  // How the flush treats one page: not at all, written and cleaned, or written in part and left dirty.
  predicate PageFlushed(mem: Page, remote: Page, m: Meta, remote': Page, m': Meta) {
    || (remote' == remote && m' == m)
    || (m.resident && m.dirty && remote' == mem && m' == m.(dirty := false))
    || (m.resident && m.dirty && m' == m)
  }

  lemma {:induction false} FlushKeepsSize(p: Pager, i: nat, fates: nat -> Fate)
    requires |p.mem| == |p.prot| == |p.meta| == |p.remote|
    ensures var q := FlushFrom(p, i, fates).pager;
            q.mem == p.mem && q.prot == p.prot && |q.meta| == |q.remote| == |p.mem|
    decreases |p.mem| - i
  {
    if i < |p.mem| {
      if p.meta[i].resident && p.meta[i].dirty {
        if fates(i).Acked? {
          FlushKeepsSize(p.(remote := p.remote[i := p.mem[i]], meta := p.meta[i := p.meta[i].(dirty := false)]), i + 1,
            fates);
        }
      } else {
        FlushKeepsSize(p, i + 1, fates);
      }
    }
  }

  lemma {:induction false} FlushPage(p: Pager, i: nat, fates: nat -> Fate, j: nat)
    requires |p.mem| == |p.prot| == |p.meta| == |p.remote| && j < |p.mem|
    ensures var f := FlushFrom(p, i, fates);
            && |f.pager.meta| == |f.pager.remote| == |p.mem|
            && PageFlushed(p.mem[j], p.remote[j], p.meta[j], f.pager.remote[j], f.pager.meta[j])
            && (j < i ==> f.pager.meta[j] == p.meta[j] && f.pager.remote[j] == p.remote[j])
            && (f.ok && i <= j && p.meta[j].resident && p.meta[j].dirty ==>
                  f.pager.remote[j] == p.mem[j] && !f.pager.meta[j].dirty)
    decreases |p.mem| - i
  {
    if i < |p.mem| {
      if p.meta[i].resident && p.meta[i].dirty {
        if fates(i).Acked? {
          FlushPage(p.(remote := p.remote[i := p.mem[i]], meta := p.meta[i := p.meta[i].(dirty := false)]), i + 1,
            fates, j);
        }
      } else {
        FlushPage(p, i + 1, fates, j);
      }
    }
  }

  // What holds of one page throughout a run.
  predicate PageOk(mem: Page, remote: Page, m: Meta, flat: Page, stamp: Option<Page>) {
    && flat == (if m.resident then mem else remote)
    && (m.resident && !m.writable ==> mem == remote)
    && (stamp.Some? <==> m.writable && !m.dirty)
    && (stamp.Some? ==> remote == stamp.value)
  }

  ghost predicate Inv(r: Run) {
    && Sized(r)
    && Valid(r.pager)
    && (forall i :: 0 <= i < |r.flat| ==>
          PageOk(r.pager.mem[i], r.pager.remote[i], r.pager.meta[i], r.flat[i], r.stamp[i]))
  }

  // The page of the run in all its parts.
  ghost predicate PageInv(r: Run, j: nat)
    requires Sized(r) && j < |r.flat|
  {
    && PageOk(r.pager.mem[j], r.pager.remote[j], r.pager.meta[j], r.flat[j], r.stamp[j])
    && MetaOk(r.pager.meta[j], r.pager.prot[j])
  }

  lemma InvByPage(r: Run)
    requires Sized(r)
    ensures Inv(r) <==> forall j :: 0 <= j < |r.flat| ==> PageInv(r, j)
  {
    hide PageOk, MetaOk;
    if forall j :: 0 <= j < |r.flat| ==> PageInv(r, j) {
      forall j | 0 <= j < |r.flat|
        ensures PageOk(r.pager.mem[j], r.pager.remote[j], r.pager.meta[j], r.flat[j], r.stamp[j])
        ensures MetaOk(r.pager.meta[j], r.pager.prot[j])
      {
        assert PageInv(r, j);
      }
    }
  }

  // An access changes only the page it is for, and leaves that one in order.
  lemma TouchPage(r: Run, i: nat, write: bool)
    requires Sized(r) && i < |r.flat| && PageInv(r, i)
    ensures var r' := r.(pager := Touch(r.pager, i, write));
            && Sized(r') && PageInv(r', i) && r'.pager.remote == r.pager.remote
            && r'.pager.meta[i].resident && (write ==> r'.pager.meta[i].writable)
            && (forall j :: 0 <= j < |r.flat| && j != i ==>
                  && r'.pager.mem[j] == r.pager.mem[j] && r'.pager.prot[j] == r.pager.prot[j]
                  && r'.pager.meta[j] == r.pager.meta[j])
  {
  }

  lemma TouchKeepsInv(r: Run, i: nat, write: bool)
    requires Inv(r) && i < |r.flat|
    ensures Inv(r.(pager := Touch(r.pager, i, write)))
  {
    hide PageOk, MetaOk, Touch;
    InvByPage(r);
    TouchPage(r, i, write);
    InvByPage(r.(pager := Touch(r.pager, i, write)));
  }

  lemma StoreKeepsInv(r: Run, i: nat, o: nat, v: Byte)
    requires Inv(r) && i < |r.flat| && o < PAGE_SZ
    ensures Inv(Next(r, Store(i, o, v)))
  {
    hide PageOk, MetaOk, Touch;
    InvByPage(r);
    TouchPage(r, i, true);
    StoredPage(r.(pager := Touch(r.pager, i, true)), i, o, v);
    InvByPage(Next(r, Store(i, o, v)));
  }

  lemma StoredPage(r: Run, i: nat, o: nat, v: Byte)
    requires Sized(r) && i < |r.flat| && o < PAGE_SZ && PageInv(r, i) && r.pager.meta[i].writable
    ensures var p := r.pager.(mem := r.pager.mem[i := r.pager.mem[i][o := v]]);
            PageInv(Run(p, r.flat[i := r.flat[i][o := v]], r.stamp), i)
  {
  }

  lemma FlushKeepsInv(r: Run, fates: nat -> Fate)
    requires Inv(r)
    ensures Inv(Next(r, Flush(fates)))
  {
    hide PageOk, MetaOk, FlushFrom;
    var r' := Next(r, Flush(fates));
    FlushKeepsSize(r.pager, 0, fates);
    InvByPage(r);
    forall j | 0 <= j < |r.flat| ensures PageInv(r', j) {
      FlushedPage(r, fates, j);
    }
    InvByPage(r');
  }

  lemma FlushedPage(r: Run, fates: nat -> Fate, j: nat)
    requires Sized(r) && j < |r.flat| && PageInv(r, j)
    ensures Sized(Next(r, Flush(fates))) && PageInv(Next(r, Flush(fates)), j)
  {
    hide FlushFrom;
    FlushKeepsSize(r.pager, 0, fates);
    FlushPage(r.pager, 0, fates, j);
  }

  lemma NextKeepsInv(r: Run, op: Op)
    requires Inv(r) && InRegion(op, |r.flat|)
    ensures Inv(Next(r, op))
  {
    hide PageOk, MetaOk, Touch, FlushFrom;
    match op
    case Load(i, _) => TouchKeepsInv(r, i, false);
    case Store(i, o, v) => StoreKeepsInv(r, i, o, v);
    case Flush(fates) => FlushKeepsInv(r, fates);
  }

  ghost predicate AllIn(ops: seq<Op>, n: nat) {
    forall k :: 0 <= k < |ops| ==> InRegion(ops[k], n)
  }

  /** The run that a list of accesses and flushes makes, with every access resolved by the faults it needs. */
  ghost function Exec(r: Run, ops: seq<Op>): (r': Run)
    requires Inv(r) && AllIn(ops, |r.flat|)
    ensures Inv(r') && |r'.flat| == |r.flat|
  {
    if ops == [] then r
    else
      var before := Exec(r, ops[..|ops| - 1]);
      NextKeepsInv(before, ops[|ops| - 1]);
      Next(before, ops[|ops| - 1])
  }

  lemma BeginInv(remote: seq<Page>)
    ensures Inv(Begin(remote))
  {
  }

  /** The flat memory itself: what the stores alone make of the region. */
  function Stored(flat: seq<Page>, ops: seq<Op>): seq<Page>
    requires forall k :: 0 <= k < |ops| ==> InRegion(ops[k], |flat|)
    ensures |Stored(flat, ops)| == |flat|
  {
    if ops == [] then flat
    else
      var before, op := Stored(flat, ops[..|ops| - 1]), ops[|ops| - 1];
      assert InRegion(op, |flat|);
      if op.Store? then before[op.page := before[op.page][op.at := op.val]] else before
  }

  /** Coherence.  On every run of loads, stores and flushes, including flushes that fail half-way, a load returns
      the byte that flat memory initialised from the server's region would hold, and so does every page whether it
      is resident or not. */
  lemma {:induction false} ViewIsFlat(remote: seq<Page>, ops: seq<Op>, i: nat, o: nat)
    requires AllIn(ops, |remote|) && i < |remote| && o < PAGE_SZ
    ensures Inv(Begin(remote))
    ensures var p, flat := Exec(Begin(remote), ops).pager, Stored(remote, ops);
            && |p.mem| == |p.prot| == |p.meta| == |p.remote| == |remote|
            && (if p.meta[i].resident then p.mem[i] else p.remote[i]) == flat[i]
            && Touch(p, i, false).mem[i][o] == flat[i][o]
  {
    BeginInv(remote);
    FlatIsStored(remote, ops);
  }

  lemma {:induction false} FlatIsStored(remote: seq<Page>, ops: seq<Op>)
    requires AllIn(ops, |remote|) && Inv(Begin(remote))
    ensures Exec(Begin(remote), ops).flat == Stored(remote, ops)
  {
    if ops != [] {
      FlatIsStored(remote, ops[..|ops| - 1]);
    }
  }

  /** A page that was flushed is never written back again: the handler marks a page dirty only on its first write
      fault, and a flush leaves the page writable.  Whatever the program does afterwards, the server keeps the copy
      it got at that flush. */
  lemma {:induction false} FlushedPageIsFrozen(r: Run, ops: seq<Op>, i: nat)
    requires Inv(r) && AllIn(ops, |r.flat|) && i < |r.flat| && r.stamp[i].Some?
    ensures var r' := Exec(r, ops);
            r'.stamp[i] == r.stamp[i] && r'.pager.remote[i] == r.stamp[i].value == r.pager.remote[i]
  {
    if ops != [] {
      var before, op := Exec(r, ops[..|ops| - 1]), ops[|ops| - 1];
      FlushedPageIsFrozen(r, ops[..|ops| - 1], i);
      if op.Flush? {
        FlushKeepsSize(before.pager, 0, op.fates);
        FlushPage(before.pager, 0, op.fates, i);
      }
    }
  }

  /** Writeback, exactly.  After a flush that succeeds, the whole remote region equals flat memory if and only if
      every page that an earlier flush had already written still has the contents it had then. */
  lemma FlushSyncsIff(r: Run, fates: nat -> Fate)
    requires Inv(r) && FlushFrom(r.pager, 0, fates).ok
    ensures var r' := Next(r, Flush(fates));
            r'.pager.remote == r'.flat <==>
            forall i :: 0 <= i < |r.flat| && r.stamp[i].Some? ==> r.flat[i] == r.stamp[i].value
  {
    var r' := Next(r, Flush(fates));
    NextKeepsInv(r, Flush(fates));
    FlushKeepsSize(r.pager, 0, fates);
    forall i | 0 <= i < |r.flat|
      ensures r'.pager.remote[i] == r'.flat[i] <==> (r.stamp[i].Some? ==> r.flat[i] == r.stamp[i].value)
    {
      FlushPage(r.pager, 0, fates, i);
      assert PageOk(r.pager.mem[i], r.pager.remote[i], r.pager.meta[i], r.flat[i], r.stamp[i]);
    }
    if r'.pager.remote != r'.flat {
      var i :| 0 <= i < |r.flat| && r'.pager.remote[i] != r'.flat[i];
    }
  }

  // The page was written back and has stayed writable since, so a store to it sets no dirty flag.
  predicate Unwatched(m: Meta) {
    m.resident && m.writable && !m.dirty
  }

  /** No store of the run goes to a page that is unwatched when the store is made. */
  ghost predicate Watched(remote: seq<Page>, ops: seq<Op>)
    requires AllIn(ops, |remote|) && Inv(Begin(remote))
  {
    forall k :: 0 <= k < |ops| && ops[k].Store? ==>
      !Unwatched(Exec(Begin(remote), ops[..k]).pager.meta[ops[k].page])
  }

  // Every page written back so far still is what was written.
  ghost predicate StampsCurrent(r: Run)
    requires Sized(r)
  {
    forall i :: 0 <= i < |r.flat| && r.stamp[i].Some? ==> r.flat[i] == r.stamp[i].value
  }

  lemma NextKeepsStamps(r: Run, op: Op)
    requires Inv(r) && StampsCurrent(r) && InRegion(op, |r.flat|)
    requires op.Store? ==> !Unwatched(r.pager.meta[op.page])
    ensures Sized(Next(r, op)) && StampsCurrent(Next(r, op))
  {
    hide Touch, FlushFrom;
    NextKeepsInv(r, op);
    match op
    case Load(_, _) =>
    case Store(i, _, _) => assert PageOk(r.pager.mem[i], r.pager.remote[i], r.pager.meta[i], r.flat[i], r.stamp[i]);
    case Flush(fates) =>
      forall i | 0 <= i < |r.flat| && Next(r, op).stamp[i].Some?
        ensures r.flat[i] == Next(r, op).stamp[i].value
      {
        assert PageOk(r.pager.mem[i], r.pager.remote[i], r.pager.meta[i], r.flat[i], r.stamp[i]);
        assert MetaOk(r.pager.meta[i], r.pager.prot[i]);
      }
  }

  lemma WatchedBefore(remote: seq<Page>, ops: seq<Op>)
    requires AllIn(ops, |remote|) && Inv(Begin(remote)) && Watched(remote, ops) && ops != []
    ensures var n := |ops| - 1;
            && Watched(remote, ops[..n])
            && (ops[n].Store? ==> !Unwatched(Exec(Begin(remote), ops[..n]).pager.meta[ops[n].page]))
  {
    hide Exec, Unwatched, Inv;
    var n := |ops| - 1;
    assert forall k :: 0 <= k < n ==> ops[..n][..k] == ops[..k];
  }

  lemma {:induction false} WatchedStamps(remote: seq<Page>, ops: seq<Op>)
    requires AllIn(ops, |remote|) && Inv(Begin(remote)) && Watched(remote, ops)
    ensures StampsCurrent(Exec(Begin(remote), ops))
  {
    if ops != [] {
      hide Next, Unwatched, StampsCurrent, PageOk, MetaOk, Watched;
      var n := |ops| - 1;
      WatchedBefore(remote, ops);
      WatchedStamps(remote, ops[..n]);
      NextKeepsStamps(Exec(Begin(remote), ops[..n]), ops[n]);
    } else {
      assert StampsCurrent(Begin(remote));
    }
  }

  /** Writeback over whole runs, earlier flushes included, whether they succeeded or not: as long as every store goes to a
      page that the pager still watches, a flush that succeeds leaves the server with exactly what the stores made of
      the region. */
  lemma WatchedRunSyncs(remote: seq<Page>, ops: seq<Op>, fates: nat -> Fate)
    requires AllIn(ops, |remote|) && Inv(Begin(remote)) && Watched(remote, ops)
    requires FlushFrom(Exec(Begin(remote), ops).pager, 0, fates).ok
    ensures Next(Exec(Begin(remote), ops), Flush(fates)).pager.remote == Stored(remote, ops)
  {
    FlatIsStored(remote, ops);
    WatchedStamps(remote, ops);
    FlushSyncsIff(Exec(Begin(remote), ops), fates);
  }

  /** So one flush at the end of any run without flushes brings the server up to date. */
  lemma {:induction false} OneFlushSyncs(remote: seq<Page>, ops: seq<Op>, fates: nat -> Fate)
    requires AllIn(ops, |remote|) && (forall k :: 0 <= k < |ops| ==> !ops[k].Flush?) && Inv(Begin(remote))
    requires FlushFrom(Exec(Begin(remote), ops).pager, 0, fates).ok
    ensures Next(Exec(Begin(remote), ops), Flush(fates)).pager.remote == Stored(remote, ops)
  {
    forall k | 0 <= k < |ops| && ops[k].Store?
      ensures !Unwatched(Exec(Begin(remote), ops[..k]).pager.meta[ops[k].page])
    {
      NeverStamped(remote, ops[..k]);
      var r, i := Exec(Begin(remote), ops[..k]), ops[k].page;
      assert PageOk(r.pager.mem[i], r.pager.remote[i], r.pager.meta[i], r.flat[i], r.stamp[i]);
    }
    WatchedRunSyncs(remote, ops, fates);
  }

  lemma {:induction false} NeverStamped(remote: seq<Page>, ops: seq<Op>)
    requires AllIn(ops, |remote|) && (forall k :: 0 <= k < |ops| ==> !ops[k].Flush?) && Inv(Begin(remote))
    ensures Exec(Begin(remote), ops).stamp == Begin(remote).stamp
  {
    if ops != [] {
      NeverStamped(remote, ops[..|ops| - 1]);
    }
  }

  // A store and a successful flush leave the page stamped with the stored byte.
  lemma FlushStamps(remote: seq<Page>, i: nat, o: nat, v: Byte)
    requires i < |remote| && o < PAGE_SZ && Inv(Begin(remote))
    ensures var r1 := Next(Begin(remote), Store(i, o, v));
            Inv(r1) && FlushFrom(r1.pager, 0, _ => Acked).ok
    ensures var r2 := Next(Next(Begin(remote), Store(i, o, v)), Flush(_ => Acked));
            Inv(r2) && |r2.flat| == |remote| && r2.stamp[i].Some? && r2.stamp[i].value[o] == v
  {
    NextKeepsInv(Begin(remote), Store(i, o, v));
    var r1 := Next(Begin(remote), Store(i, o, v));
    NextKeepsInv(r1, Flush(_ => Acked));
    FlushSucceedsIff(r1.pager, 0, _ => Acked);
    FlushKeepsSize(r1.pager, 0, _ => Acked);
    FlushPage(r1.pager, 0, _ => Acked, i);
  }

  // The flush sends page j: it is dirty, and every dirty page before it, from i on, was acknowledged.
  ghost predicate Sends(p: Pager, i: nat, fates: nat -> Fate, j: nat)
    requires |p.mem| == |p.meta|
  {
    && i <= j < |p.mem| && p.meta[j].resident && p.meta[j].dirty
    && forall k :: i <= k < j && p.meta[k].resident && p.meta[k].dirty ==> fates(k).Acked?
  }

  lemma SendsOn(p: Pager, q: Pager, i: nat, fates: nat -> Fate, j: nat)
    requires |p.mem| == |p.meta| == |q.mem| == |q.meta| && i < |p.mem| && j != i
    requires forall k :: i < k < |p.mem| ==> q.meta[k] == p.meta[k]
    requires p.meta[i].resident && p.meta[i].dirty ==> fates(i).Acked?
    ensures Sends(p, i, fates, j) <==> Sends(q, i + 1, fates, j)
  {
  }

  /** The whole flush, page by page: the dirty pages are sent in order up to the first that is not acknowledged.  A page
      sent and acknowledged is at the server and clean, the one that fails is there as far as it arrived and stays dirty,
      and nothing else changes. */
  lemma {:induction false} FlushIs(p: Pager, i: nat, fates: nat -> Fate, j: nat)
    requires |p.mem| == |p.prot| == |p.meta| == |p.remote| && j < |p.mem|
    ensures var (q, sent) := (FlushFrom(p, i, fates).pager, Sends(p, i, fates, j));
            && q.mem == p.mem && q.prot == p.prot && |q.meta| == |q.remote| == |p.mem|
            && q.remote[j] == (if !sent then p.remote[j]
                               else if fates(j).Acked? then p.mem[j]
                               else Arrived(p.remote[j], p.mem[j], fates(j).arrived))
            && q.meta[j] == if sent && fates(j).Acked? then p.meta[j].(dirty := false) else p.meta[j]
    decreases |p.mem| - i
  {
    hide Arrived, Sends;
    FlushKeepsSize(p, i, fates);
    if i >= |p.mem| || (p.meta[i].resident && p.meta[i].dirty && !fates(i).Acked?) {
      SendsFirst(p, i, fates, j);
    } else {
      var q := if p.meta[i].resident && p.meta[i].dirty
      then p.(remote := p.remote[i := p.mem[i]], meta := p.meta[i := p.meta[i].(dirty := false)]) else p;
      FlushIs(q, i + 1, fates, j);
      if j == i {
        SendsFirst(p, i, fates, i);
        NotSent(q, i + 1, fates, i);
      } else {
        SendsOn(p, q, i, fates, j);
      }
    }
  }

  lemma NotSent(p: Pager, i: nat, fates: nat -> Fate, j: nat)
    requires |p.mem| == |p.meta| && j < i
    ensures !Sends(p, i, fates, j)
  {
  }

  lemma SendsFirst(p: Pager, i: nat, fates: nat -> Fate, j: nat)
    requires |p.mem| == |p.meta| && j < |p.mem|
    requires i < |p.mem| && j != i ==> p.meta[i].resident && p.meta[i].dirty && !fates(i).Acked?
    ensures Sends(p, i, fates, j) <==> i == j && p.meta[i].resident && p.meta[i].dirty
  {
  }

  /** It succeeds exactly when no page that it sends fails. */
  lemma {:induction false} FlushSucceedsIff(p: Pager, i: nat, fates: nat -> Fate)
    requires |p.mem| == |p.prot| == |p.meta| == |p.remote|
    ensures FlushFrom(p, i, fates).ok <==>
            forall j :: i <= j < |p.mem| && p.meta[j].resident && p.meta[j].dirty ==> fates(j).Acked?
    decreases |p.mem| - i
  {
    if i < |p.mem| {
      if p.meta[i].resident && p.meta[i].dirty {
        if fates(i).Acked? {
          FlushSucceedsIff(p.(remote := p.remote[i := p.mem[i]], meta := p.meta[i := p.meta[i].(dirty := false)]), i + 1,
            fates);
        }
      } else {
        FlushSucceedsIff(p, i + 1, fates);
      }
    }
  }

  /** A store after the flush is lost: once a page has been flushed, store a byte and do anything else that does not
      store, such as flushing again: the program sees the new byte and the server keeps the one flushed first. */
  lemma LateStoreIsLost(r: Run, i: nat, o: nat, w: Byte, more: seq<Op>)
    requires Inv(r) && i < |r.flat| && o < PAGE_SZ && r.stamp[i].Some?
    requires AllIn(more, |r.flat|) && forall k :: 0 <= k < |more| ==> !more[k].Store?
    ensures var ops := [Store(i, o, w)] + more;
            && AllIn(ops, |r.flat|)
            && Exec(r, ops).flat[i][o] == w
            && Exec(r, ops).pager.remote[i][o] == r.stamp[i].value[o]
  {
    assert AllIn([Store(i, o, w)] + more, |r.flat|);
    FlushedPageIsFrozen(r, [Store(i, o, w)] + more, i);
    FlatAfterStore(r, i, o, w, more);
  }

  lemma {:induction false} FlatAfterStore(r: Run, i: nat, o: nat, w: Byte, more: seq<Op>)
    requires Inv(r) && i < |r.flat| && o < PAGE_SZ && AllIn([Store(i, o, w)] + more, |r.flat|)
    requires forall k :: 0 <= k < |more| ==> !more[k].Store?
    ensures Exec(r, [Store(i, o, w)] + more).flat[i][o] == w
    decreases |more|
  {
    var ops := [Store(i, o, w)] + more;
    if more == [] {
      assert ops[..|ops| - 1] == [];
    } else {
      assert ops[..|ops| - 1] == [Store(i, o, w)] + more[..|more| - 1];
      assert ops[|ops| - 1] == more[|more| - 1];
      FlatAfterStore(r, i, o, w, more[..|more| - 1]);
    }
  }

  // ---------------------------------------------------------------- no more than asked for

  predicate Accesses(op: Op, i: nat) {
    !op.Flush? && op.page == i
  }

  predicate StoresTo(op: Op, i: nat) {
    op.Store? && op.page == i
  }

  ghost predicate Touched(ops: seq<Op>, i: nat, stores: bool) {
    exists k :: 0 <= k < |ops| && Accesses(ops[k], i) && (stores ==> ops[k].Store?)
  }

  // What one operation does to the flags of a page.
  lemma NextFlags(r: Run, op: Op, i: nat)
    requires Inv(r) && InRegion(op, |r.flat|) && i < |r.flat|
    ensures Sized(Next(r, op)) && |Next(r, op).flat| == |r.flat|
    ensures var m, m' := r.pager.meta[i], Next(r, op).pager.meta[i];
            && (m'.resident <==> m.resident || Accesses(op, i))
            && (m'.writable <==> m.writable || StoresTo(op, i))
            && (!m.writable && !StoresTo(op, i) ==> Next(r, op).pager.remote[i] == r.pager.remote[i])
  {
    hide FlushFrom, PageOk, MetaOk, Touch;
    assert MetaOk(r.pager.meta[i], r.pager.prot[i]);
    if op.Flush? {
      FlushIs(r.pager, 0, op.fates, i);
      CleanNotSent(r.pager, op.fates, i);
    } else {
      TouchFlags(r.pager, op.page, op.Store?, i);
    }
  }

  lemma CleanNotSent(p: Pager, fates: nat -> Fate, i: nat)
    requires |p.mem| == |p.meta| == |p.prot| && i < |p.mem| && MetaOk(p.meta[i], p.prot[i])
    ensures !p.meta[i].writable ==> !Sends(p, 0, fates, i)
  {
  }

  lemma TouchFlags(p: Pager, j: nat, write: bool, i: nat)
    requires j < |p.mem| == |p.prot| == |p.meta| == |p.remote| && i < |p.mem| && MetaOk(p.meta[i], p.prot[i])
    ensures var q := Touch(p, j, write);
            && q.remote == p.remote && |q.mem| == |q.prot| == |q.meta| == |p.mem|
            && (q.meta[i].resident <==> p.meta[i].resident || i == j)
            && (q.meta[i].writable <==> p.meta[i].writable || (i == j && write))
  {
  }

  /** The pager is lazy: a page is resident exactly when it was accessed, writable exactly when it was stored to, and a page
      that was only read or not touched at all stays at the server as it was, whatever is flushed. */
  lemma {:induction false} TouchedIff(remote: seq<Page>, ops: seq<Op>, i: nat)
    requires AllIn(ops, |remote|) && i < |remote| && Inv(Begin(remote))
    ensures var p := Exec(Begin(remote), ops).pager;
            && (p.meta[i].resident <==> Touched(ops, i, false))
            && (p.meta[i].writable <==> Touched(ops, i, true))
            && (!Touched(ops, i, true) ==> p.remote[i] == remote[i])
  {
    if ops != [] {
      var n := |ops| - 1;
      TouchedIff(remote, ops[..n], i);
      NextFlags(Exec(Begin(remote), ops[..n]), ops[n], i);
      hide Next, Inv;
      TouchedSnoc(ops, i, false);
      TouchedSnoc(ops, i, true);
    }
  }

  lemma TouchedSnoc(ops: seq<Op>, i: nat, stores: bool)
    requires ops != []
    ensures var n := |ops| - 1;
            Touched(ops, i, stores) <==> Touched(ops[..n], i, stores) || (Accesses(ops[n], i) && (stores ==> ops[n].Store?))
  {
    var n := |ops| - 1;
    if Touched(ops[..n], i, stores) {
      var k :| 0 <= k < n && Accesses(ops[..n][k], i) && (stores ==> ops[..n][k].Store?);
      assert ops[k] == ops[..n][k];
    }
    if Touched(ops, i, stores) {
      var k :| 0 <= k < |ops| && Accesses(ops[k], i) && (stores ==> ops[k].Store?);
      assert k < n ==> ops[..n][k] == ops[k];
    }
  }
}
