/** The benchmark's data effects: the access order, the dirty set, and the three modes, which must leave the same
    bytes behind. */
module Bench {
  import opened Basics
  import opened Wire
  import opened PagerModel
  import opened PagerProgram
  import opened RemoteRegion
  import PageHistory
  import PageServer
  import Session

  function XorShift64(s: bv64): bv64 {
    var x := s ^ (s << 13);
    var y := x ^ (x >> 7);
    y ^ (y << 17)
  }

  function AsNat(s: bv64): nat {
    s as nat
  }

  function Mod(x: nat, i: nat): (j: nat)
    requires i > 0
    ensures j < i
  {
    x % i
  }

  /** The generator's step for the seed 1, and it never gets stuck at zero. */
  lemma XorShiftSample(s: bv64)
    ensures XorShift64(1) == 0x4082_2041
    ensures XorShift64(s) == 0 <==> s == 0
  {
  }

  datatype Pattern = Seq | Rand

  function Identity(n: nat): (ids: seq<nat>)
    ensures |ids| == n
  {
    seq(n, k requires 0 <= k => k)
  }

  /** The Fisher-Yates shuffle of the first i places, drawing from the generator in state s. */
  function Shuffled(order: seq<nat>, i: nat, s: bv64): (r: seq<nat>)
    requires i <= |order|
    ensures |r| == |order|
    decreases i
  {
    if i <= 1 then order
    else
      var s' := XorShift64(s);
      var j := Mod(AsNat(s'), i);
      Shuffled(order[i - 1 := order[j]][j := order[i - 1]], i - 1, s')
  }

  /** Each place from the top gets one of those not placed yet, at the index drawn for it; what is above is left alone. */
  lemma {:induction false} ShuffledDraws(order: seq<nat>, i: nat, s: bv64)
    requires i <= |order|
    ensures forall k :: i <= k < |order| ==> Shuffled(order, i, s)[k] == order[k]
    ensures i > 1 ==> Shuffled(order, i, s)[i - 1] == order[AsNat(XorShift64(s)) % i]
    decreases i
  {
    hide XorShift64, AsNat;
    if i > 1 {
      var s' := XorShift64(s);
      var j := Mod(AsNat(s'), i);
      ShuffledDraws(order[i - 1 := order[j]][j := order[i - 1]], i - 1, s');
    }
  }

  lemma IdentityPermutes(n: nat)
    ensures Permutes(Identity(n), Identity(n))
  {
  }

  lemma SwapAgain(was: seq<nat>, inv: seq<nat>, i: nat, j: nat) returns (next: seq<nat>)
    requires Permutes(was, inv) && i < |was| && j < |was|
    ensures Permutes(was[i := was[j]][j := was[i]], next)
  {
    SwapPermutes(was, inv, i, j);
    next := inv[was[i] := j][was[j] := i];
  }

  lemma ShuffledStep(order: seq<nat>, i: nat, s: bv64)
    requires 1 < i <= |order|
    ensures var j := Mod(AsNat(XorShift64(s)), i);
            Shuffled(order, i, s) == Shuffled(order[i - 1 := order[j]][j := order[i - 1]], i - 1, XorShift64(s))
  {
  }

  /** build_order: a permutation for every seed, and the shuffle the seed gives. */
  method BuildOrder(order: array<nat>, pat: Pattern, seed: bv64) returns (ghost inv: seq<nat>)
    modifies order
    ensures Permutes(order[..], inv)
    ensures order[..] == if pat.Seq? then Identity(order.Length) else Shuffled(Identity(order.Length), order.Length, seed)
  {
    hide XorShift64, AsNat, Mod, Permutes, Shuffled;
    var n := order.Length;
    for i := 0 to n
      invariant forall k :: 0 <= k < i ==> order[k] == k
    {
      order[i] := i;
    }
    inv := Identity(n);
    IdentityPermutes(n);
    assert order[..] == Identity(n);
    if pat.Seq? {
      return;
    }
    var s, i := seed, n;
    while i > 1
      invariant 0 <= i <= n && Permutes(order[..], inv)
      invariant Shuffled(order[..], i, s) == Shuffled(Identity(n), n, seed)
    {
      ghost var was := order[..];
      ShuffledStep(was, i, s);
      s := XorShift64(s);
      var j := Mod(AsNat(s), i);
      inv := SwapAgain(was, inv, i - 1, j);
      order[i - 1], order[j] := order[j], order[i - 1];
      assert order[..] == was[i - 1 := was[j]][j := was[i - 1]];
      i := i - 1;
    }
    ShuffledDone(order[..], i, s);
  }

  lemma ShuffledDone(order: seq<nat>, i: nat, s: bv64)
    requires i <= |order| && i <= 1
    ensures Shuffled(order, i, s) == order
  {
  }

  function Count(s: seq<bool>): nat {
    if s == [] then 0 else Count(s[1..]) + if s[0] then 1 else 0
  }

  lemma {:induction false} CountSet(s: seq<bool>, i: nat)
    requires i < |s| && !s[i]
    ensures Count(s[i := true]) == Count(s) + 1
  {
    if i > 0 {
      assert s[i := true][1..] == s[1..][i - 1 := true];
      CountSet(s[1..], i - 1);
    } else {
      assert s[i := true][1..] == s[1..];
    }
  }

  lemma {:induction false} CountUniform(s: seq<bool>, b: bool)
    requires forall k :: 0 <= k < |s| ==> s[k] == b
    ensures Count(s) == if b then |s| else 0
  {
    if s != [] {
      CountUniform(s[1..], b);
    }
  }

  const DIRTY_SALT: bv64 := 0x9e37_79b9_7f4a_7c15

  // Marks the first `wanted` pages of an order.
  method MarkFirst(dirty: array<bool>, order: seq<nat>, wanted: nat, ghost inv: seq<nat>)
    requires Permutes(order, inv) && |order| == dirty.Length && wanted <= dirty.Length
    requires forall k :: 0 <= k < dirty.Length ==> !dirty[k]
    modifies dirty
    ensures Count(dirty[..]) == wanted
    ensures forall p :: 0 <= p < dirty.Length ==> (dirty[p] <==> p in order[..wanted])
  {
    CountUniform(dirty[..], false);
    for i := 0 to wanted
      invariant Count(dirty[..]) == i
      invariant forall p :: 0 <= p < dirty.Length ==> (dirty[p] <==> inv[p] < i)
    {
      assert inv[order[i]] == i;
      CountSet(dirty[..], order[i]);
      ghost var was := dirty[..];
      dirty[order[i]] := true;
      assert dirty[..] == was[order[i] := true];
    }
    forall p | 0 <= p < dirty.Length ensures dirty[p] <==> p in order[..wanted] {
      assert order[inv[p]] == p;
      if p in order[..wanted] {
        var k :| 0 <= k < wanted && order[..wanted][k] == p;
        assert inv[order[k]] == k;
      }
      if inv[p] < wanted {
        assert order[..wanted][inv[p]] == p;
      }
    }
  }

  /** mark_dirty_set: exactly the wanted number of pages, the first of another shuffle; or all of them when the scratch
      array is refused. */
  method MarkDirtySet(dirty: array<bool>, wanted: nat, seed: bv64, scratch: bool)
    requires wanted <= dirty.Length
    modifies dirty
    ensures scratch || wanted == 0 || wanted == dirty.Length ==> Count(dirty[..]) == wanted
    ensures !scratch && wanted != 0 ==> Count(dirty[..]) == dirty.Length
    ensures scratch && 0 < wanted < dirty.Length ==>
              var order := Shuffled(Identity(dirty.Length), dirty.Length, seed ^ DIRTY_SALT);
              forall p :: 0 <= p < dirty.Length ==> (dirty[p] <==> p in order[..wanted])
  {
    hide XorShift64, Shuffled;
    var n := dirty.Length;
    for i := 0 to n
      invariant forall k :: 0 <= k < i ==> !dirty[k]
    {
      dirty[i] := false;
    }
    if wanted == 0 {
      CountUniform(dirty[..], false);
      return;
    }
    if wanted == n || !scratch {
      for i := 0 to n
        invariant forall k :: 0 <= k < i ==> dirty[k]
      {
        dirty[i] := true;
      }
      CountUniform(dirty[..], true);
      return;
    }
    var tmp := new nat[n];
    var inv := BuildOrder(tmp, Rand, seed ^ DIRTY_SALT);
    MarkFirst(dirty, tmp[..], wanted, inv);
  }

  // ---------------------------------------------------------------- the work

  function Xor(b: Byte, m: bv8): Byte {
    ((b as bv8) ^ m) as Byte
  }

  // What one pass does to one page.
  function Worked(page: Page, dirty: bool, pass: nat): Page {
    if dirty then page[0 := Xor(page[0], if pass == 1 then 0xA5 else 0x5A)] else page
  }

  /** A page after the given number of passes over a zeroed region. */
  function PageAfter(dirty: bool, passes: nat): Page {
    if passes == 0 then ZeroPage() else Worked(PageAfter(dirty, passes - 1), dirty, passes)
  }

  function RegionAfter(dirty: seq<bool>, passes: nat): seq<Page> {
    seq(|dirty|, i requires 0 <= i < |dirty| => PageAfter(dirty[i], passes))
  }

  lemma XorFacts()
    ensures Xor(0, 0xA5) == 0xA5 && Xor(0xA5, 0x5A) == 0xFF && Xor(0xFF, 0x5A) == 0xA5
  {
  }

  /** The bytes in closed form: a clean page is zero; a dirty one differs in its first byte only, which is 0xA5 after
      an odd and 0xFF after an even number of passes. */
  lemma {:induction false} PageAfterIs(dirty: bool, passes: nat)
    requires passes > 0
    ensures PageAfter(dirty, passes) ==
            if dirty then ZeroPage()[0 := if passes % 2 == 1 then 0xA5 else 0xFF] else ZeroPage()
  {
    hide Xor;
    XorFacts();
    if passes > 1 {
      PageAfterIs(dirty, passes - 1);
    }
  }

  // The region in the middle of a pass: the first k pages in order are done.
  ghost predicate MidPass(pages: seq<Page>, dirty: seq<bool>, inv: seq<nat>, pass: nat, k: nat)
    requires |dirty| == |inv|
  {
    && |pages| == |dirty|
    && forall i :: 0 <= i < |pages| ==>
         pages[i] == if inv[i] < k then PageAfter(dirty[i], pass + 1) else PageAfter(dirty[i], pass)
  }

  lemma PassDone(pages: seq<Page>, dirty: seq<bool>, order: seq<nat>, inv: seq<nat>, pass: nat)
    requires Permutes(order, inv) && |dirty| == |order| && MidPass(pages, dirty, inv, pass, |order|)
    ensures pages == RegionAfter(dirty, pass + 1)
    ensures MidPass(pages, dirty, inv, pass + 1, 0)
  {
  }

  lemma PassesStart(pages: seq<Page>, dirty: seq<bool>, inv: seq<nat>)
    requires |pages| == |dirty| == |inv| && forall i :: 0 <= i < |pages| ==> pages[i] == ZeroPage()
    ensures MidPass(pages, dirty, inv, 0, 0)
  {
  }

  // Working on the k-th page of the order.
  lemma PassStep(pages: seq<Page>, dirty: seq<bool>, order: seq<nat>, inv: seq<nat>, pass: nat, k: nat)
    requires Permutes(order, inv) && |dirty| == |order| && k < |order| && MidPass(pages, dirty, inv, pass, k)
    ensures order[k] < |pages|
            && MidPass(pages[order[k] := Worked(pages[order[k]], dirty[order[k]], pass + 1)], dirty, inv, pass, k + 1)
  {
    assert inv[order[k]] == k;
  }

  /** run_local: XOR passes over zeroed memory. */
  method RunLocal(mem: array<Page>, order: array<nat>, dirty: array<bool>, passes: nat, ghost inv: seq<nat>)
    requires Permutes(order[..], inv) && mem.Length == order.Length == dirty.Length && passes > 0
    modifies mem
    ensures mem[..] == RegionAfter(dirty[..], passes)
  {
    var n := mem.Length;
    for i := 0 to n
      invariant forall k :: 0 <= k < i ==> mem[k] == ZeroPage()
    {
      mem[i] := ZeroPage();
    }
    for pass := 0 to passes
      invariant MidPass(mem[..], dirty[..], inv, pass, 0)
      invariant pass > 0 ==> mem[..] == RegionAfter(dirty[..], pass)
    {
      for k := 0 to n
        invariant MidPass(mem[..], dirty[..], inv, pass, k)
      {
        PassStep(mem[..], dirty[..], order[..], inv, pass, k);
        var i := order[k];
        ghost var was := mem[..];
        if dirty[i] {
          mem[i] := mem[i][0 := Xor(mem[i][0], if pass + 1 == 1 then 0xA5 else 0x5A)];
        }
        assert mem[..] == was[i := Worked(was[i], dirty[i], pass + 1)];
      }
      PassDone(mem[..], dirty[..], order[..], inv, pass);
    }
  }

  /** run_rpc: the same passes by reading and writing whole pages of a fresh remote region. */
  method RunRpc(remote: Remote, order: array<nat>, dirty: array<bool>, passes: nat, answers: nat -> bool,
                fates: nat -> Fate, ghost inv: seq<nat>)
    returns (ok: bool)
    requires remote.Valid() && Permutes(order[..], inv) && remote.net.numPages == order.Length == dirty.Length && passes > 0
    requires forall i :: 0 <= i < |remote.Pages()| ==> remote.Pages()[i] == ZeroPage()
    modifies remote, remote.net.io
    ensures remote.Valid() && (ok ==> remote.Pages() == RegionAfter(dirty[..], passes))
    ensures (forall j: nat :: answers(j) && fates(j).Acked?) ==> ok
  {
    hide MidPass, PageAfter, RegionAfter, Remote.Valid, RegionPages;
    var n := order.Length;
    PassesStart(remote.Pages(), dirty[..], inv);
    for pass := 0 to passes
      invariant remote.Valid() && MidPass(remote.Pages(), dirty[..], inv, pass, 0)
      invariant pass > 0 ==> remote.Pages() == RegionAfter(dirty[..], pass)
    {
      for k := 0 to n
        invariant remote.Valid() && MidPass(remote.Pages(), dirty[..], inv, pass, k)
      {
        PassStep(remote.Pages(), dirty[..], order[..], inv, pass, k);
        var i := order[k];
        ghost var was := remote.Pages();
        var got, buf := remote.ReadPage(i, answers(pass * n + k));
        if !got {
          return false;
        }
        if dirty[i] {
          buf := buf[0 := Xor(buf[0], if pass + 1 == 1 then 0xA5 else 0x5A)];
          var put := remote.WritePage(i, buf, fates(pass * n + k));
          if !put {
            return false;
          }
        }
        assert remote.Pages() == was[i := Worked(was[i], dirty[i], pass + 1)];
      }
      PassDone(remote.Pages(), dirty[..], order[..], inv, pass);
    }
    ok := true;
  }

  // The pager holds the run r, in which nothing was flushed yet.
  ghost predicate Holds(p: DisaggPager, r: Run)
    reads p.remote, p.remote.net, p.mem, p.prot, p.meta
  {
    p.Mapped() && Inv(r) && p.State() == r.pager && (forall i :: 0 <= i < |r.stamp| ==> r.stamp[i].None?)
  }

  // One page of a pass through the pager: a load, and for a dirty page a byte read, changed and stored.
  method PagerVisit(p: DisaggPager, i: nat, dirty: bool, pass: nat, answered: bool, ghost r: Run)
    returns (ok: bool, ghost r': Run)
    requires Holds(p, r) && i < |r.flat| && p.bytes == |r.flat| * PAGE_SZ
    modifies p.mem, p.prot, p.meta, p.remote, p.remote.net.io
    ensures p.Mapped() && (ok ==> Holds(p, r') && r'.flat == r.flat[i := Worked(r.flat[i], dirty, pass)])
    ensures answered ==> ok
  {
    hide Xor, Remote.Valid, RegionPages;
    r' := r;
    var addr := i * PAGE_SZ;
    assert addr / PAGE_SZ == i && addr % PAGE_SZ == 0;
    var v;
    ok, v := p.Load(addr, answered);
    if !ok {
      return;
    }
    NextKeepsInv(r, Op.Load(i, 0));
    r' := Next(r, Op.Load(i, 0));
    assert v == r'.flat[i][0];
    if dirty {
      var x := Xor(v, if pass == 1 then 0xA5 else 0x5A);
      ok := p.Store(addr, x, answered);
      NextKeepsInv(r', Op.Store(i, 0, x));
      r' := Next(r', Op.Store(i, 0, x));
    }
  }

  // The passes through the pager.
  method PagerPasses(p: DisaggPager, order: array<nat>, dirty: array<bool>, passes: nat, answers: nat -> bool,
                     ghost inv: seq<nat>, ghost r: Run)
    returns (ok: bool, ghost r': Run)
    requires Holds(p, r) && Permutes(order[..], inv) && |r.flat| == order.Length == dirty.Length && passes > 0
    requires p.bytes == |r.flat| * PAGE_SZ && MidPass(r.flat, dirty[..], inv, 0, 0)
    modifies p.mem, p.prot, p.meta, p.remote, p.remote.net.io
    ensures p.Mapped() && (ok ==> Holds(p, r') && r'.flat == RegionAfter(dirty[..], passes))
    ensures (forall j: nat :: answers(j)) ==> ok
  {
    hide MidPass, RegionAfter, Worked, Inv, DisaggPager.Mapped, DisaggPager.State;
    var n := order.Length;
    r' := r;
    for pass := 0 to passes
      invariant Holds(p, r') && |r'.flat| == n && MidPass(r'.flat, dirty[..], inv, pass, 0)
      invariant pass > 0 ==> r'.flat == RegionAfter(dirty[..], pass)
    {
      for k := 0 to n
        invariant Holds(p, r') && |r'.flat| == n && MidPass(r'.flat, dirty[..], inv, pass, k)
      {
        PassStep(r'.flat, dirty[..], order[..], inv, pass, k);
        ok, r' := PagerVisit(p, order[k], dirty[order[k]], pass + 1, answers(pass * n + k), r');
        if !ok {
          return;
        }
      }
      PassDone(r'.flat, dirty[..], order[..], inv, pass);
    }
    ok := true;
  }

  /** run_pager: the same passes through the pager, then a flush. */
  method RunPager(remote: Remote, order: array<nat>, dirty: array<bool>, passes: nat, answers: nat -> bool,
                  fates: nat -> Fate, ghost inv: seq<nat>)
    returns (ok: bool)
    requires remote.Valid() && Permutes(order[..], inv) && remote.net.numPages == order.Length == dirty.Length && passes > 0
    requires forall i :: 0 <= i < |remote.Pages()| ==> remote.Pages()[i] == ZeroPage()
    modifies remote, remote.net.io
    ensures remote.Valid() && (ok ==> remote.Pages() == RegionAfter(dirty[..], passes))
    ensures (forall j: nat :: answers(j) && fates(j).Acked?) ==> ok
  {
    hide MidPass, RegionAfter, FlushFrom, Touch, PageOk, Valid, Remote.Valid, RegionPages;
    var p := new DisaggPager(remote, order.Length * PAGE_SZ);
    BeginInv(remote.Pages());
    PassesStart(remote.Pages(), dirty[..], inv);
    ghost var r := Begin(remote.Pages());
    ok, r := PagerPasses(p, order, dirty, passes, answers, inv, r);
    if !ok {
      return;
    }
    if forall j: nat :: answers(j) && fates(j).Acked? {
      FlushSucceedsIff(r.pager, 0, fates);
    }
    ok := p.Flush(fates);
    if ok {
      FlushSyncsIff(r, fates);
      FlushKeepsSize(r.pager, 0, fates);
    }
  }

  // ---------------------------------------------------------------- from the first byte to the last

  /** What the benchmark is meant to leave at a server whose lists were s: a new region with the bytes that the local
      passes leave, and nothing else changed. */
  ghost predicate Ends(s: PageServer.Store, s': PageServer.Store, dirty: seq<bool>, passes: nat)
    requires 0 < |dirty| && |dirty| * PAGE_SZ < U32
  {
    && OnlyRegion(PageServer.Alloc(s, |dirty| * PAGE_SZ), s', s.nextRegion, |dirty|)
    && RegionPages(s', s.nextRegion, |dirty|) == RegionAfter(dirty, passes)
  }

  lemma WholePages(n: nat)
    ensures PageServer.NumPages(n * PAGE_SZ) == n
  {
  }

  /** The rpc mode from connecting on: the calls made, as the server executes them, leave what they should. */
  method RpcMode(store: PageServer.Store, order: array<nat>, dirty: array<bool>, passes: nat, answers: nat -> bool,
                 fates: nat -> Fate, ghost inv: seq<nat>)
    returns (ok: bool, store': PageServer.Store, ghost calls: seq<Request>)
    requires Permutes(order[..], inv) && 0 < order.Length == dirty.Length && passes > 0
    ensures Session.AllWellFormed(calls) && store' == Session.After(store, calls)
    ensures ok ==> order.Length * PAGE_SZ < U32 && Ends(store, store', dirty[..], passes)
    ensures order.Length * PAGE_SZ < U32 && store.nextRegion != 0 && (forall j: nat :: answers(j) && fates(j).Acked?) ==> ok
  {
    hide RegionAfter, RegionPages, OnlyRegion, Session.After, PageServer.NumPages;
    var region := OpenRegion(store, order.Length * PAGE_SZ);
    WholePages(order.Length);
    if region.None? {
      Session.AfterNone(store);
      return false, store, [];
    }
    var remote := region.value;
    ok := RunRpc(remote, order, dirty, passes, answers, fates, inv);
    store', calls := remote.store, remote.calls;
  }

  /** The pager mode from connecting to the flush. */
  method PagerMode(store: PageServer.Store, order: array<nat>, dirty: array<bool>, passes: nat, answers: nat -> bool,
                   fates: nat -> Fate, ghost inv: seq<nat>)
    returns (ok: bool, store': PageServer.Store, ghost calls: seq<Request>)
    requires Permutes(order[..], inv) && 0 < order.Length == dirty.Length && passes > 0
    ensures Session.AllWellFormed(calls) && store' == Session.After(store, calls)
    ensures ok ==> order.Length * PAGE_SZ < U32 && Ends(store, store', dirty[..], passes)
    ensures order.Length * PAGE_SZ < U32 && store.nextRegion != 0 && (forall j: nat :: answers(j) && fates(j).Acked?) ==> ok
  {
    hide RegionAfter, RegionPages, OnlyRegion, Session.After, PageServer.NumPages;
    var region := OpenRegion(store, order.Length * PAGE_SZ);
    WholePages(order.Length);
    if region.None? {
      Session.AfterNone(store);
      return false, store, [];
    }
    var remote := region.value;
    ok := RunPager(remote, order, dirty, passes, answers, fates, inv);
    store', calls := remote.store, remote.calls;
  }

  /** So the modes leave servers that no later calls can tell apart: the same regions and pages with the same bytes, though
      the page lists may be in another order. */
  lemma ModesAgree(s: PageServer.Store, a: PageServer.Store, b: PageServer.Store, dirty: seq<bool>, passes: nat,
                   later: seq<Request>)
    requires 0 < |dirty| && |dirty| * PAGE_SZ < U32 && Ends(s, a, dirty, passes) && Ends(s, b, dirty, passes)
    requires Session.AllWellFormed(later)
    ensures PageHistory.SameView(a, b)
    ensures forall i :: 0 <= i < |later| ==> Session.Expected(a, later, i) == Session.Expected(b, later, i)
  {
    hide RegionAfter, PageServer.Data, PageServer.Known, PageServer.Alloc, Session.Expected;
    forall r: Word, p: Word | r == s.nextRegion && p < |dirty|
      ensures PageServer.Data(a, r, p) == PageServer.Data(b, r, p)
    {
      assert RegionPages(a, r, |dirty|)[p] == RegionPages(b, r, |dirty|)[p];
    }
    PageHistory.SameViewAnswers(a, b, later);
  }

  /** And so over the wire: under every interleaving and fragmentation of the bytes of those calls, once they are answered
      and the server has consumed what was sent, it holds just that. */
  lemma OverTheWire(s: PageServer.Store, calls: seq<Request>, steps: seq<Session.Step>, dirty: seq<bool>, passes: nat)
    requires 0 < |dirty| && |dirty| * PAGE_SZ < U32
    requires Session.AllWellFormed(calls) && Ends(s, Session.After(s, calls), dirty, passes)
    requires var n := Session.Run(Session.Fresh(s, calls), steps);
             n.client.Idle? && n.up == [] && |n.replies| == |calls|
    ensures Ends(s, Session.Run(Session.Fresh(s, calls), steps).srv.store, dirty, passes)
  {
    hide Ends, Session.Run, Session.After;
    Session.StaysAligned(s, calls, steps);
    assert calls[..|calls|] == calls;
  }
}
