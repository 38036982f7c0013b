/** What the page store remembers, told from the history of calls alone: a read returns the last acknowledged
    write to that page, or zeros. */
module PageHistory {
  import opened Wire
  import opened PageServer
  import opened Session

  function Bytes(len: Word): nat {
    if len == 0 then PAGE_SZ else len
  }

  // The page counts of the regions allocated by the calls, in order.
  function Allocated(calls: seq<Request>): seq<nat> {
    if calls == [] then []
    else
      var before, h := Allocated(calls[..|calls| - 1]), calls[|calls| - 1].hdr;
      if h.op == OP_ALLOC_REGION then before + [NumPages(Bytes(h.len))] else before
  }

  /** Which of n allocations id r means: the counter is 32 bits wide, so the n-th has id n mod 2^32, and the latest one
      with that id is found first.  Zero if there is none. */
  function Latest(n: nat, r: Word): (k: nat)
    ensures k <= n && (k > 0 ==> k % U32 == r) && forall j :: k < j <= n ==> j % U32 != r
  {
    if n == 0 || n % U32 == r then n else Latest(n - 1, r)
  }

  predicate InRange(calls: seq<Request>, r: Word, p: Word) {
    var k := Latest(|Allocated(calls)|, r);
    k > 0 && p < Allocated(calls)[k - 1]
  }

  // The call is a write to page p of region r that the server accepts after the calls before it.
  predicate AcceptedWrite(before: seq<Request>, q: Request, r: Word, p: Word) {
    q.hdr == Hdr(OP_WRITE_PAGE, r, p, PAGE_SZ) && InRange(before, r, p)
  }

  // The call is an allocation that is given id r.
  predicate Allocates(before: seq<Request>, q: Request, r: Word) {
    q.hdr.op == OP_ALLOC_REGION && (|Allocated(before)| + 1) % U32 == r
  }

  // The last accepted write to the page since its region was last allocated.
  function LastWrite(calls: seq<Request>, r: Word, p: Word): Page
    requires AllWellFormed(calls)
  {
    if calls == [] then ZeroPage()
    else
      var before, q := calls[..|calls| - 1], calls[|calls| - 1];
      if AcceptedWrite(before, q, r, p) then q.payload
      else if Allocates(before, q, r) then ZeroPage()
      else LastWrite(before, r, p)
  }

  const EMPTY_STORE: Store := Store([], 1)

  // The region list holds the allocations newest first, with the ids the counter gave them.
  ghost predicate Listed(s: Store, sizes: seq<nat>) {
    && |s.regions| == |sizes|
    && s.nextRegion == (|sizes| + 1) % U32
    && (forall j :: 0 <= j < |sizes| ==>
          s.regions[j].id == (|sizes| - j) % U32 && s.regions[j].numPages == sizes[|sizes| - 1 - j])
  }

  lemma ListedKnown(s: Store, sizes: seq<nat>, r: Word, p: Word)
    requires Listed(s, sizes)
    ensures var k := Latest(|sizes|, r); Known(s, r, p) <==> k > 0 && p < sizes[k - 1]
  {
    var k, i := Latest(|sizes|, r), FindRegion(s.regions, r);
    if k > 0 {
      assert s.regions[|sizes| - k].id == r;
      assert i == |sizes| - k;
    }
  }

  lemma KnownIff(s: Store, calls: seq<Request>, r: Word, p: Word)
    requires Listed(s, Allocated(calls))
    ensures Known(s, r, p) <==> InRange(calls, r, p)
  {
    hide Known, Listed, Latest;
    ListedKnown(s, Allocated(calls), r, p);
  }

  lemma NextId(n: nat)
    ensures (n % U32 + 1) % U32 == (n + 1) % U32
  {
  }

  lemma AllocListed(s: Store, sizes: seq<nat>, len: Word)
    requires Listed(s, sizes)
    ensures Listed(Alloc(s, len), sizes + [NumPages(Bytes(len))])
  {
    hide FindRegion, FindPage, NumPages;
    var s' := Alloc(s, len);
    NextId(|sizes| + 1);
    assert forall j :: 0 < j < |s'.regions| ==> s'.regions[j] == s.regions[j - 1];
  }

  /** An allocation leaves a page as it was exactly when it does not reuse the page's region id, or the page was zero
      anyway. */
  lemma AllocKeepsIff(s: Store, len: Word, r: Word, p: Word)
    ensures Data(Alloc(s, len), r, p) == if r == s.nextRegion then ZeroPage() else Data(s, r, p)
    ensures Data(Alloc(s, len), r, p) == Data(s, r, p) <==> r != s.nextRegion || Data(s, r, p) == ZeroPage()
  {
    var s' := Alloc(s, len);
    assert s'.regions[1..] == s.regions;
    if r == s.nextRegion {
      assert FindRegion(s'.regions, r) == 0;
    } else {
      assert FindRegion(s'.regions, r) == 1 + FindRegion(s.regions, r);
    }
  }

  lemma PutListed(s: Store, sizes: seq<nat>, id: Word, page: Word, data: Page)
    requires Listed(s, sizes)
    ensures Listed(Put(s, id, page, data), sizes)
  {
  }

  // One call, seen from the allocations before it.
  lemma ServeListed(s: Store, sizes: seq<nat>, q: Request, r: Word, p: Word)
    requires WellFormed(q) && Listed(s, sizes)
    ensures var s', h := Serve(s, q).0, q.hdr;
            && Listed(s', if h.op == OP_ALLOC_REGION then sizes + [NumPages(Bytes(h.len))] else sizes)
            && Data(s', r, p) ==
               if h == Hdr(OP_WRITE_PAGE, r, p, PAGE_SZ) && Known(s, r, p) then q.payload
               else if h.op == OP_ALLOC_REGION && (|sizes| + 1) % U32 == r then ZeroPage()
               else Data(s, r, p)
  {
    hide Known, Data, Put, Alloc, ZeroPage, NumPages;
    var h := q.hdr;
    if h.op == OP_ALLOC_REGION {
      AllocListed(s, sizes, h.len);
      AllocKeepsIff(s, h.len, r, p);
    } else if Known(s, h.region, h.page) && h.op == OP_WRITE_PAGE && h.len == PAGE_SZ {
      PutListed(s, sizes, h.region, h.page, q.payload);
      PutAt(s, h.region, h.page, q.payload, r, p);
    }
  }

  /** After any calls the store is what their history says, however many regions were allocated. */
  lemma {:induction false} StoreIsHistory(calls: seq<Request>, r: Word, p: Word)
    requires AllWellFormed(calls)
    ensures var s := After(EMPTY_STORE, calls);
            Listed(s, Allocated(calls)) && (Known(s, r, p) <==> InRange(calls, r, p))
              && Data(s, r, p) == LastWrite(calls, r, p)
  {
    if calls == [] {
      assert Listed(EMPTY_STORE, []);
    } else {
      hide Known, Data, Serve, Listed, ZeroPage, WellFormed, NumPages, InRange;
      var before, q := calls[..|calls| - 1], calls[|calls| - 1];
      StoreIsHistory(before, r, p);
      ServeListed(After(EMPTY_STORE, before), Allocated(before), q, r, p);
      KnownIff(After(EMPTY_STORE, calls), calls, r, p);
    }
  }

  /** Reads see the last acknowledged write.  After any calls, reading page p of region r is refused exactly when no
      region has that id or the page is out of range of the latest one that has it, and otherwise returns the last
      write accepted since that region was allocated, or zeros. */
  lemma ReadReturnsLastWrite(calls: seq<Request>, r: Word, p: Word)
    requires AllWellFormed(calls)
    ensures Serve(After(EMPTY_STORE, calls), ReadCall(r, p)).1 ==
            if InRange(calls, r, p) then Reply(Hdr(OP_READ_PAGE, r, p, PAGE_SZ), LastWrite(calls, r, p))
            else Reply(Hdr(OP_READ_PAGE, 0, 0, 0), [])
  {
    hide Known, Data, Alloc, Put, Latest;
    StoreIsHistory(calls, r, p);
  }

  // ---------------------------------------------------------------- how long a write lasts

  /** The allocation after number k that is given the same id is number k + 2^32. */
  lemma SameIdIff(k: nat, n: nat, n': nat, r: Word)
    requires n <= n' && k == Latest(n, r) > 0
    ensures Latest(n', r) == k <==> n' < k + U32
  {
    assert (k + U32) % U32 == k % U32;
    if n' < k + U32 {
      forall j | k < j <= n' ensures j % U32 != r {
        SameRemainder(k, j);
      }
    }
  }

  lemma SameRemainder(k: nat, j: nat)
    requires k < j < k + U32
    ensures j % U32 != k % U32
  {
  }

  lemma LatestNext(n: nat, r: Word)
    ensures Latest(n + 1, r) == if (n + 1) % U32 == r then n + 1 else Latest(n, r)
  {
  }

  lemma LatestBound(n: nat, r: Word)
    ensures Latest(n, r) <= n
  {
  }

  // None of the later calls is a write to the page that is accepted.
  ghost predicate Unwritten(calls: seq<Request>, more: seq<Request>, r: Word, p: Word) {
    forall i :: 0 <= i < |more| ==> !AcceptedWrite(calls + more[..i], more[i], r, p)
  }

  lemma {:induction false} PrefixAllocated(calls: seq<Request>, more: seq<Request>)
    ensures Allocated(calls) <= Allocated(calls + more)
    decreases |more|
  {
    if more == [] {
      assert calls + more == calls;
    } else {
      var n := |more| - 1;
      assert (calls + more)[..|calls + more| - 1] == calls + more[..n];
      PrefixAllocated(calls, more[..n]);
    }
  }

  lemma {:induction false} LaterCalls(calls: seq<Request>, more: seq<Request>, r: Word, p: Word)
    requires AllWellFormed(calls + more) && AllWellFormed(calls) && Unwritten(calls, more, r, p)
    ensures var n, n' := |Allocated(calls)|, |Allocated(calls + more)|;
            LastWrite(calls + more, r, p) == if Latest(n', r) == Latest(n, r) then LastWrite(calls, r, p) else ZeroPage()
    decreases |more|
  {
    hide ZeroPage, NumPages, WellFormed, Latest, InRange;
    if more == [] {
      assert calls + more == calls;
    } else {
      var m := |more| - 1;
      var before := calls + more[..m];
      assert (calls + more)[..|calls + more| - 1] == before && (calls + more)[|calls + more| - 1] == more[m];
      assert forall i :: 0 <= i < m ==> more[..m][..i] == more[..i] && more[..m][i] == more[i];
      LaterCalls(calls, more[..m], r, p);
      PrefixAllocated(calls, more[..m]);
      LatestNext(|Allocated(before)|, r);
      LatestBound(|Allocated(calls)|, r);
    }
  }

  /** How long a page written stays readable.  With no later write to it accepted, a read returns it exactly as long as
      fewer than 2^32 regions were allocated since its own, itself included; after that only a page of zeros that the
      new region with the same id also has reads the same. */
  lemma WriteLastsIff(calls: seq<Request>, more: seq<Request>, r: Word, p: Word)
    requires AllWellFormed(calls + more) && AllWellFormed(calls) && InRange(calls, r, p) && Unwritten(calls, more, r, p)
    ensures Serve(After(EMPTY_STORE, calls + more), ReadCall(r, p)).1 ==
              Reply(Hdr(OP_READ_PAGE, r, p, PAGE_SZ), LastWrite(calls, r, p)) <==>
            || |Allocated(calls + more)| < Latest(|Allocated(calls)|, r) + U32
            || (LastWrite(calls, r, p) == ZeroPage() && InRange(calls + more, r, p))
  {
    hide Serve, ZeroPage, WellFormed, Latest, After;
    var n, n' := |Allocated(calls)|, |Allocated(calls + more)|;
    ReadReturnsLastWrite(calls + more, r, p);
    LaterCalls(calls, more, r, p);
    PrefixAllocated(calls, more);
    SameIdIff(Latest(n, r), n, n', r);
  }

  const ALLOC_ONE: Request := Request(Hdr(OP_ALLOC_REGION, 0, 0, PAGE_SZ), [])

  function Allocations(n: nat): seq<Request> {
    seq(n, _ => ALLOC_ONE)
  }

  lemma {:induction false} CountAllocations(calls: seq<Request>, n: nat)
    ensures |Allocated(calls + Allocations(n))| == |Allocated(calls)| + n
    decreases n
  {
    var all := calls + Allocations(n);
    if n == 0 {
      assert all == calls;
    } else {
      assert all[..|all| - 1] == calls + Allocations(n - 1) && all[|all| - 1] == ALLOC_ONE;
      CountAllocations(calls, n - 1);
    }
  }

  /** A write that is lost: a page is allocated and written, then 2^32 more pages are allocated; reading it no longer
      returns what was written unless that was zeros. */
  lemma WrapLosesWrite(data: Page)
    requires data != ZeroPage()
    ensures var calls := [ALLOC_ONE, Request(Hdr(OP_WRITE_PAGE, 1, 0, PAGE_SZ), data)];
            && InRange(calls, 1, 0) && AllWellFormed(calls) && LastWrite(calls, 1, 0) == data
            && Serve(After(EMPTY_STORE, calls + Allocations(U32)), ReadCall(1, 0)).1 !=
               Reply(Hdr(OP_READ_PAGE, 1, 0, PAGE_SZ), data)
  {
    hide ZeroPage, Serve, After;
    var w := Request(Hdr(OP_WRITE_PAGE, 1, 0, PAGE_SZ), data);
    var calls := [ALLOC_ONE, w];
    assert calls[..|calls| - 1] == [ALLOC_ONE] && calls[|calls| - 1] == w;
    assert [ALLOC_ONE][..|[ALLOC_ONE]| - 1] == [] && Allocated([]) == [];
    assert Allocated([ALLOC_ONE]) == [1];
    assert Allocated(calls) == Allocated([ALLOC_ONE]);
    assert Latest(1, 1) == 1;
    assert InRange([ALLOC_ONE], 1, 0) && AcceptedWrite(calls[..1], w, 1, 0);
    CountAllocations(calls, U32);
    WriteLastsIff(calls, Allocations(U32), 1, 0);
  }

  // ---------------------------------------------------------------- what calls can tell

  /** The same regions and pages with the same bytes; the lists may be in another order. */
  ghost predicate SameView(a: Store, b: Store) {
    && a.nextRegion == b.nextRegion
    && forall r: Word, p: Word :: (Known(a, r, p) <==> Known(b, r, p)) && Data(a, r, p) == Data(b, r, p)
  }

  lemma AllocKnown(s: Store, len: Word, r: Word, p: Word)
    ensures Known(Alloc(s, len), r, p) <==> if r == s.nextRegion then p < NumPages(Bytes(len)) else Known(s, r, p)
  {
    var s' := Alloc(s, len);
    assert s'.regions[1..] == s.regions;
    if r == s.nextRegion {
      assert FindRegion(s'.regions, r) == 0;
    } else {
      assert FindRegion(s'.regions, r) == 1 + FindRegion(s.regions, r);
    }
  }

  /** The pages of a new region: those that begin within the bytes asked for, where none asked for means one page. */
  lemma AllocRoom(s: Store, len: Word, p: Word)
    ensures Known(Alloc(s, len), s.nextRegion, p) <==> p * PAGE_SZ < if len == 0 then PAGE_SZ else len
  {
    hide Known, Alloc;
    AllocKnown(s, len, s.nextRegion, p);
  }

  // One call is answered the same and leaves the same view.
  lemma SameViewServes(a: Store, b: Store, q: Request)
    requires SameView(a, b) && WellFormed(q)
    ensures Serve(a, q).1 == Serve(b, q).1 && SameView(Serve(a, q).0, Serve(b, q).0)
  {
    hide Known, Data, Alloc, Put, ZeroPage, NumPages;
    var a', b', h := Serve(a, q).0, Serve(b, q).0, q.hdr;
    assert Known(a, h.region, h.page) <==> Known(b, h.region, h.page);
    if h.op == OP_ALLOC_REGION {
      AllocCounts(a, b, h.len);
      forall r: Word, p: Word ensures (Known(a', r, p) <==> Known(b', r, p)) && Data(a', r, p) == Data(b', r, p) {
        AllocKnown(a, h.len, r, p);
        AllocKnown(b, h.len, r, p);
        AllocKeepsIff(a, h.len, r, p);
        AllocKeepsIff(b, h.len, r, p);
      }
    } else if Known(a, h.region, h.page) && h.op == OP_WRITE_PAGE && h.len == PAGE_SZ {
      PutAt(a, h.region, h.page, q.payload, h.region, h.page);
      PutAt(b, h.region, h.page, q.payload, h.region, h.page);
      forall r: Word, p: Word ensures (Known(a', r, p) <==> Known(b', r, p)) && Data(a', r, p) == Data(b', r, p) {
        PutAt(a, h.region, h.page, q.payload, r, p);
        PutAt(b, h.region, h.page, q.payload, r, p);
      }
    }
  }

  lemma AllocCounts(a: Store, b: Store, len: Word)
    requires a.nextRegion == b.nextRegion
    ensures Alloc(a, len).nextRegion == Alloc(b, len).nextRegion
  {
  }

  /** So no sequence of calls can tell the two apart. */
  lemma {:induction false} SameViewAnswers(a: Store, b: Store, calls: seq<Request>)
    requires SameView(a, b) && AllWellFormed(calls)
    ensures SameView(After(a, calls), After(b, calls))
    ensures forall i :: 0 <= i < |calls| ==> Expected(a, calls, i) == Expected(b, calls, i)
    decreases |calls|
  {
    hide SameView, Serve;
    if calls != [] {
      var n := |calls| - 1;
      SameViewAnswers(a, b, calls[..n]);
      SameViewServes(After(a, calls[..n]), After(b, calls[..n]), calls[n]);
      forall i | 0 <= i < n ensures Expected(a, calls, i) == Expected(b, calls, i) {
        assert calls[..n][..i] == calls[..i] && calls[..n][i] == calls[i];
        assert Expected(a, calls[..n], i) == Expected(b, calls[..n], i);
      }
    }
  }
}
