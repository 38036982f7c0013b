/** The page server: its region and page lists, what one request does to them, and the server as a
    machine that consumes the connection byte by byte.  Lists are sequences with the newest node first. */
module PageServer {
  import opened Wire

  datatype PageNode = PageNode(idx: Word, data: Page)
  datatype Region = Region(id: Word, numPages: nat, pages: seq<PageNode>)
  datatype Store = Store(regions: seq<Region>, nextRegion: Word)

  /** The first node whose key matches, as the list walks of find_region and find_page see it. */
  function FindRegion(regions: seq<Region>, id: Word): (i: nat)
    ensures i <= |regions|
    ensures i < |regions| ==> regions[i].id == id
    ensures forall j :: 0 <= j < i ==> regions[j].id != id
  {
    if regions == [] then 0
    else if regions[0].id == id then 0
    else 1 + FindRegion(regions[1..], id)
  }

  function FindPage(pages: seq<PageNode>, idx: Word): (i: nat)
    ensures i <= |pages|
    ensures i < |pages| ==> pages[i].idx == idx
    ensures forall j :: 0 <= j < i ==> pages[j].idx != idx
  {
    if pages == [] then 0
    else if pages[0].idx == idx then 0
    else 1 + FindPage(pages[1..], idx)
  }

  // The contents of a page; a page without a node reads as zeros.
  function PageData(pages: seq<PageNode>, idx: Word): Page {
    var i := FindPage(pages, idx);
    if i < |pages| then pages[i].data else ZeroPage()
  }

  // get_or_create_page: a zeroed node is pushed when there is none.
  function Created(pages: seq<PageNode>, idx: Word): seq<PageNode> {
    if FindPage(pages, idx) < |pages| then pages else [PageNode(idx, ZeroPage())] + pages
  }

  // Storing a whole page into its node.
  function PutPage(pages: seq<PageNode>, idx: Word, data: Page): seq<PageNode> {
    var ps := Created(pages, idx);
    var i := FindPage(ps, idx);
    if i < |ps| then ps[i := PageNode(idx, data)] else ps
  }

  function Put(s: Store, id: Word, page: Word, data: Page): Store {
    var i := FindRegion(s.regions, id);
    if i == |s.regions| then s
    else
      var r := s.regions[i];
      s.(regions := s.regions[i := r.(pages := PutPage(r.pages, page, data))])
  }

  function Data(s: Store, id: Word, page: Word): Page {
    var i := FindRegion(s.regions, id);
    if i == |s.regions| then ZeroPage() else PageData(s.regions[i].pages, page)
  }

  // The least number of pages that hold the bytes.
  function NumPages(bytes: nat): (n: nat)
    ensures bytes <= n * PAGE_SZ && (n > 0 ==> (n - 1) * PAGE_SZ < bytes)
  {
    (bytes + PAGE_SZ - 1) / PAGE_SZ
  }

  function Alloc(s: Store, len: Word): Store {
    var bytes := if len == 0 then PAGE_SZ else len;
    Store([Region(s.nextRegion, NumPages(bytes), [])] + s.regions, (s.nextRegion + 1) % U32)
  }

  // The page exists: its region is known and the index is in range.
  predicate Known(s: Store, id: Word, page: Word) {
    var i := FindRegion(s.regions, id);
    i < |s.regions| && page < s.regions[i].numPages
  }

  function Refusal(op: Word): Reply {
    Reply(Hdr(op, 0, 0, 0), [])
  }

  /** What a whole request does to the store and what is answered. */
  function Serve(s: Store, q: Request): (Store, Reply)
    requires WellFormed(q)
  {
    var h := q.hdr;
    if h.op == OP_ALLOC_REGION then (Alloc(s, h.len), Reply(Hdr(OP_ALLOC_REGION, s.nextRegion, 0, 0), []))
    else if !Known(s, h.region, h.page) then (s, Refusal(h.op))
    else if h.op == OP_READ_PAGE && h.len == PAGE_SZ then
      (s, Reply(Hdr(OP_READ_PAGE, h.region, h.page, PAGE_SZ), Data(s, h.region, h.page)))
    else if h.op == OP_WRITE_PAGE && h.len == PAGE_SZ then
      (Put(s, h.region, h.page, q.payload), Reply(Hdr(OP_WRITE_PAGE, h.region, h.page, 0), []))
    else (s, Refusal(h.op))
  }

  // The request is one the server carries out.
  predicate Accepts(s: Store, h: Hdr) {
    h.op == OP_ALLOC_REGION || (Known(s, h.region, h.page) && h.op in {OP_READ_PAGE, OP_WRITE_PAGE} && h.len == PAGE_SZ)
  }

  /** Every reply names the operation asked for.  A request that is not carried out gets zeros and changes nothing; one
      that is gets the region and, for a page, the page, with the page's bytes after a read only. */
  lemma RepliesName(s: Store, q: Request)
    requires WellFormed(q)
    ensures var (s', r) := Serve(s, q);
            && r.hdr.op == q.hdr.op
            && (if !Accepts(s, q.hdr) then s' == s && r == Reply(Hdr(q.hdr.op, 0, 0, 0), [])
                else if q.hdr.op == OP_ALLOC_REGION then r == Reply(Hdr(q.hdr.op, s.nextRegion, 0, 0), [])
                else
                  && (r.hdr.region, r.hdr.page) == (q.hdr.region, q.hdr.page)
                  && (if q.hdr.op == OP_READ_PAGE then s' == s && r.hdr.len == PAGE_SZ == |r.data|
                      else r.hdr.len == 0 == |r.data|))
  {
    hide Known, Data, Put, Alloc;
  }

  // ---------------------------------------------------------------- the server as a byte machine

  /** Where handle_client is blocked in read_full. */
  datatype Phase =
    | InHdr(got: seq<Byte>)                              // reading a header
    | InPayload(region: Word, page: Word, fill: nat)     // reading a page straight into its node
    | Draining(remain: nat)                              // discarding the payload of a refused write

  datatype Server = Server(store: Store, phase: Phase)

  function Aligned(s: Store): Server {
    Server(s, InHdr([]))
  }

  /** The server after some input, and the bytes it sent meanwhile. */
  datatype Fed = Fed(srv: Server, sent: seq<Byte>)

  // The loop body of handle_client after the header has arrived, up to its next read.
  function Dispatch(s: Store, h: Hdr): Fed {
    if h.op == OP_ALLOC_REGION then
      Fed(Aligned(Alloc(s, h.len)), EncodeHdr(Hdr(OP_ALLOC_REGION, s.nextRegion, 0, 0)))
    else if !Known(s, h.region, h.page) || (h.op == OP_WRITE_PAGE && h.len != PAGE_SZ) then
      Fed(if h.op == OP_WRITE_PAGE && h.len > 0 then Server(s, Draining(h.len)) else Aligned(s),
          EncodeHdr(Hdr(h.op, 0, 0, 0)))
    else if h.op == OP_READ_PAGE && h.len == PAGE_SZ then
      Fed(Aligned(s), EncodeHdr(Hdr(OP_READ_PAGE, h.region, h.page, PAGE_SZ)) + Data(s, h.region, h.page))
    else if h.op == OP_WRITE_PAGE then
      Fed(Server(Put(s, h.region, h.page, Data(s, h.region, h.page)), InPayload(h.region, h.page, 0)), [])
    else Fed(Aligned(s), EncodeHdr(Hdr(h.op, 0, 0, 0)))
  }

  // One received byte, and the bytes the server then sends before it reads again.
  function Feed(v: Server, b: Byte): Fed {
    match v.phase
    case InHdr(got) =>
      if |got| + 1 == HDR_SZ then Dispatch(v.store, DecodeHdr(got + [b]))
      else Fed(v.(phase := InHdr(got + [b])), [])
    case InPayload(r, p, fill) =>
      if fill >= PAGE_SZ then Fed(v, [])
      else
        var s := Put(v.store, r, p, Data(v.store, r, p)[fill := b]);
        if fill + 1 == PAGE_SZ then Fed(Aligned(s), EncodeHdr(Hdr(OP_WRITE_PAGE, r, p, 0)))
        else Fed(Server(s, InPayload(r, p, fill + 1)), [])
    case Draining(n) =>
      Fed(if n <= 1 then Aligned(v.store) else v.(phase := Draining(n - 1)), [])
  }

  function FeedAll(v: Server, bs: seq<Byte>): Fed
    decreases |bs|
  {
    if bs == [] then Fed(v, [])
    else
      var f := Feed(v, bs[0]);
      var g := FeedAll(f.srv, bs[1..]);
      Fed(g.srv, f.sent + g.sent)
  }

  /** Fragmentation does not matter: feeding two pieces is feeding their concatenation. */
  lemma {:induction false} FeedConcat(v: Server, a: seq<Byte>, b: seq<Byte>)
    ensures var f := FeedAll(v, a);
            var g := FeedAll(f.srv, b);
            FeedAll(v, a + b) == Fed(g.srv, f.sent + g.sent)
    decreases |a|
  {
    hide Feed;
    if a == [] {
      assert a + b == b;
    } else {
      assert (a + b)[1..] == a[1..] + b;
      FeedConcat(Feed(v, a[0]).srv, a[1..], b);
    }
  }

  lemma {:induction false} FeedHeader(s: Store, got: seq<Byte>, bs: seq<Byte>)
    requires |got| + |bs| == HDR_SZ && bs != []
    ensures FeedAll(Server(s, InHdr(got)), bs) == Dispatch(s, DecodeHdr(got + bs))
    decreases |bs|
  {
    hide Dispatch, DecodeHdr;
    if |bs| == 1 {
      assert bs[1..] == [] && got + bs == got + [bs[0]];
      assert FeedAll(Feed(Server(s, InHdr(got)), bs[0]).srv, []).sent == [];
    } else {
      assert got + bs == (got + [bs[0]]) + bs[1..];
      FeedHeader(s, got + [bs[0]], bs[1..]);
    }
  }

  lemma {:induction false} FeedDrain(s: Store, bs: seq<Byte>)
    requires bs != []
    ensures FeedAll(Server(s, Draining(|bs|)), bs) == Fed(Aligned(s), [])
    decreases |bs|
  {
    if |bs| == 1 {
      assert bs[1..] == [];
    } else {
      FeedDrain(s, bs[1..]);
    }
  }

  // A connection that ends early leaves the server inside the read it was in.
  lemma {:induction false} FeedPartHeader(s: Store, got: seq<Byte>, bs: seq<Byte>)
    requires |got| + |bs| < HDR_SZ
    ensures FeedAll(Server(s, InHdr(got)), bs) == Fed(Server(s, InHdr(got + bs)), [])
    decreases |bs|
  {
    if bs == [] {
      assert got + bs == got;
    } else {
      assert got + bs == (got + [bs[0]]) + bs[1..];
      FeedPartHeader(s, got + [bs[0]], bs[1..]);
    }
  }

  lemma {:induction false} FeedPartDrain(s: Store, n: nat, bs: seq<Byte>)
    requires |bs| < n
    ensures FeedAll(Server(s, Draining(n)), bs) == Fed(Server(s, Draining(n - |bs|)), [])
    decreases |bs|
  {
    if bs != [] {
      FeedPartDrain(s, n - 1, bs[1..]);
    }
  }

  // ---------------------------------------------------------------- the lists as a map

  lemma PutPageAt(pages: seq<PageNode>, idx: Word, data: Page, p: Word)
    ensures PageData(PutPage(pages, idx, data), p) == if p == idx then data else PageData(pages, p)
    ensures FindPage(PutPage(pages, idx, data), idx) < |PutPage(pages, idx, data)|
  {
    var ps := Created(pages, idx);
    if FindPage(pages, idx) == |pages| {
      assert ps[0] == PageNode(idx, ZeroPage()) && ps[1..] == pages;
    }
    var qs := PutPage(pages, idx, data);
    var i := FindPage(ps, idx);
    assert qs == ps[i := PageNode(idx, data)];
    assert forall j :: 0 <= j < |ps| ==> qs[j].idx == ps[j].idx;
    assert FindPage(qs, p) == FindPage(ps, p);
    assert p != idx ==> PageData(ps, p) == PageData(pages, p);
  }

  lemma PutPageTwice(pages: seq<PageNode>, idx: Word, a: Page, b: Page)
    ensures PutPage(PutPage(pages, idx, a), idx, b) == PutPage(pages, idx, b)
  {
    PutPageAt(pages, idx, a, idx);
    var ps := Created(pages, idx);
    if FindPage(pages, idx) == |pages| {
      assert ps[0] == PageNode(idx, ZeroPage()) && ps[1..] == pages;
    }
    var i := FindPage(ps, idx);
    var qs := ps[i := PageNode(idx, a)];
    assert forall j :: 0 <= j < |ps| ==> qs[j].idx == ps[j].idx;
    assert FindPage(qs, idx) == i;
  }

  lemma SameIds(a: seq<Region>, b: seq<Region>, id: Word)
    requires |a| == |b| && forall j :: 0 <= j < |a| ==> a[j].id == b[j].id
    ensures FindRegion(a, id) == FindRegion(b, id)
  {
    var i, j := FindRegion(a, id), FindRegion(b, id);
    assert i < |a| ==> b[i].id == id;
    assert j < |b| ==> a[j].id == id;
  }

  /** A write changes the page it names and nothing else. */
  lemma PutAt(s: Store, id: Word, page: Word, data: Page, r: Word, p: Word)
    requires Known(s, id, page)
    ensures var s' := Put(s, id, page, data);
            && s'.nextRegion == s.nextRegion
            && (Known(s', r, p) <==> Known(s, r, p))
            && (Data(s', r, p) == if (r, p) == (id, page) then data else Data(s, r, p))
  {
    var s' := Put(s, id, page, data);
    var i := FindRegion(s.regions, id);
    SameIds(s.regions, s'.regions, r);
    PutPageAt(s.regions[i].pages, page, data, p);
  }

  lemma PutTwice(s: Store, id: Word, page: Word, a: Page, b: Page)
    ensures Put(Put(s, id, page, a), id, page, b) == Put(s, id, page, b)
  {
    var i := FindRegion(s.regions, id);
    if i < |s.regions| {
      SameIds(s.regions, Put(s, id, page, a).regions, id);
      PutPageTwice(s.regions[i].pages, page, a, b);
      var x, y := Put(Put(s, id, page, a), id, page, b), Put(s, id, page, b);
      assert x.regions == y.regions;
    }
  }

  // ---------------------------------------------------------------- one whole request

  lemma {:induction false} FeedPayload(s: Store, r: Word, p: Word, fill: nat, bs: seq<Byte>)
    requires Known(s, r, p) && fill + |bs| == PAGE_SZ && bs != []
    ensures FeedAll(Server(s, InPayload(r, p, fill)), bs) ==
            Fed(Aligned(Put(s, r, p, Data(s, r, p)[..fill] + bs)), EncodeHdr(Hdr(OP_WRITE_PAGE, r, p, 0)))
    decreases |bs|
  {
    hide Dispatch, Put, Data, Known, EncodeHdr;
    var was, d := Data(s, r, p), Data(s, r, p)[fill := bs[0]];
    var s1 := Put(s, r, p, d);
    PutAt(s, r, p, d, r, p);
    if |bs| == 1 {
      assert bs[1..] == [];
      assert d == was[..fill] + bs;
    } else {
      FeedPayload(s1, r, p, fill + 1, bs[1..]);
      assert d[..fill + 1] + bs[1..] == was[..fill] + bs;
      PutTwice(s, r, p, d, was[..fill] + bs);
    }
  }

  lemma {:induction false} FeedPartPayload(s: Store, r: Word, p: Word, fill: nat, bs: seq<Byte>)
    requires Known(s, r, p) && fill + |bs| < PAGE_SZ
    requires s == Put(s, r, p, Data(s, r, p))
    ensures FeedAll(Server(s, InPayload(r, p, fill)), bs) ==
            Fed(Server(Put(s, r, p, Data(s, r, p)[..fill] + bs + Data(s, r, p)[fill + |bs|..]),
              InPayload(r, p, fill + |bs|)), [])
    decreases |bs|
  {
    hide Dispatch, Put, Data, Known, EncodeHdr;
    var was := Data(s, r, p);
    if bs == [] {
      assert was[..fill] + bs + was[fill..] == was;
    } else {
      var d := was[fill := bs[0]];
      var s1 := Put(s, r, p, d);
      PutAt(s, r, p, d, r, p);
      PutTwice(s, r, p, d, d);
      FeedPartPayload(s1, r, p, fill + 1, bs[1..]);
      var end := was[..fill] + bs + was[fill + |bs|..];
      assert d[..fill + 1] + bs[1..] + d[fill + 1 + |bs[1..]|..] == end;
      PutTwice(s, r, p, d, end);
    }
  }

  /** Framing.  From a header boundary the server consumes exactly one request frame, answers with exactly one
      reply frame and is at a header boundary again, whatever the request says: allocations, reads, writes,
      refused requests with or without payload, and unknown operations. */
  lemma ServeFrame(s: Store, q: Request)
    requires WellFormed(q)
    ensures FeedAll(Aligned(s), RequestFrame(q)) == Fed(Aligned(Serve(s, q).0), ReplyFrame(Serve(s, q).1))
  {
    hide FeedAll, Put, Data, Known, EncodeHdr, DecodeHdr, Dispatch, Serve, Alloc;
    var h := q.hdr;
    HdrRoundTrip(h);
    assert [] + EncodeHdr(h) == EncodeHdr(h);
    FeedHeader(s, [], EncodeHdr(h));
    FeedConcat(Aligned(s), EncodeHdr(h), q.payload);
    ServePayload(s, q);
  }

  // The rest of the frame, after the header.
  lemma ServePayload(s: Store, q: Request)
    requires WellFormed(q)
    ensures var f := Dispatch(s, q.hdr);
            var g := FeedAll(f.srv, q.payload);
            g.srv == Aligned(Serve(s, q).0) && f.sent + g.sent == ReplyFrame(Serve(s, q).1)
  {
    hide FeedAll, Put, Data, Known, EncodeHdr, Alloc;
    var h, f := q.hdr, Dispatch(s, q.hdr);
    if q.payload == [] {
      FedNone(f.srv);
    } else if f.srv.phase.Draining? {
      FeedDrain(s, q.payload);
    } else {
      var d := Data(s, h.region, h.page);
      PutAt(s, h.region, h.page, d, h.region, h.page);
      FeedPayload(f.srv.store, h.region, h.page, 0, q.payload);
      assert d[..0] + q.payload == q.payload;
      PutTwice(s, h.region, h.page, d, q.payload);
    }
  }

  lemma FedNone(v: Server)
    ensures FeedAll(v, []) == Fed(v, [])
  {
  }
}
