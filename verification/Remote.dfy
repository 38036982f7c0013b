/** A region at the page server as the client uses it, over the byte protocol: what the client library sends is fed to the
    server's byte machine, and what that answers is what the library receives. */
module RemoteRegion {
  import opened Basics
  import opened Wire
  import opened PageServer
  import opened PageIO
  import opened Session
  import opened NetmemClient
  import opened PageHistory
  import opened PagerModel

  // The pages of a region, as the server holds them.
  function RegionPages(s: PageServer.Store, region: Word, n: Word): (pages: seq<Page>)
    ensures |pages| == n
  {
    seq(n, i requires 0 <= i < n => Data(s, region, i))
  }

  /** Since s only the first n pages of the region may have changed, and no page came or went. */
  ghost predicate OnlyRegion(s: PageServer.Store, s': PageServer.Store, region: Word, n: Word) {
    && s'.nextRegion == s.nextRegion
    && forall r: Word, p: Word ::
         (Known(s', r, p) <==> Known(s, r, p)) && (r != region || p >= n ==> Data(s', r, p) == Data(s, r, p))
  }

  lemma PutInRegion(s: PageServer.Store, s0: PageServer.Store, region: Word, n: Word, i: Word, data: Page)
    requires OnlyRegion(s0, s, region, n) && Known(s, region, i) && i < n
    ensures OnlyRegion(s0, Put(s, region, i, data), region, n)
    ensures RegionPages(Put(s, region, i, data), region, n) == RegionPages(s, region, n)[i := data]
  {
    hide Known, Data, Put;
    var s' := Put(s, region, i, data);
    forall r: Word, p: Word
      ensures Known(s', r, p) <==> Known(s, r, p)
      ensures Data(s', r, p) == if (r, p) == (region, i) then data else Data(s, r, p)
    {
      PutAt(s, region, i, data, r, p);
    }
    PutAt(s, region, i, data, region, i);
  }

  // The server on a write request of which only the first bytes arrive.
  lemma CutRequestFed(s: PageServer.Store, region: Word, i: Word, data: Page, n: nat)
    requires Known(s, region, i) && n <= HDR_SZ + PAGE_SZ
    ensures var f := FeedAll(Aligned(s), RequestFrame(WriteCall(region, i, data))[..n]);
            f.srv.store == if n < HDR_SZ then s else Put(s, region, i, Arrived(Data(s, region, i), data, n))
  {
    hide FeedAll, Put, Data, EncodeHdr, DecodeHdr;
    var q := WriteCall(region, i, data);
    var bs := RequestFrame(q)[..n];
    if n < HDR_SZ {
      FeedPartHeader(s, [], bs);
    } else {
      var hdr, buf := EncodeHdr(q.hdr), data[..n - HDR_SZ];
      assert bs == hdr + buf;
      HdrRoundTrip(q.hdr);
      assert [] + hdr == hdr;
      FeedHeader(s, [], hdr);
      FeedConcat(Aligned(s), hdr, buf);
      WriteFed(s, region, i, buf);
    }
  }

  class Remote {
    const net: Netmem
    var store: PageServer.Store      // the server's lists
    // The calls that reached the server since the lists were `start`, and the lists once the region was allocated.
    ghost const start: PageServer.Store
    ghost const initial: PageServer.Store
    ghost var calls: seq<Request>

    ghost predicate Valid()
      reads this, net
    {
      && net.regionId != 0
      && AllWellFormed(calls) && store == After(start, calls)
      && (forall i: Word :: i < net.numPages ==> Known(store, net.regionId, i))
      && OnlyRegion(initial, store, net.regionId, net.numPages)
    }

    ghost function Pages(): (pages: seq<Page>)
      reads this, net
      ensures |pages| == net.numPages
    {
      RegionPages(store, net.regionId, net.numPages)
    }

    constructor (net: Netmem, ghost start: PageServer.Store, store: PageServer.Store, ghost calls: seq<Request>)
      requires net.regionId != 0 && AllWellFormed(calls) && store == After(start, calls)
      requires forall i: Word :: i < net.numPages ==> Known(store, net.regionId, i)
      ensures Valid() && this.net == net && this.store == store && this.start == start && this.initial == store
    {
      this.net, this.store, this.start, this.initial, this.calls := net, store, start, store, calls;
    }

    /** netmem_read_page: it succeeds exactly when it is answered, and what is read is what the server holds. */
    method ReadPage(i: nat, answered: bool) returns (ok: bool, data: Page)
      requires Valid() && i < net.numPages
      modifies this`store, this`calls, net.io
      ensures Valid() && Pages() == old(Pages()) && (ok <==> answered) && (ok ==> data == Pages()[i])
    {
      hide FeedAll, Serve, Data, EncodeHdr, DecodeHdr, ReplyFrame, RequestFrame, After;
      var q := ReadCall(net.regionId, i);
      ReadServed(store, net.regionId, i);
      // The bytes that will arrive are the server's answer to the bytes that will be sent.
      net.io.inbox := [];
      if answered {
        ServeFrame(store, q);
        AfterSnoc(start, calls, q);
        CompleteReply(Serve(store, q).1, ReplyFrame(Serve(store, q).1));
        var f := FeedAll(Aligned(store), RequestFrame(q));
        net.io.inbox, store := f.sent, f.srv.store;
        calls := calls + [q];
      }
      ghost var outbox := net.io.outbox;
      ok, data := net.ReadPage(i);
      assert net.io.outbox == outbox + RequestFrame(q);
    }

    // The server receives a write request, or the first n bytes of one.
    method Receive(i: nat, data: Page, n: nat) returns (reply: seq<Byte>)
      requires Valid() && i < net.numPages && n <= HDR_SZ + PAGE_SZ
      modifies this`store, this`calls
      ensures Valid() && Pages() == old(Pages())[i := Arrived(old(Pages())[i], data, n)]
      ensures n == HDR_SZ + PAGE_SZ ==> reply == EncodeHdr(Hdr(OP_WRITE_PAGE, net.regionId, i, 0))
    {
      hide FeedAll, Serve, Data, EncodeHdr, RequestFrame, After, Put, Known;
      var q := WriteCall(net.regionId, i, data);
      FrameSize(q, data);
      ghost var was, now := Data(store, net.regionId, i), Arrived(Data(store, net.regionId, i), data, n);
      CutRequestFed(store, net.regionId, i, data, n);
      PutInRegion(store, initial, net.regionId, net.numPages, i, now);
      KnownStays(store, net.regionId, i, now);
      WriteServed(store, net.regionId, i, now);
      AfterSnoc(start, calls, WriteCall(net.regionId, i, now));
      var f := FeedAll(Aligned(store), RequestFrame(q)[..n]);
      if n == HDR_SZ + PAGE_SZ {
        ServeFrame(store, q);
        WriteServed(store, net.regionId, i, data);
        assert RequestFrame(q)[..n] == RequestFrame(q);
      }
      reply, store := f.sent, f.srv.store;
      if n >= HDR_SZ {
        calls := calls + [WriteCall(net.regionId, i, now)];
      } else {
        assert now == was;
      }
    }

    /** netmem_write_page, acknowledged or cut off after any number of bytes. */
    method WritePage(i: nat, data: Page, fate: Fate) returns (ok: bool)
      requires Valid() && i < net.numPages
      modifies this`store, this`calls, net.io
      ensures Valid() && (ok <==> fate.Acked?)
      ensures var was := old(Pages());
              Pages() == was[i := if fate.Acked? then data else Arrived(was[i], data, fate.arrived)]
    {
      hide Data, EncodeHdr, DecodeHdr, RequestFrame, After, Known;
      var whole := HDR_SZ + PAGE_SZ;
      ghost var was := Pages()[i];
      var n := if fate.Acked? || fate.arrived >= whole then whole else fate.arrived;
      assert Arrived(was, data, whole) == data;
      assert n == whole && fate.Lost? ==> Arrived(was, data, fate.arrived) == data;
      // The bytes that will arrive are the server's answer to the bytes that will be sent, unless it is lost.
      var reply := Receive(i, data, n);
      net.io.inbox := if fate.Acked? then reply else [];
      HdrRoundTrip(Hdr(OP_WRITE_PAGE, net.regionId, i, 0));
      assert fate.Acked? ==> net.io.inbox[..HDR_SZ] == EncodeHdr(Hdr(OP_WRITE_PAGE, net.regionId, i, 0));
      ghost var outbox := net.io.outbox;
      ok := net.WritePage(i, data);
      assert net.io.outbox == outbox + RequestFrame(WriteCall(net.regionId, i, data));
    }
  }

  // The region just allocated: its pages are known and zero.
  lemma AllocatedPages(s: PageServer.Store, bytes: Word)
    requires bytes > 0
    ensures var s' := Alloc(s, bytes);
            && NumPages(bytes) < U32
            && (forall i: Word :: i < NumPages(bytes) ==> Known(s', s.nextRegion, i))
            && (forall i: Word :: Data(s', s.nextRegion, i) == ZeroPage())
  {
    var s' := Alloc(s, bytes);
    assert FindRegion(s'.regions, s.nextRegion) == 0;
    forall i: Word ensures Data(s', s.nextRegion, i) == ZeroPage() {
      AllocKeepsIff(s, bytes, s.nextRegion, i);
    }
  }

  /** Connecting and allocating a region: refused exactly when the size needs more than 32 bits or the server's counter
      stands at zero; otherwise a region of zero pages. */
  method OpenRegion(store: PageServer.Store, bytes: nat) returns (r: Option<Remote>)
    ensures var b := if bytes == 0 then PAGE_SZ else bytes;
            && (r.Some? <==> b < U32 && store.nextRegion != 0)
            && (r.Some? ==>
                  var m := r.value;
                  && fresh(m) && fresh(m.net) && fresh(m.net.io) && m.Valid() && m.start == store
                  && m.initial == m.store == Alloc(store, b)
                  && m.net.regionId == store.nextRegion && m.net.numPages == NumPages(b)
                  && m.Pages() == seq(m.net.numPages, _ => ZeroPage()))
  {
    hide FeedAll, EncodeHdr, DecodeHdr, ReplyFrame, RequestFrame, After, Data, Known, NumPages, ZeroPage, FindRegion;
    var b := if bytes == 0 then PAGE_SZ else bytes;
    if b >= U32 {
      return None;
    }
    var q := AllocCall(b);
    ServeFrame(store, q);
    CompleteReply(Serve(store, q).1, ReplyFrame(Serve(store, q).1));
    AllocatedPages(store, b);
    AfterSnoc(store, [], q);
    assert After(store, []) == store by { AfterNone(store); }
    assert [] + [q] == [q];
    var f := FeedAll(Aligned(store), RequestFrame(q));
    var io := new Stream(f.sent);
    var net := new Netmem(io);
    var ok := net.AllocRegion(bytes);
    if !ok {
      return None;
    }
    var m := new Remote(net, store, f.srv.store, [q]);
    r := Some(m);
  }

  lemma FrameSize(q: Request, data: Page)
    requires q.payload == data
    ensures |RequestFrame(q)| == HDR_SZ + PAGE_SZ
  {
  }

  lemma KnownStays(s: PageServer.Store, region: Word, i: Word, data: Page)
    requires Known(s, region, i)
    ensures forall p: Word :: Known(s, region, p) ==> Known(Put(s, region, i, data), region, p)
  {
    forall p: Word | Known(s, region, p) ensures Known(Put(s, region, i, data), region, p) {
      PutAt(s, region, i, data, region, p);
    }
  }

  lemma ReadServed(s: PageServer.Store, region: Word, i: Word)
    requires Known(s, region, i) && region != 0
    ensures Serve(s, ReadCall(region, i)) == (s, Reply(Hdr(OP_READ_PAGE, region, i, PAGE_SZ), Data(s, region, i)))
  {
  }

  lemma WriteServed(s: PageServer.Store, region: Word, i: Word, data: Page)
    requires Known(s, region, i)
    ensures Serve(s, WriteCall(region, i, data)) ==
            (Put(s, region, i, data), Reply(Hdr(OP_WRITE_PAGE, region, i, 0), []))
  {
  }
}
