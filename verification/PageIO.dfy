/** The programs at the two ends of a connection: the full-read and full-write loops, the server loop over its
    lists, and the client calls. */
module PageIO {
  import opened Wire
  import opened PageServer

  function Min(a: nat, b: nat): nat {
    if a < b then a else b
  }

  /** One end of a connection: the bytes that will still arrive before the peer closes, and the bytes sent. */
  class Stream {
    var inbox: seq<Byte>
    var outbox: seq<Byte>

    constructor (inbox: seq<Byte>)
      ensures this.inbox == inbox && outbox == []
    {
      this.inbox, outbox := inbox, [];
    }

    // recv: some of the bytes that have arrived, at least one unless the peer has closed.
    method Recv(n: nat) returns (r: seq<Byte>)
      requires n > 0
      modifies this`inbox
      ensures old(inbox) == r + inbox && |r| <= n
      ensures old(inbox) != [] ==> r != []
    {
      if inbox == [] {
        return [];
      }
      var k :| 0 < k <= n && k <= |inbox|;
      r := inbox[..k];
      inbox := inbox[k..];
    }

    // send: some of the bytes offered, at least one.
    method Send(bs: seq<Byte>) returns (k: nat)
      requires bs != []
      modifies this`outbox
      ensures 0 < k <= |bs| && outbox == old(outbox) + bs[..k]
    {
      k :| 0 < k <= |bs|;
      outbox := outbox + bs[..k];
    }

    /** read_full: the next n bytes, or everything up to the close. */
    method ReadFull(n: nat) returns (buf: seq<Byte>)
      modifies this`inbox
      ensures old(inbox) == buf + inbox && |buf| == Min(n, |old(inbox)|)
    {
      buf := [];
      while |buf| < n
        invariant |buf| <= n && old(inbox) == buf + inbox
        decreases n - |buf|
      {
        var r := Recv(n - |buf|);
        if r == [] {
          return;
        }
        buf := buf + r;
      }
    }

    /** write_full: all of the bytes. */
    method WriteFull(bs: seq<Byte>)
      modifies this`outbox
      ensures outbox == old(outbox) + bs
    {
      var sent := 0;
      while sent < |bs|
        invariant sent <= |bs| && outbox == old(outbox) + bs[..sent]
      {
        var k := Send(bs[sent..]);
        assert bs[..sent] + bs[sent..][..k] == bs[..sent + k];
        sent := sent + k;
      }
      assert bs[..sent] == bs;
    }

    // The drain loop: discards n bytes in chunks of at most 512.
    method Drain(n: nat) returns (done: bool)
      modifies this`inbox
      ensures done <==> n <= |old(inbox)|
      ensures inbox == old(inbox)[Min(n, |old(inbox)|)..]
    {
      var remain: nat := n;
      while remain > 0
        invariant remain <= n
        invariant n - remain <= |old(inbox)| && inbox == old(inbox)[n - remain..]
      {
        var chunk := if remain > 512 then 512 else remain;
        var buf := ReadFull(chunk);
        if |buf| < chunk {
          assert inbox == [] && Min(n, |old(inbox)|) == |old(inbox)|;
          return false;
        }
        remain := remain - chunk;
      }
      assert remain == 0 && inbox == old(inbox)[n..] && Min(n, |old(inbox)|) == n;
      done := true;
    }
  }

  class MemServer {
    var regions: seq<Region>
    var nextRegion: Word

    function Contents(): Store
      reads this
    {
      Store(regions, nextRegion)
    }

    method LookupRegion(id: Word) returns (i: nat)
      ensures i == FindRegion(regions, id)
    {
      i := 0;
      while i < |regions|
        invariant i <= |regions| && forall j :: 0 <= j < i ==> regions[j].id != id
      {
        if regions[i].id == id {
          return;
        }
        i := i + 1;
      }
    }

    method LookupPage(pages: seq<PageNode>, idx: Word) returns (i: nat)
      ensures i == FindPage(pages, idx)
    {
      i := 0;
      while i < |pages|
        invariant i <= |pages| && forall j :: 0 <= j < i ==> pages[j].idx != idx
      {
        if pages[i].idx == idx {
          return;
        }
        i := i + 1;
      }
    }

    method SendHdr(io: Stream, op: Word, region: Word, page: Word, len: Word)
      modifies io`outbox
      ensures io.outbox == old(io.outbox) + EncodeHdr(Hdr(op, region, page, len))
    {
      io.WriteFull(EncodeHdr(Hdr(op, region, page, len)));
    }

    // get_or_create_page: the list position of the node for a page of the i-th region.
    method GetOrCreatePage(i: nat, page: Word) returns (k: nat)
      requires i < |regions|
      modifies this`regions
      ensures regions == old(regions)[i := old(regions[i]).(pages := Created(old(regions[i]).pages, page))]
      ensures k == FindPage(regions[i].pages, page) < |regions[i].pages|
    {
      k := LookupPage(regions[i].pages, page);
      if k == |regions[i].pages| {
        regions := regions[i := regions[i].(pages := [PageNode(page, ZeroPage())] + regions[i].pages)];
        k := 0;
      } else {
        assert regions == regions[i := regions[i].(pages := regions[i].pages)];
      }
    }

    // The part of handle_client that reads the payload of an accepted write straight into the page node.
    method ReceivePage(io: Stream, id: Word, i: nat, page: Word) returns (buf: seq<Byte>)
      requires i == FindRegion(regions, id) < |regions| && page < regions[i].numPages
      modifies this`regions, io`inbox, io`outbox
      ensures old(io.inbox) == buf + io.inbox && |buf| == Min(PAGE_SZ, |old(io.inbox)|)
      ensures Contents() == Put(old(Contents()), id, page, buf + Data(old(Contents()), id, page)[|buf|..])
      ensures io.outbox ==
              old(io.outbox) + if |buf| == PAGE_SZ then EncodeHdr(Hdr(OP_WRITE_PAGE, id, page, 0)) else []
    {
      ghost var s, pages := Contents(), regions[i].pages;
      var k := GetOrCreatePage(i, page);
      CreatedData(pages, page);
      buf := io.ReadFull(PAGE_SZ);
      var r := regions[i];
      var data := buf + r.pages[k].data[|buf|..];
      regions := regions[i := r.(pages := r.pages[k := PageNode(page, data)])];
      assert Contents().regions == Put(s, id, page, data).regions;
      if |buf| == PAGE_SZ {
        SendHdr(io, OP_WRITE_PAGE, id, page, 0);
      }
    }

    method AllocRegion(io: Stream, len: Word)
      modifies this, io`outbox
      ensures Contents() == Alloc(old(Contents()), len)
      ensures io.outbox == old(io.outbox) + EncodeHdr(Hdr(OP_ALLOC_REGION, old(nextRegion), 0, 0))
    {
      var bytes := if len == 0 then PAGE_SZ else len;
      regions := [Region(nextRegion, NumPages(bytes), [])] + regions;
      SendHdr(io, OP_ALLOC_REGION, nextRegion, 0, 0);
      nextRegion := (nextRegion + 1) % U32;
    }

    // An error reply, followed by draining the payload of a write.
    method Refuse(io: Stream, h: Hdr) returns (open: bool, ghost payload: seq<Byte>)
      modifies io
      ensures old(io.inbox) == payload + io.inbox
      ensures io.outbox == old(io.outbox) + EncodeHdr(Hdr(h.op, 0, 0, 0))
      ensures |payload| <= (if h.op == OP_WRITE_PAGE then h.len else 0)
      ensures if open then h.op == OP_WRITE_PAGE ==> |payload| == h.len
              else h.op == OP_WRITE_PAGE && |payload| < h.len && io.inbox == []
    {
      SendHdr(io, h.op, 0, 0, 0);
      open, payload := true, [];
      if h.op == OP_WRITE_PAGE {
        ghost var rest := io.inbox;
        open := io.Drain(h.len);   // a cut-off drain makes the next header read find the connection closed
        payload := rest[..Min(h.len, |rest|)];
      }
    }

    // The loop body of handle_client after the header.
    method Handle(io: Stream, h: Hdr) returns (open: bool, ghost payload: seq<Byte>)
      modifies this, io
      ensures old(io.inbox) == payload + io.inbox
      ensures var f := Dispatch(old(Contents()), h);
              var g := FeedAll(f.srv, payload);
              && io.outbox == old(io.outbox) + (f.sent + g.sent)
              && g.srv.store == Contents()
              && (if open then g.srv == Aligned(Contents()) else io.inbox == [])
    {
      hide EncodeHdr, FeedAll, Put;
      ghost var s := Contents();
      open, payload := true, [];
      FedNone(Dispatch(s, h).srv);
      if h.op == OP_ALLOC_REGION {
        AllocRegion(io, h.len);
        return;
      }
      var i := LookupRegion(h.region);
      if i == |regions| || h.page >= regions[i].numPages || (h.op == OP_WRITE_PAGE && h.len != PAGE_SZ) {
        open, payload := Refuse(io, h);
        if payload != [] && open {
          FeedDrain(s, payload);
        } else if h.op == OP_WRITE_PAGE && !open {
          FeedPartDrain(s, h.len, payload);
        }
      } else if h.op == OP_READ_PAGE && h.len == PAGE_SZ {
        SendHdr(io, OP_READ_PAGE, regions[i].id, h.page, PAGE_SZ);
        var k := LookupPage(regions[i].pages, h.page);
        io.WriteFull(if k < |regions[i].pages| then regions[i].pages[k].data else ZeroPage());
      } else if h.op == OP_WRITE_PAGE {
        var buf := ReceivePage(io, h.region, i, h.page);
        payload := buf;
        open := |buf| == PAGE_SZ;
        WriteFed(s, h.region, h.page, buf);
      } else {
        SendHdr(io, h.op, 0, 0, 0);
      }
    }

    // One round of handle_client: a header and what belongs to it.
    method ServeNext(io: Stream) returns (open: bool, ghost consumed: seq<Byte>)
      modifies this, io
      ensures old(io.inbox) == consumed + io.inbox
      ensures var f := FeedAll(Aligned(old(Contents())), consumed);
              && io.outbox == old(io.outbox) + f.sent
              && f.srv.store == Contents()
              && (if open then f.srv == Aligned(Contents()) && consumed != [] else io.inbox == [])
    {
      hide Dispatch, DecodeHdr, FeedAll;
      ghost var s := Contents();
      var net := io.ReadFull(HDR_SZ);
      assert [] + net == net;
      if |net| < HDR_SZ {
        FeedPartHeader(s, [], net);
        return false, net;
      }
      FeedHeader(s, [], net);
      ghost var payload;
      open, payload := Handle(io, DecodeHdr(net));
      FeedConcat(Aligned(s), net, payload);
      consumed := net + payload;
    }

    /** handle_client.  Whatever the peer sends until it closes, the server does to its lists and answers what the
        byte machine does; a write cut off by the close leaves its page written in part. */
    method HandleClient(io: Stream)
      modifies this, io
      ensures io.inbox == []
      ensures var f := FeedAll(Aligned(old(Contents())), old(io.inbox));
              io.outbox == old(io.outbox) + f.sent && Contents() == f.srv.store
    {
      hide FeedAll;
      ghost var s := Contents();
      ghost var done: seq<Byte> := [];
      FedNone(Aligned(s));
      var open := true;
      while open
        invariant old(io.inbox) == done + io.inbox
        invariant var f := FeedAll(Aligned(s), done);
                  && io.outbox == old(io.outbox) + f.sent
                  && f.srv.store == Contents()
                  && (if open then f.srv == Aligned(Contents()) else io.inbox == [])
        decreases |io.inbox|, open
      {
        ghost var consumed;
        open, consumed := ServeNext(io);
        FeedConcat(Aligned(s), done, consumed);
        done := done + consumed;
      }
      assert done == old(io.inbox);
    }
  }

  // The byte machine on the payload of an accepted write, complete or cut short.
  lemma WriteFed(s: Store, id: Word, page: Word, buf: seq<Byte>)
    requires Known(s, id, page) && |buf| <= PAGE_SZ
    ensures var d := Data(s, id, page);
            var f := FeedAll(Server(Put(s, id, page, d), InPayload(id, page, 0)), buf);
            && f.srv.store == Put(s, id, page, buf + d[|buf|..])
            && (|buf| == PAGE_SZ ==> f == Fed(Aligned(Put(s, id, page, buf + d[|buf|..])),
              EncodeHdr(Hdr(OP_WRITE_PAGE, id, page, 0))))
            && (|buf| < PAGE_SZ ==> f.sent == [])
  {
    hide FeedAll, Put, Data, Known, EncodeHdr;
    var d := Data(s, id, page);
    var s1 := Put(s, id, page, d);
    PutAt(s, id, page, d, id, page);
    PutTwice(s, id, page, d, d);
    PutTwice(s, id, page, d, buf + d[|buf|..]);
    if |buf| < PAGE_SZ {
      FeedPartPayload(s1, id, page, 0, buf);
      assert d[..0] + buf + d[0 + |buf|..] == buf + d[|buf|..];
    } else {
      FeedPayload(s1, id, page, 0, buf);
      assert d[..0] + buf == buf + d[|buf|..];
    }
  }

  lemma CreatedData(pages: seq<PageNode>, idx: Word)
    ensures var ps := Created(pages, idx);
            FindPage(ps, idx) < |ps| && ps[FindPage(ps, idx)].data == PageData(pages, idx)
  {
    if FindPage(pages, idx) == |pages| {
      var ps := Created(pages, idx);
      assert ps[0] == PageNode(idx, ZeroPage()) && ps[1..] == pages;
    }
  }
}
