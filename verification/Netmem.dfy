/** The client calls on a connection to the page server. */
module NetmemClient {
  import opened Wire
  import opened PageServer
  import opened PageIO

  class Netmem {
    var io: Stream
    var regionId: Word
    var regionBytes: nat
    var numPages: Word

    // netmem_connect: no region yet.
    constructor (io: Stream)
      ensures this.io == io && regionId == 0 && numPages == 0 && regionBytes == 0
    {
      this.io, regionId, regionBytes, numPages := io, 0, 0, 0;
    }

    // The reply header, if the peer sends a whole one.
    method ReadHdr() returns (ok: bool, h: Hdr)
      modifies io`inbox
      ensures ok <==> |old(io.inbox)| >= HDR_SZ
      ensures ok ==> h == DecodeHdr(old(io.inbox)[..HDR_SZ]) && io.inbox == old(io.inbox)[HDR_SZ..]
      ensures !ok ==> io.inbox == []
    {
      var buf := io.ReadFull(HDR_SZ);
      if |buf| < HDR_SZ {
        return false, Hdr(0, 0, 0, 0);
      }
      assert buf == old(io.inbox)[..HDR_SZ];
      ok, h := true, DecodeHdr(buf);
    }

    /** netmem_alloc_region: a region of more than 2^32 - 1 bytes is refused without a call; otherwise one call is
        made and the fields are set exactly when a region id comes back. */
    method AllocRegion(bytes: nat) returns (ok: bool)
      modifies this`regionId, this`regionBytes, this`numPages, io
      ensures var b := if bytes == 0 then PAGE_SZ else bytes;
              && (b >= U32 ==> !ok && unchanged(io))
              && (b < U32 ==> io.outbox == old(io.outbox) + RequestFrame(AllocCall(b)))
              && (ok <==> b < U32 && |old(io.inbox)| >= HDR_SZ
                          && DecodeHdr(old(io.inbox)[..HDR_SZ]).op == OP_ALLOC_REGION
                          && DecodeHdr(old(io.inbox)[..HDR_SZ]).region != 0)
              && (ok ==> regionId == DecodeHdr(old(io.inbox)[..HDR_SZ]).region
                         && regionBytes == b && numPages == NumPages(b) && io.inbox == old(io.inbox)[HDR_SZ..])
              && (!ok ==> unchanged(this))
    {
      var b := if bytes == 0 then PAGE_SZ else bytes;
      if b > 0xFFFF_FFFF {
        return false;
      }
      io.WriteFull(EncodeHdr(Hdr(OP_ALLOC_REGION, 0, 0, b)));
      assert RequestFrame(AllocCall(b)) == EncodeHdr(Hdr(OP_ALLOC_REGION, 0, 0, b));
      var got, rep := ReadHdr();
      if !got || rep.op != OP_ALLOC_REGION || rep.region == 0 {
        return false;
      }
      regionId, regionBytes, numPages := rep.region, b, NumPages(b);
      ok := true;
    }

    /** netmem_read_page: the page is what follows a matching reply header. */
    method ReadPage(page: Word) returns (ok: bool, data: Page)
      modifies io
      ensures regionId == 0 || page >= numPages ==> !ok && unchanged(io)
      ensures regionId != 0 && page < numPages ==>
                && io.outbox == old(io.outbox) + RequestFrame(ReadCall(regionId, page))
                && (ok <==> |old(io.inbox)| >= HDR_SZ + PAGE_SZ
                            && DataFollows(ReadCall(regionId, page).hdr, DecodeHdr(old(io.inbox)[..HDR_SZ])))
      ensures ok ==> data == old(io.inbox)[HDR_SZ..HDR_SZ + PAGE_SZ] && io.inbox == old(io.inbox)[HDR_SZ + PAGE_SZ..]
    {
      hide EncodeHdr, DecodeHdr;
      ok, data := false, ZeroPage();
      if regionId == 0 || page >= numPages {
        return;
      }
      ghost var inbox := io.inbox;
      io.WriteFull(EncodeHdr(Hdr(OP_READ_PAGE, regionId, page, PAGE_SZ)));
      assert RequestFrame(ReadCall(regionId, page)) == EncodeHdr(Hdr(OP_READ_PAGE, regionId, page, PAGE_SZ));
      var got, rep := ReadHdr();
      if !got || rep != Hdr(OP_READ_PAGE, regionId, page, PAGE_SZ) {
        return;
      }
      var buf := io.ReadFull(PAGE_SZ);
      if |buf| == PAGE_SZ {
        assert inbox[HDR_SZ..][..PAGE_SZ] == inbox[HDR_SZ..HDR_SZ + PAGE_SZ];
        assert inbox[HDR_SZ..][PAGE_SZ..] == inbox[HDR_SZ + PAGE_SZ..];
        ok, data := true, buf;
      }
    }

    /** netmem_write_page: acknowledged by a reply header that names the page. */
    method WritePage(page: Word, data: Page) returns (ok: bool)
      modifies io
      ensures regionId == 0 || page >= numPages ==> !ok && unchanged(io)
      ensures regionId != 0 && page < numPages ==>
                && io.outbox == old(io.outbox) + RequestFrame(WriteCall(regionId, page, data))
                && (ok <==> |old(io.inbox)| >= HDR_SZ
                            && var h := DecodeHdr(old(io.inbox)[..HDR_SZ]);
                               h.op == OP_WRITE_PAGE && h.region == regionId && h.page == page)
      ensures ok ==> io.inbox == old(io.inbox)[HDR_SZ..]
    {
      if regionId == 0 || page >= numPages {
        return false;
      }
      io.WriteFull(EncodeHdr(Hdr(OP_WRITE_PAGE, regionId, page, PAGE_SZ)));
      io.WriteFull(data);
      var got, rep := ReadHdr();
      ok := got && rep.op == OP_WRITE_PAGE && rep.region == regionId && rep.page == page;
    }
  }

  /** The client believes the server: on the reply of a server whose store is s, allocating, reading and writing
      succeed exactly when the server did what was asked. */
  lemma AcceptedIffServed(s: Store, region: Word, page: Word, data: Page, bytes: Word)
    requires region != 0
    ensures var r := Serve(s, ReadCall(region, page)).1;
            DataFollows(ReadCall(region, page).hdr, r.hdr) == Known(s, region, page)
            && (Known(s, region, page) ==> r.data == Data(s, region, page))
    ensures var (s', r) := Serve(s, WriteCall(region, page, data));
            (r.hdr.region == region && r.hdr.page == page <==> Known(s, region, page))
            && (Known(s, region, page) ==> Data(s', region, page) == data)
            && (!Known(s, region, page) ==> s' == s)
    ensures var (s', r) := Serve(s, AllocCall(bytes));
            r.hdr.region == s.nextRegion && (s.nextRegion != 0 ==> Known(s', s.nextRegion, 0))
  {
    hide Data, Put;
    if Known(s, region, page) {
      PutAt(s, region, page, data, region, page);
    }
    var s' := Serve(s, AllocCall(bytes)).0;
    assert s'.regions[0].id == s.nextRegion;
    assert FindRegion(s'.regions, s.nextRegion) == 0;
  }
}
