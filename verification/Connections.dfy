/** The page server over its connections, one after the other, each of them any bytes up to the close.  A write that is
    cut off in its payload leaves the part that arrived, and later connections see it. */
module Connections {
  import opened Wire
  import opened PageServer
  import opened Session
  import opened PageHistory
  import opened PageIO

  // ---------------------------------------------------------------- what a connection's bytes say

  // Where the request at the front of the bytes ends, by its header.
  function FrameEnd(bs: seq<Byte>): nat
    requires |bs| >= HDR_SZ
  {
    var h := DecodeHdr(bs[..HDR_SZ]);
    HDR_SZ + if h.op == OP_WRITE_PAGE then h.len else 0
  }

  predicate WholeFirst(bs: seq<Byte>) {
    |bs| >= HDR_SZ && |bs| >= FrameEnd(bs)
  }

  function First(bs: seq<Byte>): (q: Request)
    requires WholeFirst(bs)
    ensures WellFormed(q)
  {
    Request(DecodeHdr(bs[..HDR_SZ]), bs[HDR_SZ..FrameEnd(bs)])
  }

  // The whole requests among the bytes, and what follows the last of them.
  function Requests(bs: seq<Byte>): (qs: seq<Request>)
    ensures AllWellFormed(qs)
    decreases |bs|
  {
    if WholeFirst(bs) then [First(bs)] + Requests(bs[FrameEnd(bs)..]) else []
  }

  function Remainder(bs: seq<Byte>): (rest: seq<Byte>)
    ensures !WholeFirst(rest)
    decreases |bs|
  {
    if WholeFirst(bs) then Remainder(bs[FrameEnd(bs)..]) else bs
  }

  // The remainder is a write to a page that the calls before it left in range.
  predicate CutWrite(before: seq<Request>, rest: seq<Byte>) {
    |rest| >= HDR_SZ && var h := DecodeHdr(rest[..HDR_SZ]); AcceptedWrite(before, Request(h, []), h.region, h.page)
  }

  // The page as it is when the connection closes: the bytes that arrived, and behind them what was there.
  function Mixed(before: seq<Request>, rest: seq<Byte>): Page
    requires AllWellFormed(before) && CutWrite(before, rest) && |rest| < HDR_SZ + PAGE_SZ
  {
    var h := DecodeHdr(rest[..HDR_SZ]);
    rest[HDR_SZ..] + LastWrite(before, h.region, h.page)[|rest| - HDR_SZ..]
  }

  /** The calls the connections amount to: the whole requests, and for a write that was cut off a write of the mixed
      page. */
  function History(conns: seq<seq<Byte>>): (calls: seq<Request>)
    ensures AllWellFormed(calls)
  {
    if conns == [] then []
    else
      var last := conns[|conns| - 1];
      var before := History(conns[..|conns| - 1]) + Requests(last);
      before + CutCalls(before, Remainder(last))
  }

  function CutCalls(before: seq<Request>, rest: seq<Byte>): (calls: seq<Request>)
    requires AllWellFormed(before) && !WholeFirst(rest)
    ensures AllWellFormed(calls)
  {
    if CutWrite(before, rest) then
      var h := DecodeHdr(rest[..HDR_SZ]);
      [WriteCall(h.region, h.page, Mixed(before, rest))]
    else []
  }

  /** The server's lists after it has handled the connections in turn. */
  function Served(s: Store, conns: seq<seq<Byte>>): Store {
    if conns == [] then s
    else FeedAll(Aligned(Served(s, conns[..|conns| - 1])), conns[|conns| - 1]).srv.store
  }

  // ---------------------------------------------------------------- one connection

  lemma {:induction false} AfterConcat(s: Store, a: seq<Request>, b: seq<Request>)
    requires AllWellFormed(a) && AllWellFormed(b)
    ensures AllWellFormed(a + b) && After(s, a + b) == After(After(s, a), b)
    decreases |b|
  {
    if b == [] {
      assert a + b == a;
    } else {
      assert (a + b)[..|a + b| - 1] == a + b[..|b| - 1];
      AfterConcat(s, a, b[..|b| - 1]);
    }
  }

  lemma FrontFrame(bs: seq<Byte>)
    requires WholeFirst(bs)
    ensures bs == RequestFrame(First(bs)) + bs[FrameEnd(bs)..]
  {
    hide EncodeHdr, DecodeHdr;
    HdrBytes(bs[..HDR_SZ]);
  }

  function ReplyFrames(s: Store, calls: seq<Request>): seq<Byte>
    requires AllWellFormed(calls)
    decreases |calls|
  {
    if calls == [] then []
    else ReplyFrame(Serve(s, calls[0]).1) + ReplyFrames(Serve(s, calls[0]).0, calls[1..])
  }

  lemma RequestsStep(bs: seq<Byte>)
    requires WholeFirst(bs)
    ensures Requests(bs) == [First(bs)] + Requests(bs[FrameEnd(bs)..]) && Remainder(bs) == Remainder(bs[FrameEnd(bs)..])
  {
  }

  lemma RepliesStep(s: Store, q: Request, qs: seq<Request>)
    requires WellFormed(q) && AllWellFormed(qs)
    ensures AllWellFormed([q] + qs)
    ensures ReplyFrames(s, [q] + qs) == ReplyFrame(Serve(s, q).1) + ReplyFrames(Serve(s, q).0, qs)
  {
    hide Serve, ReplyFrame;
    assert ([q] + qs)[1..] == qs;
  }

  // The whole requests are served and answered, and the remainder is what the server is left with.
  lemma {:induction false} RequestsFed(s: Store, bs: seq<Byte>)
    ensures var g := FeedAll(Aligned(After(s, Requests(bs))), Remainder(bs));
            FeedAll(Aligned(s), bs) == Fed(g.srv, ReplyFrames(s, Requests(bs)) + g.sent)
    decreases |bs|
  {
    hide FeedAll, Serve, ReplyFrame, RequestFrame, After, WellFormed;
    if WholeFirst(bs) {
      hide Requests, Remainder, ReplyFrames, First;
      var q, rest := First(bs), bs[FrameEnd(bs)..];
      var s', qs := Serve(s, q).0, Requests(rest);
      FrontFrame(bs);
      ServeFrame(s, q);
      FeedConcat(Aligned(s), RequestFrame(q), rest);
      RequestsFed(s', rest);
      RequestsStep(bs);
      RepliesStep(s, q, qs);
      AfterConcat(s, [q], qs);
      AfterOne(s, q);
      var g := FeedAll(Aligned(After(s', qs)), Remainder(rest));
      assert ReplyFrame(Serve(s, q).1) + (ReplyFrames(s', qs) + g.sent) == ReplyFrames(s, [q] + qs) + g.sent;
    } else {
      AfterNone(s);
      assert ReplyFrames(s, []) == [];
    }
  }

  lemma AfterOne(s: Store, q: Request)
    requires WellFormed(q)
    ensures AllWellFormed([q]) && After(s, [q]) == Serve(s, q).0
  {
    assert [q][..0] == [];
    assert After(s, []) == s;
  }

  // A remainder changes the lists only if it is a write that was accepted, and is not answered then.
  lemma RemainderFed(before: seq<Request>, rest: seq<Byte>)
    requires AllWellFormed(before) && !WholeFirst(rest)
    ensures var s := After(EMPTY_STORE, before);
            var f := FeedAll(Aligned(s), rest);
            && f.srv.store == After(s, CutCalls(before, rest))
            && (CutWrite(before, rest) ==> f.sent == [])
  {
    hide FeedAll, After, LastWrite, InRange, Data, Known, Put, DecodeHdr, EncodeHdr;
    var s := After(EMPTY_STORE, before);
    AfterNone(s);
    assert [] + rest == rest;
    if |rest| < HDR_SZ {
      FeedPartHeader(s, [], rest);
    } else {
      var net, buf := rest[..HDR_SZ], rest[HDR_SZ..];
      var h := DecodeHdr(net);
      assert [] + net == net && net + buf == rest;
      FeedHeader(s, [], net);
      FeedConcat(Aligned(s), net, buf);
      StoreIsHistory(before, h.region, h.page);
      if CutWrite(before, rest) {
        WriteFed(s, h.region, h.page, buf);
        AfterOne(s, WriteCall(h.region, h.page, Mixed(before, rest)));
      } else {
        FeedPartDrain(s, h.len, buf);
      }
    }
  }

  // ---------------------------------------------------------------- all connections

  /** Whatever bytes come over whatever number of connections, each cut off anywhere, the lists are those of the history
      of calls, in which a write cut off in its payload counts as a write of the mixed page. */
  lemma {:induction false} ServedIsHistory(conns: seq<seq<Byte>>)
    ensures Served(EMPTY_STORE, conns) == After(EMPTY_STORE, History(conns))
  {
    hide FeedAll, Requests, Remainder, CutCalls, ReplyFrames;
    if conns == [] {
      AfterNone(EMPTY_STORE);
    } else {
      var last := conns[|conns| - 1];
      var h := History(conns[..|conns| - 1]);
      ServedIsHistory(conns[..|conns| - 1]);
      hide After;
      RequestsFed(After(EMPTY_STORE, h), last);
      AfterConcat(EMPTY_STORE, h, Requests(last));
      RemainderFed(h + Requests(last), Remainder(last));
      AfterConcat(EMPTY_STORE, h + Requests(last), CutCalls(h + Requests(last), Remainder(last)));
    }
  }

  /** A read over a later connection is refused exactly when no region has the id or the page is out of range, and
      otherwise returns the last write of that history. */
  lemma LaterRead(conns: seq<seq<Byte>>, r: Word, p: Word)
    ensures Serve(Served(EMPTY_STORE, conns), ReadCall(r, p)).1 ==
            if InRange(History(conns), r, p) then
              Reply(Hdr(OP_READ_PAGE, r, p, PAGE_SZ), LastWrite(History(conns), r, p))
            else Reply(Hdr(OP_READ_PAGE, 0, 0, 0), [])
  {
    hide Serve, History, Served, LastWrite, InRange;
    ServedIsHistory(conns);
    ReadReturnsLastWrite(History(conns), r, p);
  }

  /** A connection that closes inside the payload of an accepted write: later reads find the bytes that arrived in front
      of the old ones.  That is the page as it was exactly when those bytes were there already, and the page that was
      being sent exactly when the old bytes behind them happen to be the rest of it. */
  lemma CutWriteShows(conns: seq<seq<Byte>>, c: seq<Byte>, sent: Page)
    requires CutWrite(History(conns) + Requests(c), Remainder(c))
    requires Remainder(c)[HDR_SZ..] <= sent
    ensures var before, rest := History(conns) + Requests(c), Remainder(c);
            var h, buf := DecodeHdr(rest[..HDR_SZ]), rest[HDR_SZ..];
            var was, now := LastWrite(before, h.region, h.page), LastWrite(History(conns + [c]), h.region, h.page);
            && |buf| < PAGE_SZ && InRange(History(conns + [c]), h.region, h.page)
            && now == buf + was[|buf|..]
            && (now == was <==> buf == was[..|buf|])
            && (now == sent <==> was[|buf|..] == sent[|buf|..])
  {
    hide Requests, Remainder, DecodeHdr, InRange;
    var before, rest := History(conns) + Requests(c), Remainder(c);
    var h, buf := DecodeHdr(rest[..HDR_SZ]), rest[HDR_SZ..];
    var was := LastWrite(before, h.region, h.page);
    var q := WriteCall(h.region, h.page, Mixed(before, rest));
    assert (conns + [c])[..|conns|] == conns;
    assert History(conns + [c]) == before + [q];
    assert (before + [q])[..|before + [q]| - 1] == before;
    SameAllocated(before, q);
    assert was == was[..|buf|] + was[|buf|..] && sent == buf + sent[|buf|..];
  }

  lemma SameAllocated(before: seq<Request>, q: Request)
    requires q.hdr.op != OP_ALLOC_REGION
    ensures Allocated(before + [q]) == Allocated(before)
    ensures forall r, p :: InRange(before + [q], r, p) == InRange(before, r, p)
  {
    assert (before + [q])[..|before + [q]| - 1] == before;
  }

  // ---------------------------------------------------------------- the program

  /** The accept loop: one connection after the other, each handled until it closes. */
  method AcceptLoop(server: MemServer, inputs: seq<seq<Byte>>) returns (outputs: seq<seq<Byte>>)
    modifies server
    ensures server.Contents() == Served(old(server.Contents()), inputs)
    ensures |outputs| == |inputs|
    ensures forall k :: 0 <= k < |inputs| ==>
              outputs[k] == FeedAll(Aligned(Served(old(server.Contents()), inputs[..k])), inputs[k]).sent
  {
    hide FeedAll;
    outputs := [];
    for i := 0 to |inputs|
      invariant server.Contents() == Served(old(server.Contents()), inputs[..i]) && |outputs| == i
      invariant forall k :: 0 <= k < i ==>
                  outputs[k] == FeedAll(Aligned(Served(old(server.Contents()), inputs[..k])), inputs[k]).sent
    {
      var io := new Stream(inputs[i]);
      server.HandleClient(io);
      outputs := outputs + [io.outbox];
      assert inputs[..i + 1][..i] == inputs[..i];
    }
    assert inputs[..|inputs|] == inputs;
  }
}
