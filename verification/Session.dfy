/** A client and the page server on one connection, stepping independently.  A step moves an arbitrary number of
    bytes in one send or recv, so a schedule is an arbitrary interleaving and fragmentation of the two programs. */
module Session {
  import opened Wire
  import opened PageServer

  datatype Client =
    | Idle
    | Sending(q: Request, rest: seq<Byte>)      // inside write_full
    | Receiving(q: Request, got: seq<Byte>)     // inside read_full

  datatype Net = Net(
    todo: seq<Request>,     // the calls the client has still to make
    client: Client,
    up: seq<Byte>,          // sent by the client, not yet received by the server
    srv: Server,
    out: seq<Byte>,         // what the server is still sending; it reads again when this is empty
    down: seq<Byte>,        // sent by the server, not yet received by the client
    replies: seq<Reply>     // what the finished calls received
  )

  datatype Step = Start | ClientSend(k: nat) | ServerRecv(k: nat) | ServerSend(k: nat) | ClientRecv(k: nat)

  // How many bytes the client's read_full calls still want.
  function ClientWants(q: Request, got: seq<Byte>): nat {
    if |got| < HDR_SZ then HDR_SZ - |got|
    else if DataFollows(q.hdr, DecodeHdr(got[..HDR_SZ])) && |got| < HDR_SZ + PAGE_SZ then HDR_SZ + PAGE_SZ - |got|
    else 0
  }

  // How many bytes the server's current read_full wants.
  function ServerWants(p: Phase): nat {
    match p
    case InHdr(got) => if |got| < HDR_SZ then HDR_SZ - |got| else 0
    case InPayload(_, _, fill) => if fill < PAGE_SZ then PAGE_SZ - fill else 0
    case Draining(n) => n
  }

  function AfterRecv(n: Net, q: Request, got: seq<Byte>): Net {
    if ClientWants(q, got) == 0 && |got| >= HDR_SZ then
      n.(client := Idle, replies := n.replies + [Reply(DecodeHdr(got[..HDR_SZ]), got[HDR_SZ..])])
    else n.(client := Receiving(q, got))
  }

  /** One step; a step that is not enabled leaves everything as it is. */
  function Next(n: Net, step: Step): Net {
    match step
    case Start =>
      if n.client.Idle? && n.todo != [] then
        n.(client := Sending(n.todo[0], RequestFrame(n.todo[0])), todo := n.todo[1..])
      else n
    case ClientSend(k) =>
      if n.client.Sending? && 0 < k <= |n.client.rest| then
        var rest := n.client.rest[k..];
        n.(client := if rest == [] then Receiving(n.client.q, []) else Sending(n.client.q, rest),
           up := n.up + n.client.rest[..k])
      else n
    case ServerRecv(k) =>
      if n.out == [] && 0 < k <= |n.up| && k <= ServerWants(n.srv.phase) then
        var f := FeedAll(n.srv, n.up[..k]);
        n.(up := n.up[k..], srv := f.srv, out := f.sent)
      else n
    case ServerSend(k) =>
      if 0 < k <= |n.out| then n.(out := n.out[k..], down := n.down + n.out[..k]) else n
    case ClientRecv(k) =>
      if n.client.Receiving? && 0 < k <= |n.down| && k <= ClientWants(n.client.q, n.client.got) then
        AfterRecv(n.(down := n.down[k..]), n.client.q, n.client.got + n.down[..k])
      else n
  }

  function Run(n: Net, steps: seq<Step>): Net {
    if steps == [] then n else Next(Run(n, steps[..|steps| - 1]), steps[|steps| - 1])
  }

  function Fresh(s: Store, calls: seq<Request>): Net {
    Net(calls, Idle, [], Aligned(s), [], [], [])
  }

  predicate AllWellFormed(calls: seq<Request>) {
    forall i :: 0 <= i < |calls| ==> WellFormed(calls[i])
  }

  /** The store after whole calls, one after the other. */
  function After(s: Store, calls: seq<Request>): Store
    requires AllWellFormed(calls)
  {
    if calls == [] then s
    else Serve(After(s, calls[..|calls| - 1]), calls[|calls| - 1]).0
  }

  lemma AfterNone(s: Store)
    ensures After(s, []) == s
  {
  }

  lemma AfterSnoc(s: Store, calls: seq<Request>, q: Request)
    requires AllWellFormed(calls) && WellFormed(q)
    ensures AllWellFormed(calls + [q]) && After(s, calls + [q]) == Serve(After(s, calls), q).0
  {
    assert (calls + [q])[..|calls + [q]| - 1] == calls;
  }

  function Expected(s: Store, calls: seq<Request>, i: nat): Reply
    requires AllWellFormed(calls) && i < |calls|
  {
    Serve(After(s, calls[..i]), calls[i]).1
  }

  // ---------------------------------------------------------------- the invariant

  function Unsent(c: Client): seq<Byte> {
    if c.Sending? then c.rest else []
  }

  function Got(c: Client): seq<Byte> {
    if c.Receiving? then c.got else []
  }

  // The server is inside a read_full that is not finished.
  predicate InRead(p: Phase) {
    match p
    case InHdr(got) => |got| < HDR_SZ
    case InPayload(_, _, fill) => fill < PAGE_SZ
    case Draining(n) => n > 0
  }

  lemma {:induction false} FeedInRead(v: Server, bs: seq<Byte>)
    requires InRead(v.phase)
    ensures InRead(FeedAll(v, bs).srv.phase)
    decreases |bs|
  {
    if bs != [] {
      FeedInRead(Feed(v, bs[0]).srv, bs[1..]);
    }
  }

  /** If the server were to consume everything on its way, it would be at a header boundary with the store of the
      calls made so far, and the reply bytes received, in flight and yet to come would be the current reply. */
  ghost predicate InStep(n: Net, s: Store, calls: seq<Request>) {
    var i := |n.replies|;
    var f := FeedAll(n.srv, n.up + Unsent(n.client));
    && AllWellFormed(calls)
    && InRead(n.srv.phase)
    && (n.client.Sending? ==> n.client.rest != [])
    && i <= |calls|
    && (forall j :: 0 <= j < i ==> n.replies[j] == Expected(s, calls, j))
    && if n.client.Idle? then
         && n.todo == calls[i..]
         && f == Fed(Aligned(After(s, calls[..i])), [])
         && n.out == [] && n.down == []
       else
         && i < |calls| && n.client.q == calls[i] && n.todo == calls[i + 1..]
         && f.srv == Aligned(After(s, calls[..i + 1]))
         && Got(n.client) + n.down + n.out + f.sent == ReplyFrame(Expected(s, calls, i))
         && (n.client.Receiving? ==> ClientWants(n.client.q, n.client.got) > 0)
  }

  lemma FreshInStep(s: Store, calls: seq<Request>)
    requires AllWellFormed(calls)
    ensures InStep(Fresh(s, calls), s, calls)
  {
    assert calls[..0] == [] && calls[0..] == calls;
  }

  lemma FrameNotEmpty(q: Request)
    requires WellFormed(q)
    ensures RequestFrame(q) != []
  {
  }

  lemma StartKeeps(n: Net, s: Store, calls: seq<Request>)
    requires InStep(n, s, calls)
    ensures InStep(Next(n, Start), s, calls)
  {
    hide FeedAll, Serve, ReplyFrame, ClientWants;
    if n.client.Idle? && n.todo != [] {
      var i := |n.replies|;
      var q := calls[i];
      assert After(s, calls[..i + 1]) == Serve(After(s, calls[..i]), q).0 by {
        assert calls[..i + 1][..i] == calls[..i];
      }
      FrameNotEmpty(q);
      hide After, RequestFrame;
      FeedConcat(n.srv, n.up, RequestFrame(q));
      assert n.up + [] == n.up;
      ServeFrame(After(s, calls[..i]), q);
      assert calls[i..][1..] == calls[i + 1..];
    }
  }

  lemma SendKeeps(n: Net, s: Store, calls: seq<Request>, k: nat)
    requires InStep(n, s, calls)
    ensures InStep(Next(n, ClientSend(k)), s, calls)
  {
    hide FeedAll, After, Serve, ReplyFrame;
    if n.client.Sending? && 0 < k <= |n.client.rest| {
      var n' := Next(n, ClientSend(k));
      assert n'.up + Unsent(n'.client) == n.up + n.client.rest;
    }
  }

  lemma ServerRecvKeeps(n: Net, s: Store, calls: seq<Request>, k: nat)
    requires InStep(n, s, calls)
    ensures InStep(Next(n, ServerRecv(k)), s, calls)
  {
    hide FeedAll, After, Expected, ReplyFrame, ClientWants;
    if n.out == [] && 0 < k <= |n.up| {
      FeedInRead(n.srv, n.up[..k]);
      FeedConcat(n.srv, n.up[..k], n.up[k..] + Unsent(n.client));
      assert n.up[..k] + (n.up[k..] + Unsent(n.client)) == n.up + Unsent(n.client);
    }
  }

  lemma ServerSendKeeps(n: Net, s: Store, calls: seq<Request>, k: nat)
    requires InStep(n, s, calls)
    ensures InStep(Next(n, ServerSend(k)), s, calls)
  {
    hide FeedAll, After, Expected, ReplyFrame, ClientWants;
    if 0 < k <= |n.out| {
      assert n.down + n.out[..k] + n.out[k..] == n.down + n.out;
    }
  }

  // Whether page data follows is decided by the reply header alone, and it is exactly one page.
  lemma ReplyShape(s: Store, q: Request)
    requires WellFormed(q)
    ensures var r := Serve(s, q).1; |r.data| == if DataFollows(q.hdr, r.hdr) then PAGE_SZ else 0
  {
  }

  // A client that has read a prefix of the reply frame wants exactly the rest of it.
  lemma WantsTheRest(s: Store, q: Request, got: seq<Byte>, rest: seq<Byte>)
    requires WellFormed(q) && got + rest == ReplyFrame(Serve(s, q).1)
    ensures |got| >= HDR_SZ ==> got[..HDR_SZ] == EncodeHdr(Serve(s, q).1.hdr) && ClientWants(q, got) == |rest|
  {
    var r := Serve(s, q).1;
    ReplyShape(s, q);
    if |got| >= HDR_SZ {
      assert got[..HDR_SZ] == (got + rest)[..HDR_SZ] == EncodeHdr(r.hdr);
      HdrRoundTrip(r.hdr);
    }
  }

  // The client may read k more bytes.
  predicate Reads(n: Net, k: nat) {
    n.client.Receiving? && 0 < k <= |n.down| && k <= ClientWants(n.client.q, n.client.got)
  }

  lemma ReadOn(n: Net, s: Store, calls: seq<Request>, k: nat)
    requires InStep(n, s, calls) && Reads(n, k)
    ensures var f := FeedAll(n.srv, n.up);
            n.client.got + n.down[..k] + (n.down[k..] + n.out + f.sent) == ReplyFrame(Expected(s, calls, |n.replies|))
  {
    hide FeedAll, Expected, ReplyFrame, ClientWants, After, AllWellFormed;
    assert n.up + [] == n.up;
    assert n.down[..k] + n.down[k..] == n.down;
  }

  lemma WantsHeader(q: Request, got: seq<Byte>)
    requires |got| < HDR_SZ
    ensures ClientWants(q, got) > 0
  {
  }

  // A part of the reply that is not the last.
  lemma ReadSome(n: Net, s: Store, calls: seq<Request>, k: nat)
    requires InStep(n, s, calls) && Reads(n, k)
    requires var got := n.client.got + n.down[..k]; !(ClientWants(n.client.q, got) == 0 && |got| >= HDR_SZ)
    ensures InStep(n.(down := n.down[k..], client := Receiving(n.client.q, n.client.got + n.down[..k])), s, calls)
  {
    hide FeedAll, Expected, ReplyFrame, ClientWants, After, DecodeHdr, AllWellFormed;
    ReadOn(n, s, calls, k);
    if |n.client.got + n.down[..k]| < HDR_SZ {
      WantsHeader(n.client.q, n.client.got + n.down[..k]);
    }
    var f := FeedAll(n.srv, n.up);
    assert n.up + [] == n.up;
    var got := n.client.got + n.down[..k];
    assert got + n.down[k..] + n.out + f.sent == got + (n.down[k..] + n.out + f.sent);
  }

  // The last part: the reply is complete and nothing else is on its way.
  lemma ReadLast(n: Net, s: Store, calls: seq<Request>, k: nat)
    requires InStep(n, s, calls) && Reads(n, k)
    requires var got := n.client.got + n.down[..k]; ClientWants(n.client.q, got) == 0 && |got| >= HDR_SZ
    ensures var got := n.client.got + n.down[..k];
            var r := Reply(DecodeHdr(got[..HDR_SZ]), got[HDR_SZ..]);
            InStep(n.(down := n.down[k..], client := Idle, replies := n.replies + [r]), s, calls)
  {
    hide FeedAll, ReplyFrame, ClientWants, After, DecodeHdr, EncodeHdr, Serve;
    var i, q, got := |n.replies|, n.client.q, n.client.got + n.down[..k];
    var f := FeedAll(n.srv, n.up);
    var rest := n.down[k..] + n.out + f.sent;
    ReadOn(n, s, calls, k);
    WantsTheRest(After(s, calls[..i]), q, got, rest);
    assert rest == [] && got + rest == got;
    CompleteReply(Expected(s, calls, i), got);
    hide Expected;
    assert n.up + [] == n.up;
    assert calls[i + 1..] == n.todo;
  }

  lemma RecvKeeps(n: Net, s: Store, calls: seq<Request>, k: nat)
    requires InStep(n, s, calls)
    ensures InStep(Next(n, ClientRecv(k)), s, calls)
  {
    hide InStep, ClientWants, DecodeHdr;
    if Reads(n, k) {
      var got := n.client.got + n.down[..k];
      if ClientWants(n.client.q, got) == 0 && |got| >= HDR_SZ {
        ReadLast(n, s, calls, k);
      } else {
        ReadSome(n, s, calls, k);
      }
    }
  }

  lemma CompleteReply(r: Reply, got: seq<Byte>)
    requires got == ReplyFrame(r)
    ensures |got| >= HDR_SZ && Reply(DecodeHdr(got[..HDR_SZ]), got[HDR_SZ..]) == r
  {
    HdrRoundTrip(r.hdr);
    assert got[..HDR_SZ] == EncodeHdr(r.hdr) && got[HDR_SZ..] == r.data;
  }

  lemma {:induction false} RunInStep(s: Store, calls: seq<Request>, steps: seq<Step>)
    requires AllWellFormed(calls)
    ensures InStep(Run(Fresh(s, calls), steps), s, calls)
  {
    if steps == [] {
      FreshInStep(s, calls);
    } else {
      var n, last := Run(Fresh(s, calls), steps[..|steps| - 1]), steps[|steps| - 1];
      RunInStep(s, calls, steps[..|steps| - 1]);
      hide Next, InStep;
      match last
      case Start => StartKeeps(n, s, calls);
      case ClientSend(k) => SendKeeps(n, s, calls, k);
      case ServerRecv(k) => ServerRecvKeeps(n, s, calls, k);
      case ServerSend(k) => ServerSendKeeps(n, s, calls, k);
      case ClientRecv(k) => RecvKeeps(n, s, calls, k);
    }
  }

  /** Frame alignment.  For every list of calls and every interleaving and fragmentation: each finished call has
      received the reply that executing the calls one at a time would give; between calls no reply byte is left on
      the connection; and once the server has also consumed what was sent, it is at a header boundary and its store
      is the store of the finished calls, refused and drained writes included. */
  lemma StaysAligned(s: Store, calls: seq<Request>, steps: seq<Step>)
    requires AllWellFormed(calls)
    ensures var n := Run(Fresh(s, calls), steps);
            var i := |n.replies|;
            && i <= |calls|
            && (forall j :: 0 <= j < i ==> n.replies[j] == Expected(s, calls, j))
            && (n.client.Idle? ==> n.out == [] && n.down == [] && n.todo == calls[i..])
            && (n.client.Idle? && n.up == [] ==> n.srv == Aligned(After(s, calls[..i])))
  {
    RunInStep(s, calls, steps);
  }

  lemma FrameHasHeader(r: Reply)
    ensures |ReplyFrame(r)| >= HDR_SZ
  {
  }

  // A client waiting for a reply of which nothing has been sent has left bytes for the server to read.
  lemma ServerHasInput(n: Net, s: Store, calls: seq<Request>)
    requires InStep(n, s, calls) && n.client.Receiving? && n.out == [] && n.down == []
    ensures n.up != [] && ServerWants(n.srv.phase) > 0
  {
    hide Serve, After, ReplyFrame, DecodeHdr, EncodeHdr, Feed;
    var i, f := |n.replies|, FeedAll(n.srv, n.up + []);
    assert n.client.got + f.sent == n.client.got + [] + [] + f.sent;
    WantsTheRest(After(s, calls[..i]), n.client.q, n.client.got, f.sent);
    FrameHasHeader(Expected(s, calls, i));
    assert n.up + [] == n.up;
  }

  /** No deadlock: until the last call has its reply, some send, recv or call can be made. */
  lemma NeverStuck(s: Store, calls: seq<Request>, steps: seq<Step>) returns (step: Step)
    requires AllWellFormed(calls) && |Run(Fresh(s, calls), steps).replies| < |calls|
    ensures Next(Run(Fresh(s, calls), steps), step) != Run(Fresh(s, calls), steps)
  {
    hide Run, Expected, After, FeedAll, RequestFrame, ReplyFrame, DecodeHdr;
    RunInStep(s, calls, steps);
    var n := Run(Fresh(s, calls), steps);
    if n.client.Idle? {
      step := Start;
    } else if n.client.Sending? {
      step := ClientSend(1);
      assert |Next(n, step).up| == |n.up| + 1;
    } else if n.out != [] {
      step := ServerSend(1);
      assert |Next(n, step).out| == |n.out| - 1;
    } else if n.down != [] {
      step := ClientRecv(1);
      assert |Next(n, step).down| == |n.down| - 1;
    } else {
      ServerHasInput(n, s, calls);
      step := ServerRecv(1);
      assert |Next(n, step).up| == |n.up| - 1;
    }
  }
}
