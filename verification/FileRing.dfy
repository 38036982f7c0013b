/** The file socket with its ring: queued writes are positions in the ring, read by the server when it gets to them.  As
    long as every buffered send had room, this is the machine of module FilePtr, whose queues carry the bytes. */
module FileRing {
  import opened Basics
  import opened Bits
  import opened FilePtr
  import opened Ring
  import opened Wire

  const CAP_SIZE: nat := 16

  // A queued write: len bytes from ring position pos on, after which inc bytes of the ring are free again.
  datatype Req = Block(pos: nat, len: nat, inc: nat) | Move(offset: int, cur: bool)

  // data_ring_buffer, of 2^k bytes.
  datatype Drb = Drb(ring: seq<Byte>, k: nat, request: nat, fulfill: nat, partial: nat)

  datatype Socket = Socket(readBehind: int, writeBehind: int, writeBeforeRead: bool, drb: Drb,
                           wqueue: seq<Req>, rqueue: seq<ReadReq>)

  function Used(d: Drb): int {
    d.request + d.partial - d.fulfill
  }

  // The requests for len bytes after pad unused ones: two where the ring wraps.
  function Emit(pos: nat, len: nat, pad: nat, k: nat): seq<Req> {
    var part1 := Pow2(k) - Slot(pos + pad, k);
    if part1 < len then [Block(pos + pad, part1, part1 + pad), Block(pos + pad + part1, len - part1, len - part1)]
    else [Block(pos + pad, len, len + pad)]
  }

  function CatchUpW(s: Socket): (u: Socket)
    ensures u.drb == s.drb
  {
    if s.writeBehind != 0 then s.(wqueue := s.wqueue + [Move(s.writeBehind, true)], writeBehind := 0) else s
  }

  function CatchUpR(s: Socket): Socket {
    if s.readBehind != 0 then s.(rqueue := s.rqueue + [SeekReader(s.readBehind, true)], readBehind := 0) else s
  }

  // Flushing does not have to wait for space.
  predicate CanFlush(d: Drb) {
    d.partial == 0 || Used(d) <= Pow2(d.k)
  }

  function Flush(s: Socket): (u: Socket)
    ensures u.drb.ring == s.drb.ring && u.drb.k == s.drb.k
  {
    if s.drb.partial != 0 then
      var v, d := CatchUpW(s), s.drb;
      v.(wqueue := v.wqueue + Emit(d.request, d.partial, 0, d.k), drb := d.(request := d.request + d.partial, partial := 0))
    else s
  }

  function Lseek(s: Socket, offset: int, cur: bool): (u: Socket)
    ensures u.drb.ring == s.drb.ring && u.drb.k == s.drb.k
  {
    var v := Flush(s);
    var ow := if cur then offset + v.writeBehind else offset;
    var r := if cur then offset + v.readBehind else offset;
    v.(wqueue := if !cur || ow != 0 then v.wqueue + [Move(ow, cur)] else v.wqueue, writeBehind := 0,
       rqueue := if !cur || r != 0 then v.rqueue + [SeekReader(r, cur)] else v.rqueue, readBehind := 0)
  }

  predicate Sized(d: Drb) {
    |d.ring| == Pow2(d.k)
  }

  // fputc.
  function PutChar(s: Socket, b: Byte): (u: Socket)
    requires Sized(s.drb)
    ensures Sized(u.drb) && u.drb.k == s.drb.k
  {
    var d := s.drb;
    var d' := d.(ring := d.ring[Slot(d.request + d.partial, d.k) := b], partial := d.partial + 1);
    var v := s.(drb := d');
    if b == 10 || Used(d') == Pow2(d.k) then Flush(v) else v
  }

  /** Where the client is: between calls, in a buffered send that waits to flush, in an unbuffered send that waits for room,
      in a receive, or stopped by the bounds of a capability. */
  datatype Phase =
    | Ready | Flushing(count: nat) | NeedRoom(data: seq<Byte>, pad: nat)
    | NeedWrites(len: nat) | NeedRead(len: nat) | Halted

  /** `overran` records that a buffered send was accepted without room. */
  datatype RingFile = RingFile(sock: Socket, disk: Flat, rpos: int, phase: Phase, got: seq<Byte>,
                               calls: seq<Call>, results: seq<seq<Byte>>, raced: bool, overran: bool)

  datatype Op =
    | Write(data: seq<Byte>, buffered: bool, pad: nat)
    | Read(len: nat)
    | SeekTo(offset: int, cur: bool)
    | PutC(b: Byte)

  datatype Event = Do(op: Op) | Go | ServeW | ServeR

  // The end of a buffered send: from half full on the ring is flushed; then the bytes are counted.
  function Buffered(f: RingFile, count: nat): (f': RingFile)
    ensures f'.sock.drb.ring == f.sock.drb.ring && f'.sock.drb.k == f.sock.drb.k
  {
    var d := f.sock.drb;
    if d.partial >= Pow2(d.k) / 2 then
      if CanFlush(d) then Counted(f.(sock := Flush(f.sock)), count) else f.(phase := Flushing(count))
    else Counted(f, count)
  }

  function Counted(f: RingFile, count: nat): RingFile {
    f.(sock := f.sock.(readBehind := f.sock.readBehind + count), phase := Ready)
  }

  function BufferedWrite(f: RingFile, data: seq<Byte>): (f': RingFile)
    requires Sized(f.sock.drb)
    ensures Sized(f'.sock.drb) && f'.sock.drb.k == f.sock.drb.k
  {
    var u := CatchUpW(f.sock).(writeBeforeRead := true);
    var d := u.drb;
    if !SpaceTest(Used(d), |data|, Pow2(d.k)) then
      Buffered(f.(sock := u, calls := f.calls + [Send(data, true, false)]), 0)
    else
      match CopiedInto(d.ring, Slot(d.request + d.partial, d.k), data)
      case None => f.(sock := u, phase := Halted)
      case Some(ring) =>
        Buffered(f.(sock := u.(drb := d.(ring := ring, partial := d.partial + |data|)),
                    calls := f.calls + [Send(data, true, true)],
                    overran := f.overran || Used(d) + |data| > Pow2(d.k)), |data|)
  }

  function DirectWrite(f: RingFile, data: seq<Byte>, pad: nat): (f': RingFile)
    ensures f'.sock.drb.ring == f.sock.drb.ring && f'.sock.drb.k == f.sock.drb.k
  {
    var u := CatchUpW(Flush(f.sock)).(writeBeforeRead := true);
    var gap := if |data| >= CAP_SIZE then pad % CAP_SIZE else 0;
    if data == [] then f.(sock := u, calls := f.calls + [Send(data, false, true)])
    else if |data| + gap > Pow2(u.drb.k) then f.(sock := u, calls := f.calls + [Send(data, false, false)])
    else f.(sock := u, phase := NeedRoom(data, gap))
  }

  predicate Pending(s: Socket) {
    s.drb.partial != 0 || exists i :: 0 <= i < |s.wqueue| && s.wqueue[i].Block?
  }

  function Ask(f: RingFile, len: nat): RingFile {
    f.(sock := f.sock.(rqueue := f.sock.rqueue + [Fetch(len)]), phase := NeedRead(len))
  }

  function Done(f: RingFile, op: Op): (f': RingFile)
    requires Sized(f.sock.drb)
    ensures Sized(f'.sock.drb) && f'.sock.drb.k == f.sock.drb.k
  {
    match op
    case Write(data, buffered, pad) =>
      if buffered then BufferedWrite(f, data) else if CanFlush(f.sock.drb) then DirectWrite(f, data, pad) else f
    case Read(len) =>
      if !CanFlush(f.sock.drb) then f
      else
        var s := CatchUpR(Flush(f.sock));
        var g := f.(sock := s, raced := f.raced || (!f.sock.writeBeforeRead && Pending(f.sock)));
        if s.writeBeforeRead then g.(phase := NeedWrites(len)) else Ask(g, len)
    case SeekTo(offset, cur) =>
      if !CanFlush(f.sock.drb) then f else f.(sock := Lseek(f.sock, offset, cur), calls := f.calls + [Seek(offset, cur)])
    case PutC(b) =>
      if Used(f.sock.drb) == Pow2(f.sock.drb.k) then f
      else f.(sock := PutChar(f.sock, b), calls := f.calls + [Put(b)])
  }

  function Continued(f: RingFile): (f': RingFile)
    requires Sized(f.sock.drb)
    ensures Sized(f'.sock.drb) && f'.sock.drb.k == f.sock.drb.k
  {
    var s, d := f.sock, f.sock.drb;
    match f.phase
    case Flushing(count) => if CanFlush(d) then Counted(f.(sock := Flush(s)), count) else f
    case NeedRoom(data, pad) =>
      if d.request - d.fulfill + |data| + pad <= Pow2(d.k) then
        f.(sock := s.(drb := d.(ring := Stored(d.ring, d.request + pad, data, d.k), request := d.request + |data| + pad),
                      wqueue := s.wqueue + Emit(d.request, |data|, pad, d.k), readBehind := s.readBehind + |data|),
           phase := Ready, calls := f.calls + [Send(data, false, true)])
      else f
    case NeedWrites(len) => if s.wqueue == [] then Ask(f.(sock := s.(writeBeforeRead := false)), len) else f
    case NeedRead(len) =>
      if s.rqueue == [] then
        f.(sock := s.(writeBehind := s.writeBehind + len), phase := Ready,
           calls := f.calls + [Recv(len)], results := f.results + [f.got])
      else f
    case _ => f
  }

  function TakeWrite(d: Drb, disk: Flat, r: Req): Flat
    requires Sized(d)
  {
    match r
    case Block(pos, len, _) => Written(disk, Window(d.ring, pos, len, d.k))
    case Move(offset, cur) => disk.(pos := Sought(disk.pos, offset, cur))
  }

  function Next(f: RingFile, e: Event): (f': RingFile)
    requires Sized(f.sock.drb)
    ensures Sized(f'.sock.drb) && f'.sock.drb.k == f.sock.drb.k
  {
    match e
    case Do(op) => if f.phase.Ready? then Done(f, op) else f
    case Go => Continued(f)
    case ServeW =>
      if f.sock.wqueue == [] then f
      else
        var r, d := f.sock.wqueue[0], f.sock.drb;
        f.(disk := TakeWrite(d, f.disk, r),
           sock := f.sock.(wqueue := f.sock.wqueue[1..],
                           drb := if r.Block? then d.(fulfill := d.fulfill + r.inc) else d))
    case ServeR =>
      if f.sock.rqueue == [] then f
      else
        var r := f.sock.rqueue[0];
        f.(rpos := ServeReadReq(f.rpos, r), sock := f.sock.(rqueue := f.sock.rqueue[1..]),
           got := if r.Fetch? then Slice(f.disk.tape, f.rpos, r.len) else f.got)
  }

  function Run(f: RingFile, events: seq<Event>): (f': RingFile)
    requires Sized(f.sock.drb)
    ensures Sized(f'.sock.drb) && f'.sock.drb.k == f.sock.drb.k
  {
    if events == [] then f else Next(Run(f, events[..|events| - 1]), events[|events| - 1])
  }

  /** A file just opened.  The counter of the write cursor keeps whatever `leftover` the memory held, and so does the
      flag; both cursors are at the start and the ring is empty. */
  function Opened(tape: Tape, k: nat, leftover: int, flag: bool): (f: RingFile)
    ensures Sized(f.sock.drb)
  {
    RingFile(Socket(0, leftover, flag, Drb(seq(Pow2(k), _ => 0), k, 0, 0, 0), [], []),
             Flat(tape, 0), 0, Ready, [], [], [], false, false)
  }

  // ---------------------------------------------------------------- the queues as bytes

  function AbsReq(r: Req, d: Drb): WriteReq
    requires Sized(d)
  {
    match r
    case Block(pos, len, _) => Data(Window(d.ring, pos, len, d.k))
    case Move(offset, cur) => SeekWriter(offset, cur)
  }

  function AbsQueue(q: seq<Req>, d: Drb): (a: seq<WriteReq>)
    requires Sized(d)
    ensures |a| == |q|
  {
    seq(|q|, i requires 0 <= i < |q| => AbsReq(q[i], d))
  }

  function AbsSock(s: Socket): Sock
    requires Sized(s.drb)
  {
    Sock(s.readBehind, s.writeBehind, Window(s.drb.ring, s.drb.request, s.drb.partial, s.drb.k), s.writeBeforeRead,
         Pow2(s.drb.k), AbsQueue(s.wqueue, s.drb), s.rqueue)
  }

  function AbsPhase(p: Phase): FilePtr.Phase {
    match p
    case NeedWrites(len) => AwaitWrites(len)
    case NeedRead(len) => AwaitRead(len)
    case _ => Idle
  }

  function Abs(f: RingFile): File
    requires Sized(f.sock.drb)
  {
    File(AbsSock(f.sock), f.disk, f.rpos, AbsPhase(f.phase), f.got, f.calls, f.results, f.raced)
  }

  /** The queued blocks lie one after the other in the ring, from the first byte not yet taken on. */
  ghost predicate InOrder(q: seq<Req>, at: nat, end: nat)
    decreases |q|
  {
    if q == [] then at == end
    else if q[0].Move? then InOrder(q[1..], at, end)
    else at <= q[0].pos && q[0].pos + q[0].len == at + q[0].inc && InOrder(q[1..], at + q[0].inc, end)
  }

  ghost predicate SocketOk(s: Socket) {
    Sized(s.drb) && InOrder(s.wqueue, s.drb.fulfill, s.drb.request) && Used(s.drb) <= Pow2(s.drb.k)
  }

  ghost predicate Good(f: RingFile) {
    && SocketOk(f.sock) && !f.phase.Flushing?
    && (f.phase.NeedRoom? ==> f.sock.drb.partial == 0 && f.sock.writeBehind == 0 && f.sock.writeBeforeRead
                              && 0 < |f.phase.data| <= Pow2(f.sock.drb.k))
  }

  lemma {:induction false} InOrderBounds(q: seq<Req>, at: nat, end: nat)
    requires InOrder(q, at, end)
    ensures at <= end && forall i :: 0 <= i < |q| && q[i].Block? ==> at <= q[i].pos && q[i].pos + q[i].len <= end
    decreases |q|
  {
    if q != [] {
      InOrderBounds(q[1..], if q[0].Move? then at else at + q[0].inc, end);
      assert forall i :: 0 < i < |q| ==> q[i] == q[1..][i - 1];
    }
  }

  lemma {:induction false} InOrderConcat(q: seq<Req>, q': seq<Req>, at: nat, mid: nat, end: nat)
    requires InOrder(q, at, mid) && InOrder(q', mid, end)
    ensures InOrder(q + q', at, end)
    decreases |q|
  {
    if q == [] {
      assert q + q' == q';
    } else {
      assert (q + q')[1..] == q[1..] + q';
      InOrderConcat(q[1..], q', if q[0].Move? then at else at + q[0].inc, mid, end);
    }
  }

  lemma EmitInOrder(pos: nat, len: nat, pad: nat, k: nat)
    ensures InOrder(Emit(pos, len, pad, k), pos, pos + len + pad)
  {
    var q := Emit(pos, len, pad, k);
    assert |q| == 2 ==> q[1..] == [q[1]] && q[1..][1..] == [];
  }

  lemma AbsQueueConcat(q: seq<Req>, q': seq<Req>, d: Drb)
    requires Sized(d)
    ensures AbsQueue(q + q', d) == AbsQueue(q, d) + AbsQueue(q', d)
  {
  }

  lemma WindowConcat(ring: seq<Byte>, p: nat, a: nat, b: nat, k: nat)
    requires |ring| == Pow2(k)
    ensures Window(ring, p, a + b, k) == Window(ring, p, a, k) + Window(ring, p + a, b, k)
  {
    var l, r := Window(ring, p, a + b, k), Window(ring, p, a, k) + Window(ring, p + a, b, k);
    forall i | 0 <= i < a + b ensures l[i] == r[i] {
      if i >= a {
        assert p + a + (i - a) == p + i;
      }
    }
  }

  // The requests for a stretch of the ring are its bytes, cut where the ring wraps.
  lemma EmitPieces(d: Drb, pos: nat, len: nat, pad: nat)
    requires Sized(d) && len > 0
    ensures AbsQueue(Emit(pos, len, pad, d.k), d) ==
            Pieces(Window(d.ring, pos + pad, len, d.k), Pow2(d.k) - Slot(pos + pad, d.k))
  {
    hide Slot, Pow2;
    var cut := Pow2(d.k) - Slot(pos + pad, d.k);
    if cut < len {
      WindowConcat(d.ring, pos + pad, cut, len - cut, d.k);
    }
  }

  // Storing into free space changes nothing that is queued or waiting.
  lemma QueueKept(q: seq<Req>, d: Drb, d': Drb, p: nat, data: seq<Byte>)
    requires Sized(d) && Sized(d') && d'.k == d.k && d'.ring == Stored(d.ring, p, data, d.k)
    requires InOrder(q, d.fulfill, d.request) && d.request <= p && p + |data| <= d.fulfill + Pow2(d.k)
    ensures AbsQueue(q, d') == AbsQueue(q, d)
  {
    hide Stored, Window, Pow2;
    InOrderBounds(q, d.fulfill, d.request);
    forall i | 0 <= i < |q| ensures AbsReq(q[i], d') == AbsReq(q[i], d) {
      if q[i].Block? {
        WindowKept(d.ring, p, data, d.k, q[i].pos, q[i].len);
      }
    }
  }

  // ---------------------------------------------------------------- each part of a call, on bytes

  // Where the ring wraps, seen from the next request.
  function Cut(d: Drb): nat {
    Pow2(d.k) - Slot(d.request, d.k)
  }

  lemma SameRing(q: seq<Req>, d: Drb, d': Drb)
    requires Sized(d) && d'.ring == d.ring && d'.k == d.k
    ensures Sized(d') && AbsQueue(q, d') == AbsQueue(q, d)
  {
  }

  lemma CatchUpWAbs(s: Socket)
    requires SocketOk(s)
    ensures SocketOk(CatchUpW(s)) && AbsSock(CatchUpW(s)) == CatchUpWrite(AbsSock(s))
  {
    if s.writeBehind != 0 {
      var m := [Move(s.writeBehind, true)];
      AbsQueueConcat(s.wqueue, m, s.drb);
      assert InOrder(m, s.drb.request, s.drb.request);
      InOrderConcat(s.wqueue, m, s.drb.fulfill, s.drb.request, s.drb.request);
    }
  }

  lemma CatchUpRAbs(s: Socket)
    requires SocketOk(s)
    ensures SocketOk(CatchUpR(s)) && AbsSock(CatchUpR(s)) == CatchUpRead(AbsSock(s))
  {
  }

  lemma FlushAbs(s: Socket)
    requires SocketOk(s)
    ensures SocketOk(Flush(s)) && Flush(s).drb.partial == 0 && AbsSock(Flush(s)) == FlushDrb(AbsSock(s), Cut(s.drb))
  {
    hide Slot, Pow2, CatchUpW, Emit, InOrder, Window, AbsQueue, Pieces;
    if s.drb.partial != 0 {
      CatchUpWAbs(s);
      var u, d := CatchUpW(s), s.drb;
      var m := Emit(d.request, d.partial, 0, d.k);
      AbsQueueConcat(u.wqueue, m, d);
      EmitPieces(d, d.request, d.partial, 0);
      EmitInOrder(d.request, d.partial, 0, d.k);
      InOrderConcat(u.wqueue, m, d.fulfill, d.request, d.request + d.partial);
      SameRing(u.wqueue + m, d, Flush(s).drb);
    }
  }

  lemma LseekAbs(s: Socket, offset: int, cur: bool)
    requires SocketOk(s)
    ensures SocketOk(Lseek(s, offset, cur))
    ensures AbsSock(Lseek(s, offset, cur)) == LseekFile(AbsSock(s), offset, cur, Cut(s.drb))
  {
    hide Slot, Pow2, Flush, FlushDrb;
    FlushAbs(s);
    var u := Flush(s);
    var ow := if cur then offset + u.writeBehind else offset;
    var m := [Move(ow, cur)];
    AbsQueueConcat(u.wqueue, m, u.drb);
    assert InOrder(m, u.drb.request, u.drb.request);
    InOrderConcat(u.wqueue, m, u.drb.fulfill, u.drb.request, u.drb.request);
  }

  // A block stored at the end of what waits, with room for it.
  lemma AppendAbs(s: Socket, data: seq<Byte>)
    requires SocketOk(s) && Used(s.drb) + |data| <= Pow2(s.drb.k)
    ensures var d := s.drb;
            var ring := Stored(d.ring, d.request + d.partial, data, d.k);
            var s' := s.(drb := d.(ring := ring, partial := d.partial + |data|));
            SocketOk(s') && AbsSock(s') == AbsSock(s).(partial := AbsSock(s).partial + data)
  {
    hide Slot, Pow2, Stored;
    var d := s.drb;
    var d' := d.(ring := Stored(d.ring, d.request + d.partial, data, d.k), partial := d.partial + |data|);
    InOrderBounds(s.wqueue, d.fulfill, d.request);
    QueueKept(s.wqueue, d, d', d.request + d.partial, data);
    WindowConcat(d'.ring, d.request, d.partial, |data|, d.k);
    WindowKept(d.ring, d.request + d.partial, data, d.k, d.request, d.partial);
    StoredWindow(d.ring, d.request + d.partial, data, d.k);
  }

  lemma PutCharAbs(s: Socket, b: Byte)
    requires SocketOk(s) && Used(s.drb) < Pow2(s.drb.k)
    ensures SocketOk(PutChar(s, b))
    ensures AbsSock(PutChar(s, b)) == Fputc(AbsSock(s), b, Used(s.drb) + 1 == Pow2(s.drb.k), Cut(s.drb))
  {
    hide Slot, Pow2, Flush, FlushDrb, Stored, InOrder, AbsQueue, Window, Cut;
    var d := s.drb;
    var v := s.(drb := d.(ring := Stored(d.ring, d.request + d.partial, [b], d.k), partial := d.partial + 1));
    AppendAbs(s, [b]);
    StoredOne(d.ring, d.request + d.partial, b, d.k);
    FlushAbs(v);
    assert Cut(v.drb) == Cut(d) by { SameCut(d, v.drb); }
  }

  lemma StoredOne(ring: seq<Byte>, p: nat, b: Byte, k: nat)
    requires |ring| == Pow2(k)
    ensures Stored(ring, p, [b], k) == ring[Slot(p, k) := b]
  {
    hide Slot, Pow2;
    assert [b][1..] == [];
  }

  lemma SameCut(d: Drb, d': Drb)
    requires d'.request == d.request && d'.k == d.k
    ensures Cut(d') == Cut(d)
  {
  }

  // ---------------------------------------------------------------- each event, on bytes

  // What an event of the ring machine is on the queues of bytes.
  function AbsEvent(f: RingFile, e: Event): FilePtr.Event
    requires Sized(f.sock.drb)
  {
    var d := f.sock.drb;
    match e
    case ServeW => ServeWrite
    case ServeR => ServeRead
    case Go =>
      if f.phase.NeedRoom? && d.request - d.fulfill + |f.phase.data| + f.phase.pad <= Pow2(d.k) then
        Begin(Send(f.phase.data, false, true), 0, Pow2(d.k) - Slot(d.request + f.phase.pad, d.k), false)
      else Resume
    case Do(op) =>
      match op
      case Write(data, buffered, pad) =>
        if buffered then
          if !SpaceTest(Used(d), |data|, Pow2(d.k)) then Begin(Send(data, true, false), Cut(d), 0, false)
          else if CopiedInto(d.ring, Slot(d.request + d.partial, d.k), data).None? then Tidy(false, 0)
          else Begin(Send(data, true, true), Cut(d), 0, false)
        else if data == [] then Begin(Send(data, false, true), Cut(d), 0, false)
        else if |data| + (if |data| >= CAP_SIZE then pad % CAP_SIZE else 0) > Pow2(d.k) then
          Begin(Send(data, false, false), Cut(d), 0, false)
        else Tidy(true, Cut(d))
      case Read(len) => Begin(Recv(len), Cut(d), 0, false)
      case SeekTo(offset, cur) => Begin(Seek(offset, cur), Cut(d), 0, false)
      case PutC(b) => Begin(Put(b), Cut(d), 0, Used(d) + 1 == Pow2(d.k))
  }

  // The end of a buffered send.
  lemma BufferedAbs(f: RingFile, count: nat)
    requires SocketOk(f.sock) && f.phase.Ready?
    ensures var f' := Buffered(f, count);
            var t := AbsSock(f.sock).(readBehind := f.sock.readBehind + count);
            && Good(f')
            && Abs(f') == Abs(f).(sock := if |t.partial| >= t.bufferSize / 2 then FlushDrb(t, Cut(f.sock.drb)) else t)
  {
    hide Slot, Pow2, Flush, InOrder;
    FlushAbs(f.sock);
  }

  lemma BufferedWriteAbs(f: RingFile, data: seq<Byte>)
    requires Good(f) && f.phase.Ready? && !f.overran && !BufferedWrite(f, data).overran
    ensures var f' := BufferedWrite(f, data);
            Good(f') && Abs(f') == FilePtr.Next(Abs(f), AbsEvent(f, Do(Write(data, true, 0))))
  {
    hide Slot, Pow2, CopiedInto, InOrder, Buffered, FlushDrb, CatchUpW, CatchUpWrite, Window, AbsQueue, Cut;
    var d := f.sock.drb;
    CatchUpWAbs(f.sock);
    var u := CatchUpW(f.sock).(writeBeforeRead := true);
    FlagAbs(CatchUpW(f.sock));
    if !SpaceTest(Used(d), |data|, Pow2(d.k)) {
      BufferedAbs(f.(sock := u, calls := f.calls + [Send(data, true, false)]), 0);
      NothingAdded(AbsSock(u));
    } else if CopiedInto(d.ring, Slot(d.request + d.partial, d.k), data).Some? {
      BufferedRoom(f, data);
      BufferedCopyAbs(f.(calls := f.calls + [Send(data, true, true)]), u, data);
    }
  }

  lemma FlagAbs(s: Socket)
    requires SocketOk(s)
    ensures SocketOk(s.(writeBeforeRead := true))
    ensures AbsSock(s.(writeBeforeRead := true)) == AbsSock(s).(writeBeforeRead := true)
  {
    hide InOrder, Pow2;
  }

  lemma NothingAdded(s: Sock)
    ensures s.(readBehind := s.readBehind + 0) == s
  {
  }

  // The block is copied, with room for it.
  lemma BufferedCopyAbs(f: RingFile, u: Socket, data: seq<Byte>)
    requires SocketOk(u) && f.phase.Ready? && u.drb == f.sock.drb && Used(u.drb) + |data| <= Pow2(u.drb.k)
    requires CopiedInto(u.drb.ring, Slot(u.drb.request + u.drb.partial, u.drb.k), data).Some?
    ensures var d, t := u.drb, AbsSock(u);
            var ring := CopiedInto(d.ring, Slot(d.request + d.partial, d.k), data).value;
            var g := f.(sock := u.(drb := d.(ring := ring, partial := d.partial + |data|)));
            var v := t.(partial := t.partial + data, readBehind := t.readBehind + |data|);
            && Good(Buffered(g, |data|))
            && Abs(Buffered(g, |data|)) ==
               Abs(g).(sock := if |v.partial| >= v.bufferSize / 2 then FlushDrb(v, Cut(d)) else v)
  {
    hide Slot, Pow2, Stored, CopiedInto, InOrder, Buffered, FlushDrb, Window, AbsQueue;
    var d := u.drb;
    InOrderBounds(u.wqueue, d.fulfill, d.request);
    CopiedIntoIs(d.ring, d.request + d.partial, data, d.k);
    AppendAbs(u, data);
    var ring := CopiedInto(d.ring, Slot(d.request + d.partial, d.k), data).value;
    BufferedAbs(f.(sock := u.(drb := d.(ring := ring, partial := d.partial + |data|))), |data|);
  }

  lemma BufferedRoom(f: RingFile, data: seq<Byte>)
    requires SocketOk(f.sock) && !BufferedWrite(f, data).overran
    requires var d := f.sock.drb;
             SpaceTest(Used(d), |data|, Pow2(d.k)) && CopiedInto(d.ring, Slot(d.request + d.partial, d.k), data).Some?
    ensures Used(f.sock.drb) + |data| <= Pow2(f.sock.drb.k)
  {
    hide Slot, Pow2, CopiedInto, InOrder;
  }

  lemma DirectWriteAbs(f: RingFile, data: seq<Byte>, pad: nat)
    requires Good(f) && f.phase.Ready?
    ensures var f' := DirectWrite(f, data, pad);
            Good(f') && Abs(f') == FilePtr.Next(Abs(f), AbsEvent(f, Do(Write(data, false, pad))))
  {
    hide Slot, Pow2, InOrder, Flush, FlushDrb, CatchUpW, CatchUpWrite, Window, AbsQueue, Cut;
    FlushAbs(f.sock);
    CatchUpWAbs(Flush(f.sock));
    var u := CatchUpW(Flush(f.sock)).(writeBeforeRead := true);
    assert SocketOk(u) && AbsSock(u) == CatchUpWrite(FlushDrb(AbsSock(f.sock), Cut(f.sock.drb))).(writeBeforeRead := true);
    CaughtUp(Flush(f.sock));
  }

  lemma CaughtUp(s: Socket)
    ensures CatchUpW(s).writeBehind == 0
  {
  }

  lemma PendingAbs(s: Socket)
    requires Sized(s.drb)
    ensures Flagged(AbsSock(s)) <==> s.writeBeforeRead || !Pending(s)
  {
    var q := AbsQueue(s.wqueue, s.drb);
    assert forall i :: 0 <= i < |q| ==> (q[i].SeekWriter? <==> !s.wqueue[i].Block?);
  }

  lemma ReadAbs(f: RingFile, len: nat)
    requires Good(f) && f.phase.Ready?
    ensures var f' := Done(f, Read(len));
            Good(f') && Abs(f') == FilePtr.Next(Abs(f), AbsEvent(f, Do(Read(len))))
  {
    hide Slot, Pow2, InOrder, Flush, FlushDrb, CatchUpR, CatchUpRead, Window, AbsQueue, Cut, Flagged, Pending;
    FlushAbs(f.sock);
    CatchUpRAbs(Flush(f.sock));
    PendingAbs(f.sock);
  }

  lemma SeekAbs(f: RingFile, offset: int, cur: bool)
    requires Good(f) && f.phase.Ready?
    ensures var f' := Done(f, SeekTo(offset, cur));
            Good(f') && Abs(f') == FilePtr.Next(Abs(f), AbsEvent(f, Do(SeekTo(offset, cur))))
  {
    hide Slot, Pow2, InOrder, Lseek, LseekFile, Window, AbsQueue, Cut;
    LseekAbs(f.sock, offset, cur);
  }

  lemma PutAbs(f: RingFile, b: Byte)
    requires Good(f) && f.phase.Ready? && Used(f.sock.drb) != Pow2(f.sock.drb.k)
    ensures var f' := Done(f, PutC(b));
            Good(f') && Abs(f') == FilePtr.Next(Abs(f), AbsEvent(f, Do(PutC(b))))
  {
    hide Slot, Pow2, InOrder, PutChar, Fputc, Window, AbsQueue, Cut;
    PutCharAbs(f.sock, b);
  }

  // An unbuffered block finds room.
  lemma RoomAbs(f: RingFile)
    requires Good(f) && f.phase.NeedRoom?
    requires f.sock.drb.request - f.sock.drb.fulfill + |f.phase.data| + f.phase.pad <= Pow2(f.sock.drb.k)
    ensures Good(Continued(f)) && Abs(Continued(f)) == FilePtr.Next(Abs(f), AbsEvent(f, Go))
  {
    hide Slot, Pow2, Stored, Emit;
    var d, q, data, pad, f' := f.sock.drb, f.sock.wqueue, f.phase.data, f.phase.pad, Continued(f);
    var d', m := f'.sock.drb, Emit(d.request, |data|, pad, d.k);
    QueueKept(q, d, d', d.request + pad, data);
    AbsQueueConcat(q, m, d');
    EmitPieces(d', d.request, |data|, pad);
    StoredWindow(d.ring, d.request + pad, data, d.k);
    EmitInOrder(d.request, |data|, pad, d.k);
    InOrderConcat(q, m, d.fulfill, d.request, d.request + |data| + pad);
    hide Window, AbsQueue, InOrder, Pieces;
    assert AbsSock(f.sock).partial == [] && AbsSock(f'.sock).partial == [] by { NoWindow(d, d'); }
  }

  lemma NoWindow(d: Drb, d': Drb)
    requires Sized(d) && Sized(d')
    ensures Window(d.ring, d.request, 0, d.k) == [] && Window(d'.ring, d'.request, 0, d'.k) == []
  {
  }

  lemma GoAbs(f: RingFile)
    requires Good(f)
    ensures Good(Next(f, Go)) && Abs(Next(f, Go)) == FilePtr.Next(Abs(f), AbsEvent(f, Go))
  {
    hide Slot, Pow2, InOrder, Window, AbsQueue, Continued, Resumed;
    var d := f.sock.drb;
    if f.phase.NeedRoom? && d.request - d.fulfill + |f.phase.data| + f.phase.pad <= Pow2(d.k) {
      RoomAbs(f);
    } else {
      ResumeAbs(f);
    }
  }

  lemma ResumeAbs(f: RingFile)
    requires Good(f)
    requires var d := f.sock.drb;
             f.phase.NeedRoom? ==> d.request - d.fulfill + |f.phase.data| + f.phase.pad > Pow2(d.k)
    ensures Good(Continued(f)) && Abs(Continued(f)) == Resumed(Abs(f))
  {
    hide Slot, Pow2, InOrder, Window, AbsQueue, Stored, Emit, Flush;
  }

  lemma ServeAbs(f: RingFile)
    requires Good(f)
    ensures Good(Next(f, ServeW)) && Abs(Next(f, ServeW)) == FilePtr.Next(Abs(f), AbsEvent(f, ServeW))
    ensures Good(Next(f, ServeR)) && Abs(Next(f, ServeR)) == FilePtr.Next(Abs(f), AbsEvent(f, ServeR))
  {
    hide Next, FilePtr.Next, Abs, AbsEvent;
    ServeWAbs(f);
    ServeRAbs(f);
  }

  lemma ServeRAbs(f: RingFile)
    requires Good(f)
    ensures Good(Next(f, ServeR)) && Abs(Next(f, ServeR)) == FilePtr.Next(Abs(f), AbsEvent(f, ServeR))
  {
    hide Slot, Pow2, Window, InOrder, AbsQueue, Slice;
  }

  lemma ServeWAbs(f: RingFile)
    requires Good(f)
    ensures Good(Next(f, ServeW)) && Abs(Next(f, ServeW)) == FilePtr.Next(Abs(f), AbsEvent(f, ServeW))
  {
    hide Slot, Pow2, Window, InOrder, AbsQueue, Written, Slice;
    if f.sock.wqueue != [] {
      ServeQueue(f.sock);
    }
  }

  // The oldest write request taken off the queue.
  lemma ServeQueue(s: Socket)
    requires SocketOk(s) && s.wqueue != []
    ensures var r, d := s.wqueue[0], s.drb;
            var d' := if r.Block? then d.(fulfill := d.fulfill + r.inc) else d;
            && SocketOk(s.(wqueue := s.wqueue[1..], drb := d'))
            && AbsQueue(s.wqueue[1..], d') == AbsQueue(s.wqueue, d)[1..] && AbsQueue(s.wqueue, d)[0] == AbsReq(r, d)
  {
    hide Slot, Pow2, Window;
    InOrderBounds(s.wqueue, s.drb.fulfill, s.drb.request);
  }

  /** One event: as long as no buffered send overran, the ring machine does what the machine on bytes does, or nothing. */
  lemma StepAbs(f: RingFile, e: Event)
    requires Good(f) && !f.overran && !Next(f, e).overran
    ensures Good(Next(f, e))
    ensures Abs(Next(f, e)) == Abs(f) || Abs(Next(f, e)) == FilePtr.Next(Abs(f), AbsEvent(f, e))
  {
    hide InOrder, Abs, AbsEvent, FilePtr.Next, BufferedWrite, DirectWrite, Slot, Pow2, Continued, PutChar, Lseek;
    match e
    case ServeW => ServeAbs(f);
    case ServeR => ServeAbs(f);
    case Go => GoAbs(f);
    case Do(op) =>
      if f.phase.Ready? {
        match op
        case Write(data, buffered, pad) =>
          if buffered {
            BufferedWriteAbs(f, data);
            SameEvent(f, data, pad);
          } else if CanFlush(f.sock.drb) {
            DirectWriteAbs(f, data, pad);
          }
        case Read(len) => ReadAbs(f, len);
        case SeekTo(offset, cur) => SeekAbs(f, offset, cur);
        case PutC(b) =>
          if Used(f.sock.drb) != Pow2(f.sock.drb.k) {
            PutAbs(f, b);
          }
      }
  }

  lemma SameEvent(f: RingFile, data: seq<Byte>, pad: nat)
    requires Sized(f.sock.drb)
    ensures AbsEvent(f, Do(Write(data, true, pad))) == AbsEvent(f, Do(Write(data, true, 0)))
  {
  }

  // ---------------------------------------------------------------- every run

  lemma OverranStays(f: RingFile, e: Event)
    requires Sized(f.sock.drb) && f.overran
    ensures Next(f, e).overran
  {
  }

  lemma OpenedGood(tape: Tape, k: nat, leftover: int, flag: bool)
    ensures Good(Opened(tape, k, leftover, flag))
    ensures Abs(Opened(tape, k, leftover, flag)) == FilePtr.Opened(tape, Pow2(k), leftover, flag)
  {
    hide Pow2;
    assert AbsQueue([], Opened(tape, k, leftover, flag).sock.drb) == [];
  }

  lemma {:induction false} RunFollowsAbs(tape: Tape, k: nat, flag: bool, events: seq<Event>)
    requires !Run(Opened(tape, k, 0, flag), events).overran
    ensures var f := Run(Opened(tape, k, 0, flag), events); Good(f) && Follows(Abs(f), Flat(tape, 0))
    decreases |events|
  {
    hide Next, Good, Follows, Abs, AbsEvent, FilePtr.Next;
    OpenedGood(tape, k, 0, flag);
    if events == [] {
      FilePtr.RunFollows(tape, Pow2(k), flag, []);
      assert FilePtr.Run(FilePtr.Opened(tape, Pow2(k), 0, flag), []) == FilePtr.Opened(tape, Pow2(k), 0, flag);
    } else {
      var f, e := Run(Opened(tape, k, 0, flag), events[..|events| - 1]), events[|events| - 1];
      if f.overran {
        OverranStays(f, e);
      }
      RunFollowsAbs(tape, k, flag, events[..|events| - 1]);
      StepAbs(f, e);
      NextFollows(Abs(f), Flat(tape, 0), AbsEvent(f, e));
    }
  }

  ghost predicate Agrees(f: RingFile, start: Flat) {
    f.results == FlatReads(start, f.calls)
  }

  /** Reads are those of a file with one cursor: for every mix of sends, receives and seeks, every order in which the
      server takes the two queues and every ring, as long as each buffered send that was accepted had room. */
  lemma ReadsAreFlat(tape: Tape, k: nat, flag: bool, events: seq<Event>)
    requires var f := Run(Opened(tape, k, 0, flag), events); !f.overran && NoPuts(f.calls)
    ensures Agrees(Run(Opened(tape, k, 0, flag), events), Flat(tape, 0))
  {
    var f := Run(Opened(tape, k, 0, flag), events);
    RunFollowsAbs(tape, k, flag, events);
    NoPutsSteady(f.calls);
    SteadyReads(Flat(tape, 0), f.calls);
  }

  /** With characters put in between: a receive that does not race returns what stands behind the one pointer by the
      characters put since the last absolute seek; so reads are right when every put is followed by such a seek. */
  lemma ReadsLag(tape: Tape, k: nat, flag: bool, events: seq<Event>)
    requires var f := Run(Opened(tape, k, 0, flag), events); !f.overran && !f.raced
    ensures var f := Run(Opened(tape, k, 0, flag), events);
            && f.results == LaggedReads(Flat(tape, 0), f.calls)
            && (Steady(f.calls) ==> Agrees(f, Flat(tape, 0)))
  {
    var f := Run(Opened(tape, k, 0, flag), events);
    RunFollowsAbs(tape, k, flag, events);
    if Steady(f.calls) {
      SteadyReads(Flat(tape, 0), f.calls);
    }
  }

  /** Between calls the two cursors, with the requests still queued, differ exactly by the lag counters, and both name
      the one pointer; a partly filled ring means the write cursor does not lag and the next receive will wait. */
  lemma CursorsMeet(tape: Tape, k: nat, flag: bool, events: seq<Event>)
    requires var f := Run(Opened(tape, k, 0, flag), events); f.phase.Ready? && !f.overran && NoPuts(f.calls)
    ensures var f := Run(Opened(tape, k, 0, flag), events);
            var s, pos := f.sock, FlatRun(Flat(tape, 0), f.calls).pos;
            && DrainReads(f.rpos, s.rqueue) + s.readBehind == pos
            && DrainWrites(f.disk, AbsQueue(s.wqueue, s.drb)).pos + s.drb.partial + s.writeBehind == pos
            && (s.drb.partial != 0 ==> s.writeBehind == 0 && s.writeBeforeRead)
            && 0 <= Used(s.drb) <= Pow2(k)
  {
    var f := Run(Opened(tape, k, 0, flag), events);
    RunFollowsAbs(tape, k, flag, events);
    NoPutsNoLag(f.calls);
    InOrderBounds(f.sock.wqueue, f.sock.drb.fulfill, f.sock.drb.request);
    hide Run, Window, AbsQueue, DrainWrites, DrainReads, Pow2, InOrder;
  }

  /** Once everything sent has been taken by the server, its file is the one-cursor file. */
  lemma SettledFileIsFlat(tape: Tape, k: nat, flag: bool, events: seq<Event>)
    requires var f := Run(Opened(tape, k, 0, flag), events);
             f.phase.Ready? && f.sock.drb.partial == 0 && f.sock.wqueue == [] && !f.overran && !f.raced
    ensures var f := Run(Opened(tape, k, 0, flag), events);
            f.disk.tape == FlatRun(Flat(tape, 0), f.calls).tape
  {
    var f := Run(Opened(tape, k, 0, flag), events);
    RunFollowsAbs(tape, k, flag, events);
    assert AbsQueue(f.sock.wqueue, f.sock.drb) == [];
    assert Window(f.sock.drb.ring, f.sock.drb.request, 0, f.sock.drb.k) == [];
    EmptyWrite(FilePtr.Moved(f.disk, f.sock.writeBehind));
  }
}
