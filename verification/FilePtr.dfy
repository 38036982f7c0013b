/** One file pointer emulated by two server-side cursors.  A file socket has a write request queue and a read request
    queue, each with its own cursor in the file server; the client remembers by how much each cursor lags behind and
    sends a catch-up seek before it uses it.  The server takes requests off the two queues in any order.  Here a queued
    write carries its bytes; module FileRing has them lie in the ring. */
module FilePtr {
  import opened Wire

  // ---------------------------------------------------------------- the simple form: a file with one cursor

  type Tape = map<int, Byte>

  datatype Flat = Flat(tape: Tape, pos: int)

  function ByteFor(data: seq<Byte>, pos: int, x: int): Byte
    requires pos <= x < pos + |data|
  {
    data[x - pos]
  }

  function Written(f: Flat, data: seq<Byte>): (g: Flat)
    ensures g.pos == f.pos + |data|
  {
    Flat(f.tape + map x | f.pos <= x < f.pos + |data| :: ByteFor(data, f.pos, x), f.pos + |data|)
  }

  // The file reads as zero where nothing was written.
  function Slice(tape: Tape, pos: int, len: nat): (s: seq<Byte>) {
    seq(len, k requires 0 <= k => if pos + k in tape then tape[pos + k] else 0)
  }

  datatype Call =
    | Send(data: seq<Byte>, buffered: bool, fits: bool)
    | Recv(len: nat)
    | Seek(offset: int, cur: bool)
    | Put(b: Byte)                      // a character of formatted output

  function Sought(pos: int, offset: int, cur: bool): int {
    if cur then pos + offset else offset
  }

  function FlatStep(f: Flat, c: Call): Flat {
    match c
    case Send(data, _, fits) => if fits then Written(f, data) else f
    case Recv(len) => f.(pos := f.pos + len)
    case Seek(offset, cur) => f.(pos := Sought(f.pos, offset, cur))
    case Put(b) => Written(f, [b])
  }

  function FlatRun(f: Flat, calls: seq<Call>): Flat {
    if calls == [] then f else FlatStep(FlatRun(f, calls[..|calls| - 1]), calls[|calls| - 1])
  }

  // What the receives among the calls return.
  function FlatReads(f: Flat, calls: seq<Call>): seq<seq<Byte>> {
    if calls == [] then []
    else
      var before, c := calls[..|calls| - 1], calls[|calls| - 1];
      var g := FlatRun(f, before);
      FlatReads(f, before) + if c.Recv? then [Slice(g.tape, g.pos, c.len)] else []
  }

  // Characters put since the last absolute seek.
  function Lag(calls: seq<Call>): nat {
    if calls == [] then 0
    else
      var before, c := Lag(calls[..|calls| - 1]), calls[|calls| - 1];
      if c.Put? then before + 1 else if c.Seek? && !c.cur then 0 else before
  }

  // The same for a reader that stands that many bytes behind the one pointer.
  function LaggedReads(f: Flat, calls: seq<Call>): seq<seq<Byte>> {
    if calls == [] then []
    else
      var before, c := calls[..|calls| - 1], calls[|calls| - 1];
      var g := FlatRun(f, before);
      LaggedReads(f, before) + if c.Recv? then [Slice(g.tape, g.pos - Lag(before), c.len)] else []
  }

  /** Every put is followed by an absolute seek before the next receive. */
  ghost predicate Steady(calls: seq<Call>) {
    forall i :: 0 <= i < |calls| && calls[i].Recv? ==> Lag(calls[..i]) == 0
  }

  ghost predicate NoPuts(calls: seq<Call>) {
    forall i :: 0 <= i < |calls| ==> !calls[i].Put?
  }

  lemma {:induction false} NoPutsNoLag(calls: seq<Call>)
    requires NoPuts(calls)
    ensures Lag(calls) == 0
  {
    if calls != [] {
      NoPutsNoLag(calls[..|calls| - 1]);
    }
  }

  lemma NoPutsSteady(calls: seq<Call>)
    requires NoPuts(calls)
    ensures Steady(calls)
  {
    forall i | 0 <= i < |calls| ensures Lag(calls[..i]) == 0 {
      NoPutsNoLag(calls[..i]);
    }
  }

  lemma {:induction false} SteadyReads(f: Flat, calls: seq<Call>)
    requires Steady(calls)
    ensures LaggedReads(f, calls) == FlatReads(f, calls)
  {
    if calls != [] {
      var n := |calls| - 1;
      assert forall i :: 0 <= i < n ==> calls[..n][..i] == calls[..i];
      SteadyReads(f, calls[..n]);
    }
  }

  // ---------------------------------------------------------------- the socket and the server

  datatype WriteReq = Data(bytes: seq<Byte>) | SeekWriter(offset: int, cur: bool)

  datatype ReadReq = Fetch(len: nat) | SeekReader(offset: int, cur: bool)

  datatype Sock = Sock(readBehind: int, writeBehind: int, partial: seq<Byte>, writeBeforeRead: bool, bufferSize: nat,
                       wqueue: seq<WriteReq>, rqueue: seq<ReadReq>)

  // A block leaves the ring as one request, or as two where it wraps.
  function Pieces(data: seq<Byte>, cut: nat): seq<WriteReq> {
    if data == [] then []
    else if 0 < cut < |data| then [Data(data[..cut]), Data(data[cut..])]
    else [Data(data)]
  }

  function CatchUpWrite(s: Sock): Sock {
    if s.writeBehind != 0 then s.(wqueue := s.wqueue + [SeekWriter(s.writeBehind, true)], writeBehind := 0) else s
  }

  function CatchUpRead(s: Sock): Sock {
    if s.readBehind != 0 then s.(rqueue := s.rqueue + [SeekReader(s.readBehind, true)], readBehind := 0) else s
  }

  function FlushDrb(s: Sock, cut: nat): Sock {
    if s.partial != [] then
      var u := CatchUpWrite(s);
      u.(wqueue := u.wqueue + Pieces(u.partial, cut), partial := [])
    else s
  }

  function SocketSend(s: Sock, data: seq<Byte>, buffered: bool, fits: bool, cut: nat, cut': nat): Sock {
    var u := CatchUpWrite(if buffered then s else FlushDrb(s, cut)).(writeBeforeRead := true);
    var v := if !fits then u
             else if buffered then u.(partial := u.partial + data, readBehind := u.readBehind + |data|)
             else u.(wqueue := u.wqueue + Pieces(data, cut'), readBehind := u.readBehind + |data|);
    if buffered && |v.partial| >= v.bufferSize / 2 then FlushDrb(v, cut) else v
  }

  // A character of formatted output: no counter and no flag moves.  The ring is flushed after a newline and when full.
  function Fputc(s: Sock, b: Byte, full: bool, cut: nat): Sock {
    var u := s.(partial := s.partial + [b]);
    if b == 10 || full then FlushDrb(u, cut) else u
  }

  function LseekFile(s: Sock, offset: int, cur: bool, cut: nat): Sock {
    var u := FlushDrb(s, cut);
    var ow := if cur then offset + u.writeBehind else offset;
    var r := if cur then offset + u.readBehind else offset;
    u.(wqueue := if !cur || ow != 0 then u.wqueue + [SeekWriter(ow, cur)] else u.wqueue, writeBehind := 0,
       rqueue := if !cur || r != 0 then u.rqueue + [SeekReader(r, cur)] else u.rqueue, readBehind := 0)
  }

  datatype Phase = Idle | AwaitWrites(len: nat) | AwaitRead(len: nat)

  /** A file in use.  `disk` holds the bytes and the write cursor; `calls` and `results` record the finished calls and
      what the receives among them returned, `raced` whether a receive was begun without waiting for pending writes. */
  datatype File = File(sock: Sock, disk: Flat, rpos: int, phase: Phase, got: seq<Byte>,
                       calls: seq<Call>, results: seq<seq<Byte>>, raced: bool)

  datatype Event =
    | Begin(call: Call, cut: nat, cut': nat, full: bool)  // the client makes a call
    | Tidy(flush: bool, cut: nat)             // the part of a send before its bytes are copied
    | Resume                                  // a blocked receive finds its queue empty
    | ServeWrite                              // the server takes the oldest write request
    | ServeRead                               // the server takes the oldest read request

  function ServeWriteReq(d: Flat, r: WriteReq): Flat {
    match r
    case Data(bytes) => Written(d, bytes)
    case SeekWriter(offset, cur) => d.(pos := Sought(d.pos, offset, cur))
  }

  function ServeReadReq(rpos: int, r: ReadReq): int {
    match r
    case Fetch(len) => rpos + len
    case SeekReader(offset, cur) => Sought(rpos, offset, cur)
  }

  // No write is pending, or the next receive will wait for it.
  ghost predicate Flagged(s: Sock) {
    s.writeBeforeRead || (NoData(s.wqueue) && s.partial == [])
  }

  ghost function Begun(f: File, c: Call, cut: nat, cut': nat, full: bool): File {
    match c
    case Send(data, buffered, fits) =>
      f.(sock := SocketSend(f.sock, data, buffered, fits, cut, cut'), calls := f.calls + [c])
    case Recv(len) =>
      var s := CatchUpRead(FlushDrb(f.sock, cut));
      var g := f.(sock := s, raced := f.raced || !Flagged(f.sock));
      if s.writeBeforeRead then g.(phase := AwaitWrites(len)) else Asked(g, len)
    case Seek(offset, cur) =>
      f.(sock := LseekFile(f.sock, offset, cur, cut), calls := f.calls + [c])
    case Put(b) => f.(sock := Fputc(f.sock, b, full, cut), calls := f.calls + [c])
  }

  function Asked(f: File, len: nat): File {
    f.(sock := f.sock.(rqueue := f.sock.rqueue + [Fetch(len)]), phase := AwaitRead(len))
  }

  function Resumed(f: File): File {
    match f.phase
    case AwaitWrites(len) => if f.sock.wqueue == [] then Asked(f.(sock := f.sock.(writeBeforeRead := false)), len) else f
    case AwaitRead(len) =>
      if f.sock.rqueue == [] then
        f.(sock := f.sock.(writeBehind := f.sock.writeBehind + len), phase := Idle,
           calls := f.calls + [Recv(len)], results := f.results + [f.got])
      else f
    case Idle => f
  }

  ghost function Next(f: File, e: Event): File {
    match e
    case Begin(c, cut, cut', full) => if f.phase.Idle? then Begun(f, c, cut, cut', full) else f
    case Tidy(flush, cut) =>
      var s := if flush then FlushDrb(f.sock, cut) else f.sock;
      if f.phase.Idle? then f.(sock := CatchUpWrite(s).(writeBeforeRead := true)) else f
    case Resume => Resumed(f)
    case ServeWrite =>
      if f.sock.wqueue == [] then f
      else f.(disk := ServeWriteReq(f.disk, f.sock.wqueue[0]), sock := f.sock.(wqueue := f.sock.wqueue[1..]))
    case ServeRead =>
      if f.sock.rqueue == [] then f
      else
        var r := f.sock.rqueue[0];
        f.(rpos := ServeReadReq(f.rpos, r), sock := f.sock.(rqueue := f.sock.rqueue[1..]),
           got := if r.Fetch? then Slice(f.disk.tape, f.rpos, r.len) else f.got)
  }

  ghost function Run(f: File, events: seq<Event>): File {
    if events == [] then f else Next(Run(f, events[..|events| - 1]), events[|events| - 1])
  }

  /** A file just opened.  The counter of the write cursor keeps whatever `leftover` the memory held, and so does the
      flag; both cursors are at the start. */
  function Opened(tape: Tape, bufferSize: nat, leftover: int, flag: bool): File {
    File(Sock(0, leftover, [], flag, bufferSize, [], []), Flat(tape, 0), 0, Idle, [], [], [], false)
  }

  // ---------------------------------------------------------------- what the queues still amount to

  function DrainWrites(d: Flat, q: seq<WriteReq>): Flat
    decreases |q|
  {
    if q == [] then d else DrainWrites(ServeWriteReq(d, q[0]), q[1..])
  }

  function DrainReads(rpos: int, q: seq<ReadReq>): int
    decreases |q|
  {
    if q == [] then rpos else DrainReads(ServeReadReq(rpos, q[0]), q[1..])
  }

  ghost predicate NoData(q: seq<WriteReq>) {
    forall k :: 0 <= k < |q| ==> q[k].SeekWriter?
  }

  lemma {:induction false} DrainWritesConcat(d: Flat, q: seq<WriteReq>, q': seq<WriteReq>)
    ensures DrainWrites(d, q + q') == DrainWrites(DrainWrites(d, q), q')
    decreases |q|
  {
    if q == [] {
      assert q + q' == q';
    } else {
      assert (q + q')[1..] == q[1..] + q';
      DrainWritesConcat(ServeWriteReq(d, q[0]), q[1..], q');
    }
  }

  lemma {:induction false} DrainReadsConcat(rpos: int, q: seq<ReadReq>, q': seq<ReadReq>)
    ensures DrainReads(rpos, q + q') == DrainReads(DrainReads(rpos, q), q')
    decreases |q|
  {
    if q == [] {
      assert q + q' == q';
    } else {
      assert (q + q')[1..] == q[1..] + q';
      DrainReadsConcat(ServeReadReq(rpos, q[0]), q[1..], q');
    }
  }

  lemma {:induction false} DrainSeeks(d: Flat, q: seq<WriteReq>)
    requires NoData(q)
    ensures DrainWrites(d, q).tape == d.tape
    decreases |q|
  {
    if q != [] {
      DrainSeeks(ServeWriteReq(d, q[0]), q[1..]);
    }
  }

  lemma WrittenCell(f: Flat, data: seq<Byte>, x: int)
    ensures var t := Written(f, data).tape;
            if f.pos <= x < f.pos + |data| then x in t && t[x] == data[x - f.pos]
            else (x in t <==> x in f.tape) && (x in t ==> t[x] == f.tape[x])
  {
  }

  // Writing in two blocks is writing the whole.
  lemma WrittenConcat(f: Flat, a: seq<Byte>, b: seq<Byte>)
    ensures Written(Written(f, a), b) == Written(f, a + b)
  {
    hide Written;
    var l, r := Written(Written(f, a), b).tape, Written(f, a + b).tape;
    forall x
      ensures x in l.Keys <==> x in r.Keys
      ensures x in l && x in r ==> l[x] == r[x]
    {
      WrittenCell(f, a, x);
      WrittenCell(Written(f, a), b, x);
      WrittenCell(f, a + b, x);
    }
    assert l.Keys == r.Keys;
  }

  lemma DrainPieces(d: Flat, data: seq<Byte>, cut: nat)
    ensures DrainWrites(d, Pieces(data, cut)) == Written(d, data)
  {
    if data == [] {
      assert Written(d, data).tape == d.tape;
    } else if 0 < cut < |data| {
      WrittenConcat(d, data[..cut], data[cut..]);
      assert data[..cut] + data[cut..] == data;
      assert Pieces(data, cut)[1..] == [Data(data[cut..])];
      assert DrainWrites(Written(d, data[..cut]), [Data(data[cut..])]) == Written(Written(d, data[..cut]), data[cut..]);
    }
  }

  // ---------------------------------------------------------------- the invariant

  /** What the pending writes amount to, the ring's content included, is the one-cursor file; and the read cursor, with its
      queue and its counter, stands `lag` bytes behind the one pointer. */
  ghost predicate Cursors(s: Sock, disk: Flat, rpos: int, flat: Flat, lag: nat) {
    && Written(Moved(DrainWrites(disk, s.wqueue), s.writeBehind), s.partial) == flat
    && DrainReads(rpos, s.rqueue) + s.readBehind + lag == flat.pos
    && OnlySeeks(s.rqueue)
  }

  function Moved(d: Flat, n: int): Flat {
    d.(pos := d.pos + n)
  }

  ghost predicate OnlySeeks(q: seq<ReadReq>) {
    forall k :: 0 <= k < |q| ==> q[k].SeekReader?
  }

  // A read request is out and every write has reached the file.
  ghost predicate Reading(f: File, flat: Flat, lag: nat, len: nat) {
    var s := f.sock;
    && s.partial == [] && s.readBehind == 0 && NoData(s.wqueue)
    && Moved(DrainWrites(f.disk, s.wqueue), s.writeBehind) == flat && f.disk.tape == flat.tape
    && (if s.rqueue == [] then f.rpos + lag == flat.pos + len && f.got == Slice(flat.tape, flat.pos - lag, len)
        else
          var last := |s.rqueue| - 1;
          && s.rqueue[last] == Fetch(len) && OnlySeeks(s.rqueue[..last])
          && DrainReads(f.rpos, s.rqueue[..last]) + lag == flat.pos)
  }

  ghost predicate Inv(f: File, flat: Flat, lag: nat) {
    match f.phase
    case Idle => Cursors(f.sock, f.disk, f.rpos, flat, lag)
    case AwaitWrites(len) =>
      Cursors(f.sock, f.disk, f.rpos, flat, lag) && f.sock.partial == [] && f.sock.readBehind == 0
    case AwaitRead(len) => Reading(f, flat, lag, len)
  }

  // ---------------------------------------------------------------- the client keeps it

  lemma EmptyWrite(d: Flat)
    ensures Written(d, []) == d
  {
    assert Written(d, []).tape == d.tape;
  }

  lemma CatchUpWriteKeeps(s: Sock, disk: Flat, rpos: int, flat: Flat, lag: nat)
    requires Cursors(s, disk, rpos, flat, lag)
    ensures var u := CatchUpWrite(s);
            Cursors(u, disk, rpos, flat, lag) && u.writeBehind == 0 && u == s.(wqueue := u.wqueue, writeBehind := 0)
  {
    hide Written;
    if s.writeBehind != 0 {
      DrainWritesConcat(disk, s.wqueue, [SeekWriter(s.writeBehind, true)]);
    }
  }

  lemma CatchUpReadKeeps(s: Sock, disk: Flat, rpos: int, flat: Flat, lag: nat)
    requires Cursors(s, disk, rpos, flat, lag)
    ensures var u := CatchUpRead(s);
            Cursors(u, disk, rpos, flat, lag) && u.readBehind == 0 && u == s.(rqueue := u.rqueue, readBehind := 0)
  {
    hide Written;
    DrainReadsConcat(rpos, s.rqueue, [SeekReader(s.readBehind, true)]);
  }

  lemma FlushKeeps(s: Sock, disk: Flat, rpos: int, flat: Flat, lag: nat, cut: nat)
    requires Cursors(s, disk, rpos, flat, lag)
    ensures var u := FlushDrb(s, cut);
            && Cursors(u, disk, rpos, flat, lag) && u.partial == []
            && u == s.(wqueue := u.wqueue, partial := [], writeBehind := u.writeBehind)
  {
    hide Written;
    if s.partial != [] {
      CatchUpWriteKeeps(s, disk, rpos, flat, lag);
      var u := CatchUpWrite(s);
      DrainWritesConcat(disk, u.wqueue, Pieces(s.partial, cut));
      DrainPieces(DrainWrites(disk, u.wqueue), s.partial, cut);
      EmptyWrite(flat);
    }
  }

  // Bytes added at the end of the partly filled ring go where the one pointer stands.
  lemma AppendKeeps(s: Sock, disk: Flat, rpos: int, flat: Flat, lag: nat, data: seq<Byte>, counted: nat)
    requires Cursors(s, disk, rpos, flat, lag) && counted <= |data|
    ensures Cursors(s.(partial := s.partial + data, readBehind := s.readBehind + counted), disk, rpos, Written(flat, data),
                    lag + (|data| - counted))
  {
    hide Written;
    WrittenConcat(Moved(DrainWrites(disk, s.wqueue), s.writeBehind), s.partial, data);
  }

  lemma SendKeeps(s: Sock, disk: Flat, rpos: int, flat: Flat, lag: nat, data: seq<Byte>, buffered: bool, fits: bool,
                  cut: nat, cut': nat)
    requires Cursors(s, disk, rpos, flat, lag)
    ensures Cursors(SocketSend(s, data, buffered, fits, cut, cut'), disk, rpos,
                    FlatStep(flat, Send(data, buffered, fits)), lag)
  {
    hide Written, FlushDrb, CatchUpWrite;
    var t := if buffered then s else FlushDrb(s, cut);
    FlushKeeps(s, disk, rpos, flat, lag, cut);
    CatchUpWriteKeeps(t, disk, rpos, flat, lag);
    var u := CatchUpWrite(t).(writeBeforeRead := true);
    assert Cursors(u, disk, rpos, flat, lag);
    var flat' := FlatStep(flat, Send(data, buffered, fits));
    if buffered {
      var v := if fits then u.(partial := u.partial + data, readBehind := u.readBehind + |data|) else u;
      AppendKeeps(u, disk, rpos, flat, lag, data, |data|);
      FlushKeeps(v, disk, rpos, flat', lag, cut);
    } else if fits {
      DrainWritesConcat(disk, u.wqueue, Pieces(data, cut'));
      DrainPieces(DrainWrites(disk, u.wqueue), data, cut');
      EmptyWrite(DrainWrites(disk, u.wqueue));
      EmptyWrite(Written(DrainWrites(disk, u.wqueue), data));
    }
  }

  lemma PutKeeps(s: Sock, disk: Flat, rpos: int, flat: Flat, lag: nat, b: Byte, full: bool, cut: nat)
    requires Cursors(s, disk, rpos, flat, lag)
    ensures Cursors(Fputc(s, b, full, cut), disk, rpos, Written(flat, [b]), lag + 1)
  {
    hide Written, FlushDrb;
    AppendKeeps(s, disk, rpos, flat, lag, [b], 0);
    FlushKeeps(s.(partial := s.partial + [b]), disk, rpos, Written(flat, [b]), lag + 1, cut);
  }

  lemma SeekKeeps(s: Sock, disk: Flat, rpos: int, flat: Flat, lag: nat, offset: int, cur: bool, cut: nat)
    requires Cursors(s, disk, rpos, flat, lag)
    ensures Cursors(LseekFile(s, offset, cur, cut), disk, rpos, FlatStep(flat, Seek(offset, cur)), if cur then lag else 0)
  {
    hide Written, FlushDrb;
    FlushKeeps(s, disk, rpos, flat, lag, cut);
    var u, v := FlushDrb(s, cut), LseekFile(s, offset, cur, cut);
    EmptyWrite(Moved(DrainWrites(disk, u.wqueue), u.writeBehind));
    EmptyWrite(DrainWrites(disk, v.wqueue));
    var ow := if cur then offset + u.writeBehind else offset;
    var r := if cur then offset + u.readBehind else offset;
    DrainWritesConcat(disk, u.wqueue, [SeekWriter(ow, cur)]);
    DrainReadsConcat(rpos, u.rqueue, [SeekReader(r, cur)]);
  }

  // ---------------------------------------------------------------- every event keeps it

  lemma AskedReading(f: File, flat: Flat, lag: nat, len: nat)
    requires Cursors(f.sock, f.disk, f.rpos, flat, lag) && f.sock.partial == [] && f.sock.readBehind == 0
             && NoData(f.sock.wqueue)
    ensures Reading(Asked(f, len), flat, lag, len)
  {
    DrainSeeks(f.disk, f.sock.wqueue);
    EmptyWrite(Moved(DrainWrites(f.disk, f.sock.wqueue), f.sock.writeBehind));
    var q := Asked(f, len).sock.rqueue;
    assert q[..|q| - 1] == f.sock.rqueue;
  }

  // Flushing does not change whether the next receive waits for what is pending.
  lemma FlushedFlag(s: Sock, cut: nat)
    requires Flagged(s)
    ensures Flagged(FlushDrb(s, cut)) && Flagged(CatchUpRead(FlushDrb(s, cut)))
  {
  }

  lemma BeginKeeps(f: File, flat: Flat, lag: nat, c: Call, cut: nat, cut': nat, full: bool)
    requires f.phase.Idle? && Inv(f, flat, lag) && !Begun(f, c, cut, cut', full).raced
    ensures Inv(Begun(f, c, cut, cut', full), if c.Recv? then flat else FlatStep(flat, c),
                if c.Put? then lag + 1 else if c.Seek? && !c.cur then 0 else lag)
  {
    hide Cursors, Reading, SocketSend, LseekFile, FlushDrb, CatchUpRead, Fputc;
    match c
    case Send(data, buffered, fits) => SendKeeps(f.sock, f.disk, f.rpos, flat, lag, data, buffered, fits, cut, cut');
    case Seek(offset, cur) => SeekKeeps(f.sock, f.disk, f.rpos, flat, lag, offset, cur, cut);
    case Put(b) => PutKeeps(f.sock, f.disk, f.rpos, flat, lag, b, full, cut);
    case Recv(len) =>
      FlushKeeps(f.sock, f.disk, f.rpos, flat, lag, cut);
      CatchUpReadKeeps(FlushDrb(f.sock, cut), f.disk, f.rpos, flat, lag);
      FlushedFlag(f.sock, cut);
      var s := CatchUpRead(FlushDrb(f.sock, cut));
      if !s.writeBeforeRead {
        AskedReading(f.(sock := s), flat, lag, len);
        assert Asked(f.(sock := s), len) == Begun(f, c, cut, cut', full);
      }
  }

  lemma TidyKeeps(f: File, flat: Flat, lag: nat, flush: bool, cut: nat)
    requires Inv(f, flat, lag)
    ensures Inv(Next(f, Tidy(flush, cut)), flat, lag)
  {
    hide Written, FlushDrb, CatchUpWrite, Reading;
    if f.phase.Idle? {
      FlushKeeps(f.sock, f.disk, f.rpos, flat, lag, cut);
      CatchUpWriteKeeps(if flush then FlushDrb(f.sock, cut) else f.sock, f.disk, f.rpos, flat, lag);
    }
  }

  lemma ServeWriteKeeps(f: File, flat: Flat, lag: nat)
    requires Inv(f, flat, lag)
    ensures Inv(Next(f, ServeWrite), flat, lag)
  {
    if f.sock.wqueue != [] {
      var q := f.sock.wqueue;
      assert NoData(q) ==> NoData(q[1..]) && ServeWriteReq(f.disk, q[0]).tape == f.disk.tape;
      assert DrainWrites(f.disk, q) == DrainWrites(ServeWriteReq(f.disk, q[0]), q[1..]);
      hide DrainWrites, DrainReads, Written, Slice, NoData;
    }
  }

  lemma ServeReadKeeps(f: File, flat: Flat, lag: nat)
    requires Inv(f, flat, lag)
    ensures Inv(Next(f, ServeRead), flat, lag)
  {
    hide Written;
    if f.sock.rqueue != [] {
      var q := f.sock.rqueue;
      assert DrainReads(f.rpos, q) == DrainReads(ServeReadReq(f.rpos, q[0]), q[1..]);
      if f.phase.AwaitRead? {
        var last := |q| - 1;
        if last > 0 {
          assert q[..last][0] == q[0] && q[..last][1..] == q[1..][..last - 1];
        }
      }
    }
  }

  lemma ResumeKeeps(f: File, flat: Flat, lag: nat)
    requires Inv(f, flat, lag)
    ensures var f' := Resumed(f);
            if f.phase.AwaitRead? && f'.phase.Idle? then
              && Inv(f', FlatStep(flat, Recv(f.phase.len)), lag)
              && f'.calls == f.calls + [Recv(f.phase.len)]
              && f'.results == f.results + [Slice(flat.tape, flat.pos - lag, f.phase.len)]
            else Inv(f', flat, lag) && f'.calls == f.calls && f'.results == f.results
  {
    match f.phase
    case Idle =>
    case AwaitWrites(len) =>
      if f.sock.wqueue == [] {
        AskedReading(f.(sock := f.sock.(writeBeforeRead := false)), flat, lag, len);
      }
    case AwaitRead(len) =>
      if f.sock.rqueue == [] {
        EmptyWrite(Moved(DrainWrites(f.disk, f.sock.wqueue), f.sock.writeBehind + len));
      }
  }

  /** Without puts the flag always covers what is pending, and a partly filled ring means that the write cursor does not
      lag. */
  ghost predicate Tight(f: File) {
    && !f.raced && Flagged(f.sock) && (f.sock.partial != [] ==> f.sock.writeBehind == 0)
    && (!f.phase.Idle? ==> f.sock.partial == [])
  }

  /** What holds after every event, of the calls finished so far. */
  ghost predicate Follows(f: File, start: Flat) {
    && (!f.raced ==> Inv(f, FlatRun(start, f.calls), Lag(f.calls)) && f.results == LaggedReads(start, f.calls))
    && (NoPuts(f.calls) ==> Tight(f))
  }

  lemma NextTight(f: File, e: Event)
    requires Tight(f) && !(e.Begin? && e.call.Put?)
    ensures Tight(Next(f, e))
  {
    match e
    case Begin(c, cut, cut', full) =>
      if f.phase.Idle? && c.Recv? {
        FlushedFlag(f.sock, cut);
      }
    case Tidy(_, _) =>
    case Resume =>
    case ServeWrite =>
      if f.sock.wqueue != [] {
        assert NoData(f.sock.wqueue) ==> NoData(f.sock.wqueue[1..]);
      }
    case ServeRead =>
  }

  // Events that record no call keep what the calls mean.
  lemma NextRecords(f: File, e: Event)
    ensures var f' := Next(f, e);
            && (f'.calls == f.calls || exists c :: f'.calls == f.calls + [c])
            && (f.raced ==> f'.raced)
            && (NoPuts(f'.calls) ==> NoPuts(f.calls) && !(e.Begin? && f.phase.Idle? && e.call.Put?))
  {
    var f' := Next(f, e);
    if f'.calls != f.calls {
      assert f'.calls == f.calls + [f'.calls[|f.calls|]];
      assert forall i :: 0 <= i < |f.calls| ==> f'.calls[i] == f.calls[i];
      assert f'.calls[|f.calls|] == if e.Begin? then e.call else Recv(f.phase.len);
    }
  }

  lemma NextFollows(f: File, start: Flat, e: Event)
    requires Follows(f, start)
    ensures Follows(Next(f, e), start)
  {
    var f' := Next(f, e);
    NextRecords(f, e);
    if NoPuts(f'.calls) {
      if e.Begin? && !f.phase.Idle? {
        assert f' == f;
      } else {
        NextTight(f, e);
      }
    }
    if !f'.raced {
      NextReads(f, start, e);
    }
  }

  // One call more.
  lemma CallsSnoc(start: Flat, calls: seq<Call>, c: Call)
    ensures FlatRun(start, calls + [c]) == FlatStep(FlatRun(start, calls), c)
    ensures Lag(calls + [c]) == if c.Put? then Lag(calls) + 1 else if c.Seek? && !c.cur then 0 else Lag(calls)
    ensures var g := FlatRun(start, calls);
            LaggedReads(start, calls + [c]) ==
            LaggedReads(start, calls) + if c.Recv? then [Slice(g.tape, g.pos - Lag(calls), c.len)] else []
  {
    hide Slice, FlatStep;
    assert (calls + [c])[..|calls + [c]| - 1] == calls;
  }

  lemma NextReads(f: File, start: Flat, e: Event)
    requires !Next(f, e).raced && !f.raced
    requires Inv(f, FlatRun(start, f.calls), Lag(f.calls)) && f.results == LaggedReads(start, f.calls)
    ensures var f' := Next(f, e);
            Inv(f', FlatRun(start, f'.calls), Lag(f'.calls)) && f'.results == LaggedReads(start, f'.calls)
  {
    hide Inv, Slice, FlatStep, Flagged, CatchUpWrite, FlushDrb, FlatRun, Lag, LaggedReads;
    var flat, lag := FlatRun(start, f.calls), Lag(f.calls);
    match e
    case Begin(c, cut, cut', full) =>
      if f.phase.Idle? {
        BeginKeeps(f, flat, lag, c, cut, cut', full);
        CallsSnoc(start, f.calls, c);
      }
    case Tidy(flush, cut) => TidyKeeps(f, flat, lag, flush, cut);
    case Resume =>
      ResumeKeeps(f, flat, lag);
      if f.phase.AwaitRead? {
        CallsSnoc(start, f.calls, Recv(f.phase.len));
      }
    case ServeWrite => ServeWriteKeeps(f, flat, lag);
    case ServeRead => ServeReadKeeps(f, flat, lag);
  }

  /** Every run of the queues: unless a receive raced, the receives return what stands `Lag` bytes behind the one pointer,
      and without puts none races. */
  lemma {:induction false} RunFollows(tape: Tape, bufferSize: nat, flag: bool, events: seq<Event>)
    ensures Follows(Run(Opened(tape, bufferSize, 0, flag), events), Flat(tape, 0))
    decreases |events|
  {
    if events == [] {
      EmptyWrite(Flat(tape, 0));
    } else {
      RunFollows(tape, bufferSize, flag, events[..|events| - 1]);
      NextFollows(Run(Opened(tape, bufferSize, 0, flag), events[..|events| - 1]), Flat(tape, 0), events[|events| - 1]);
    }
  }
}
