/** The file socket's calls as they update its fields and its ring, with the server working on the queues while a call
    waits. */
module FileSocket {
  import opened Basics
  import opened Bits
  import opened FilePtr
  import opened FileRing
  import opened Ring
  import opened Wire

  /** What a send comes to: the bytes are accepted or refused, or the program is stopped, by the bounds of a capability or
      because the ring holds more than can ever be flushed. */
  datatype Outcome = Accepted | TooLong | Faulted | Overfull

  // What stays in the ring after a buffered send: from half full on it is flushed.
  function Kept(partial: nat, size: nat): nat {
    if partial >= size / 2 then 0 else partial
  }

  class UnixLikeSocket {
    var readBehind: int
    var writeBehind: int
    var writeBeforeRead: bool
    const drb: DataRingBuffer
    var wqueue: seq<Req>
    var rqueue: seq<ReadReq>
    // The server's side: the file with its write cursor, the read cursor, and the buffer of the receive in progress.
    var disk: Flat
    var rpos: int
    var buf: seq<Byte>
    // The file with one cursor that the client is meant to see, and how far reads are known to lag behind it.
    ghost var flat: Flat
    ghost var lag: nat

    ghost function State(): Socket
      reads this, drb, drb.buffer
    {
      Socket(readBehind, writeBehind, writeBeforeRead,
             Drb(drb.buffer[..], drb.k, drb.requestPtr, drb.fulfillPtr, drb.partialLength), wqueue, rqueue)
    }

    // The file as the machine of module FileRing sees it while a call is in the given phase.
    ghost function File(phase: FileRing.Phase): RingFile
      reads this, drb, drb.buffer
    {
      RingFile(State(), disk, rpos, phase, buf, [], [], false, false)
    }

    // Blocks do not overlap in the ring, and the cursors agree with the one pointer.
    ghost predicate During(phase: FileRing.Phase)
      reads this, drb, drb.buffer
    {
      Good(File(phase)) && Inv(Abs(File(phase)), flat, lag)
    }

    ghost predicate Sound()
      reads this, drb, drb.buffer
    {
      During(Ready)
    }

    // The next receive will wait for every write that is pending; only characters put can break this.
    ghost predicate Covered()
      reads this, drb
    {
      writeBeforeRead || (drb.partialLength == 0 && forall i :: 0 <= i < |wqueue| ==> wqueue[i].Move?)
    }

    constructor (tape: Tape, ghost k: nat, size: nat)
      requires size == Pow2(k)
      ensures Sound() && Covered() && flat == Flat(tape, 0) && lag == 0 && fresh(drb) && fresh(drb.buffer)
    {
      readBehind, writeBehind, writeBeforeRead := 0, 0, false;
      drb := new DataRingBuffer(k, size);
      wqueue, rqueue, disk, rpos, buf := [], [], Flat(tape, 0), 0, [];
      flat, lag := Flat(tape, 0), 0;
      new;
      EmptyWrite(Flat(tape, 0));
      assert AbsQueue([], State().drb) == [];
      assert Window(State().drb.ring, 0, 0, k) == [];
    }

    method CatchUpWriter()
      modifies this`wqueue, this`writeBehind
      ensures State() == CatchUpW(old(State()))
    {
      if writeBehind != 0 {
        wqueue := wqueue + [Move(writeBehind, true)];
        writeBehind := 0;
      }
    }

    method CatchUpReader()
      modifies this`rqueue, this`readBehind
      ensures State() == CatchUpR(old(State()))
    {
      if readBehind != 0 {
        rqueue := rqueue + [SeekReader(readBehind, true)];
        readBehind := 0;
      }
    }

    // One request for a stretch of the ring, or two where it wraps.
    method Requests(pos: nat, len: nat, pad: nat) returns (q: seq<Req>)
      requires drb.buffer.Length == Pow2(drb.k)
      ensures q == Emit(pos, len, pad, drb.k)
    {
      hide And, Pow2;
      AndMask(pos + pad, drb.k);
      var part1 := drb.buffer.Length - And(pos + pad, drb.buffer.Length - 1);
      if part1 < len {
        q := [Block(pos + pad, part1, part1 + pad), Block(pos + pad + part1, len - part1, len - part1)];
      } else {
        q := [Block(pos + pad, len, len + pad)];
      }
    }

    // The flush once there is space for it.
    method FlushDrbNow()
      requires drb.buffer.Length == Pow2(drb.k)
      modifies this`wqueue, this`writeBehind, drb`requestPtr, drb`partialLength
      ensures State() == FileRing.Flush(old(State())) && drb.partialLength == 0
    {
      if drb.partialLength != 0 {
        CatchUpWriter();
        var q := Requests(drb.requestPtr, drb.partialLength, 0);
        wqueue := wqueue + q;
        drb.requestPtr := drb.requestPtr + drb.partialLength;
        drb.partialLength := 0;
      }
    }

    // The server takes the oldest request of one queue, if there is one.
    method Serve(takeWrite: bool, ghost phase: FileRing.Phase)
      requires drb.buffer.Length == Pow2(drb.k)
      modifies this`disk, this`wqueue, this`rpos, this`rqueue, this`buf, drb`fulfillPtr
      ensures File(phase) == FileRing.Next(old(File(phase)), if takeWrite then ServeW else ServeR)
      ensures if takeWrite then rqueue == old(rqueue) && wqueue == (if old(wqueue) == [] then [] else old(wqueue)[1..])
              else wqueue == old(wqueue) && rqueue == (if old(rqueue) == [] then [] else old(rqueue)[1..])
    {
      hide *;
      if takeWrite {
        ServeWriter(phase);
      } else {
        ServeReader(phase);
      }
    }

    method ServeWriter(ghost phase: FileRing.Phase)
      requires drb.buffer.Length == Pow2(drb.k)
      modifies this`disk, this`wqueue, drb`fulfillPtr
      ensures File(phase) == FileRing.Next(old(File(phase)), ServeW)
      ensures wqueue == if old(wqueue) == [] then [] else old(wqueue)[1..]
    {
      hide Slot, Pow2, Window, Written, Slice, Done, Continued;
      if wqueue != [] {
        match wqueue[0] {
          case Block(pos, len, inc) =>
            var bytes := Take(pos, len);
            disk := Written(disk, bytes);
            drb.fulfillPtr := drb.fulfillPtr + inc;
          case Move(offset, cur) =>
            disk := disk.(pos := Sought(disk.pos, offset, cur));
        }
        wqueue := wqueue[1..];
      }
    }

    method ServeReader(ghost phase: FileRing.Phase)
      requires drb.buffer.Length == Pow2(drb.k)
      modifies this`rpos, this`rqueue, this`buf
      ensures File(phase) == FileRing.Next(old(File(phase)), ServeR)
      ensures rqueue == if old(rqueue) == [] then [] else old(rqueue)[1..]
    {
      hide Slot, Pow2, Window, Written, Slice, Done, Continued;
      if rqueue != [] {
        if rqueue[0].Fetch? {
          buf := Slice(disk.tape, rpos, rqueue[0].len);
        }
        rpos := ServeReadReq(rpos, rqueue[0]);
        rqueue := rqueue[1..];
      }
    }

    // The server reads a block out of the ring.
    method Take(pos: nat, len: nat) returns (bytes: seq<Byte>)
      requires drb.buffer.Length == Pow2(drb.k)
      ensures bytes == Window(drb.buffer[..], pos, len, drb.k)
    {
      hide And, Pow2;
      bytes := [];
      var i := 0;
      while i < len
        invariant 0 <= i <= len && bytes == Window(drb.buffer[..], pos, i, drb.k)
      {
        AndMask(pos + i, drb.k);
        bytes := bytes + [drb.buffer[And(pos + i, drb.buffer.Length - 1)]];
        i := i + 1;
      }
    }

    // Both waits of a receive: the server may take requests from either queue, `order` saying which next.
    method WaitFor(writer: bool, ghost phase: FileRing.Phase, order: nat -> bool)
      requires During(phase)
      modifies this`disk, this`wqueue, this`rpos, this`rqueue, this`buf, drb`fulfillPtr
      ensures During(phase) && (if writer then wqueue == [] else rqueue == []) && (old(Covered()) ==> Covered())
    {
      hide Inv, Abs, InOrder, FileRing.Next, Pow2;
      var n := 0;
      while if writer then wqueue != [] else rqueue != []
        invariant During(phase) && (old(Covered()) ==> Covered())
        decreases |wqueue| + |rqueue|
      {
        var other := if writer then rqueue != [] else wqueue != [];
        ServerKeeps(File(phase), flat, lag, if other && order(n) then !writer else writer);
        Serve(if other && order(n) then !writer else writer, phase);
        n := n + 1;
      }
    }

    // The server works between calls as well.
    method ServeIdle(takeWrite: bool)
      requires Sound()
      modifies this`disk, this`wqueue, this`rpos, this`rqueue, this`buf, drb`fulfillPtr
      ensures Sound() && (old(Covered()) ==> Covered())
    {
      hide Inv, Abs, InOrder, FileRing.Next, Pow2;
      ServerKeeps(File(Ready), flat, lag, takeWrite);
      Serve(takeWrite, Ready);
    }

    // The flush, after waiting for space if need be; without enough, even once every write is taken, it fails.
    method Flush() returns (ok: bool)
      requires drb.buffer.Length == Pow2(drb.k)
      modifies this`disk, this`wqueue, this`rpos, this`rqueue, this`buf, this`writeBehind
      modifies drb`requestPtr, drb`partialLength, drb`fulfillPtr
      ensures old(CanFlush(State().drb)) ==> ok && State() == FileRing.Flush(old(State()))
      ensures old(CanFlush(State().drb)) ==> disk == old(disk) && rpos == old(rpos) && buf == old(buf)
      ensures old(CanFlush(State().drb)) ==> drb.partialLength == 0
    {
      hide Pow2, FileRing.Flush, FileRing.Next;
      while wqueue != [] && drb.partialLength != 0
            && drb.requestPtr + drb.partialLength - drb.fulfillPtr > drb.buffer.Length
        invariant old(CanFlush(State().drb)) ==>
                    State() == old(State()) && disk == old(disk) && rpos == old(rpos) && buf == old(buf)
        decreases |wqueue|
      {
        Serve(true, Ready);
      }
      ok := drb.partialLength == 0 || drb.requestPtr + drb.partialLength - drb.fulfillPtr <= drb.buffer.Length;
      if ok {
        FlushDrbNow();
      }
    }

    // The end of a buffered send: from half full on the ring is flushed; then the bytes are counted.
    method Finish(count: nat) returns (ok: bool)
      requires drb.buffer.Length == Pow2(drb.k)
      modifies this`disk, this`wqueue, this`rpos, this`rqueue, this`buf, this`writeBehind, this`readBehind
      modifies drb`requestPtr, drb`partialLength, drb`fulfillPtr
      ensures old(CanFlush(State().drb)) ==>
                && ok && disk == old(disk) && rpos == old(rpos) && buf == old(buf)
                && State() == Buffered(old(File(Ready)), count).sock
                && drb.partialLength == Kept(old(drb.partialLength), drb.buffer.Length)
    {
      hide Pow2, FileRing.Flush;
      ok := true;
      if drb.partialLength >= drb.buffer.Length / 2 {
        ok := Flush();
      }
      if ok {
        readBehind := readBehind + count;
      }
    }

    // Copy the block into the ring and flush from half full on.
    method BufferedSend(data: seq<Byte>) returns (r: Outcome)
      requires SocketOk(State())
      modifies this, drb, drb.buffer
      ensures flat == old(flat) && lag == old(lag)
      ensures r.TooLong? <==> !SpaceTest(old(FileRing.Used(State().drb)), |data|, drb.buffer.Length)
      ensures r.Faulted? <==>
                !r.TooLong? && old(CopiedInto(drb.buffer[..], Slot(drb.requestPtr + drb.partialLength, drb.k), data)).None?
      ensures r.Overfull? ==> old(FileRing.Used(State().drb)) + |data| > drb.buffer.Length
      ensures r.TooLong? || r.Faulted? || old(FileRing.Used(State().drb)) + |data| <= drb.buffer.Length ==>
                && disk == old(disk) && rpos == old(rpos) && buf == old(buf) && writeBeforeRead
                && State() == BufferedWrite(old(File(Ready)), data).sock
      ensures r.TooLong? || (r.Accepted? && old(FileRing.Used(State().drb)) + |data| <= drb.buffer.Length) ==>
                drb.partialLength == Kept(old(drb.partialLength) + (if r.Accepted? then |data| else 0), drb.buffer.Length)
    {
      hide Slot, Pow2, CopiedInto, CatchUpW, Buffered;
      ghost var f := File(Ready);
      InOrderBounds(wqueue, drb.fulfillPtr, drb.requestPtr);
      hide InOrder;
      CatchUpWriter();
      writeBeforeRead := true;
      var c := drb.CopyIntoDrb(data);
      if c.Stopped? {
        return Faulted;
      }
      ghost var over := c.Copied? && FileRing.Used(f.sock.drb) + |data| > Pow2(f.sock.drb.k);
      ghost var calls := f.calls + [FilePtr.Send(data, true, c.Copied?)];
      SameBuffered(f.(sock := State(), calls := calls, overran := over), File(Ready),
                   if c.Copied? then |data| else 0);
      var ok := Finish(if c.Copied? then |data| else 0);
      r := if !ok then Overfull else if c.Copied? then Accepted else TooLong;
    }

    // Wait until the ring has room for a block that is not longer than the ring.
    method WaitRoom(data: seq<Byte>, gap: nat)
      requires During(NeedRoom(data, gap)) && |data| + gap <= drb.buffer.Length
      modifies this`disk, this`wqueue, this`rpos, this`rqueue, this`buf, drb`fulfillPtr
      ensures During(NeedRoom(data, gap)) && drb.requestPtr - drb.fulfillPtr + |data| + gap <= drb.buffer.Length
    {
      hide Inv, Abs, FileRing.Next, Pow2;
      while drb.requestPtr - drb.fulfillPtr + |data| + gap > drb.buffer.Length
        invariant During(NeedRoom(data, gap))
        decreases |wqueue|
      {
        assert wqueue != [];
        ServerKeeps(File(NeedRoom(data, gap)), flat, lag, true);
        Serve(true, NeedRoom(data, gap));
      }
    }

    // Put the block in behind the last request, after the gap that aligns it, and request it.
    method PutBlock(data: seq<Byte>, gap: nat)
      requires During(NeedRoom(data, gap)) && drb.requestPtr - drb.fulfillPtr + |data| + gap <= drb.buffer.Length
      modifies this, drb, drb.buffer
      ensures Sound() && flat == Written(old(flat), data) && lag == old(lag) && writeBeforeRead == old(writeBeforeRead)
      ensures drb.partialLength == old(drb.partialLength)
    {
      hide Inv, Abs, InOrder, FilePtr.Next, Pow2, Slot, Stored, Emit, Written;
      ghost var f := File(NeedRoom(data, gap));
      RoomKeeps(f, flat, lag);
      var q := Requests(drb.requestPtr, |data|, gap);
      drb.Store(drb.requestPtr + gap, data);
      drb.requestPtr := drb.requestPtr + |data| + gap;
      wqueue := wqueue + q;
      readBehind := readBehind + |data|;
      flat := Written(flat, data);
      assert File(Ready) == Continued(f).(calls := []);
      SameInv(Continued(f), File(Ready), flat, lag);
    }

    method DirectSend(data: seq<Byte>, pad: nat) returns (r: Outcome)
      requires Sound()
      modifies this, drb, drb.buffer
      ensures var gap := if |data| >= CAP_SIZE then pad % CAP_SIZE else 0;
              r == if data != [] && |data| + gap > drb.buffer.Length then TooLong else Accepted
      ensures Sound() && Covered() && lag == old(lag) && flat == if r.Accepted? then Written(old(flat), data) else old(flat)
      ensures drb.partialLength == 0
    {
      hide Inv, Abs, InOrder, Slot, Pow2, FileRing.Flush, CatchUpW, Written;
      ghost var f := File(Ready);
      DirectKeeps(f, flat, lag, data, pad);
      var ok := Flush();
      CatchUpWriter();
      writeBeforeRead := true;
      var gap := if |data| >= CAP_SIZE then pad % CAP_SIZE else 0;
      SameInv(DirectWrite(f, data, pad), File(DirectWrite(f, data, pad).phase), flat, lag);
      if data == [] {
        EmptyWrite(flat);
        return Accepted;
      }
      if |data| + gap > drb.buffer.Length {
        return TooLong;
      }
      WaitRoom(data, gap);
      PutBlock(data, gap);
      r := Accepted;
    }

    /** A send that is accepted adds the bytes at the one pointer; one that is not changes nothing the caller can see.  Only
        a buffered one that is accepted without room leaves more in the ring than fits. */
    method Send(data: seq<Byte>, buffered: bool, pad: nat) returns (r: Outcome)
      requires Sound()
      modifies this, drb, drb.buffer
      ensures var used, size := old(FileRing.Used(State().drb)), drb.buffer.Length;
              var gap := if |data| >= CAP_SIZE then pad % CAP_SIZE else 0;
              && (r.TooLong? <==> if buffered then !SpaceTest(used, |data|, size) else data != [] && |data| + gap > size)
              && (r.Faulted? ==> buffered) && (r.Overfull? ==> buffered && used + |data| > size)
              && (!buffered || r.TooLong? || r.Faulted? || used + |data| <= size ==>
                    && Sound() && Covered() && lag == old(lag)
                    && flat == if r.Accepted? then Written(old(flat), data) else old(flat))
      ensures buffered && 0 < |data| <= drb.buffer.Length ==> r.Accepted? || r.Overfull?
      ensures buffered && (r.TooLong? || (r.Accepted? && old(FileRing.Used(State().drb)) + |data| <= drb.buffer.Length)) ==>
                drb.partialLength == Kept(old(drb.partialLength) + (if r.Accepted? then |data| else 0), drb.buffer.Length)
      ensures !buffered ==> drb.partialLength == 0
    {
      hide Inv, Abs, InOrder, Slot, Pow2, CopiedInto, BufferedWrite, Written;
      if buffered {
        ghost var f := File(Ready);
        r := BufferedSend(data);
        if |data| <= drb.buffer.Length {
          CopiedIntoIs(f.sock.drb.ring, f.sock.drb.request + f.sock.drb.partial, data, f.sock.drb.k);
          InOrderBounds(f.sock.wqueue, f.sock.drb.fulfill, f.sock.drb.request);
        }
        if r.TooLong? || r.Faulted? || FileRing.Used(f.sock.drb) + |data| <= Pow2(f.sock.drb.k) {
          BufferedFields(f, data);
          BufferedKeeps(f, flat, lag, data);
          flat := if r.Accepted? then Written(flat, data) else flat;
          SameInv(BufferedWrite(f, data), File(Ready), flat, lag);
        }
      } else {
        r := DirectSend(data, pad);
      }
    }

    method Lseek(offset: int, cur: bool)
      requires Sound()
      modifies this, drb
      ensures Sound() && flat == old(flat).(pos := Sought(old(flat).pos, offset, cur)) && lag == if cur then old(lag) else 0
      ensures disk == old(disk) && rpos == old(rpos) && (old(Covered()) ==> Covered())
    {
      hide Inv, Abs, InOrder, Pow2;
      ghost var f := File(Ready);
      SeekToKeeps(f, flat, lag, offset, cur);
      var ok := Flush();
      var ow := if cur then offset + writeBehind else offset;
      if !cur || ow != 0 {
        wqueue := wqueue + [Move(ow, cur)];
      }
      writeBehind := 0;
      var r := if cur then offset + readBehind else offset;
      if !cur || r != 0 {
        rqueue := rqueue + [SeekReader(r, cur)];
      }
      readBehind := 0;
      flat, lag := FlatStep(flat, Seek(offset, cur)), if cur then lag else 0;
      SameInv(f.(sock := FileRing.Lseek(f.sock, offset, cur)), File(Ready), flat, lag);
    }

    /** A character of formatted output goes in at the one pointer, once the ring has room; the read cursor falls one
        further behind it.  Only a ring full of bytes not yet requested stops it. */
    method Fputc(b: Byte, order: nat -> bool) returns (ok: bool)
      requires Sound()
      modifies this, drb, drb.buffer
      ensures Sound() && (ok <==> old(drb.partialLength) != drb.buffer.Length)
      ensures if ok then flat == Written(old(flat), [b]) && lag == old(lag) + 1 else flat == old(flat) && lag == old(lag)
      ensures ok ==>
                var flushed := b == 10 || FileRing.Used(State().drb) == drb.buffer.Length;
                drb.partialLength == if flushed then 0 else old(drb.partialLength) + 1
    {
      hide Inv, Abs, FileRing.Flush, Pow2, Slot;
      InOrderBounds(wqueue, drb.fulfillPtr, drb.requestPtr);
      if drb.requestPtr + drb.partialLength - drb.fulfillPtr == drb.buffer.Length {
        WaitFor(true, Ready, order);
      }
      InOrderBounds(wqueue, drb.fulfillPtr, drb.requestPtr);
      if drb.requestPtr + drb.partialLength - drb.fulfillPtr == drb.buffer.Length {
        return false;
      }
      PutByte(b);
      ok := true;
    }

    method PutByte(b: Byte)
      requires Sound() && FileRing.Used(State().drb) != drb.buffer.Length
      modifies this, drb, drb.buffer
      ensures Sound() && flat == Written(old(flat), [b]) && lag == old(lag) + 1
      ensures var flushed := b == 10 || FileRing.Used(State().drb) == drb.buffer.Length;
              drb.partialLength == if flushed then 0 else old(drb.partialLength) + 1
    {
      hide Inv, Abs, InOrder, FileRing.Flush, Pow2, Slot;
      ghost var f := File(Ready);
      PutKeepsSound(f, flat, lag, b);
      InOrderBounds(wqueue, drb.fulfillPtr, drb.requestPtr);
      drb.Fputc(b);
      FlushUsed(State());
      if b == 10 || drb.Used() == drb.buffer.Length {
        var ok := Flush();
      }
      flat, lag := Written(flat, [b]), lag + 1;
      SameInv(f.(sock := PutChar(f.sock, b)), File(Ready), flat, lag);
    }

    // Up to the point where the read request is out.
    method StartRecv(len: nat, order: nat -> bool)
      requires Sound() && Covered()
      modifies this, drb
      ensures During(NeedRead(len)) && Covered() && flat == old(flat) && lag == old(lag)
    {
      hide Inv, Abs, InOrder, Pow2, CatchUpR, Flagged;
      ghost var f := File(Ready);
      PendingAbs(State());
      AskKeeps(f, flat, lag, len);
      var ok := Flush();
      CatchUpReader();
      if writeBeforeRead {
        SameInv(Done(f, Read(len)), File(NeedWrites(len)), flat, lag);
        WaitFor(true, NeedWrites(len), order);
        GoKeeps(File(NeedWrites(len)), flat, lag);
        ghost var g := Continued(File(NeedWrites(len)));
        writeBeforeRead := false;
        rqueue := rqueue + [Fetch(len)];
        SameInv(g, File(NeedRead(len)), flat, lag);
      } else {
        rqueue := rqueue + [Fetch(len)];
        SameInv(Done(f, Read(len)), File(NeedRead(len)), flat, lag);
      }
    }

    /** A receive returns what stands at the one pointer, or as far behind it as the reads lag, and moves it on, whatever
        the server does meanwhile.  The flag must cover the writes still pending. */
    method Recv(len: nat, order: nat -> bool, order': nat -> bool) returns (got: seq<Byte>)
      requires Sound() && Covered()
      modifies this, drb
      ensures Sound() && Covered() && got == Slice(old(flat).tape, old(flat).pos - old(lag), len)
      ensures flat == old(flat).(pos := old(flat).pos + len) && lag == old(lag)
    {
      hide Inv, Abs, InOrder, Slice, Pow2;
      StartRecv(len, order);
      WaitFor(false, NeedRead(len), order');
      ghost var g := File(NeedRead(len));
      ReadKeeps(g, flat, lag);
      got := buf;
      writeBehind := writeBehind + len;
      flat := FlatStep(flat, FilePtr.Recv(len));
      SameInv(Continued(g), File(Ready), flat, lag);
    }
  }

  // Every server step keeps the cursors together.
  lemma ServerKeeps(f: RingFile, flat: Flat, lag: nat, takeWrite: bool)
    requires Good(f) && Inv(Abs(f), flat, lag)
    ensures var g := FileRing.Next(f, if takeWrite then ServeW else ServeR); Good(g) && Inv(Abs(g), flat, lag)
  {
    hide Inv, Abs, InOrder, FilePtr.Next, FileRing.Next;
    ServeAbs(f);
    ServeWriteKeeps(Abs(f), flat, lag);
    ServeReadKeeps(Abs(f), flat, lag);
  }

  lemma SameBuffered(f: RingFile, g: RingFile, count: nat)
    requires f.sock == g.sock
    ensures Buffered(f, count).sock == Buffered(g, count).sock
  {
    hide Pow2, FileRing.Flush;
  }

  // The history does not matter for the cursors.
  lemma SameInv(f: RingFile, g: RingFile, flat: Flat, lag: nat)
    requires Good(f) && Inv(Abs(f), flat, lag) && g.sock == f.sock && g.disk == f.disk && g.rpos == f.rpos && g.got == f.got
    requires g.phase == f.phase || (f.phase.Halted? && g.phase.Ready?)
    ensures Good(g) && Inv(Abs(g), flat, lag)
  {
    hide Cursors, AbsSock, SocketOk;
  }

  lemma RoomKeeps(f: RingFile, flat: Flat, lag: nat)
    requires Good(f) && Inv(Abs(f), flat, lag) && f.phase.NeedRoom? && !f.raced
    requires f.sock.drb.request - f.sock.drb.fulfill + |f.phase.data| + f.phase.pad <= Pow2(f.sock.drb.k)
    ensures Good(Continued(f)) && Inv(Abs(Continued(f)), Written(flat, f.phase.data), lag)
  {
    hide Inv, Slot, Pow2, InOrder, AbsSock, Written;
    RoomAbs(f);
    BeginKeeps(Abs(f), flat, lag, FilePtr.Send(f.phase.data, false, true), 0,
               Pow2(f.sock.drb.k) - Slot(f.sock.drb.request + f.phase.pad, f.sock.drb.k), false);
  }

  lemma DirectKeeps(f: RingFile, flat: Flat, lag: nat, data: seq<Byte>, pad: nat)
    requires Good(f) && Inv(Abs(f), flat, lag) && f.phase.Ready? && !f.raced
    ensures var g := DirectWrite(f, data, pad); Good(g) && Inv(Abs(g), flat, lag)
  {
    hide Inv, Slot, Pow2, InOrder, AbsSock, Written, SocketSend, DirectWrite, FlushDrb;
    DirectWriteAbs(f, data, pad);
    var fits := data == [];
    BeginKeeps(Abs(f), flat, lag, FilePtr.Send(data, false, fits), Cut(f.sock.drb), 0, false);
    TidyKeeps(Abs(f), flat, lag, true, Cut(f.sock.drb));
    EmptyWrite(flat);
  }

  lemma BufferedKeeps(f: RingFile, flat: Flat, lag: nat, data: seq<Byte>)
    requires Good(f) && Inv(Abs(f), flat, lag) && f.phase.Ready? && !f.raced && !f.overran
    requires !BufferedWrite(f, data).overran
    ensures var g, d := BufferedWrite(f, data), f.sock.drb;
            var fits := SpaceTest(FileRing.Used(d), |data|, Pow2(d.k));
            var copy := CopiedInto(d.ring, Slot(d.request + d.partial, d.k), data);
            Good(g) && Inv(Abs(g), if fits && copy.Some? then Written(flat, data) else flat, lag)
  {
    hide Inv, Slot, Pow2, InOrder, AbsSock, Written, SocketSend, BufferedWrite, FlushDrb, CopiedInto;
    BufferedWriteAbs(f, data);
    var d := f.sock.drb;
    var fits := SpaceTest(FileRing.Used(d), |data|, Pow2(d.k));
    BeginKeeps(Abs(f), flat, lag, FilePtr.Send(data, true, fits), Cut(d), 0, false);
    TidyKeeps(Abs(f), flat, lag, false, 0);
  }

  lemma BufferedFields(f: RingFile, data: seq<Byte>)
    requires Good(f) && f.phase.Ready? && !f.overran
    requires var d := f.sock.drb;
             || !SpaceTest(FileRing.Used(d), |data|, Pow2(d.k)) || FileRing.Used(d) + |data| <= Pow2(d.k)
             || CopiedInto(d.ring, Slot(d.request + d.partial, d.k), data).None?
    ensures var g := BufferedWrite(f, data);
            && g.disk == f.disk && g.rpos == f.rpos && g.got == f.got && !g.overran && (g.phase.Ready? || g.phase.Halted?)
  {
    hide Slot, Pow2, InOrder, CopiedInto, FileRing.Flush, CatchUpW;
  }

  lemma SeekToKeeps(f: RingFile, flat: Flat, lag: nat, offset: int, cur: bool)
    requires Good(f) && Inv(Abs(f), flat, lag) && f.phase.Ready?
    ensures var g := f.(sock := FileRing.Lseek(f.sock, offset, cur));
            Good(g) && Inv(Abs(g), FlatStep(flat, Seek(offset, cur)), if cur then lag else 0)
  {
    hide Cursors, InOrder, AbsSock, FileRing.Lseek, LseekFile, Pow2;
    LseekAbs(f.sock, offset, cur);
    SeekKeeps(AbsSock(f.sock), f.disk, f.rpos, flat, lag, offset, cur, Cut(f.sock.drb));
  }

  lemma FlushUsed(s: Socket)
    ensures FileRing.Used(FileRing.Flush(s).drb) == FileRing.Used(s.drb)
  {
  }

  lemma PutKeepsSound(f: RingFile, flat: Flat, lag: nat, b: Byte)
    requires Good(f) && Inv(Abs(f), flat, lag) && f.phase.Ready? && FileRing.Used(f.sock.drb) != Pow2(f.sock.drb.k)
    ensures var g := f.(sock := PutChar(f.sock, b)); Good(g) && Inv(Abs(g), Written(flat, [b]), lag + 1)
  {
    hide Cursors, InOrder, AbsSock, PutChar, FilePtr.Fputc, Pow2;
    PutCharAbs(f.sock, b);
    PutKeeps(AbsSock(f.sock), f.disk, f.rpos, flat, lag, b, FileRing.Used(f.sock.drb) + 1 == Pow2(f.sock.drb.k),
             Cut(f.sock.drb));
  }

  lemma AskKeeps(f: RingFile, flat: Flat, lag: nat, len: nat)
    requires Good(f) && Inv(Abs(f), flat, lag) && f.phase.Ready? && !f.raced && Flagged(AbsSock(f.sock))
    ensures Good(Done(f, Read(len))) && Inv(Abs(Done(f, Read(len))), flat, lag)
  {
    hide Inv, InOrder, AbsSock, Pow2, FileRing.Flush, FlushDrb, CatchUpR, CatchUpRead, Flagged, Pending;
    ReadAbs(f, len);
    BeginKeeps(Abs(f), flat, lag, FilePtr.Recv(len), Cut(f.sock.drb), 0, false);
  }

  lemma GoKeeps(f: RingFile, flat: Flat, lag: nat)
    requires Good(f) && Inv(Abs(f), flat, lag) && f.phase.NeedWrites? && f.sock.wqueue == []
    ensures Good(Continued(f)) && Inv(Abs(Continued(f)), flat, lag)
  {
    hide Inv, InOrder, AbsSock, Pow2;
    GoAbs(f);
    ResumeKeeps(Abs(f), flat, lag);
  }

  lemma ReadKeeps(f: RingFile, flat: Flat, lag: nat)
    requires Good(f) && Inv(Abs(f), flat, lag) && f.phase.NeedRead? && f.sock.rqueue == []
    ensures Good(Continued(f)) && Inv(Abs(Continued(f)), FlatStep(flat, FilePtr.Recv(f.phase.len)), lag)
    ensures f.got == Slice(flat.tape, flat.pos - lag, f.phase.len)
  {
    hide Inv, InOrder, Pow2, Slice, AbsQueue, Window;
    GoAbs(f);
    ResumeKeeps(Abs(f), flat, lag);
    assert Resumed(Abs(f)).results[|f.results|] == f.got;
  }
}
