/** Runs of the file socket in which a receive returns the wrong bytes: a buffered send without room, a write counter left
    over at open, and characters put by formatted output. */
module FileRingRuns {
  import opened Basics
  import opened Bits
  import opened FilePtr
  import opened FileRing
  import opened Ring
  import opened Wire

  lemma {:induction false} RunConcat(f: RingFile, a: seq<FileRing.Event>, b: seq<FileRing.Event>)
    requires Sized(f.sock.drb)
    ensures FileRing.Run(f, a + b) == FileRing.Run(FileRing.Run(f, a), b)
    decreases |b|
  {
    hide FileRing.Next;
    if b == [] {
      assert a + b == a;
    } else {
      var n := |b| - 1;
      RunConcat(f, a, b[..n]);
      assert (a + b)[..|a| + n] == a + b[..n];
    }
  }

  lemma RunOne(f: RingFile, a: FileRing.Event)
    requires Sized(f.sock.drb)
    ensures FileRing.Run(f, [a]) == FileRing.Next(f, a)
  {
    hide FileRing.Next;
    assert [a][..0] == [];
    assert FileRing.Run(f, []) == f;
  }

  lemma RunTwo(f: RingFile, a: FileRing.Event, b: FileRing.Event)
    requires Sized(f.sock.drb)
    ensures FileRing.Run(f, [a, b]) == FileRing.Next(FileRing.Next(f, a), b)
  {
    hide FileRing.Next;
    assert [a, b] == [a] + [b];
    RunConcat(f, [a], [b]);
    RunOne(f, a);
    RunOne(FileRing.Next(f, a), b);
  }

  lemma RunThree(f: RingFile, a: FileRing.Event, b: FileRing.Event, c: FileRing.Event)
    requires Sized(f.sock.drb)
    ensures FileRing.Run(f, [a, b, c]) == FileRing.Next(FileRing.Next(FileRing.Next(f, a), b), c)
  {
    hide FileRing.Next;
    assert [a, b, c] == [a, b] + [c];
    RunConcat(f, [a, b], [c]);
    RunTwo(f, a, b);
    RunOne(FileRing.Next(FileRing.Next(f, a), b), c);
  }

  // ---------------------------------------------------------------- a buffered send without room

  lemma RingOfFour()
    ensures Pow2(2) == 4 && Slot(0, 2) == 0 && Slot(1, 2) == 1 && Slot(2, 2) == 2 && Slot(3, 2) == 3 && Slot(4, 2) == 0
            && Slot(5, 2) == 1
  {
    assert Pow2(2) == 4;
  }

  lemma CopiesOfFour()
    ensures CopiedInto([0, 0, 0, 0], 0, [1, 2]) == Some([1, 2, 0, 0])
    ensures CopiedInto([1, 2, 0, 0], 2, [3, 4, 5, 6]) == Some([5, 6, 3, 4])
  {
    assert CopiedInto([0, 0, 0, 0], 0, [1, 2]).value == [1, 2, 0, 0];
    assert CopiedInto([1, 2, 0, 0], 2, [3, 4, 5, 6]).value == [5, 6, 3, 4];
  }

  lemma WindowsOfFour()
    ensures |[5, 6, 3, 4]| == Pow2(2)
    ensures Window([5, 6, 3, 4], 0, 2, 2) == [5, 6] && Window([5, 6, 3, 4], 2, 2, 2) == [3, 4]
            && Window([5, 6, 3, 4], 4, 2, 2) == [5, 6]
  {
    hide Slot, Pow2;
    RingOfFour();
  }

  // The file after a number of events.
  ghost predicate At(f: RingFile, s: Socket, disk: Flat, rpos: int, phase: FileRing.Phase, calls: seq<Call>) {
    && f.sock == s && f.disk == disk && f.rpos == rpos && f.phase == phase && f.calls == calls
    && f.results == [] && !f.raced
  }

  lemma StartOfFour(tape: Tape, flag: bool)
    ensures At(FileRing.Opened(tape, 2, 0, flag), Socket(0, 0, flag, Drb([0, 0, 0, 0], 2, 0, 0, 0), [], []), Flat(tape, 0),
               0, Ready, [])
  {
    hide Slot, Pow2;
    RingOfFour();
    assert FileRing.Opened(tape, 2, 0, flag).sock.drb.ring == [0, 0, 0, 0];
  }

  lemma RequestsOfFour()
    ensures Emit(0, 2, 0, 2) == [Block(0, 2, 2)] && Emit(2, 4, 0, 2) == [Block(2, 2, 2), Block(4, 2, 2)]
  {
    hide Slot, Pow2;
    RingOfFour();
  }

  // The first send is flushed at once.
  lemma FirstSend(f: RingFile, tape: Tape, flag: bool)
    requires At(f, Socket(0, 0, flag, Drb([0, 0, 0, 0], 2, 0, 0, 0), [], []), Flat(tape, 0), 0, Ready, [])
    ensures Sized(f.sock.drb)
    ensures At(FileRing.Next(f, Do(Write([1, 2], true, 0))),
               Socket(2, 0, true, Drb([1, 2, 0, 0], 2, 2, 0, 0), [Block(0, 2, 2)], []), Flat(tape, 0), 0, Ready,
               [Send([1, 2], true, true)])
  {
    hide Slot, Pow2, CopiedInto, Window, Written, Stored, Emit;
    RingOfFour();
    CopiesOfFour();
    RequestsOfFour();
    assert Sized(f.sock.drb);
    var s := f.sock.(writeBeforeRead := true, drb := Drb([1, 2, 0, 0], 2, 0, 0, 2));
    assert Flush(s) == s.(drb := Drb([1, 2, 0, 0], 2, 2, 0, 0), wqueue := [Block(0, 2, 2)]);
    assert BufferedWrite(f, [1, 2]) == Buffered(f.(sock := s, calls := [Send([1, 2], true, true)]), 2);
  }

  // The second passes the space test and replaces what the first queued; then it waits to flush.
  lemma SecondSend(f: RingFile, tape: Tape)
    requires At(f, Socket(2, 0, true, Drb([1, 2, 0, 0], 2, 2, 0, 0), [Block(0, 2, 2)], []), Flat(tape, 0), 0, Ready,
                [Send([1, 2], true, true)])
    ensures Sized(f.sock.drb)
    ensures var g := FileRing.Next(f, Do(Write([3, 4, 5, 6], true, 0)));
            && At(g, Socket(2, 0, true, Drb([5, 6, 3, 4], 2, 2, 0, 4), [Block(0, 2, 2)], []), Flat(tape, 0), 0, Flushing(4),
                  [Send([1, 2], true, true), Send([3, 4, 5, 6], true, true)])
            && g.overran
  {
    hide Slot, Pow2, CopiedInto, Window, Written, Stored;
    RingOfFour();
    CopiesOfFour();
  }

  // The server takes the replaced bytes, and the second send goes on.
  lemma ReplacedTaken(f: RingFile, tape: Tape, calls: seq<Call>)
    requires At(f, Socket(2, 0, true, Drb([5, 6, 3, 4], 2, 2, 0, 4), [Block(0, 2, 2)], []), Flat(tape, 0), 0,
                Flushing(4), calls)
    ensures Sized(f.sock.drb)
    ensures At(FileRing.Next(FileRing.Next(f, ServeW), Go),
               Socket(6, 0, true, Drb([5, 6, 3, 4], 2, 6, 2, 0), [Block(2, 2, 2), Block(4, 2, 2)], []),
               Written(Flat(tape, 0), [5, 6]), 0, Ready, calls)
  {
    hide Slot, Pow2, CopiedInto, Window, Written, Stored, Emit;
    RingOfFour();
    RequestsOfFour();
    WindowsOfFour();
  }

  // The seek and the receive begin.
  lemma ReadBegins(f: RingFile, disk: Flat, calls: seq<Call>)
    requires At(f, Socket(6, 0, true, Drb([5, 6, 3, 4], 2, 6, 2, 0), [Block(2, 2, 2), Block(4, 2, 2)], []), disk, 0,
                Ready, calls)
    ensures Sized(f.sock.drb)
    ensures At(FileRing.Next(FileRing.Next(f, Do(SeekTo(0, false))), Do(Read(1))),
               Socket(0, 0, true, Drb([5, 6, 3, 4], 2, 6, 2, 0), [Block(2, 2, 2), Block(4, 2, 2), Move(0, false)],
                      [SeekReader(0, false)]),
               disk, 0, NeedWrites(1), calls + [Seek(0, false)])
  {
    hide Slot, Pow2, Written;
    RingOfFour();
  }

  lemma RestTaken(f: RingFile, disk: Flat, calls: seq<Call>)
    requires At(f, Socket(0, 0, true, Drb([5, 6, 3, 4], 2, 6, 2, 0), [Block(2, 2, 2), Block(4, 2, 2), Move(0, false)],
                          [SeekReader(0, false)]), disk, 0, NeedWrites(1), calls)
    ensures Sized(f.sock.drb)
    ensures var g := FileRing.Next(FileRing.Next(FileRing.Next(f, ServeW), ServeW), ServeW);
            At(FileRing.Next(g, Go),
               Socket(0, 0, false, Drb([5, 6, 3, 4], 2, 6, 6, 0), [], [SeekReader(0, false), Fetch(1)]),
               Written(Written(disk, [3, 4]), [5, 6]).(pos := 0), 0, NeedRead(1), calls)
  {
    hide Slot, Pow2, Window, Written;
    RingOfFour();
    WindowsOfFour();
  }

  lemma ReadEnds(f: RingFile)
    requires Sized(f.sock.drb) && f.phase == NeedRead(1) && f.sock.rqueue == [SeekReader(0, false), Fetch(1)]
    ensures var g := FileRing.Next(FileRing.Next(FileRing.Next(f, ServeR), ServeR), Go);
            && g.calls == f.calls + [Recv(1)] && g.results == f.results + [Slice(f.disk.tape, 0, 1)]
            && g.raced == f.raced && g.overran == f.overran
  {
    hide Slot, Pow2, Slice;
  }

  // Two bytes, then four, into a ring of four ...
  function OverrunSends(): seq<FileRing.Event> {
    [Do(Write([1, 2], true, 0)), Do(Write([3, 4, 5, 6], true, 0))]
  }

  // ... and the start of the file read back.
  function OverrunRest(): seq<FileRing.Event> {
    [ServeW, Go] + [Do(SeekTo(0, false)), Do(Read(1))] + [ServeW, ServeW, ServeW] + [Go] + [ServeR, ServeR, Go]
  }

  lemma OverrunEnds(f: RingFile, tape: Tape, calls: seq<Call>)
    requires At(f, Socket(2, 0, true, Drb([5, 6, 3, 4], 2, 2, 0, 4), [Block(0, 2, 2)], []), Flat(tape, 0), 0,
                Flushing(4), calls)
    ensures Sized(f.sock.drb)
    ensures var g := FileRing.Run(f, OverrunRest());
            && g.calls == calls + [Seek(0, false)] + [Recv(1)] && !g.raced
            && g.results == [Slice(Written(Written(Written(Flat(tape, 0), [5, 6]), [3, 4]), [5, 6]).tape, 0, 1)]
  {
    hide FileRing.Next, Written, Slice, Slot, Pow2, FileRing.Run;
    WindowsOfFour();
    var e1, e2, e3, e4, e5: seq<FileRing.Event> :=
      [ServeW, Go], [Do(SeekTo(0, false)), Do(Read(1))], [ServeW, ServeW, ServeW], [Go], [ServeR, ServeR, Go];
    var f1 := FileRing.Run(f, e1);
    var f2 := FileRing.Run(f1, e2);
    var f3 := FileRing.Run(f2, e3);
    var f4 := FileRing.Run(f3, e4);
    RunTwo(f, ServeW, Go);
    ReplacedTaken(f, tape, calls);
    RunTwo(f1, Do(SeekTo(0, false)), Do(Read(1)));
    ReadBegins(f1, Written(Flat(tape, 0), [5, 6]), calls);
    RunThree(f2, ServeW, ServeW, ServeW);
    RunOne(f3, Go);
    RestTaken(f2, Written(Flat(tape, 0), [5, 6]), calls + [Seek(0, false)]);
    RunThree(f4, ServeR, ServeR, Go);
    ReadEnds(f4);
    RunConcat(f, e1, e2);
    RunConcat(f, e1 + e2, e3);
    RunConcat(f, e1 + e2 + e3, e4);
    RunConcat(f, e1 + e2 + e3 + e4, e5);
  }

  // What a file with one cursor returns for the same calls.
  lemma OverrunExpected(tape: Tape)
    ensures FlatReads(Flat(tape, 0),
                      [Send([1, 2], true, true), Send([3, 4, 5, 6], true, true), Seek(0, false), Recv(1)]) == [[1]]
  {
    var start, a, b := Flat(tape, 0), Send([1, 2], true, true), Send([3, 4, 5, 6], true, true);
    var w := Written(Written(start, [1, 2]), [3, 4, 5, 6]);
    FirstOfTwo(start, [1, 2], [3, 4, 5, 6]);
    hide Written, Slice;
    var s, c := Seek(0, false), [a, b, Seek(0, false), Recv(1)];
    assert [a][..0] == [] && [a, b][..1] == [a] && [a, b, s][..2] == [a, b] && c[..3] == [a, b, s];
    assert FlatRun(start, []) == start && FlatReads(start, []) == [];
    assert FlatRun(start, [a]) == Written(start, [1, 2]) && FlatReads(start, [a]) == [];
    assert FlatRun(start, [a, b]) == w && FlatReads(start, [a, b]) == [];
    assert FlatRun(start, [a, b, s]) == w.(pos := 0) && FlatReads(start, [a, b, s]) == [];
    assert FlatReads(start, c) == [Slice(w.tape, 0, 1)];
  }

  lemma FirstOfTwo(f: Flat, a: seq<Byte>, b: seq<Byte>)
    requires a != []
    ensures Slice(Written(Written(f, a), b).tape, f.pos, 1) == [a[0]]
  {
    hide Written;
    WrittenCell(f, a, f.pos);
    WrittenCell(Written(f, a), b, f.pos);
  }

  // What the run returned.
  lemma OverrunReturned(tape: Tape)
    ensures Slice(Written(Written(Written(Flat(tape, 0), [5, 6]), [3, 4]), [5, 6]).tape, 0, 1) == [5]
  {
    hide Written;
    var x := Written(Flat(tape, 0), [5, 6]);
    WrittenCell(Flat(tape, 0), [5, 6], 0);
    WrittenCell(x, [3, 4], 0);
    WrittenCell(Written(x, [3, 4]), [5, 6], 0);
  }

  /** A buffered send that is accepted without room corrupts what an earlier send queued: on a ring of four bytes, send
      two, send four, go back to the start and read.  The byte returned is the fifth and not the first. */
  lemma OverrunCorrupts(tape: Tape, flag: bool)
    ensures var f := FileRing.Run(FileRing.Opened(tape, 2, 0, flag), OverrunSends() + OverrunRest());
            && f.results == [[5]] && FlatReads(Flat(tape, 0), f.calls) == [[1]]
            && f.overran && !f.raced && NoPuts(f.calls)
  {
    hide FileRing.Next, Written, Slice, Slot, Pow2, FileRing.Run, OverrunRest;
    var f0 := FileRing.Opened(tape, 2, 0, flag);
    StartOfFour(tape, flag);
    FirstSend(f0, tape, flag);
    var f1 := FileRing.Next(f0, Do(Write([1, 2], true, 0)));
    SecondSend(f1, tape);
    var f2 := FileRing.Next(f1, Do(Write([3, 4, 5, 6], true, 0)));
    RunTwo(f0, Do(Write([1, 2], true, 0)), Do(Write([3, 4, 5, 6], true, 0)));
    var calls := [Send([1, 2], true, true), Send([3, 4, 5, 6], true, true)];
    OverrunEnds(f2, tape, calls);
    OverranOn(f2, OverrunRest());
    RunConcat(f0, OverrunSends(), OverrunRest());
    OverrunExpected(tape);
    OverrunReturned(tape);
    assert calls + [Seek(0, false)] + [Recv(1)] == [calls[0], calls[1], Seek(0, false), Recv(1)];
  }

  lemma {:induction false} OverranOn(f: RingFile, events: seq<FileRing.Event>)
    requires Sized(f.sock.drb) && f.overran
    ensures FileRing.Run(f, events).overran
    decreases |events|
  {
    hide FileRing.Next;
    if events != [] {
      OverranOn(f, events[..|events| - 1]);
      OverranStays(FileRing.Run(f, events[..|events| - 1]), events[|events| - 1]);
    }
  }

  // ---------------------------------------------------------------- a write counter left over at open

  // The ring after one byte, and the request for it.
  lemma OneByte(k: nat, b: Byte)
    ensures var ring := seq(Pow2(k), _ => 0 as Byte);
            var ring' := Stored(ring, 0, [b], k);
            && Slot(0, k) == 0 && |ring'| == Pow2(k) && ring' == ring[0 := b]
            && Emit(0, 1, 0, k) == [Block(0, 1, 1)] && Window(ring', 0, 1, k) == [b]
  {
    var ring := seq(Pow2(k), _ => 0 as Byte);
    DivUnique(0, 0, 0, Pow2(k));
    assert Slot(0, k) == 0;
    StoredWindow(ring, 0, [b], k);
    assert Stored(ring, 0, [b], k) == ring[0 := b];
  }

  function StrayCalls(b: Byte): seq<FileRing.Event> {
    [Do(Write([b], false, 0)), Go] + [Do(SeekTo(0, false)), Do(Read(1))]
  }

  // One byte sent, and the start of the file to be read back.
  lemma StrayBegun(tape: Tape, k: nat, leftover: int, flag: bool, b: Byte)
    requires leftover != 0
    ensures var f := FileRing.Run(FileRing.Opened(tape, k, leftover, flag), StrayCalls(b));
            && At(f, Socket(0, 0, true, Drb(Stored(seq(Pow2(k), _ => 0), 0, [b], k), k, 1, 0, 0),
                            [Move(leftover, true), Block(0, 1, 1), Move(0, false)], [SeekReader(0, false)]),
                  Flat(tape, 0), 0, NeedWrites(1), [Send([b], false, true), Seek(0, false)])
            && !f.overran
  {
    hide Slot, Pow2, Stored, Emit, FileRing.Run;
    OneByte(k, b);
    var f0 := FileRing.Opened(tape, k, leftover, flag);
    var f1 := FileRing.Next(FileRing.Next(f0, Do(Write([b], false, 0))), Go);
    RunTwo(f0, Do(Write([b], false, 0)), Go);
    RunTwo(f1, Do(SeekTo(0, false)), Do(Read(1)));
    RunConcat(f0, [Do(Write([b], false, 0)), Go], [Do(SeekTo(0, false)), Do(Read(1))]);
  }

  lemma StrayTaken(f: RingFile, tape: Tape, k: nat, leftover: int, b: Byte)
    requires At(f, Socket(0, 0, true, Drb(Stored(seq(Pow2(k), _ => 0), 0, [b], k), k, 1, 0, 0),
                          [Move(leftover, true), Block(0, 1, 1), Move(0, false)], [SeekReader(0, false)]),
                Flat(tape, 0), 0, NeedWrites(1), [Send([b], false, true), Seek(0, false)])
    ensures Sized(f.sock.drb)
    ensures var g := FileRing.Next(FileRing.Next(FileRing.Next(FileRing.Next(f, ServeW), ServeW), ServeW), Go);
            && g.phase == NeedRead(1) && g.sock.rqueue == [SeekReader(0, false), Fetch(1)]
            && g.calls == f.calls && g.results == [] && !g.raced && g.overran == f.overran
            && g.disk.tape == Written(Flat(tape, leftover), [b]).tape
  {
    hide Slot, Pow2, Stored, Emit, Written, Window;
    OneByte(k, b);
  }

  lemma StrayExpected(tape: Tape, leftover: int, b: Byte)
    requires leftover != 0 && b != (if 0 in tape then tape[0] else 0)
    ensures FlatReads(Flat(tape, 0), [Send([b], false, true), Seek(0, false), Recv(1)]) !=
            [Slice(Written(Flat(tape, leftover), [b]).tape, 0, 1)]
  {
    var start, c := Flat(tape, 0), [Send([b], false, true), Seek(0, false), Recv(1)];
    assert c[..2] == [c[0], c[1]] && [c[0], c[1]][..1] == [c[0]] && [c[0]][..0] == [];
    assert FlatRun(start, []) == start && FlatReads(start, []) == [];
    assert FlatRun(start, [c[0]]) == Written(start, [b]) && FlatReads(start, [c[0]]) == [];
    assert FlatRun(start, [c[0], c[1]]) == Written(start, [b]).(pos := 0) && FlatReads(start, [c[0], c[1]]) == [];
    assert c[..|c| - 1] == c[..2];
    assert FlatReads(start, c) == [Slice(Written(start, [b]).tape, 0, 1)];
    WrittenCell(start, [b], 0);
    WrittenCell(Flat(tape, leftover), [b], 0);
    assert Slice(Written(start, [b]).tape, 0, 1)[0] == b;
    assert Slice(Written(Flat(tape, leftover), [b]).tape, 0, 1)[0] != b;
  }

  ghost predicate Clean(f: RingFile) {
    !f.overran && NoPuts(f.calls)
  }

  lemma StrayDisagrees(tape: Tape, k: nat, leftover: int, flag: bool) returns (events: seq<FileRing.Event>)
    requires leftover != 0
    ensures var f := FileRing.Run(FileRing.Opened(tape, k, leftover, flag), events); Clean(f) && !Agrees(f, Flat(tape, 0))
  {
    hide FileRing.Run, FileRing.Next, FlatReads, Slice, Written, StrayCalls, FileRing.Opened, Pow2, Stored;
    var b: Byte := if 0 in tape && tape[0] != 0 then 0 else 1;
    var f0, rest: seq<FileRing.Event>, last: seq<FileRing.Event> :=
      FileRing.Opened(tape, k, leftover, flag), [ServeW, ServeW, ServeW] + [Go], [ServeR, ServeR, Go];
    events := StrayCalls(b) + rest + last;
    StrayBegun(tape, k, leftover, flag, b);
    var f1 := FileRing.Run(f0, StrayCalls(b));
    StrayTaken(f1, tape, k, leftover, b);
    RunThree(f1, ServeW, ServeW, ServeW);
    RunOne(FileRing.Run(f1, [ServeW, ServeW, ServeW]), Go);
    RunConcat(f1, [ServeW, ServeW, ServeW], [Go]);
    var f2 := FileRing.Run(f1, rest);
    RunThree(f2, ServeR, ServeR, Go);
    ReadEnds(f2);
    RunConcat(f0, StrayCalls(b), rest);
    RunConcat(f0, StrayCalls(b) + rest, last);
    StrayExpected(tape, leftover, b);
    var sent := [Send([b], false, true), Seek(0, false)];
    assert sent + [Recv(1)] == [Send([b], false, true), Seek(0, false), Recv(1)];
  }

  /** Opening a file clears the read counter twice and the write counter not at all; the emulation is right in every run
      without puts and overruns exactly when the memory happened to hold zero there. */
  lemma OpenAgreesIff(tape: Tape, k: nat, leftover: int, flag: bool)
    ensures (forall events :: Clean(FileRing.Run(FileRing.Opened(tape, k, leftover, flag), events)) ==>
               Agrees(FileRing.Run(FileRing.Opened(tape, k, leftover, flag), events), Flat(tape, 0)))
            <==> leftover == 0
  {
    hide FileRing.Run, FileRing.Opened, Agrees;
    if leftover == 0 {
      forall events | Clean(FileRing.Run(FileRing.Opened(tape, k, leftover, flag), events))
        ensures Agrees(FileRing.Run(FileRing.Opened(tape, k, leftover, flag), events), Flat(tape, 0))
      {
        ReadsAreFlat(tape, k, flag, events);
      }
    } else {
      var events := StrayDisagrees(tape, k, leftover, flag);
    }
  }

  // ---------------------------------------------------------------- formatted output

  // What the one-cursor file reads after a put, and after a put and a seek to the start.
  lemma PutExpected(tape: Tape, b: Byte)
    ensures FlatReads(Flat(tape, 0), [Put(b), Recv(1)]) == [[if 1 in tape then tape[1] else 0]]
    ensures FlatReads(Flat(tape, 0), [Put(b), Seek(0, false), Recv(1)]) == [[b]]
    ensures Steady([Put(b), Seek(0, false), Recv(1)])
    ensures Slice(Written(Flat(tape, 0), [b]).tape, 0, 1) == [b]
  {
    var start, p, s, r := Flat(tape, 0), Put(b), Seek(0, false), Recv(1);
    assert [p][..0] == [] && [p, r][..1] == [p] && [p, s][..1] == [p] && [p, s, r][..2] == [p, s];
    assert FlatRun(start, []) == start && FlatReads(start, []) == [] && Lag([]) == 0;
    assert FlatRun(start, [p]) == Written(start, [b]) && FlatReads(start, [p]) == [] && Lag([p]) == 1;
    assert FlatRun(start, [p, s]) == Written(start, [b]).(pos := 0) && FlatReads(start, [p, s]) == [] && Lag([p, s]) == 0;
    assert FlatReads(start, [p, r]) == [Slice(Written(start, [b]).tape, 1, 1)];
    assert FlatReads(start, [p, s, r]) == [Slice(Written(start, [b]).tape, 0, 1)];
    WrittenCell(start, [b], 0);
    WrittenCell(start, [b], 1);
    assert Slice(Written(start, [b]).tape, 1, 1) == [if 1 in tape then tape[1] else 0];
    assert Slice(Written(start, [b]).tape, 0, 1) == [b];
  }

  /** A character put and one byte received: the receive waits for the character and then returns it, where the one
      pointer stands behind it. */
  lemma PutIsReadBack(tape: Tape, k: nat, b: Byte)
    requires k > 0 && b != 10 && b != (if 1 in tape then tape[1] else 0)
    ensures var events := [Do(PutC(b)), Do(Read(1))] + [ServeW, Go] + [ServeR, Go];
            var f := FileRing.Run(FileRing.Opened(tape, k, 0, true), events);
            f.results == [[b]] && f.calls == [Put(b), Recv(1)] && !f.raced && !f.overran && !Agrees(f, Flat(tape, 0))
  {
    hide FileRing.Run, Slot, Pow2, Stored, Emit, Written, Window, Slice, FlatReads;
    OneByte(k, b);
    Pow2Grows(1, k);
    assert Pow2(1) == 2 by { PowerOne(); }
    PutExpected(tape, b);
    var f0 := FileRing.Opened(tape, k, 0, true);
    var a, c, d: seq<FileRing.Event> := [Do(PutC(b)), Do(Read(1))], [ServeW, Go], [ServeR, Go];
    var f1 := FileRing.Next(FileRing.Next(f0, Do(PutC(b))), Do(Read(1)));
    RunTwo(f0, Do(PutC(b)), Do(Read(1)));
    PutThenRead(f0, tape, k, true, b);
    RunTwo(f1, ServeW, Go);
    var f2 := FileRing.Next(FileRing.Next(f1, ServeW), Go);
    assert f2.phase == NeedRead(1) && f2.sock.rqueue == [Fetch(1)] && f2.disk.tape == Written(Flat(tape, 0), [b]).tape;
    RunTwo(f2, ServeR, Go);
    RunConcat(f0, a, c);
    RunConcat(f0, a + c, d);
  }

  lemma PowerOne()
    ensures Pow2(1) == 2
  {
  }

  lemma PutThenRead(f: RingFile, tape: Tape, k: nat, flag: bool, b: Byte)
    requires f == FileRing.Opened(tape, k, 0, flag) && Pow2(k) >= 2 && b != 10
    ensures At(FileRing.Next(f, Do(PutC(b))),
               Socket(0, 0, flag, Drb(Stored(seq(Pow2(k), _ => 0), 0, [b], k), k, 0, 0, 1), [], []),
               Flat(tape, 0), 0, Ready, [Put(b)])
    ensures flag ==>
              At(FileRing.Next(FileRing.Next(f, Do(PutC(b))), Do(Read(1))),
                 Socket(0, 0, true, Drb(Stored(seq(Pow2(k), _ => 0), 0, [b], k), k, 1, 0, 0), [Block(0, 1, 1)], []),
                 Flat(tape, 0), 0, NeedWrites(1), [Put(b)])
  {
    hide Slot, Pow2, Stored, Emit, Written, Window;
    OneByte(k, b);
  }

  /** Seeking to the start first is not enough when no send has set the flag: the receive does not wait for the character,
      and the server may answer it first. */
  lemma PutIsMissed(tape: Tape, k: nat, b: Byte)
    requires k > 0 && b != 10 && b != (if 0 in tape then tape[0] else 0)
    ensures var f := FileRing.Run(FileRing.Opened(tape, k, 0, false),
                                  [Do(PutC(b)), Do(SeekTo(0, false)), Do(Read(1))] + [ServeR, ServeR, Go]);
            && f.results == [[if 0 in tape then tape[0] else 0]] && f.calls == [Put(b), Seek(0, false), Recv(1)]
            && f.raced && !f.overran && Steady(f.calls) && !Agrees(f, Flat(tape, 0))
  {
    hide FileRing.Run, Slot, Pow2, Stored, Emit, Written, Window, FlatReads, Steady;
    OneByte(k, b);
    Pow2Grows(1, k);
    assert Pow2(1) == 2 by { PowerOne(); }
    PutExpected(tape, b);
    var f0 := FileRing.Opened(tape, k, 0, false);
    PutThenRead(f0, tape, k, false, b);
    var f1 := FileRing.Next(f0, Do(PutC(b)));
    var f3 := FileRing.Next(FileRing.Next(f1, Do(SeekTo(0, false))), Do(Read(1)));
    RunThree(f0, Do(PutC(b)), Do(SeekTo(0, false)), Do(Read(1)));
    SeekThenRead(f1, tape, k, b);
    RunThree(f3, ServeR, ServeR, Go);
    ReadEnds(f3);
    RunConcat(f0, [Do(PutC(b)), Do(SeekTo(0, false)), Do(Read(1))], [ServeR, ServeR, Go]);
    assert [Put(b), Seek(0, false)] + [Recv(1)] == [Put(b), Seek(0, false), Recv(1)];
    assert Slice(tape, 0, 1) == [if 0 in tape then tape[0] else 0];
  }

  lemma SeekThenRead(f: RingFile, tape: Tape, k: nat, b: Byte)
    requires At(f, Socket(0, 0, false, Drb(Stored(seq(Pow2(k), _ => 0), 0, [b], k), k, 0, 0, 1), [], []),
                Flat(tape, 0), 0, Ready, [Put(b)])
    ensures Sized(f.sock.drb)
    ensures var g := FileRing.Next(FileRing.Next(f, Do(SeekTo(0, false))), Do(Read(1)));
            && g.phase == NeedRead(1) && g.sock.rqueue == [SeekReader(0, false), Fetch(1)] && g.disk == Flat(tape, 0)
            && g.calls == [Put(b), Seek(0, false)] && g.results == [] && g.raced && g.overran == f.overran
  {
    hide Slot, Pow2, Stored, Emit, Written, Window;
    OneByte(k, b);
    var u := FileRing.Next(f, Do(SeekTo(0, false)));
    assert u.sock.wqueue == [Block(0, 1, 1), Move(0, false)] && u.sock.wqueue[0].Block?;
  }
}
