/** A program's image as two tools see it: the identity generator streams the program headers in order and hashes the
    bytes as it goes; the secure loader copies every segment to its place in one zeroed allocation.  Program headers are
    those of chapter 5, "Program Header", of the System V ABI. */
module ElfImage {
  import opened Basics
  import opened Wire

  const U64: nat := 0x1_0000_0000_0000_0000
  const REG_SIZE: nat := 8

  type Word64 = n: nat | n < 0x1_0000_0000_0000_0000

  datatype Kind = Load | Dynamic | Tls | Ignored | Unknown

  datatype Segment = Segment(kind: Kind, writable: bool, executable: bool,
                             offset: Word64, vaddr: Word64, filesz: Word64, memsz: Word64)

  function Zeros(n: nat): (s: seq<Byte>)
    ensures |s| == n
  {
    seq(n, _ => 0)
  }

  function Max(a: nat, b: nat): nat {
    if a < b then b else a
  }

  // Reading the segment out of the file; a file that ends early gives fewer bytes.
  function FileBytes(file: seq<Byte>, s: Segment): (b: seq<Byte>)
    ensures |b| <= s.filesz
  {
    if s.offset + s.filesz <= |file| then file[s.offset..s.offset + s.filesz]
    else if s.offset <= |file| then file[s.offset..]
    else []
  }

  // ---------------------------------------------------------------- the generator

  // Where the stream stands after these headers.
  function End(segs: seq<Segment>): nat {
    if segs == [] then 0
    else
      var s := segs[|segs| - 1];
      if s.kind.Load? then s.vaddr + s.memsz else End(segs[..|segs| - 1])
  }

  // No loadable segment begins before the end of the one listed before it.
  predicate Sorted(segs: seq<Segment>) {
    segs == [] ||
    var before, s := segs[..|segs| - 1], segs[|segs| - 1];
    Sorted(before) && (s.kind.Load? ==> End(before) <= s.vaddr)
  }

  function Streamed(file: seq<Byte>, segs: seq<Segment>): seq<Byte>
    requires Sorted(segs)
  {
    if segs == [] then []
    else
      var before, s := segs[..|segs| - 1], segs[|segs| - 1];
      if !s.kind.Load? then Streamed(file, before)
      else
        Streamed(file, before) + Zeros(s.vaddr - End(before)) + FileBytes(file, s)
        + Zeros(if s.memsz > s.filesz then s.memsz - s.filesz else 0)
  }

  // The size of the last thread-local segment.
  function TlsSize(segs: seq<Segment>): Word64 {
    if segs == [] then 0
    else
      var s := segs[|segs| - 1];
      if s.kind.Tls? then s.memsz else TlsSize(segs[..|segs| - 1])
  }

  // Space for a thread-local segment and a capability, rounded up to a register.
  function Padding(end: nat, tls: nat, capSize: nat): (n: nat)
    ensures (end + n) % REG_SIZE == 0 && tls + capSize <= n < tls + capSize + REG_SIZE
  {
    tls + capSize + (-(end + tls + capSize)) % REG_SIZE
  }

  /** The bytes the generator feeds its hash; none when it gives up. */
  function HashedBytes(file: seq<Byte>, segs: seq<Segment>, capSize: nat): Option<seq<Byte>> {
    if Sorted(segs) then Some(Streamed(file, segs) + Zeros(Padding(End(segs), TlsSize(segs), capSize))) else None
  }

  // One more header.
  lemma Snoc(file: seq<Byte>, segs: seq<Segment>, i: nat)
    requires i < |segs|
    ensures var p, q, s := segs[..i], segs[..i + 1], segs[i];
            && End(q) == (if s.kind.Load? then s.vaddr + s.memsz else End(p))
            && TlsSize(q) == (if s.kind.Tls? then s.memsz else TlsSize(p))
            && (Sorted(q) <==> Sorted(p) && (s.kind.Load? ==> End(p) <= s.vaddr))
            && (Sorted(q) ==>
                  Streamed(file, q) ==
                  if !s.kind.Load? then Streamed(file, p)
                  else Streamed(file, p) + Zeros(s.vaddr - End(p)) + FileBytes(file, s)
                       + Zeros(if s.memsz > s.filesz then s.memsz - s.filesz else 0))
  {
    assert segs[..i + 1][..i] == segs[..i];
  }

  lemma NoHeaders(file: seq<Byte>)
    ensures Sorted([]) && Streamed(file, []) == [] && End([]) == 0 && TlsSize([]) == 0 && Zeros(0) == []
  {
  }

  method GenerateFoundId(file: seq<Byte>, segs: seq<Segment>, capSize: nat) returns (hashed: Option<seq<Byte>>, length: nat)
    ensures hashed == HashedBytes(file, segs, capSize)
    ensures hashed.Some? ==> length == End(segs) + Padding(End(segs), TlsSize(segs), capSize)
  {
    hide End, Sorted, Streamed, TlsSize, Zeros, FileBytes;
    NoHeaders(file);
    var tlsSegSize, virtAddrPtr := 0, 0;
    var sha: seq<Byte> := [];
    length := 0;
    var i := 0;
    while i < |segs|
      invariant 0 <= i <= |segs| && Sorted(segs[..i])
      invariant sha == Streamed(file, segs[..i]) && virtAddrPtr == End(segs[..i]) && tlsSegSize == TlsSize(segs[..i])
    {
      var s := segs[i];
      Snoc(file, segs, i);
      if s.kind.Load? {
        if s.vaddr < virtAddrPtr {
          UnsortedPrefix(segs, i + 1);
          return None, 0;
        }
        if s.vaddr > virtAddrPtr {
          sha := sha + Zeros(s.vaddr - virtAddrPtr);
        }
        sha := sha + FileBytes(file, s);
        if s.memsz > s.filesz {
          sha := sha + Zeros(s.memsz - s.filesz);
        }
        virtAddrPtr := s.vaddr + s.memsz;
      } else if s.kind.Tls? {
        tlsSegSize := s.memsz;
      }
      i := i + 1;
    }
    assert segs[..i] == segs;
    tlsSegSize := tlsSegSize + capSize;
    virtAddrPtr := virtAddrPtr + tlsSegSize;
    var alignBytes := (-virtAddrPtr) % 8;
    length := virtAddrPtr + alignBytes;
    sha := sha + Zeros(tlsSegSize + alignBytes);
    hashed := Some(sha);
  }

  lemma {:induction false} UnsortedPrefix(segs: seq<Segment>, i: nat)
    requires i <= |segs| && !Sorted(segs[..i])
    ensures !Sorted(segs)
    decreases |segs|
  {
    if i < |segs| {
      assert segs[..|segs| - 1][..i] == segs[..i];
      UnsortedPrefix(segs[..|segs| - 1], i);
    } else {
      assert segs[..i] == segs;
    }
  }

  // ---------------------------------------------------------------- the loader

  datatype Role = DataSegment | CodeSegment | TlsSegment | NoRole

  function RoleOf(s: Segment): Role {
    if s.kind.Load? then (if s.writable then DataSegment else if s.executable then CodeSegment else NoRole)
    else if s.kind.Tls? then TlsSegment
    else NoRole
  }

  predicate HeaderOk(s: Segment) {
    s.filesz <= s.memsz && !s.kind.Unknown? && !(s.kind.Load? && s.writable && s.executable)
  }

  // What the loader insists on: no header it does not know or that breaks the rules, and one segment in each role.
  predicate Acceptable(segs: seq<Segment>) {
    && (forall k :: 0 <= k < |segs| ==> HeaderOk(segs[k]))
    && (forall j, k :: 0 <= j < k < |segs| && RoleOf(segs[j]) == RoleOf(segs[k]) ==> RoleOf(segs[k]).NoRole?)
  }

  // The largest segment bound, in 64-bit arithmetic.
  function Bound(segs: seq<Segment>): Word64 {
    if segs == [] then 0
    else
      var before, s := Bound(segs[..|segs| - 1]), segs[|segs| - 1];
      if s.kind.Load? then Max(before, (s.vaddr + s.memsz) % U64) else before
  }

  function ContigSize(imageSize: Word64, tls: Word64, capSize: nat): Word64 {
    ((imageSize + tls + capSize) % U64 + (REG_SIZE - 1)) % U64 / REG_SIZE * REG_SIZE
  }

  // Copies stay inside the file and inside the allocation; one that does not stops the loader.
  predicate CopyFits(file: seq<Byte>, s: Segment, contig: nat) {
    s.kind.Load? && s.filesz > 0 ==> s.offset + s.filesz <= |file| && s.vaddr + s.filesz <= contig
  }

  predicate CopiesFit(file: seq<Byte>, segs: seq<Segment>, contig: nat) {
    forall k :: 0 <= k < |segs| ==> CopyFits(file, segs[k], contig)
  }

  // The byte at address x: the last segment whose file part covers x, or zero.
  function ImageAt(file: seq<Byte>, segs: seq<Segment>, x: nat): Byte {
    if segs == [] then 0
    else
      var s := segs[|segs| - 1];
      if s.kind.Load? && s.vaddr <= x < s.vaddr + s.filesz && s.offset + x - s.vaddr < |file|
        then file[s.offset + x - s.vaddr]
      else ImageAt(file, segs[..|segs| - 1], x)
  }

  /** The allocation after loading; none when the loader refuses or is stopped. */
  function LoadedBytes(file: seq<Byte>, segs: seq<Segment>, capSize: nat): Option<seq<Byte>> {
    var contig := ContigSize(Bound(segs), TlsSize(segs), capSize);
    if Acceptable(segs) && CopiesFit(file, segs, contig) then Some(seq(contig, x requires 0 <= x => ImageAt(file, segs, x)))
    else None
  }

  predicate Taken(segs: seq<Segment>, i: nat, r: Role)
    requires i <= |segs|
  {
    exists k :: 0 <= k < i && RoleOf(segs[k]) == r
  }

  lemma AcceptableSnoc(segs: seq<Segment>, i: nat)
    requires i < |segs|
    ensures Acceptable(segs[..i + 1]) <==>
            Acceptable(segs[..i]) && HeaderOk(segs[i]) && (RoleOf(segs[i]).NoRole? || !Taken(segs, i, RoleOf(segs[i])))
    ensures Acceptable(segs) ==> Acceptable(segs[..i + 1])
    ensures forall r :: Taken(segs, i + 1, r) <==> Taken(segs, i, r) || RoleOf(segs[i]) == r
  {
    assert forall k :: 0 <= k < i ==> segs[..i + 1][k] == segs[..i][k] == segs[k];
  }

  method ElfLoaderMem(segs: seq<Segment>) returns (ok: bool, imageSize: Word64, tlsMemSize: Word64)
    ensures ok == Acceptable(segs)
    ensures ok ==> imageSize == Bound(segs) && tlsMemSize == TlsSize(segs)
  {
    var hasTls, foundCode, foundData := false, false, false;
    ok, imageSize, tlsMemSize := false, 0, 0;
    var i := 0;
    while i < |segs|
      invariant 0 <= i <= |segs| && Acceptable(segs[..i])
      invariant imageSize == Bound(segs[..i]) && tlsMemSize == TlsSize(segs[..i])
      invariant hasTls == Taken(segs, i, TlsSegment)
      invariant foundCode == Taken(segs, i, CodeSegment) && foundData == Taken(segs, i, DataSegment)
    {
      hide Acceptable, Taken;
      var s := segs[i];
      AcceptableSnoc(segs, i);
      assert segs[..i + 1][..i] == segs[..i];
      if s.filesz > s.memsz {
        return;
      }
      match s.kind {
        case Load =>
          if s.writable && s.executable {
            return;
          }
          imageSize := Max(imageSize, (s.vaddr + s.memsz) % U64);
          if s.writable {
            if foundData {
              return;
            }
            foundData := true;
          } else if s.executable {
            if foundCode {
              return;
            }
            foundCode := true;
          }
        case Tls =>
          if hasTls {
            return;
          }
          hasTls := true;
          tlsMemSize := s.memsz;
        case Unknown => return;
        case Dynamic =>
        case Ignored =>
      }
      i := i + 1;
    }
    assert segs[..i] == segs;
    ok := true;
  }

  method CreateImage(file: seq<Byte>, segs: seq<Segment>, capSize: nat) returns (image: Option<seq<Byte>>)
    ensures image == LoadedBytes(file, segs, capSize)
  {
    var ok, imageSize, tlsMemSize := ElfLoaderMem(segs);
    if !ok {
      return None;
    }
    var contig := ContigSize(imageSize, tlsMemSize, capSize);
    var data := new Byte[contig](_ => 0);
    var i := 0;
    while i < |segs|
      invariant 0 <= i <= |segs| && fresh(data) && CopiesFit(file, segs[..i], contig)
      invariant forall x :: 0 <= x < contig ==> data[x] == ImageAt(file, segs[..i], x)
    {
      var s := segs[i];
      assert segs[..i + 1][..i] == segs[..i];
      if s.kind.Load? && s.filesz > 0 {
        if s.offset + s.filesz > |file| || s.vaddr + s.filesz > contig {
          assert !CopyFits(file, segs[i], contig);
          return None;
        }
        CopyIn(data, s.vaddr, file[s.offset..s.offset + s.filesz]);
      }
      i := i + 1;
    }
    assert segs[..i] == segs;
    assert data[..] == seq(contig, x requires 0 <= x => ImageAt(file, segs, x));
    image := Some(data[..]);
  }

  method CopyIn(data: array<Byte>, at: nat, bytes: seq<Byte>)
    requires at + |bytes| <= data.Length
    modifies data
    ensures forall x :: 0 <= x < data.Length ==> data[x] == if at <= x < at + |bytes| then bytes[x - at] else old(data[x])
  {
    var k := 0;
    while k < |bytes|
      invariant 0 <= k <= |bytes|
      invariant forall x :: 0 <= x < data.Length ==> data[x] == if at <= x < at + k then bytes[x - at] else old(data[x])
    {
      data[at + k] := bytes[k];
      k := k + 1;
    }
  }

  // ---------------------------------------------------------------- the two agree

  lemma {:induction false} BeyondEnd(file: seq<Byte>, segs: seq<Segment>, x: nat)
    requires Sorted(segs) && x >= End(segs) && (forall k :: 0 <= k < |segs| ==> HeaderOk(segs[k]))
    ensures ImageAt(file, segs, x) == 0
    decreases |segs|
  {
    if segs != [] {
      BeyondEnd(file, segs[..|segs| - 1], x);
    }
  }

  // The stream stands at its own length, and holds the byte the image has at every address so far.
  lemma {:induction false} StreamedIsImage(file: seq<Byte>, segs: seq<Segment>, contig: nat)
    requires Sorted(segs) && (forall k :: 0 <= k < |segs| ==> HeaderOk(segs[k])) && CopiesFit(file, segs, contig)
    ensures |Streamed(file, segs)| == End(segs)
    ensures forall x :: 0 <= x < End(segs) ==> Streamed(file, segs)[x] == ImageAt(file, segs, x)
    decreases |segs|
  {
    if segs != [] {
      var before, s := segs[..|segs| - 1], segs[|segs| - 1];
      StreamedIsImage(file, before, contig);
      if s.kind.Load? {
        assert CopyFits(file, s, contig) && HeaderOk(s);
        forall x | 0 <= x < End(segs) ensures Streamed(file, segs)[x] == ImageAt(file, segs, x) {
          if x >= End(before) {
            BeyondEnd(file, before, x);
          }
        }
      }
    }
  }

  lemma {:induction false} BoundIsEnd(segs: seq<Segment>)
    requires Sorted(segs) && End(segs) < U64
    ensures Bound(segs) == End(segs)
    decreases |segs|
  {
    if segs != [] {
      BoundIsEnd(segs[..|segs| - 1]);
    }
  }

  lemma ContigIsLength(end: nat, tls: Word64, capSize: nat)
    requires end + Padding(end, tls, capSize) < U64
    ensures end < U64 && ContigSize(end, tls, capSize) == end + Padding(end, tls, capSize)
  {
  }

  /** For every program both tools accept, the bytes hashed are the bytes loaded, in content and length, exactly when
      the image with its padding is addressable in 64 bits. */
  lemma HashedIsLoadedIff(file: seq<Byte>, segs: seq<Segment>, capSize: nat)
    requires HashedBytes(file, segs, capSize).Some? && LoadedBytes(file, segs, capSize).Some?
    ensures HashedBytes(file, segs, capSize) == LoadedBytes(file, segs, capSize)
            <==> End(segs) + Padding(End(segs), TlsSize(segs), capSize) < U64
  {
    var hashed, loaded := HashedBytes(file, segs, capSize).value, LoadedBytes(file, segs, capSize).value;
    var end, tls := End(segs), TlsSize(segs);
    var contig := ContigSize(Bound(segs), tls, capSize);
    StreamedIsImage(file, segs, contig);
    if end + Padding(end, tls, capSize) < U64 {
      ContigIsLength(end, tls, capSize);
      BoundIsEnd(segs);
      forall x | 0 <= x < contig ensures hashed[x] == loaded[x] {
        if x >= end {
          BeyondEnd(file, segs, x);
        }
      }
      assert hashed == loaded;
    }
  }

  /** Such programs exist: a zero-filled segment that runs past the end of the address space is accepted by both. */
  lemma WrapDisagrees(capSize: nat)
    ensures var segs := [Segment(Load, true, false, 0, U64 - 8, 0, 16)];
            && HashedBytes([], segs, capSize).Some? && LoadedBytes([], segs, capSize).Some?
            && HashedBytes([], segs, capSize) != LoadedBytes([], segs, capSize)
  {
    var segs := [Segment(Load, true, false, 0, U64 - 8, 0, 16)];
    assert segs[..0] == [] && End([]) == 0 && Sorted([]);
    assert Sorted(segs) && End(segs) >= U64;
    assert CopyFits([], segs[0], ContigSize(Bound(segs), TlsSize(segs), capSize));
    HashedIsLoadedIff([], segs, capSize);
  }

  // ---------------------------------------------------------------- the parts, without recursion

  // Every loadable segment ends before each later one begins.
  predicate InOrder(segs: seq<Segment>) {
    forall i, j :: 0 <= i < j < |segs| && segs[i].kind.Load? && segs[j].kind.Load? ==>
      segs[i].vaddr + segs[i].memsz <= segs[j].vaddr
  }

  // The stream stands at the end of the last loadable segment, and at zero without one.
  lemma {:induction false} EndIs(segs: seq<Segment>)
    ensures (forall k :: 0 <= k < |segs| ==> !segs[k].kind.Load?) ==> End(segs) == 0
    ensures End(segs) == 0 ||
            exists k :: 0 <= k < |segs| && segs[k].kind.Load? && End(segs) == segs[k].vaddr + segs[k].memsz
    ensures Sorted(segs) ==>
              forall k :: 0 <= k < |segs| && segs[k].kind.Load? ==> segs[k].vaddr + segs[k].memsz <= End(segs)
  {
    if segs != [] {
      EndIs(segs[..|segs| - 1]);
      assert forall i :: 0 <= i < |segs| - 1 ==> segs[..|segs| - 1][i] == segs[i];
    }
  }

  lemma InOrderSnoc(segs: seq<Segment>)
    requires segs != []
    ensures var before, s := segs[..|segs| - 1], segs[|segs| - 1];
            InOrder(segs) <==>
            InOrder(before) &&
            (s.kind.Load? ==>
               forall k :: 0 <= k < |before| && before[k].kind.Load? ==> before[k].vaddr + before[k].memsz <= s.vaddr)
  {
    assert forall i :: 0 <= i < |segs| - 1 ==> segs[..|segs| - 1][i] == segs[i];
  }

  /** The headers are in order exactly when every loadable segment ends before each later one begins. */
  lemma {:induction false} SortedIff(segs: seq<Segment>)
    ensures Sorted(segs) <==> InOrder(segs)
  {
    hide End;
    if segs != [] {
      SortedIff(segs[..|segs| - 1]);
      InOrderSnoc(segs);
      EndIs(segs[..|segs| - 1]);
    }
  }

  /** The thread-local size is the memory size of the last thread-local segment, and zero without one. */
  lemma {:induction false} TlsSizeIs(segs: seq<Segment>)
    ensures (forall k :: 0 <= k < |segs| ==> !segs[k].kind.Tls?) ==> TlsSize(segs) == 0
    ensures forall k :: 0 <= k < |segs| && segs[k].kind.Tls? && (forall j :: k < j < |segs| ==> !segs[j].kind.Tls?) ==>
              TlsSize(segs) == segs[k].memsz
  {
    if segs != [] {
      var n := |segs| - 1;
      TlsSizeIs(segs[..n]);
      assert forall i :: 0 <= i < n ==> segs[..n][i] == segs[i];
    }
  }

  // Address x lies in the part of the segment that comes from the file.
  predicate FromFile(file: seq<Byte>, s: Segment, x: nat) {
    s.kind.Load? && s.vaddr <= x < s.vaddr + s.filesz && s.offset + x - s.vaddr < |file|
  }

  /** A byte of the image: the file's, from the last segment whose file part has the address, and zero where none has. */
  lemma {:induction false} ImageAtIs(file: seq<Byte>, segs: seq<Segment>, x: nat) returns (k: nat)
    ensures k <= |segs| && forall j :: k <= j < |segs| ==> !FromFile(file, segs[j], x)
    ensures k == 0 ==> ImageAt(file, segs, x) == 0
    ensures k > 0 ==>
              var s := segs[k - 1];
              FromFile(file, s, x) && ImageAt(file, segs, x) == file[s.offset + x - s.vaddr]
  {
    k := |segs|;
    if segs != [] && !FromFile(file, segs[|segs| - 1], x) {
      k := ImageAtIs(file, segs[..|segs| - 1], x);
      assert forall i :: 0 <= i < |segs| - 1 ==> segs[..|segs| - 1][i] == segs[i];
    }
  }

  /** The image size is the largest bound of a loadable segment, in 64-bit arithmetic, and zero without one. */
  lemma {:induction false} BoundIs(segs: seq<Segment>)
    ensures forall k :: 0 <= k < |segs| && segs[k].kind.Load? ==> (segs[k].vaddr + segs[k].memsz) % U64 <= Bound(segs)
    ensures Bound(segs) == 0 ||
            exists k :: 0 <= k < |segs| && segs[k].kind.Load? && Bound(segs) == (segs[k].vaddr + segs[k].memsz) % U64
  {
    if segs != [] {
      var n := |segs| - 1;
      BoundIs(segs[..n]);
      assert forall i :: 0 <= i < n ==> segs[..n][i] == segs[i];
    }
  }

  /** The loader's rules in full: no segment larger in the file than in memory, no unknown header, no loadable segment that
      is both writable and executable, and at most one each of writable, executable and thread-local ones. */
  lemma AcceptableIff(segs: seq<Segment>)
    ensures Acceptable(segs) <==>
            && (forall k :: 0 <= k < |segs| ==>
                  && segs[k].filesz <= segs[k].memsz && segs[k].kind != Unknown
                  && (segs[k].kind == Load ==> !segs[k].writable || !segs[k].executable))
            && forall j, k :: 0 <= j < k < |segs| ==>
                 && !(segs[j].kind == Tls && segs[k].kind == Tls)
                 && !(segs[j].kind == Load && segs[k].kind == Load && segs[j].writable && segs[k].writable)
                 && !(segs[j].kind == Load && segs[k].kind == Load && segs[j].executable && segs[k].executable)
  {
    if forall k :: 0 <= k < |segs| ==> HeaderOk(segs[k]) {
      forall j, k | 0 <= j < k < |segs|
        ensures (RoleOf(segs[j]) == RoleOf(segs[k]) ==> RoleOf(segs[k]).NoRole?) <==>
                && !(segs[j].kind == Tls && segs[k].kind == Tls)
                && !(segs[j].kind == Load && segs[k].kind == Load && segs[j].writable && segs[k].writable)
                && !(segs[j].kind == Load && segs[k].kind == Load && segs[j].executable && segs[k].executable)
      {
        assert HeaderOk(segs[j]) && HeaderOk(segs[k]);
      }
    }
  }
}
