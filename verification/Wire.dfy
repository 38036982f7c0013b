/** The byte-level wire format of the page protocol: 32-bit words in network order, the 16-byte
    message header, and request and reply frames. */
module Wire {

  type Byte = b: nat | b < 256

  const U32: nat := 0x1_0000_0000
  const PAGE_SZ: nat := 4096
  const HDR_SZ: nat := 16

  const OP_ALLOC_REGION: nat := 1
  const OP_READ_PAGE: nat := 2
  const OP_WRITE_PAGE: nat := 3

  type Word = w: nat | w < 0x1_0000_0000
  type Page = p: seq<Byte> | |p| == 4096 witness seq(4096, _ => 0)

  function ZeroPage(): Page {
    seq(PAGE_SZ, _ => 0)
  }

  // htonl followed by the copy of the word's bytes.
  function EncodeWord(w: Word): (s: seq<Byte>)
    ensures |s| == 4
  {
    [w / 0x100 / 0x100 / 0x100, w / 0x100 / 0x100 % 0x100, w / 0x100 % 0x100, w % 0x100]
  }

  function DecodeWord(s: seq<Byte>): Word
    requires |s| == 4
  {
    var b0: int, b1: int, b2: int, b3: int := s[0], s[1], s[2], s[3];
    ((b0 * 0x100 + b1) * 0x100 + b2) * 0x100 + b3
  }

  lemma WordRoundTrip(w: Word)
    ensures DecodeWord(EncodeWord(w)) == w
  {
  }

  datatype Hdr = Hdr(op: Word, region: Word, page: Word, len: Word)

  function EncodeHdr(h: Hdr): (s: seq<Byte>)
    ensures |s| == HDR_SZ
  {
    EncodeWord(h.op) + EncodeWord(h.region) + EncodeWord(h.page) + EncodeWord(h.len)
  }

  function DecodeHdr(s: seq<Byte>): Hdr
    requires |s| == HDR_SZ
  {
    Hdr(DecodeWord(s[0..4]), DecodeWord(s[4..8]), DecodeWord(s[8..12]), DecodeWord(s[12..16]))
  }

  lemma HdrRoundTrip(h: Hdr)
    ensures DecodeHdr(EncodeHdr(h)) == h
  {
    var s := EncodeHdr(h);
    assert s[0..4] == EncodeWord(h.op) && s[4..8] == EncodeWord(h.region)
        && s[8..12] == EncodeWord(h.page) && s[12..16] == EncodeWord(h.len);
    WordRoundTrip(h.op);
    WordRoundTrip(h.region);
    WordRoundTrip(h.page);
    WordRoundTrip(h.len);
  }

  function BigEndian(a: int, b: int, c: int, d: int): int {
    a * 0x100_0000 + b * 0x1_0000 + c * 0x100 + d
  }

  /** Network order: the most significant byte comes first, and the four words in the order of the struct. */
  lemma NetworkOrder(h: Hdr)
    ensures var s := EncodeHdr(h);
            && h.op == BigEndian(s[0], s[1], s[2], s[3])
            && h.region == BigEndian(s[4], s[5], s[6], s[7])
            && h.page == BigEndian(s[8], s[9], s[10], s[11])
            && h.len == BigEndian(s[12], s[13], s[14], s[15])
  {
    hide EncodeWord, BigEndian;
    MostFirst(h.op);
    MostFirst(h.region);
    MostFirst(h.page);
    MostFirst(h.len);
  }

  lemma MostFirst(w: Word)
    ensures var s := EncodeWord(w); w == BigEndian(s[0], s[1], s[2], s[3])
  {
  }

  // Every four bytes are the bytes of a word, and every sixteen those of a header.
  lemma WordBytes(s: seq<Byte>)
    requires |s| == 4
    ensures EncodeWord(DecodeWord(s)) == s
  {
    var b0: int, b1: int, b2: int, b3: int := s[0], s[1], s[2], s[3];
    var x := b0 * 0x100 + b1;
    var y := x * 0x100 + b2;
    LastByte(y, b3);
    LastByte(x, b2);
    LastByte(b0, b1);
  }

  lemma LastByte(q: nat, b: Byte)
    ensures (q * 0x100 + b) / 0x100 == q && (q * 0x100 + b) % 0x100 == b
  {
  }

  lemma HdrBytes(s: seq<Byte>)
    requires |s| == HDR_SZ
    ensures EncodeHdr(DecodeHdr(s)) == s
  {
    hide EncodeWord, DecodeWord;
    WordBytes(s[0..4]);
    WordBytes(s[4..8]);
    WordBytes(s[8..12]);
    WordBytes(s[12..16]);
    assert s == s[0..4] + s[4..8] + s[8..12] + s[12..16];
  }

  /** A client's call: a header, followed for WRITE_PAGE by as many bytes as its length field says. */
  datatype Request = Request(hdr: Hdr, payload: seq<Byte>)

  predicate WellFormed(q: Request) {
    |q.payload| == if q.hdr.op == OP_WRITE_PAGE then q.hdr.len else 0
  }

  function RequestFrame(q: Request): seq<Byte> {
    EncodeHdr(q.hdr) + q.payload
  }

  // The calls the client library makes.
  function AllocCall(bytes: Word): Request {
    Request(Hdr(OP_ALLOC_REGION, 0, 0, bytes), [])
  }

  function ReadCall(region: Word, page: Word): Request {
    Request(Hdr(OP_READ_PAGE, region, page, PAGE_SZ), [])
  }

  function WriteCall(region: Word, page: Word, data: Page): Request {
    Request(Hdr(OP_WRITE_PAGE, region, page, PAGE_SZ), data)
  }

  datatype Reply = Reply(hdr: Hdr, data: seq<Byte>)

  function ReplyFrame(r: Reply): seq<Byte> {
    EncodeHdr(r.hdr) + r.data
  }

  // The check that decides in netmem_read_page whether page data follows a reply header.
  predicate DataFollows(q: Hdr, r: Hdr) {
    q.op == OP_READ_PAGE && r == Hdr(OP_READ_PAGE, q.region, q.page, PAGE_SZ)
  }
}
