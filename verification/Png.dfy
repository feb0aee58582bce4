/**
 The PNG part of PixelDumpSupport.cpp: a tEXt chunk holding the checksum is
 spliced in after the IHDR chunk. Chunk layout is RFC 2083, section 3.2.
 */
module Png {
  import opened Options
  import opened Bits
  import C = Crc

  // ---- chunks and streams ---------------------------------------------------------

  datatype Chunk = Chunk(kind: seq<Byte>, data: seq<Byte>, crc: seq<Byte>)

  const SIGNATURE: seq<Byte> := [137, 80, 78, 71, 13, 10, 26, 10]
  const IHDR: seq<Byte> := [73, 72, 68, 82]

  /** The length 41, "tEXt", and "checksum" with its null separator. */
  const TEXT_COMMENT_PREFIX: seq<Byte> :=
    [0, 0, 0, 0x29, 116, 69, 88, 116, 99, 104, 101, 99, 107, 115, 117, 109, 0]

  predicate WellFormed(c: Chunk) {
    |c.kind| == 4 && |c.crc| == 4 && |c.data| < 0x1_0000_0000
  }

  /** A four-byte big-endian field as a number. */
  function Number(b: seq<Byte>): nat
    requires |b| == 4
  {
    256 * (256 * (256 * (b[0] as int) + b[1] as int) + b[2] as int) + b[3] as int
  }

  function Field(n: nat): (r: seq<Byte>)
    requires n < 0x1_0000_0000
    ensures |r| == 4 && Number(r) == n
  {
    [n / 256 / 256 / 256, n / 256 / 256 % 256, n / 256 % 256, n % 256]
  }

  function ChunkBytes(c: Chunk): (r: seq<Byte>)
    requires WellFormed(c)
    ensures |r| == 12 + |c.data|
  {
    Field(|c.data|) + c.kind + c.data + c.crc
  }

  function StreamBytes(cs: seq<Chunk>): seq<Byte>
    requires forall c :: c in cs ==> WellFormed(c)
  {
    if cs == [] then [] else ChunkBytes(cs[0]) + StreamBytes(cs[1..])
  }

  /** Reads chunks until the bytes run out; None when they end inside a chunk. */
  function ParseChunks(s: seq<Byte>): Option<seq<Chunk>> {
    if s == [] then Some([])
    else if |s| < 12 || |s| < 12 + Number(s[..4]) then None
    else
      var n := Number(s[..4]);
      match ParseChunks(s[12 + n..])
      case None => None
      case Some(cs) => Some([Chunk(s[4..8], s[8..8 + n], s[8 + n..12 + n])] + cs)
  }

  function ParsePng(s: seq<Byte>): Option<seq<Chunk>> {
    if |s| >= 8 && s[..8] == SIGNATURE then ParseChunks(s[8..]) else None
  }

  lemma FieldOfNumber(b: seq<Byte>)
    requires |b| == 4
    ensures Number(b) < 0x1_0000_0000 && Field(Number(b)) == b
  {
    var n := Number(b);
    assert n / 256 == 256 * (256 * (b[0] as int) + b[1] as int) + b[2] as int;
    assert n / 256 / 256 == 256 * (b[0] as int) + b[1] as int;
  }

  lemma ParseOfBytes(c: Chunk, rest: seq<Byte>)
    requires WellFormed(c)
    ensures ParseChunks(ChunkBytes(c) + rest) ==
      match ParseChunks(rest) case None => None case Some(cs) => Some([c] + cs)
  {
    var s, n := ChunkBytes(c) + rest, |c.data|;
    assert s[..4] == Field(n);
    assert s[4..8] == c.kind && s[8..8 + n] == c.data && s[8 + n..12 + n] == c.crc && s[12 + n..] == rest;
  }

  ghost predicate AllWellFormed(cs: seq<Chunk>) {
    forall c :: c in cs ==> WellFormed(c)
  }

  /** Parsing inverts printing. */
  lemma {:induction false} ParseOfStream(cs: seq<Chunk>)
    requires AllWellFormed(cs)
    ensures ParseChunks(StreamBytes(cs)) == Some(cs)
  {
    hide ParseChunks, ChunkBytes, WellFormed;
    if cs == [] {
      NoChunks();
    } else {
      ParseOfStream(cs[1..]);
      ParseOfBytes(cs[0], StreamBytes(cs[1..]));
      assert cs == [cs[0]] + cs[1..];
    }
  }

  /** The chunk at the front of s, when s holds all of it. */
  lemma FirstChunkBytes(s: seq<Byte>, n: nat)
    requires |s| >= 12 + n && n == Number(s[..4])
    ensures var c := Chunk(s[4..8], s[8..8 + n], s[8 + n..12 + n]);
      WellFormed(c) && s == ChunkBytes(c) + s[12 + n..]
  {
    FieldOfNumber(s[..4]);
    assert s == s[..4] + s[4..8] + s[8..8 + n] + s[8 + n..12 + n] + s[12 + n..];
  }

  /** Parsing takes the chunk at the front and goes on behind it. */
  lemma ParseStep(s: seq<Byte>) returns (c: Chunk, rest: seq<Byte>)
    requires s != [] && ParseChunks(s).Some?
    ensures |rest| < |s| && ParseChunks(rest).Some? && ParseChunks(s).value == [c] + ParseChunks(rest).value
    ensures WellFormed(c) && s == ChunkBytes(c) + rest
  {
    var n := Number(s[..4]);
    c, rest := Chunk(s[4..8], s[8..8 + n], s[8 + n..12 + n]), s[12 + n..];
    FirstChunkBytes(s, n);
  }

  lemma StreamStep(c: Chunk, cs: seq<Chunk>)
    requires WellFormed(c) && AllWellFormed(cs)
    ensures AllWellFormed([c] + cs) && StreamBytes([c] + cs) == ChunkBytes(c) + StreamBytes(cs)
  {
    assert ([c] + cs)[1..] == cs;
  }

  lemma NoChunks()
    ensures ParseChunks([]) == Some([]) && AllWellFormed([]) && StreamBytes([]) == []
  {
  }

  /** Printing inverts parsing. */
  lemma {:induction false} StreamOfParse(s: seq<Byte>)
    requires ParseChunks(s).Some?
    ensures AllWellFormed(ParseChunks(s).value) && StreamBytes(ParseChunks(s).value) == s
    decreases |s|
  {
    hide ParseChunks, StreamBytes, ChunkBytes, AllWellFormed, WellFormed;
    if s == [] {
      NoChunks();
    } else {
      var c, rest := ParseStep(s);
      StreamOfParse(rest);
      StreamStep(c, ParseChunks(rest).value);
    }
  }

  lemma {:induction false} StreamAppends(a: seq<Chunk>, b: seq<Chunk>)
    requires AllWellFormed(a) && AllWellFormed(b)
    ensures AllWellFormed(a + b) && StreamBytes(a + b) == StreamBytes(a) + StreamBytes(b)
  {
    hide StreamBytes, ChunkBytes, WellFormed;
    if a == [] {
      NoChunks();
      assert a + b == b;
    } else {
      StreamAppends(a[1..], b);
      StreamStep(a[0], a[1..]);
      StreamStep(a[0], a[1..] + b);
      assert a == [a[0]] + a[1..] && a + b == [a[0]] + (a[1..] + b);
      JoinsTwo(ChunkBytes(a[0]), StreamBytes(a[1..]), StreamBytes(b));
    }
  }

  lemma JoinsTwo(a: seq<Byte>, b: seq<Byte>, c: seq<Byte>)
    ensures a + b + c == a + (b + c)
  {
  }

  // ---- the comment chunk -------------------------------------------------------------

  /** A 32-bit number, most significant byte first. */
  function BigEndian(w: C.Word): (r: seq<Byte>)
    ensures |r| == 4
  {
    [ToByte(w[24..32]), ToByte(w[16..24]), ToByte(w[8..16]), ToByte(w[..8])]
  }

  ghost predicate IsPrefix(prefix: seq<Byte>) {
    |prefix| == 17 && Number(prefix[..4]) == 41
  }

  lemma PrefixAsWritten()
    ensures IsPrefix(TEXT_COMMENT_PREFIX) && TEXT_COMMENT_PREFIX[4..8] == [116, 69, 88, 116]
    ensures TEXT_COMMENT_PREFIX[8..] == [99, 104, 101, 99, 107, 115, 117, 109] + [0]
  {
  }

  /** The chunk made of a 17-byte prefix and a checksum; the CRC covers type and data. */
  function CommentChunk(prefix: seq<Byte>, checksum: seq<Byte>): Chunk
    requires IsPrefix(prefix)
  {
    Chunk(prefix[4..8], prefix[8..] + checksum, BigEndian(C.Crc32(prefix[4..] + checksum)))
  }

  lemma {:induction false} ToNatSplits(a: seq<bool>, b: seq<bool>)
    ensures ToNat(a + b) == ToNat(a) + Power2(|a|) * ToNat(b)
  {
    if a == [] {
      assert a + b == b;
    } else {
      ToNatSplits(a[1..], b);
      assert (a + b)[1..] == a[1..] + b;
      assert 2 * (Power2(|a| - 1) * ToNat(b)) == Power2(|a|) * ToNat(b);
    }
  }

  /** The big-endian bytes of a word are the number it stands for. */
  lemma BigEndianIsNumber(w: C.Word)
    ensures Number(BigEndian(w)) == ToNat(w)
  {
    BytesAreEightBits();
    assert w == w[..8] + w[8..] && w[8..] == w[8..16] + w[16..] && w[16..] == w[16..24] + w[24..32];
    ToNatSplits(w[..8], w[8..]);
    ToNatSplits(w[8..16], w[16..]);
    ToNatSplits(w[16..24], w[24..32]);
  }

  /** Where the comment goes: RFC 2083 puts a 13-byte IHDR chunk first. */
  predicate StartsWithHeader(cs: seq<Chunk>) {
    cs != [] && cs[0].kind == IHDR && |cs[0].data| == 13
  }

  const INSERT_OFFSET := 33

  /** The bytes convertChecksumToPNGComment appends. */
  function Comment(prefix: seq<Byte>, checksum: seq<Byte>): seq<Byte>
    requires |prefix| == 17
  {
    prefix + checksum + BigEndian(C.Crc32(prefix[4..] + checksum))
  }

  /** The bytes that printPNG sends after its two header lines. */
  function Body(comment: seq<Byte>, data: seq<Byte>): seq<Byte>
    requires |data| >= INSERT_OFFSET
  {
    data[..INSERT_OFFSET] + comment + data[INSERT_OFFSET..]
  }

  lemma BodyLength(comment: seq<Byte>, data: seq<Byte>)
    requires |data| >= INSERT_OFFSET
    ensures |Body(comment, data)| == |data| + |comment|
  {
  }

  /**
   The output is the input's chunks with one comment chunk after IHDR; the
   comment's length field is 41 and its checksum field is the CRC of its type and data.
   */
  lemma SpliceInsertsComment(prefix: seq<Byte>, data: seq<Byte>, checksum: seq<Byte>)
    requires IsPrefix(prefix) && |checksum| == 32
    requires ParsePng(data).Some? && StartsWithHeader(ParsePng(data).value)
    ensures |data| >= INSERT_OFFSET
    ensures var cs, c := ParsePng(data).value, CommentChunk(prefix, checksum);
      ParsePng(Body(Comment(prefix, checksum), data)) == Some([cs[0], c] + cs[1..])
    ensures var c := CommentChunk(prefix, checksum);
      && c.kind == prefix[4..8] && c.data == prefix[8..] + checksum
      && WellFormed(c) && Number(ChunkBytes(c)[..4]) == 41 && Number(c.crc) == ToNat(C.Crc32(c.kind + c.data))
  {
    var w := C.Crc32(prefix[4..] + checksum);
    CommentIsChunk(prefix, checksum, BigEndian(w));
    BigEndianIsNumber(w);
    SpliceInserts(data, CommentChunk(prefix, checksum));
  }

  /**
   What printPNG writes when the stream has room: the input's chunks with one chunk
   after IHDR, of type tEXt, with the keyword "checksum", a zero and the checksum.
   */
  lemma WrittenPngParses(data: seq<Byte>, checksum: seq<Byte>, quota: nat)
    requires |checksum| == 32 && ParsePng(data).Some? && StartsWithHeader(ParsePng(data).value)
    requires quota >= |data| + |Comment(TEXT_COMMENT_PREFIX, checksum)|
    ensures |TEXT_COMMENT_PREFIX| == 17 && IsPrefix(TEXT_COMMENT_PREFIX) && |data| >= INSERT_OFFSET
    ensures var cs, c := ParsePng(data).value, CommentChunk(TEXT_COMMENT_PREFIX, checksum);
      && c.kind == [116, 69, 88, 116] && c.data == [99, 104, 101, 99, 107, 115, 117, 109] + [0] + checksum
      && ParsePng(Cut(Body(Comment(TEXT_COMMENT_PREFIX, checksum), data), quota)) == Some([cs[0], c] + cs[1..])
  {
    PrefixAsWritten();
    hide *;
    SpliceInsertsComment(TEXT_COMMENT_PREFIX, data, checksum);
    BodyLength(Comment(TEXT_COMMENT_PREFIX, checksum), data);
    NothingCut(Body(Comment(TEXT_COMMENT_PREFIX, checksum), data), quota);
  }

  lemma NothingCut(s: seq<Byte>, quota: nat)
    requires |s| <= quota
    ensures Cut(s, quota) == s
  {
  }

  /** Splicing any chunk in at offset 33 inserts it after IHDR. */
  lemma SpliceInserts(data: seq<Byte>, c: Chunk)
    requires WellFormed(c) && ParsePng(data).Some? && StartsWithHeader(ParsePng(data).value)
    ensures |data| >= INSERT_OFFSET
    ensures var cs := ParsePng(data).value; ParsePng(Body(ChunkBytes(c), data)) == Some([cs[0], c] + cs[1..])
  {
    hide StreamBytes, ChunkBytes, ParseChunks;
    var cs := ParsePng(data).value;
    HeaderSplits(data);
    SpliceParses(cs[..1], c, cs[1..]);
    BodyBehindSignature(data, ChunkBytes(c), StreamBytes(cs[..1]), StreamBytes(cs[1..]));
    assert cs[..1] + [c] + cs[1..] == [cs[0], c] + cs[1..];
  }

  lemma BodyBehindSignature(data: seq<Byte>, comment: seq<Byte>, header: seq<Byte>, rest: seq<Byte>)
    requires |data| >= INSERT_OFFSET && data[..INSERT_OFFSET] == SIGNATURE + header && data[INSERT_OFFSET..] == rest
    ensures var body := Body(comment, data);
      |body| >= 8 && body[..8] == SIGNATURE && body[8..] == header + comment + rest
  {
    JoinsThree(SIGNATURE, header, comment, rest);
  }

  /** The first 33 bytes are the signature and the IHDR chunk. */
  lemma HeaderSplits(data: seq<Byte>)
    requires ParsePng(data).Some? && StartsWithHeader(ParsePng(data).value)
    ensures |data| >= INSERT_OFFSET
    ensures var cs := ParsePng(data).value;
      && AllWellFormed(cs) && AllWellFormed(cs[..1]) && AllWellFormed(cs[1..])
      && data[..INSERT_OFFSET] == SIGNATURE + StreamBytes(cs[..1])
      && data[INSERT_OFFSET..] == StreamBytes(cs[1..])
  {
    var cs := ParsePng(data).value;
    var h, rest := cs[..1], cs[1..];
    StreamOfParse(data[8..]);
    assert cs == h + rest && h[0] == cs[0];
    StreamAppends(h, rest);
    assert StreamBytes(h) == ChunkBytes(cs[0]) + [];
    assert data == (SIGNATURE + StreamBytes(h)) + StreamBytes(rest);
  }

  lemma CommentIsChunk(prefix: seq<Byte>, checksum: seq<Byte>, crc: seq<Byte>)
    requires IsPrefix(prefix) && |checksum| == 32 && |crc| == 4
    ensures var c := Chunk(prefix[4..8], prefix[8..] + checksum, crc);
      && WellFormed(c) && |c.data| == 41 && c.kind + c.data == prefix[4..] + checksum
      && Number(ChunkBytes(c)[..4]) == 41 && ChunkBytes(c) == prefix + checksum + crc
  {
    var c := Chunk(prefix[4..8], prefix[8..] + checksum, crc);
    FieldOfNumber(prefix[..4]);
    assert Field(|c.data|) == prefix[..4];
    assert prefix == prefix[..4] + prefix[4..8] + prefix[8..];
    assert prefix[4..] == prefix[4..8] + prefix[8..];
    assert ChunkBytes(c)[..4] == prefix[..4];
  }

  lemma JoinsThree(a: seq<Byte>, b: seq<Byte>, c: seq<Byte>, d: seq<Byte>)
    ensures a + b + c + d == a + (b + c + d)
  {
  }

  lemma StreamOfOne(c: Chunk)
    requires WellFormed(c)
    ensures StreamBytes([c]) == ChunkBytes(c)
  {
    assert StreamBytes([c]) == ChunkBytes(c) + [];
  }

  lemma SpliceParses(h: seq<Chunk>, c: Chunk, rest: seq<Chunk>)
    requires AllWellFormed(h) && WellFormed(c) && AllWellFormed(rest)
    ensures ParseChunks(StreamBytes(h) + ChunkBytes(c) + StreamBytes(rest)) == Some(h + [c] + rest)
  {
    var hc := h + [c];
    StreamOfOne(c);
    StreamAppends(h, [c]);
    StreamAppends(hc, rest);
    ParseOfStream(hc + rest);
  }

  // ---- the code ------------------------------------------------------------------------

  class ByteVector {
    var bytes: seq<Byte>

    constructor ()
      ensures bytes == []
    {
      bytes := [];
    }

    method Append(more: seq<Byte>)
      modifies this
      ensures bytes == old(bytes) + more
    {
      bytes := bytes + more;
    }

    /** Vector::grow leaves the new bytes unspecified. */
    method Grow(size: nat)
      requires size >= |bytes|
      modifies this
      ensures |bytes| == size && bytes[..old(|bytes|)] == old(bytes)
    {
      while |bytes| < size
        invariant old(|bytes|) <= |bytes| <= size && bytes[..old(|bytes|)] == old(bytes)
      {
        var b: Byte := *;
        bytes := bytes + [b];
      }
    }

    method Set(i: nat, b: Byte)
      requires i < |bytes|
      modifies this
      ensures bytes == old(bytes)[i := b]
    {
      bytes := bytes[i := b];
    }
  }

  method AppendIntToVector(number: C.Word, vector: ByteVector)
    modifies vector
    ensures vector.bytes == old(vector.bytes) + BigEndian(number)
  {
    var offset := |vector.bytes|;
    vector.Grow(offset + 4);
    vector.Set(offset, ToByte(Shr(number, 24)[..8]));
    vector.Set(offset + 1, ToByte(Shr(number, 16)[..8]));
    vector.Set(offset + 2, ToByte(Shr(number, 8)[..8]));
    vector.Set(offset + 3, ToByte(number[..8]));
    assert Shr(number, 24)[..8] == number[24..32];
    assert Shr(number, 16)[..8] == number[16..24];
    assert Shr(number, 8)[..8] == number[8..16];
    assert vector.bytes[..offset] == old(vector.bytes);
  }

  method ConvertChecksumToPNGComment(
    prefix: seq<Byte>, checksum: seq<Byte>, calculator: C.Calculator, bytesToAdd: ByteVector)
    requires |prefix| == 17 && |checksum| == 32 && calculator.Valid()
    modifies bytesToAdd, calculator, calculator.crcTable
    ensures calculator.Valid()
    ensures bytesToAdd.bytes == old(bytesToAdd.bytes) + Comment(prefix, checksum)
  {
    bytesToAdd.Append(prefix);
    bytesToAdd.Append(checksum);
    var dataToCrc := new ByteVector();
    dataToCrc.Append(prefix[4..]);
    dataToCrc.Append(checksum);
    assert dataToCrc.bytes == prefix[4..] + checksum;
    var crc32 := calculator.ComputeCrc(dataToCrc.bytes);
    AppendIntToVector(crc32, bytesToAdd);
    JoinsThree(old(bytesToAdd.bytes), prefix, checksum, BigEndian(crc32));
  }

  /** A stream that accepts only quota more bytes, as on a full disk or a closed pipe. */
  class Stream {
    var written: seq<Byte>
    var quota: nat

    constructor (quota: nat)
      ensures written == [] && this.quota == quota
    {
      written, this.quota := [], quota;
    }

    method FWrite(data: seq<Byte>) returns (n: nat)
      modifies this
      ensures n == if |data| <= old(quota) then |data| else old(quota)
      ensures written == old(written) + data[..n] && quota == old(quota) - n
    {
      n := if |data| <= quota then |data| else quota;
      written, quota := written + data[..n], quota - n;
    }
  }

  function Cut(s: seq<Byte>, n: nat): seq<Byte> {
    if n <= |s| then s[..n] else s
  }

  lemma CutAppends(s: seq<Byte>, p: seq<Byte>, quota: nat)
    ensures var left := if |s| <= quota then quota - |s| else 0;
      Cut(s + p, quota) == Cut(s, quota) + Cut(p, left)
    ensures |s| >= quota ==> Cut(s + p, quota) == Cut(s, quota)
  {
  }

  /** The stream was offered exactly sent since it held before and had quota left. */
  ghost predicate Offered(stdout: Stream, before: seq<Byte>, quota: nat, sent: seq<Byte>)
    reads stdout
  {
    && stdout.written == before + Cut(sent, quota)
    && stdout.quota == if |sent| <= quota then quota - |sent| else 0
  }

  method Offer(stdout: Stream, data: seq<Byte>, ghost before: seq<Byte>, ghost quota: nat, ghost sent: seq<Byte>)
    returns (n: nat)
    requires Offered(stdout, before, quota, sent)
    modifies stdout
    ensures Offered(stdout, before, quota, sent + data)
    ensures n <= |data| && (n != |data| ==> |sent + data| > quota)
  {
    CutAppends(sent, data, quota);
    n := stdout.FWrite(data);
  }

  /** The announced length is what is sent when every write is full; a stream that fills up gets a prefix. */
  method PrintPNG(data: seq<Byte>, checksum: seq<Byte>, calculator: C.Calculator, stdout: Stream)
    returns (contentLength: nat)
    requires |data| >= INSERT_OFFSET && |checksum| == 32 && calculator.Valid()
    modifies stdout, calculator, calculator.crcTable
    ensures calculator.Valid() && IsPrefix(TEXT_COMMENT_PREFIX)
    ensures contentLength == |Body(Comment(TEXT_COMMENT_PREFIX, checksum), data)|
    ensures stdout.written == old(stdout.written)
      + Cut(Body(Comment(TEXT_COMMENT_PREFIX, checksum), data), old(stdout.quota))
  {
    PrefixAsWritten();
    contentLength := PrintWithPrefix(TEXT_COMMENT_PREFIX, data, checksum, calculator, stdout);
  }

  method PrintWithPrefix(
    prefix: seq<Byte>, data: seq<Byte>, checksum: seq<Byte>, calculator: C.Calculator, stdout: Stream)
    returns (contentLength: nat)
    requires |prefix| == 17 && |data| >= INSERT_OFFSET && |checksum| == 32 && calculator.Valid()
    modifies stdout, calculator, calculator.crcTable
    ensures calculator.Valid() && contentLength == |Body(Comment(prefix, checksum), data)|
    ensures stdout.written == old(stdout.written) + Cut(Body(Comment(prefix, checksum), data), old(stdout.quota))
  {
    var bytesToAdd := new ByteVector();
    ConvertChecksumToPNGComment(prefix, checksum, calculator, bytesToAdd);
    var comment := bytesToAdd.bytes;
    assert comment == Comment(prefix, checksum);
    contentLength := |data| + |comment|;
    BodyLength(comment, data);
    SendBody(data, comment, stdout);
  }

  /** Sends what precedes the insertion, the comment, and the rest in blocks. */
  method SendBody(data: seq<Byte>, comment: seq<Byte>, stdout: Stream)
    requires |data| >= INSERT_OFFSET
    modifies stdout
    ensures stdout.written == old(stdout.written) + Cut(Body(comment, data), old(stdout.quota))
  {
    ghost var before, quota := stdout.written, stdout.quota;
    var insertOffset := 33;
    assert [] + data[..insertOffset] == data[..insertOffset];
    var n := Offer(stdout, data[..insertOffset], before, quota, []);
    n := Offer(stdout, comment, before, quota, data[..insertOffset]);
    SendInBlocks(data[insertOffset..], stdout, before, quota, data[..insertOffset] + comment);
  }

  /** The block loop; rest is what the data pointer points to, and head was sent before it. */
  method SendInBlocks(rest: seq<Byte>, stdout: Stream, ghost before: seq<Byte>, ghost quota: nat, ghost head: seq<Byte>)
    requires Offered(stdout, before, quota, head)
    modifies stdout
    ensures stdout.written == before + Cut(head + rest, quota)
  {
    hide Cut;
    var bytesToWriteInOneChunk := 32768;
    var at := 0;
    var dataRemainingToWrite := |rest|;
    assert head + rest[..0] == head;
    while dataRemainingToWrite > 0
      invariant at + dataRemainingToWrite == |rest| && dataRemainingToWrite >= 0
      invariant Offered(stdout, before, quota, head + rest[..at])
    {
      var bytesToWriteInThisChunk :=
        if dataRemainingToWrite < bytesToWriteInOneChunk then dataRemainingToWrite else bytesToWriteInOneChunk;
      var end := at + bytesToWriteInThisChunk;
      Continues(head, rest, at, end);
      var bytesWritten := Offer(stdout, rest[at..end], before, quota, head + rest[..at]);
      if bytesWritten != bytesToWriteInThisChunk {
        CutAppends(head + rest[..end], rest[end..], quota);
        return;
      }
      dataRemainingToWrite := dataRemainingToWrite - bytesWritten;
      at := at + bytesWritten;
    }
    assert rest[..at] == rest;
  }

  lemma Continues(head: seq<Byte>, rest: seq<Byte>, at: nat, end: nat)
    requires at <= end <= |rest|
    ensures head + rest[..at] + rest[at..end] == head + rest[..end]
    ensures head + rest[..end] + rest[end..] == head + rest
  {
    JoinsTwo(head, rest[..at], rest[at..end]);
    JoinsTwo(head, rest[..end], rest[end..]);
    assert rest[..at] + rest[at..end] == rest[..end] && rest[..end] + rest[end..] == rest;
  }
}
