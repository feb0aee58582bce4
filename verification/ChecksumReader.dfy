/**
 The reader of the comment, read_checksum_from_png.py: it looks for the bytes
 `tEXtchecksum` and a zero in the first 2048 bytes of the file, and takes the 32
 bytes behind them. Against it stands what `printPNG` writes.
 */
module ChecksumReader {
  import opened Options
  import opened Bits
  import opened Png

  const KEY: seq<Byte> := [116, 69, 88, 116, 99, 104, 101, 99, 107, 115, 117, 109, 0]

  predicate OccursAt(s: seq<Byte>, p: nat) {
    p + 13 <= |s| && s[p..p + 13] == KEY
  }

  /** The first occurrence of the key at or behind a position. */
  function Find(s: seq<Byte>, from: nat): (r: Option<nat>)
    ensures r.Some? ==> r.value + 13 <= |s|
    decreases |s| - from
  {
    if from + 13 > |s| then None
    else if s[from..from + 13] == KEY then Some(from)
    else Find(s, from + 1)
  }

  function ReadChecksum(file: seq<Byte>): Option<seq<Byte>> {
    var data := Cut(file, 2048);
    match Find(data, 0)
    case None => None
    case Some(p) => Some(Cut(data[p + 13..], 32))
  }

  /** What Find says about the occurrences. */
  lemma {:induction false} FindIsFirst(s: seq<Byte>, from: nat)
    ensures Find(s, from) == None ==> forall p :: from <= p ==> !OccursAt(s, p)
    ensures Find(s, from).Some? ==> from <= Find(s, from).value && OccursAt(s, Find(s, from).value)
    ensures Find(s, from).Some? ==> forall p :: from <= p < Find(s, from).value ==> !OccursAt(s, p)
    decreases |s| - from
  {
    hide KEY;
    if from + 13 <= |s| && s[from..from + 13] != KEY { FindIsFirst(s, from + 1); }
  }

  /** The front of what is written: the file's first 33 bytes, the prefix and the checksum. */
  ghost predicate Front(s: seq<Byte>, header: seq<Byte>, checksum: seq<Byte>) {
    && |header| == 33 && |checksum| == 32 && |s| >= 82
    && s[..33] == header && s[33..50] == TEXT_COMMENT_PREFIX && s[50..82] == checksum
  }

  lemma KeyBytes()
    ensures |KEY| == 13 && KEY[0] == 116 && KEY[12] == 0 && forall i :: 0 <= i < 12 ==> KEY[i] != 0
  {
  }

  lemma PrefixBytes(s: seq<Byte>, header: seq<Byte>, checksum: seq<Byte>)
    requires Front(s, header, checksum)
    ensures s[33] == 0 && s[34] == 0 && s[35] == 0 && s[36] == 41
    ensures s[..34] == header + [0] && OccursAt(s, 37)
  {
    var t := s[33..50];
    assert s[33] == t[0] && s[34] == t[1] && s[35] == t[2] && s[36] == t[3];
    assert s[37..50] == t[4..];
    assert s[..34] == s[..33] + [s[33]];
  }

  /** A key has no zero before its end, so none begins shortly before the one written. */
  lemma NotInBetween(s: seq<Byte>, p: nat)
    requires 22 <= p < 37 <= |s|
    requires s[33] == 0 && s[34] == 0 && s[35] == 0 && s[36] == 41
    ensures !OccursAt(s, p)
  {
    hide KEY;
    KeyBytes();
    if p + 13 <= |s| {
      assert p <= 33 ==> s[p..p + 13][33 - p] == s[33];
      assert s[p..p + 13][0] == s[p];
    }
  }

  lemma InTheFront(s: seq<Byte>, t: seq<Byte>, p: nat)
    requires 34 <= |s| && t == s[..34]
    ensures OccursAt(t, p) <==> OccursAt(s, p) && p <= 21
  {
    hide KEY;
    if p <= 21 { assert t[p..p + 13] == s[p..p + 13]; }
  }

  /** At or behind the insertion the key is first found where the comment has it, right before the checksum. */
  lemma FirstBehindHeader(s: seq<Byte>, header: seq<Byte>, checksum: seq<Byte>)
    requires Front(s, header, checksum)
    ensures Find(s, 33) == Some(37) && s[37 + 13..37 + 45] == checksum
  {
    hide KEY, OccursAt;
    PrefixBytes(s, header, checksum);
    FindIsFirst(s, 33);
    forall p | 33 <= p < 37 ensures !OccursAt(s, p) { NotInBetween(s, p); }
  }

  /** The comment is found exactly when the header and the zero behind it do not hold the key themselves. */
  lemma FoundIff(s: seq<Byte>, header: seq<Byte>, checksum: seq<Byte>)
    requires Front(s, header, checksum)
    ensures Find(s, 0) == Some(37) <==> Find(header + [0], 0) == None
  {
    hide KEY, OccursAt;
    PrefixBytes(s, header, checksum);
    FindIsFirst(s, 0);
    FindIsFirst(header + [0], 0);
    forall p | 22 <= p < 37 ensures !OccursAt(s, p) { NotInBetween(s, p); }
    forall p: nat ensures OccursAt(header + [0], p) <==> OccursAt(s, p) && p <= 21 { InTheFront(s, header + [0], p); }
  }

  lemma CutKeepsFront(s: seq<Byte>, n: nat)
    requires |s| >= 82 && n >= 82
    ensures |Cut(s, n)| >= 82 && Cut(s, n)[..82] == s[..82]
  {
  }

  lemma SlicesOfFront(s: seq<Byte>, u: seq<Byte>)
    requires |s| >= 82 && |u| >= 82 && s[..82] == u[..82]
    ensures s[..33] == u[..33] && s[33..50] == u[33..50] && s[50..82] == u[50..82]
  {
    assert s[..33] == s[..82][..33] && s[33..50] == s[..82][33..50] && s[50..82] == s[..82][50..82];
    assert u[..33] == u[..82][..33] && u[33..50] == u[..82][33..50] && u[50..82] == u[..82][50..82];
  }

  lemma SlicesOfParts(header: seq<Byte>, prefix: seq<Byte>, checksum: seq<Byte>, crc: seq<Byte>, rest: seq<Byte>)
    requires |header| == 33 && |prefix| == 17 && |checksum| == 32
    ensures var s := header + (prefix + checksum + crc) + rest;
      |s| >= 82 && s[..33] == header && s[33..50] == prefix && s[50..82] == checksum
  {
  }

  lemma FrontOfWritten(data: seq<Byte>, checksum: seq<Byte>, quota: nat)
    requires |data| >= 33 && |checksum| == 32 && quota >= 82
    ensures Front(Cut(Cut(Body(Comment(TEXT_COMMENT_PREFIX, checksum), data), quota), 2048), data[..33], checksum)
  {
    var crc := BigEndian(C.Crc32(TEXT_COMMENT_PREFIX[4..] + checksum));
    var s := Body(Comment(TEXT_COMMENT_PREFIX, checksum), data);
    SlicesOfParts(data[..33], TEXT_COMMENT_PREFIX, checksum, crc, data[33..]);
    hide Cut, TEXT_COMMENT_PREFIX, Comment, Body, C.Crc32, BigEndian;
    CutKeepsFront(s, quota);
    CutKeepsFront(Cut(s, quota), 2048);
    SlicesOfFront(Cut(Cut(s, quota), 2048), s);
  }

  /**
   Reading back what was written gives the checksum, even from a stream that took no
   more than the comment's prefix and checksum, provided the header does not hold
   the key.
   */
  lemma ReadsWhatWasWritten(data: seq<Byte>, checksum: seq<Byte>, quota: nat)
    requires |data| >= 33 && |checksum| == 32 && quota >= 82 && Find(data[..33] + [0], 0) == None
    ensures ReadChecksum(Cut(Body(Comment(TEXT_COMMENT_PREFIX, checksum), data), quota)) == Some(checksum)
  {
    hide Find, TEXT_COMMENT_PREFIX, Body, Comment;
    FrontOfWritten(data, checksum, quota);
    var s := Cut(Cut(Body(Comment(TEXT_COMMENT_PREFIX, checksum), data), quota), 2048);
    FoundIff(s, data[..33], checksum);
    assert s[50..][..32] == s[50..82];
  }

  lemma HeaderBytes(data: seq<Byte>)
    requires ParsePng(data).Some? && StartsWithHeader(ParsePng(data).value)
    ensures |data| >= 33 && data[26] == ParsePng(data).value[0].data[10]
    ensures data[..16] == [137, 80, 78, 71, 13, 10, 26, 10, 0, 0, 0, 13, 73, 72, 68, 82]
  {
    hide Number;
    var s := data[8..];
    assert ParsePng(data).value[0] == Chunk(s[4..8], s[8..21], s[21..25]);
    FieldOfNumber(s[..4]);
    assert s[..4] == [0, 0, 0, 13];
    assert data[..16] == data[..8] + s[..4] + s[4..8];
  }

  /** A header of a PNG file, whose compression method is zero, cannot hold the key. */
  lemma HeaderHoldsNoKey(data: seq<Byte>)
    requires ParsePng(data).Some? && StartsWithHeader(ParsePng(data).value)
    requires ParsePng(data).value[0].data[10] == 0
    ensures |data| >= 33 && Find(data[..33] + [0], 0) == None
  {
    HeaderBytes(data);
    hide KEY, ParsePng, OccursAt;
    var t := data[..33] + [0];
    assert t[..16] == data[..16] && t[26] == 0;
    FindIsFirst(t, 0);
    forall p: nat ensures !OccursAt(t, p) { NotInHeader(t, p); }
  }

  lemma NotInHeader(t: seq<Byte>, p: nat)
    requires |t| == 34 && t[26] == 0
    requires t[..16] == [137, 80, 78, 71, 13, 10, 26, 10, 0, 0, 0, 13, 73, 72, 68, 82]
    ensures !OccursAt(t, p)
  {
    hide KEY;
    KeyBytes();
    if p <= 21 {
      assert t[p..p + 13][0] == t[p];
      assert p < 16 ==> t[p] == t[..16][p];
      assert p >= 16 ==> t[p..p + 13][26 - p] == t[26];
    }
  }

  /** So the checksum of every image survives: print it, then read it. */
  lemma ChecksumRoundTrip(data: seq<Byte>, checksum: seq<Byte>, quota: nat)
    requires ParsePng(data).Some? && StartsWithHeader(ParsePng(data).value)
    requires ParsePng(data).value[0].data[10] == 0 && |checksum| == 32 && quota >= 82
    ensures |data| >= 33
    ensures ReadChecksum(Cut(Body(Comment(TEXT_COMMENT_PREFIX, checksum), data), quota)) == Some(checksum)
  {
    hide *;
    HeaderHoldsNoKey(data);
    ReadsWhatWasWritten(data, checksum, quota);
  }
}
