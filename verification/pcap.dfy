/** The capture container: exact-length reads from the input stream, the
    24-byte global header and the 16-byte per-record header of the libpcap
    format (sections 4 and 5 of draft-ietf-opsawg-pcap). The container's
    own headers are read little-endian. */
module Pcap {
  import opened Results
  import opened Bytes

  const FileHeaderSize: nat := 24
  const RecordHeaderSize: nat := 16
  const Magic: u32 := 0xa1b2c3d4
  const VersionMajor: u16 := 2
  const VersionMinor: u16 := 4

  /** `size` bytes from the front of the stream and the stream after them,
      or `Eof` when the stream is shorter; never a partial result. */
  function ReadExact(s: seq<byte>, size: nat): (r: Result<(seq<byte>, seq<byte>)>)
    ensures r.Ok? <==> size <= |s|
    ensures r.Ok? ==> |r.value.0| == size && r.value.0 + r.value.1 == s
    ensures r.Err? ==> r.error == Eof
  {
    if |s| < size then Err(Eof) else Ok((s[..size], s[size..]))
  }

  /** One raw read of the stream: the operating system hands over at most
      `want` bytes and at most `grant` bytes on this call; an empty answer
      means the stream is exhausted. */
  function RawRead(s: seq<byte>, want: nat, grant: nat): (got: seq<byte>)
    ensures |got| <= want && |got| <= grant
    ensures |got| <= |s| && got == s[..|got|]
    ensures |got| == 0 ==> want == 0 || grant == 0 || s == []
  {
    var n := if want < grant then want else grant;
    if |s| < n then s else s[..n]
  }

  /** The accumulate-until-full loop of read_exact over raw reads that may
      each deliver less than asked for: call `i` is granted `grant(i)`
      bytes, any positive number, different on every call. */
  method ReadExactLoop(s: seq<byte>, size: nat, grant: nat -> nat) returns (r: Result<(seq<byte>, seq<byte>)>)
    requires forall i :: grant(i) > 0
    ensures r == ReadExact(s, size)
  {
    var data: seq<byte> := [];
    var rest := s;
    var calls: nat := 0;
    while |data| < size
      invariant data + rest == s
      invariant |data| <= size
      decreases size - |data|
    {
      var more := RawRead(rest, size - |data|, grant(calls));
      calls := calls + 1;
      if |more| == 0 {
        return Err(Eof);
      }
      data := data + more;
      rest := rest[|more|..];
    }
    assert data == s[..size];
    r := Ok((data, rest));
  }

  // The global header (struct format `IHHiIII`)

  datatype FileHeader = FileHeader(
    magic: u32,
    versionMajor: u16,
    versionMinor: u16,
    thisZone: i32,
    sigFigs: u32,
    snapLen: u32,
    network: u32)

  function ParseFileHeader(d: seq<byte>): FileHeader
    requires |d| == FileHeaderSize
  {
    FileHeader(LE32(d[0..4]), LE16(d[4..6]), LE16(d[6..8]), AsI32(LE32(d[8..12])),
               LE32(d[12..16]), LE32(d[16..20]), LE32(d[20..24]))
  }

  function EncodeFileHeader(h: FileHeader): (d: seq<byte>)
    ensures |d| == FileHeaderSize
  {
    EncodeLE32(h.magic) + EncodeLE16(h.versionMajor) + EncodeLE16(h.versionMinor)
      + EncodeLE32(FromI32(h.thisZone)) + EncodeLE32(h.sigFigs) + EncodeLE32(h.snapLen)
      + EncodeLE32(h.network)
  }

  /** Decoding an encoded global header gives back every field. */
  lemma ParseEncodeFileHeader(h: FileHeader)
    ensures ParseFileHeader(EncodeFileHeader(h)) == h
  {
    var d := EncodeFileHeader(h);
    assert d[0..4] == EncodeLE32(h.magic);
    assert d[4..6] == EncodeLE16(h.versionMajor);
    assert d[6..8] == EncodeLE16(h.versionMinor);
    assert d[8..12] == EncodeLE32(FromI32(h.thisZone));
    assert d[12..16] == EncodeLE32(h.sigFigs);
    assert d[16..20] == EncodeLE32(h.snapLen);
    LastPiece(d[..20], EncodeLE32(h.network));
    assert d == d[..20] + EncodeLE32(h.network);
  }

  /** Every 24 bytes are the encoding of the header they decode to. */
  lemma EncodeParseFileHeader(d: seq<byte>)
    requires |d| == FileHeaderSize
    ensures EncodeFileHeader(ParseFileHeader(d)) == d
  {
    EncodeLE32OfLE32(d[0..4]);
    EncodeLE16OfLE16(d[4..6]);
    EncodeLE16OfLE16(d[6..8]);
    EncodeLE32OfLE32(d[8..12]);
    EncodeLE32OfLE32(d[12..16]);
    EncodeLE32OfLE32(d[16..20]);
    EncodeLE32OfLE32(d[20..24]);
    assert d == d[0..4] + d[4..6] + d[6..8] + d[8..12] + d[12..16] + d[16..20] + d[20..24];
  }

  predicate SupportedFileHeader(h: FileHeader) {
    h.magic == Magic && h.versionMajor == VersionMajor && h.versionMinor == VersionMinor
  }

  /** read_file_header: the link type and the stream after the header. */
  function ReadFileHeader(s: seq<byte>): (r: Result<(u32, seq<byte>)>)
    ensures r.Ok? <==> |s| >= FileHeaderSize && SupportedFileHeader(ParseFileHeader(s[..FileHeaderSize]))
    ensures r.Ok? ==> r.value == (ParseFileHeader(s[..FileHeaderSize]).network, s[FileHeaderSize..])
    ensures |s| < FileHeaderSize ==> r == Err(Eof)
  {
    var split :- ReadExact(s, FileHeaderSize);
    var h := ParseFileHeader(split.0);
    if h.magic != Magic then Err(BadMagic)
    else if h.versionMajor != VersionMajor then Err(BadMajorVersion)
    else if h.versionMinor != VersionMinor then Err(BadMinorVersion)
    else Ok((h.network, split.1))
  }

  /** The global header is accepted exactly when magic and version are
      right, and then consumes exactly its 24 bytes; otherwise the first
      failing check names the error. */
  lemma ReadEncodedFileHeader(h: FileHeader, rest: seq<byte>)
    ensures ReadFileHeader(EncodeFileHeader(h) + rest)
         == if h.magic != Magic then Err(BadMagic)
            else if h.versionMajor != VersionMajor then Err(BadMajorVersion)
            else if h.versionMinor != VersionMinor then Err(BadMinorVersion)
            else Ok((h.network, rest))
  {
    var s := EncodeFileHeader(h) + rest;
    assert s[..FileHeaderSize] == EncodeFileHeader(h);
    assert s[FileHeaderSize..] == rest;
    ParseEncodeFileHeader(h);
  }

  /** Conversely, an accepted stream begins with the encoding of a
      supported global header and continues with what is handed on. */
  lemma ReadFileHeaderIsEncoded(s: seq<byte>)
    requires ReadFileHeader(s).Ok?
    ensures var h := ParseFileHeader(s[..FileHeaderSize]);
            SupportedFileHeader(h) && s == EncodeFileHeader(h) + ReadFileHeader(s).value.1
  {
    EncodeParseFileHeader(s[..FileHeaderSize]);
    assert s == s[..FileHeaderSize] + s[FileHeaderSize..];
  }

  // The per-record header (struct format `IIII`)

  datatype RecordHeader = RecordHeader(tsSec: u32, tsUsec: u32, inclLen: u32, origLen: u32)

  /** A capture timestamp: seconds and microseconds as stored. */
  datatype Stamp = Stamp(sec: u32, usec: u32)

  /** What read_record_header hands back: the payload size and the stamp. */
  datatype RecordInfo = RecordInfo(size: u32, stamp: Stamp)

  function ParseRecordHeader(d: seq<byte>): RecordHeader
    requires |d| == RecordHeaderSize
  {
    RecordHeader(LE32(d[0..4]), LE32(d[4..8]), LE32(d[8..12]), LE32(d[12..16]))
  }

  function EncodeRecordHeader(h: RecordHeader): (d: seq<byte>)
    ensures |d| == RecordHeaderSize
  {
    EncodeLE32(h.tsSec) + EncodeLE32(h.tsUsec) + EncodeLE32(h.inclLen) + EncodeLE32(h.origLen)
  }

  lemma ParseEncodeRecordHeader(h: RecordHeader)
    ensures ParseRecordHeader(EncodeRecordHeader(h)) == h
  {
    var d := EncodeRecordHeader(h);
    assert d[0..4] == EncodeLE32(h.tsSec);
    assert d[4..8] == EncodeLE32(h.tsUsec);
    assert d[8..12] == EncodeLE32(h.inclLen);
    LastPiece(d[..12], EncodeLE32(h.origLen));
    assert d == d[..12] + EncodeLE32(h.origLen);
  }

  lemma EncodeParseRecordHeader(d: seq<byte>)
    requires |d| == RecordHeaderSize
    ensures EncodeRecordHeader(ParseRecordHeader(d)) == d
  {
    EncodeLE32OfLE32(d[0..4]);
    EncodeLE32OfLE32(d[4..8]);
    EncodeLE32OfLE32(d[8..12]);
    EncodeLE32OfLE32(d[12..16]);
    assert d == d[0..4] + d[4..8] + d[8..12] + d[12..16];
  }

  /** read_record_header: `Eof` whenever fewer than 16 bytes remain
      (a header cut short included), `RecordLengthMismatch` when the two
      lengths differ, otherwise the size, the stamp and the stream after
      the 16 header bytes. */
  function ReadRecordHeader(s: seq<byte>): (r: Result<(RecordInfo, seq<byte>)>)
    ensures r == Err(Eof) <==> |s| < RecordHeaderSize
    ensures r.Ok? <==> |s| >= RecordHeaderSize
                       && ParseRecordHeader(s[..RecordHeaderSize]).inclLen
                          == ParseRecordHeader(s[..RecordHeaderSize]).origLen
    ensures r.Ok? ==> r.value.1 == s[RecordHeaderSize..]
  {
    var split :- ReadExact(s, RecordHeaderSize);
    var h := ParseRecordHeader(split.0);
    if h.inclLen != h.origLen then Err(RecordLengthMismatch)
    else Ok((RecordInfo(h.inclLen, Stamp(h.tsSec, h.tsUsec)), split.1))
  }

  /** A record header whose lengths agree yields its own size and stamp;
      one whose lengths differ is rejected. */
  lemma ReadEncodedRecordHeader(h: RecordHeader, rest: seq<byte>)
    ensures ReadRecordHeader(EncodeRecordHeader(h) + rest)
         == if h.inclLen != h.origLen then Err(RecordLengthMismatch)
            else Ok((RecordInfo(h.inclLen, Stamp(h.tsSec, h.tsUsec)), rest))
  {
    var s := EncodeRecordHeader(h) + rest;
    assert s[..RecordHeaderSize] == EncodeRecordHeader(h);
    assert s[RecordHeaderSize..] == rest;
    ParseEncodeRecordHeader(h);
  }

  /** Conversely, an accepted record header is the encoding of one whose
      two lengths agree, followed by the rest of the stream. */
  lemma ReadRecordHeaderIsEncoded(s: seq<byte>)
    requires ReadRecordHeader(s).Ok?
    ensures var info := ReadRecordHeader(s).value.0;
            s == EncodeRecordHeader(RecordHeader(info.stamp.sec, info.stamp.usec, info.size, info.size))
                 + ReadRecordHeader(s).value.1
  {
    EncodeParseRecordHeader(s[..RecordHeaderSize]);
    assert s == s[..RecordHeaderSize] + s[RecordHeaderSize..];
  }

  /** Relative time of a record, in integer microseconds since `epoch`
      (the first record's stamp). It is not normalised: a later record
      can get a negative value. */
  function RelTime(epoch: Stamp, t: Stamp): (us: int)
    ensures t == epoch ==> us == 0
  {
    (t.sec - epoch.sec) * 1_000_000 + (t.usec - epoch.usec)
  }

  predicate Before(a: Stamp, b: Stamp) {
    a.sec < b.sec || (a.sec == b.sec && a.usec < b.usec)
  }

  /** With well-formed microsecond fields the relative time is negative
      exactly for stamps earlier than the epoch. */
  lemma RelTimeSign(epoch: Stamp, t: Stamp)
    requires epoch.usec < 1_000_000 && t.usec < 1_000_000
    ensures RelTime(epoch, t) < 0 <==> Before(t, epoch)
    ensures RelTime(epoch, t) == 0 <==> t == epoch
  {
    var d := t.sec - epoch.sec;
    if d < 0 {
      assert d * 1_000_000 <= -1_000_000;
    } else if d > 0 {
      assert d * 1_000_000 >= 1_000_000;
    }
  }
}
