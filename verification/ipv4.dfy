/** The IPv4 header (section 3.1 of RFC 791): twenty fixed bytes, then
    options that are skipped. Only UDP datagrams whose total length matches
    the bytes captured are accepted. */
module IPv4 {
  import opened Results
  import opened Bytes
  import Cursor

  const FixedSize: nat := 20
  const ProtocolUdp: byte := 17

  datatype Header = Header(
    versionIhl: byte,
    dscpEcn: byte,
    totalLength: u16,
    identification: u16,
    flagsFragOffset: u16,
    ttl: byte,
    protocol: byte,
    checksum: u16,
    src: u32,
    dst: u32)

  function Version(h: Header): nat { h.versionIhl / 16 }

  /** Header length in 32-bit words (the low nibble). */
  function Ihl(h: Header): nat { h.versionIhl % 16 }

  /** Bytes of options after the fixed part; negative when the header
      length field is below 5 words. */
  function OptionsLength(h: Header): int { Ihl(h) * 4 - FixedSize }

  function Parse(d: seq<byte>): Header
    requires |d| == FixedSize
  {
    Header(d[0], d[1], BE16(d[2..4]), BE16(d[4..6]), BE16(d[6..8]), d[8], d[9],
           BE16(d[10..12]), BE32(d[12..16]), BE32(d[16..20]))
  }

  function Encode(h: Header): (d: seq<byte>)
    ensures |d| == FixedSize
  {
    [h.versionIhl, h.dscpEcn] + EncodeBE16(h.totalLength) + EncodeBE16(h.identification)
      + EncodeBE16(h.flagsFragOffset) + [h.ttl, h.protocol] + EncodeBE16(h.checksum)
      + EncodeBE32(h.src) + EncodeBE32(h.dst)
  }

  lemma ParseEncode(h: Header)
    ensures Parse(Encode(h)) == h
  {
    var d := Encode(h);
    assert d[2..4] == EncodeBE16(h.totalLength);
    assert d[4..6] == EncodeBE16(h.identification);
    assert d[6..8] == EncodeBE16(h.flagsFragOffset);
    assert d[10..12] == EncodeBE16(h.checksum);
    assert d[12..16] == EncodeBE32(h.src);
    LastPiece(d[..16], EncodeBE32(h.dst));
    assert d == d[..16] + EncodeBE32(h.dst);
  }

  lemma EncodeParse(d: seq<byte>)
    requires |d| == FixedSize
    ensures Encode(Parse(d)) == d
  {
    EncodeBE16OfBE16(d[2..4]);
    EncodeBE16OfBE16(d[4..6]);
    EncodeBE16OfBE16(d[6..8]);
    EncodeBE16OfBE16(d[10..12]);
    EncodeBE32OfBE32(d[12..16]);
    EncodeBE32OfBE32(d[16..20]);
    assert d == d[0..2] + d[2..4] + d[4..6] + d[6..8] + d[8..10] + d[10..12] + d[12..16] + d[16..20];
  }

  /** Source and destination address of an accepted datagram. */
  datatype Addrs = Addrs(src: u32, dst: u32)

  /** handle_ip_header: reads the fixed part, checks version, total length
      and protocol in that order, then skips the options. On success the
      total length field equals the whole datagram's length and the cursor
      stands after the full header of `Ihl` words. */
  function Decode(r: seq<byte>): (res: Result<(Addrs, seq<byte>)>)
    ensures res.Ok? <==>
              |r| >= FixedSize
              && Version(Parse(r[..FixedSize])) == 4
              && Parse(r[..FixedSize]).totalLength == |r|
              && Parse(r[..FixedSize]).protocol == ProtocolUdp
              && FixedSize <= Ihl(Parse(r[..FixedSize])) * 4 <= |r|
    ensures res.Ok? ==>
              var h := Parse(r[..FixedSize]);
              res.value == (Addrs(h.src, h.dst), r[Ihl(h) * 4..])
  {
    var split :- Cursor.Read(r, FixedSize);
    var h := Parse(split.0);
    if Version(h) != 4 then Err(BadIpVersion)
    else if h.totalLength != |split.1| + FixedSize then Err(IpLengthMismatch)
    else if h.protocol != ProtocolUdp then Err(NotUdp)
    else
      var payload :- Cursor.Skip(split.1, OptionsLength(h));
      Ok((Addrs(h.src, h.dst), payload))
  }

  /** A header whose fields fit: version 4, UDP, options of the declared
      size and a total length covering header, options and payload. */
  predicate Fits(h: Header, options: seq<byte>, payload: seq<byte>) {
    && Version(h) == 4
    && h.protocol == ProtocolUdp
    && OptionsLength(h) == |options|
    && h.totalLength == FixedSize + |options| + |payload|
  }

  /** Decoding an encoded datagram that fits yields its addresses and
      exactly its payload. */
  lemma DecodeEncoded(h: Header, options: seq<byte>, payload: seq<byte>)
    requires Fits(h, options, payload)
    ensures Decode(Encode(h) + options + payload) == Ok((Addrs(h.src, h.dst), payload))
  {
    var r := Encode(h) + options + payload;
    assert r[..FixedSize] == Encode(h);
    ParseEncode(h);
    assert r[Ihl(h) * 4..] == payload;
  }

  /** Conversely, every accepted datagram is an encoded header that fits,
      followed by its options and the payload handed on. */
  lemma DecodedIsEncoded(r: seq<byte>)
    requires Decode(r).Ok?
    ensures var h := Parse(r[..FixedSize]);
            var options := r[FixedSize..Ihl(h) * 4];
            var payload := Decode(r).value.1;
            Fits(h, options, payload) && r == Encode(h) + options + payload
  {
    var h := Parse(r[..FixedSize]);
    EncodeParse(r[..FixedSize]);
    assert r == r[..FixedSize] + r[FixedSize..Ihl(h) * 4] + r[Ihl(h) * 4..];
  }

  /** A version-4 header whose total length is off by any non-zero amount
      is rejected, whatever follows it. */
  lemma DecodeLengthMismatch(h: Header, rest: seq<byte>)
    requires Version(h) == 4
    requires h.totalLength != FixedSize + |rest|
    ensures Decode(Encode(h) + rest) == Err(IpLengthMismatch)
  {
    var r := Encode(h) + rest;
    assert r[..FixedSize] == Encode(h);
    assert r[FixedSize..] == rest;
    ParseEncode(h);
  }
}
