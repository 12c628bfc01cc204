/** The UDP header (RFC 768): four big-endian 16-bit fields. The checksum is
    not verified; the length must cover exactly the bytes present. */
module Udp {
  import opened Results
  import opened Bytes
  import Cursor

  const HeaderSize: nat := 8

  datatype Header = Header(srcPort: u16, dstPort: u16, length: u16, checksum: u16)

  function Parse(d: seq<byte>): Header
    requires |d| == HeaderSize
  {
    Header(BE16(d[0..2]), BE16(d[2..4]), BE16(d[4..6]), BE16(d[6..8]))
  }

  function Encode(h: Header): (d: seq<byte>)
    ensures |d| == HeaderSize
  {
    EncodeBE16(h.srcPort) + EncodeBE16(h.dstPort) + EncodeBE16(h.length) + EncodeBE16(h.checksum)
  }

  lemma ParseEncode(h: Header)
    ensures Parse(Encode(h)) == h
  {
    var d := Encode(h);
    assert d[0..2] == EncodeBE16(h.srcPort);
    assert d[2..4] == EncodeBE16(h.dstPort);
    assert d[4..6] == EncodeBE16(h.length);
    assert d[6..8] == EncodeBE16(h.checksum);
  }

  lemma EncodeParse(d: seq<byte>)
    requires |d| == HeaderSize
    ensures Encode(Parse(d)) == d
  {
    EncodeBE16OfBE16(d[0..2]);
    EncodeBE16OfBE16(d[2..4]);
    EncodeBE16OfBE16(d[4..6]);
    EncodeBE16OfBE16(d[6..8]);
    assert d == d[0..2] + d[2..4] + d[4..6] + d[6..8];
  }

  datatype Ports = Ports(src: u16, dst: u16)

  /** handle_udp_header: the ports, and the cursor left on the payload,
      which is everything after the 8 header bytes; the length field must
      equal the whole segment's length. */
  function Decode(r: seq<byte>): (res: Result<(Ports, seq<byte>)>)
    ensures res.Ok? <==> |r| >= HeaderSize && Parse(r[..HeaderSize]).length == |r|
    ensures res.Ok? ==>
              var h := Parse(r[..HeaderSize]);
              res.value == (Ports(h.srcPort, h.dstPort), r[HeaderSize..])
    ensures |r| < HeaderSize ==> res == Err(ReaderFault)
  {
    var split :- Cursor.Read(r, HeaderSize);
    var h := Parse(split.0);
    if h.length != |split.1| + HeaderSize then Err(UdpLengthMismatch)
    else Ok((Ports(h.srcPort, h.dstPort), split.1))
  }

  /** Conversely, every accepted segment is an encoded header whose length
      field counts the payload, followed by exactly that payload. */
  lemma DecodedIsEncoded(r: seq<byte>)
    requires Decode(r).Ok?
    ensures var h := Parse(r[..HeaderSize]);
            var payload := Decode(r).value.1;
            h.length == HeaderSize + |payload| && r == Encode(h) + payload
  {
    EncodeParse(r[..HeaderSize]);
    assert r == r[..HeaderSize] + r[HeaderSize..];
  }

  /** Decoding an encoded segment gives its ports and payload when the
      length field is right, and a length error otherwise. */
  lemma DecodeEncoded(h: Header, payload: seq<byte>)
    ensures Decode(Encode(h) + payload)
         == if h.length == HeaderSize + |payload| then Ok((Ports(h.srcPort, h.dstPort), payload))
            else Err(UdpLengthMismatch)
  {
    var r := Encode(h) + payload;
    assert r[..HeaderSize] == Encode(h);
    assert r[HeaderSize..] == payload;
    ParseEncode(h);
  }
}
