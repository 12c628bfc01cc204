/** Link-layer stripping: LINKTYPE_RAW packets start directly with the IPv4
    header; LINKTYPE_LINUX_SLL packets carry a 16-byte cooked header that is
    validated and then used to drop the duplicate copy of each packet. */
module LinkLayer {
  import opened Results
  import opened Bytes
  import Cursor

  const LinkTypeRaw: u32 := 101
  const LinkTypeLinuxSll: u32 := 113
  const SllHeaderSize: nat := 16
  const SllAddrSize: nat := 8
  const ArphrdEther: u16 := 1
  const EtherTypeIPv4: u16 := 0x0800

  /** The Linux cooked-capture header, all fields big-endian. */
  datatype SllHeader = SllHeader(
    packetType: u16,
    hardwareType: u16,
    addrLen: u16,
    addr: seq<byte>,
    protocol: u16)

  predicate WellSized(h: SllHeader) {
    |h.addr| == SllAddrSize
  }

  function ParseSll(d: seq<byte>): (h: SllHeader)
    requires |d| == SllHeaderSize
    ensures WellSized(h)
  {
    SllHeader(BE16(d[0..2]), BE16(d[2..4]), BE16(d[4..6]), d[6..14], BE16(d[14..16]))
  }

  function EncodeSll(h: SllHeader): (d: seq<byte>)
    requires WellSized(h)
    ensures |d| == SllHeaderSize
  {
    EncodeBE16(h.packetType) + EncodeBE16(h.hardwareType) + EncodeBE16(h.addrLen)
      + h.addr + EncodeBE16(h.protocol)
  }

  lemma ParseEncodeSll(h: SllHeader)
    requires WellSized(h)
    ensures ParseSll(EncodeSll(h)) == h
  {
    var d := EncodeSll(h);
    assert d[0..2] == EncodeBE16(h.packetType);
    assert d[2..4] == EncodeBE16(h.hardwareType);
    assert d[4..6] == EncodeBE16(h.addrLen);
    assert d[6..14] == h.addr;
    assert d[14..16] == EncodeBE16(h.protocol);
  }

  lemma EncodeParseSll(d: seq<byte>)
    requires |d| == SllHeaderSize
    ensures EncodeSll(ParseSll(d)) == d
  {
    EncodeBE16OfBE16(d[0..2]);
    EncodeBE16OfBE16(d[2..4]);
    EncodeBE16OfBE16(d[4..6]);
    EncodeBE16OfBE16(d[14..16]);
    assert d == d[0..2] + d[2..4] + d[4..6] + d[6..14] + d[14..16];
  }

  /** The three checks made on a cooked header before its packet type is
      looked at. */
  predicate SllAccepted(h: SllHeader) {
    h.hardwareType == ArphrdEther && h.addrLen <= SllAddrSize as int && h.protocol == EtherTypeIPv4
  }

  /** What the link layer leaves: the IPv4 datagram, or nothing because the
      packet is the duplicate copy (packet type other than 0). */
  datatype Stripped = Forward(datagram: seq<byte>) | Drop

  function StripLinkLayer(linkType: u32, data: seq<byte>): (r: Result<Stripped>)
    ensures linkType == LinkTypeRaw ==> r == Ok(Forward(data))
    ensures linkType != LinkTypeRaw && linkType != LinkTypeLinuxSll ==> r == Err(UnknownLinkType)
    ensures linkType == LinkTypeLinuxSll ==>
              (r.Ok? <==> |data| >= SllHeaderSize && SllAccepted(ParseSll(data[..SllHeaderSize])))
    ensures linkType == LinkTypeLinuxSll && r.Ok? ==>
              (r.value.Drop? <==> ParseSll(data[..SllHeaderSize]).packetType != 0)
              && (r.value.Forward? ==> r.value.datagram == data[SllHeaderSize..])
  {
    if linkType == LinkTypeRaw then
      Ok(Forward(data))
    else if linkType == LinkTypeLinuxSll then
      var split :- Cursor.Read(data, SllHeaderSize);
      var h := ParseSll(split.0);
      if h.hardwareType != ArphrdEther then Err(BadHardwareType)
      else if h.addrLen > SllAddrSize as int then Err(BadLinkAddrLength)
      else if h.protocol != EtherTypeIPv4 then Err(BadEtherType)
      else if h.packetType != 0 then Ok(Drop)
      else Ok(Forward(split.1))
    else
      Err(UnknownLinkType)
  }

  /** Conversely, a cooked packet that is forwarded is an encoded header
      that passes the checks with packet type 0, followed by the datagram. */
  lemma ForwardedIsEncoded(data: seq<byte>)
    requires StripLinkLayer(LinkTypeLinuxSll, data).Ok?
    requires StripLinkLayer(LinkTypeLinuxSll, data).value.Forward?
    ensures var h := ParseSll(data[..SllHeaderSize]);
            && SllAccepted(h) && h.packetType == 0
            && data == EncodeSll(h) + StripLinkLayer(LinkTypeLinuxSll, data).value.datagram
  {
    EncodeParseSll(data[..SllHeaderSize]);
    assert data == data[..SllHeaderSize] + data[SllHeaderSize..];
  }

  /** On an encoded cooked header the checks run in source order, all of
      them before the duplicate test: a bad header is an error even on a
      copy that would have been dropped. */
  lemma StripEncodedSll(h: SllHeader, body: seq<byte>)
    requires WellSized(h)
    ensures StripLinkLayer(LinkTypeLinuxSll, EncodeSll(h) + body)
         == if h.hardwareType != ArphrdEther then Err(BadHardwareType)
            else if h.addrLen > SllAddrSize as int then Err(BadLinkAddrLength)
            else if h.protocol != EtherTypeIPv4 then Err(BadEtherType)
            else if h.packetType != 0 then Ok(Drop)
            else Ok(Forward(body))
  {
    var d := EncodeSll(h) + body;
    assert d[..SllHeaderSize] == EncodeSll(h);
    assert d[SllHeaderSize..] == body;
    ParseEncodeSll(h);
  }
}
