/** The packet pipeline of networkdump.py: handle_packet strips the link
    layer, decodes IPv4 and UDP and routes the payload; the record loop of
    main reads the capture stream record by record, timing each packet
    against the first record's stamp. The input stream is an in-memory byte
    sequence. */
module NetworkDump {
  import opened Results
  import opened Bytes
  import opened Pcap
  import LinkLayer
  import IPv4
  import Udp
  import Router

  /** `st'` is `st` with one more payload handed off, at `time`, and that
      payload is a suffix of the packet's bytes `data`. */
  predicate DeliveredOne(st: Router.State, st': Router.State, data: seq<byte>, time: int) {
    && |st'.trace| == |st.trace| + 1
    && st'.trace[..|st.trace|] == st.trace
    && var d := st'.trace[|st.trace|];
       d.time == time && |d.payload| <= |data| && data[|data| - |d.payload|..] == d.payload
  }

  /** handle_packet: a dropped duplicate leaves the state as it was; an
      admitted packet hands exactly one payload, a suffix of the packet,
      to a session; sessions are never removed. */
  function HandlePacket(priv: u32 -> bool, linkType: u32, time: int, data: seq<byte>,
                        st: Router.State): (r: Result<Router.State>)
    ensures linkType != LinkLayer.LinkTypeRaw && linkType != LinkLayer.LinkTypeLinuxSll
            ==> r == Err(UnknownLinkType)
    ensures r.Ok? ==> st.table.Keys <= r.value.table.Keys
    ensures r.Ok? ==> r.value == st || DeliveredOne(st, r.value, data, time)
  {
    var link :- LinkLayer.StripLinkLayer(linkType, data);
    match link
    case Drop => Ok(st)
    case Forward(datagram) =>
      var ip :- IPv4.Decode(datagram);
      var udp :- Udp.Decode(ip.1);
      Ok(Router.Route(priv, st, Router.Endpoint(ip.0.src, udp.0.src),
                      Router.Endpoint(ip.0.dst, udp.0.dst), time, udp.1))
  }

  /** An IPv4/UDP datagram that fits its headers. */
  predicate DatagramFits(ih: IPv4.Header, options: seq<byte>, uh: Udp.Header, payload: seq<byte>) {
    IPv4.Fits(ih, options, Udp.Encode(uh) + payload) && uh.length == Udp.HeaderSize + |payload|
  }

  function EncodeDatagram(ih: IPv4.Header, options: seq<byte>, uh: Udp.Header, payload: seq<byte>): seq<byte> {
    IPv4.Encode(ih) + options + Udp.Encode(uh) + payload
  }

  /** A raw-IP packet holding a datagram that fits is routed with its own
      addresses, ports and UDP payload. */
  lemma HandleRawDatagram(priv: u32 -> bool, time: int, ih: IPv4.Header, options: seq<byte>,
                          uh: Udp.Header, payload: seq<byte>, st: Router.State)
    requires DatagramFits(ih, options, uh, payload)
    ensures HandlePacket(priv, LinkLayer.LinkTypeRaw, time, EncodeDatagram(ih, options, uh, payload), st)
         == Ok(Router.Route(priv, st, Router.Endpoint(ih.src, uh.srcPort),
                            Router.Endpoint(ih.dst, uh.dstPort), time, payload))
  {
    var segment := Udp.Encode(uh) + payload;
    assert EncodeDatagram(ih, options, uh, payload) == IPv4.Encode(ih) + options + segment;
    IPv4.DecodeEncoded(ih, options, segment);
    Udp.DecodeEncoded(uh, payload);
  }

  /** A cooked packet whose header passes the checks but whose packet type
      is not 0 is dropped before any IP decoding, whatever follows it. */
  lemma SllDuplicateDropped(priv: u32 -> bool, time: int, h: LinkLayer.SllHeader, body: seq<byte>,
                            st: Router.State)
    requires LinkLayer.WellSized(h) && LinkLayer.SllAccepted(h) && h.packetType != 0
    ensures HandlePacket(priv, LinkLayer.LinkTypeLinuxSll, time, LinkLayer.EncodeSll(h) + body, st) == Ok(st)
  {
    LinkLayer.StripEncodedSll(h, body);
  }

  /** A cooked packet of type 0 is handled exactly as its body would be on
      a raw-IP capture. */
  lemma SllCanonicalForwarded(priv: u32 -> bool, time: int, h: LinkLayer.SllHeader, body: seq<byte>,
                              st: Router.State)
    requires LinkLayer.WellSized(h) && LinkLayer.SllAccepted(h) && h.packetType == 0
    ensures HandlePacket(priv, LinkLayer.LinkTypeLinuxSll, time, LinkLayer.EncodeSll(h) + body, st)
         == HandlePacket(priv, LinkLayer.LinkTypeRaw, time, body, st)
  {
    LinkLayer.StripEncodedSll(h, body);
  }

  lemma HandlePacketPreservesInvariant(priv: u32 -> bool, linkType: u32, time: int, data: seq<byte>,
                                       st: Router.State)
    requires Router.Invariant(st)
    ensures HandlePacket(priv, linkType, time, data, st).Ok? ==>
              Router.Invariant(HandlePacket(priv, linkType, time, data, st).value)
  {
    var link := LinkLayer.StripLinkLayer(linkType, data);
    if link.Ok? && link.value.Forward? {
      var ip := IPv4.Decode(link.value.datagram);
      if ip.Ok? {
        var udp := Udp.Decode(ip.value.1);
        if udp.Ok? {
          Router.RoutePreservesInvariant(priv, st, Router.Endpoint(ip.value.0.src, udp.value.0.src),
                                         Router.Endpoint(ip.value.0.dst, udp.value.0.dst), time, udp.value.1);
        }
      }
    }
  }

  // The record loop of main

  /** The epoch: the stamp of the first record, fixed once seen. */
  function EpochFor(epoch: Option<Stamp>, t: Stamp): (e: Stamp)
    ensures epoch.Some? ==> e == epoch.value
    ensures epoch.None? ==> RelTime(e, t) == 0
  {
    if epoch.None? then t else epoch.value
  }

  /** The loop over records: `Eof` while reading a record header, even a
      partly present one, ends the run cleanly; every other failure,
      including `Eof` while reading a payload, is fatal. Sessions are never
      removed. */
  function RunRecords(priv: u32 -> bool, linkType: u32, epoch: Option<Stamp>, s: seq<byte>,
                      st: Router.State): (r: Result<Router.State>)
    ensures |s| < RecordHeaderSize ==> r == Ok(st)
    ensures r.Ok? ==> st.table.Keys <= r.value.table.Keys
    ensures r.Ok? ==> |st.trace| <= |r.value.trace| && r.value.trace[..|st.trace|] == st.trace
    decreases |s|
  {
    match ReadRecordHeader(s)
    case Err(e) => if e == Eof then Ok(st) else Err(e)
    case Ok(hdr) =>
      var ep := EpochFor(epoch, hdr.0.stamp);
      var split :- ReadExact(hdr.1, hdr.0.size);
      var st' :- HandlePacket(priv, linkType, RelTime(ep, hdr.0.stamp), split.0, st);
      RunRecords(priv, linkType, Some(ep), split.1, st')
  }

  /** main: the global header, then the records, starting from an empty
      session table. An unknown link type is only noticed by the first
      packet. */
  function Run(priv: u32 -> bool, input: seq<byte>): (r: Result<Router.State>)
    ensures |input| < FileHeaderSize ==> r == Err(Eof)
    ensures r.Ok? ==> |input| >= FileHeaderSize && SupportedFileHeader(ParseFileHeader(input[..FileHeaderSize]))
  {
    var hdr :- ReadFileHeader(input);
    RunRecords(priv, hdr.0, None, hdr.1, Router.Empty)
  }

  lemma {:induction false} RunRecordsPreservesInvariant(priv: u32 -> bool, linkType: u32, epoch: Option<Stamp>,
                                                        s: seq<byte>, st: Router.State)
    requires Router.Invariant(st)
    ensures RunRecords(priv, linkType, epoch, s, st).Ok? ==>
              Router.Invariant(RunRecords(priv, linkType, epoch, s, st).value)
    decreases |s|
  {
    var h := ReadRecordHeader(s);
    if h.Ok? {
      var ep := EpochFor(epoch, h.value.0.stamp);
      var split := ReadExact(h.value.1, h.value.0.size);
      if split.Ok? {
        var time := RelTime(ep, h.value.0.stamp);
        HandlePacketPreservesInvariant(priv, linkType, time, split.value.0, st);
        var st' := HandlePacket(priv, linkType, time, split.value.0, st);
        if st'.Ok? {
          RunRecordsPreservesInvariant(priv, linkType, Some(ep), split.value.1, st'.value);
        }
      }
    }
  }

  /** Every table a successful run ends with satisfies the router's
      invariant. */
  lemma RunPreservesInvariant(priv: u32 -> bool, input: seq<byte>)
    ensures Run(priv, input).Ok? ==> Router.Invariant(Run(priv, input).value)
  {
    var hdr := ReadFileHeader(input);
    if hdr.Ok? {
      Router.EmptyInvariant();
      RunRecordsPreservesInvariant(priv, hdr.value.0, None, hdr.value.1, Router.Empty);
    }
  }

  // The record-level view of a capture

  /** One captured packet as the capture file stores it. */
  datatype Record = Record(stamp: Stamp, payload: seq<byte>)

  predicate Encodable(rec: Record) {
    |rec.payload| < 0x1_0000_0000
  }

  predicate AllEncodable(recs: seq<Record>) {
    forall i :: 0 <= i < |recs| ==> Encodable(recs[i])
  }

  function EncodeRecord(rec: Record): seq<byte>
    requires Encodable(rec)
  {
    var n := |rec.payload|;
    EncodeRecordHeader(RecordHeader(rec.stamp.sec, rec.stamp.usec, n, n)) + rec.payload
  }

  function EncodeRecords(recs: seq<Record>): seq<byte>
    requires AllEncodable(recs)
  {
    if recs == [] then [] else EncodeRecord(recs[0]) + EncodeRecords(recs[1..])
  }

  /** The reference semantics of the loop: handle the records in order,
      each at its time relative to the first record, stopping at the first
      failure. */
  function ProcessRecords(priv: u32 -> bool, linkType: u32, epoch: Option<Stamp>, recs: seq<Record>,
                          st: Router.State): Result<Router.State>
    decreases |recs|
  {
    if recs == [] then Ok(st)
    else
      var ep := EpochFor(epoch, recs[0].stamp);
      var st' :- HandlePacket(priv, linkType, RelTime(ep, recs[0].stamp), recs[0].payload, st);
      ProcessRecords(priv, linkType, Some(ep), recs[1..], st')
  }

  function EpochAfter(epoch: Option<Stamp>, recs: seq<Record>): Option<Stamp> {
    if recs == [] then epoch else Some(EpochFor(epoch, recs[0].stamp))
  }

  /** One encoded record at the front of the stream is handled with
      exactly its payload, at its time, before the loop goes on with the
      bytes after it. */
  lemma RunRecordsStep(priv: u32 -> bool, linkType: u32, epoch: Option<Stamp>, rec: Record,
                       later: seq<byte>, st: Router.State)
    requires Encodable(rec)
    ensures
      var ep := EpochFor(epoch, rec.stamp);
      var handled := HandlePacket(priv, linkType, RelTime(ep, rec.stamp), rec.payload, st);
      RunRecords(priv, linkType, epoch, EncodeRecord(rec) + later, st)
        == if handled.Err? then Err(handled.error) else RunRecords(priv, linkType, Some(ep), later, handled.value)
  {
    var n := |rec.payload|;
    var h := RecordHeader(rec.stamp.sec, rec.stamp.usec, n, n);
    assert EncodeRecord(rec) + later == EncodeRecordHeader(h) + (rec.payload + later);
    ReadEncodedRecordHeader(h, rec.payload + later);
    assert ReadExact(rec.payload + later, n) == Ok((rec.payload, later));
  }

  /** Framing: reading a stream that starts with encoded records handles
      exactly those records, in order, with exactly their payloads and
      times, and then goes on with whatever follows them. */
  lemma {:induction false} RunRecordsEncoded(priv: u32 -> bool, linkType: u32, epoch: Option<Stamp>,
                                             recs: seq<Record>, tail: seq<byte>, st: Router.State)
    requires AllEncodable(recs)
    ensures RunRecords(priv, linkType, epoch, EncodeRecords(recs) + tail, st)
         == var processed := ProcessRecords(priv, linkType, epoch, recs, st);
            if processed.Err? then Err(processed.error)
            else RunRecords(priv, linkType, EpochAfter(epoch, recs), tail, processed.value)
    decreases |recs|
  {
    if recs == [] {
      assert EncodeRecords(recs) + tail == tail;
    } else {
      var later := EncodeRecords(recs[1..]) + tail;
      assert EncodeRecords(recs) + tail == EncodeRecord(recs[0]) + later;
      RunRecordsStep(priv, linkType, epoch, recs[0], later, st);
      var ep := EpochFor(epoch, recs[0].stamp);
      var st' := HandlePacket(priv, linkType, RelTime(ep, recs[0].stamp), recs[0].payload, st);
      if st'.Ok? {
        RunRecordsEncoded(priv, linkType, Some(ep), recs[1..], tail, st'.value);
        assert EpochAfter(Some(ep), recs[1..]) == EpochAfter(epoch, recs);
      }
    }
  }

  /** A whole capture of encoded records with a supported global header,
      possibly followed by a cut-off record header, runs exactly as the
      record-level semantics from an empty table; the link type is not
      checked when there are no records. */
  lemma RunEncodedCapture(priv: u32 -> bool, h: FileHeader, recs: seq<Record>, tail: seq<byte>)
    requires SupportedFileHeader(h) && AllEncodable(recs)
    requires |tail| < RecordHeaderSize
    ensures Run(priv, EncodeFileHeader(h) + EncodeRecords(recs) + tail)
         == ProcessRecords(priv, h.network, None, recs, Router.Empty)
  {
    var rest := EncodeRecords(recs) + tail;
    assert EncodeFileHeader(h) + EncodeRecords(recs) + tail == EncodeFileHeader(h) + rest;
    ReadEncodedFileHeader(h, rest);
    RunRecordsEncoded(priv, h.network, None, recs, tail, Router.Empty);
  }

  /** A payload cut short by the end of the stream is fatal: the run fails
      with `Eof` rather than ending cleanly. */
  lemma TruncatedPayloadFatal(priv: u32 -> bool, linkType: u32, epoch: Option<Stamp>, stamp: Stamp,
                              size: u32, short: seq<byte>, st: Router.State)
    requires |short| < size
    ensures RunRecords(priv, linkType, epoch,
                       EncodeRecordHeader(RecordHeader(stamp.sec, stamp.usec, size, size)) + short, st)
         == Err(Eof)
  {
    ReadEncodedRecordHeader(RecordHeader(stamp.sec, stamp.usec, size, size), short);
  }

  /** A record whose captured and original lengths differ stops the run
      with `RecordLengthMismatch`, whatever follows. */
  lemma LengthMismatchFatal(priv: u32 -> bool, linkType: u32, epoch: Option<Stamp>, h: RecordHeader,
                            rest: seq<byte>, st: Router.State)
    requires h.inclLen != h.origLen
    ensures RunRecords(priv, linkType, epoch, EncodeRecordHeader(h) + rest, st) == Err(RecordLengthMismatch)
  {
    ReadEncodedRecordHeader(h, rest);
  }
}
