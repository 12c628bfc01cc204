/** Concrete captures worked through the whole model. */
module Scenarios {
  import opened Results
  import opened Bytes
  import opened Pcap
  import IPv4
  import Udp
  import Router
  import opened NetworkDump

  const ClientAddr: u32 := 0x0A00_0005  // 10.0.0.5
  const ServerAddr: u32 := 0x5DB8_D822  // 93.184.216.34
  const Ping: seq<byte> := [0x50, 0x49, 0x4E, 0x47]  // "PING"

  const PingIp := IPv4.Header(0x45, 0, 32, 0, 0, 64, 17, 0, ClientAddr, ServerAddr)
  const PingUdp := Udp.Header(4000, 5002, 12, 0)
  const RawCaptureHeader := FileHeader(Magic, 2, 4, 0, 0, 65535, 101)
  const PingRecord := Record(Stamp(1_700_000_000, 250_000), EncodeDatagram(PingIp, [], PingUdp, Ping))

  /** A capture holding only its global header ends cleanly with no
      sessions, whatever link type it declares. */
  lemma HeaderOnlyCapture(priv: u32 -> bool, h: FileHeader)
    requires SupportedFileHeader(h)
    ensures Run(priv, EncodeFileHeader(h)) == Ok(Router.Empty)
  {
    RunEncodedCapture(priv, h, [], []);
    assert EncodeFileHeader(h) + EncodeRecords([]) + [] == EncodeFileHeader(h);
  }

  const PingKey := Router.Key(ServerAddr, 5002)
  const PingState := Router.State(map[PingKey := Router.Session(PingKey, Router.Gls, Router.Client, 0)],
                                  [Router.Delivery(PingKey, Router.Client, 0, Ping)])

  lemma PingRouted()
    ensures Router.Route(Router.Rfc1918, Router.Empty, Router.Endpoint(ClientAddr, 4000),
                         Router.Endpoint(ServerAddr, 5002), 0, Ping) == PingState
  {
    assert Router.Rfc1918(ClientAddr);
    assert !Router.Rfc1918(ServerAddr);
  }

  lemma PingProcessed()
    ensures ProcessRecords(Router.Rfc1918, 101, None, [PingRecord], Router.Empty) == Ok(PingState)
  {
    assert DatagramFits(PingIp, [], PingUdp, Ping);
    HandleRawDatagram(Router.Rfc1918, 0, PingIp, [], PingUdp, Ping, Router.Empty);
    PingRouted();
    assert RelTime(PingRecord.stamp, PingRecord.stamp) == 0;
    assert [PingRecord][1..] == [];
  }

  /** One raw-IP record carrying "PING" from 10.0.0.5:4000 to
      93.184.216.34:5002 creates the GLS session keyed on the public
      server, tags it as coming from the client at time 0, and hands it
      exactly the four payload bytes. */
  lemma PingScenario()
    ensures Run(Router.Rfc1918, EncodeFileHeader(RawCaptureHeader) + EncodeRecords([PingRecord]))
         == Ok(PingState)
  {
    var capture := EncodeFileHeader(RawCaptureHeader) + EncodeRecords([PingRecord]);
    assert capture + [] == capture;
    RunEncodedCapture(Router.Rfc1918, RawCaptureHeader, [PingRecord], []);
    PingProcessed();
  }
}
