# networkdump: a Dafny model of a pcap-to-session front end

`networkdump.py` reads one libpcap capture from its standard input and
makes a single forward pass over it. It checks the 24-byte global header,
then reads 16-byte record headers and exact-length payloads until the
stream ends. For each packet it:

- strips the link layer (raw IP, or Linux cooked capture with duplicate
  dropping);
- decodes a UDP-over-IPv4 header pair;
- routes the UDP payload to a per-conversation session. The session is
  keyed on the server address and the server port with bit 0 cleared.

This project models that core as pure functions over byte sequences:

| file | module | what it holds |
|---|---|---|
| results.dfy | `Results` | the error taxonomy (one constructor per raise site) and a failure-compatible `Result` |
| bytes.dfy | `Bytes` | byte / u16 / u32 / i32 and big- and little-endian field codecs with inverse lemmas |
| cursor.dfy | `Cursor` | the packet cursor as the suffix not yet consumed |
| pcap.dfy | `Pcap` | `read_exact` (function and chunked-read loop), global and record headers, relative time |
| link_layer.dfy | `LinkLayer` | LINKTYPE_RAW (101) and LINKTYPE_LINUX_SLL (113) |
| ipv4.dfy | `IPv4` | the IPv4 header of section 3.1 of RFC 791 |
| udp.dfy | `Udp` | the UDP header of RFC 768 |
| router.dfy | `Router` | session key, variant choice, direction tagging, table invariant |
| networkdump.dfy | `NetworkDump` | `handle_packet`, the record loop of `main`, and the record-level framing theorem |
| scenarios.dfy | `Scenarios` | a header-only capture and a one-packet "PING" capture worked end to end |

Each decoder returns either an `Error` or the decoded fields together with
the remaining byte suffix. The session table is a `map<Key, Session>`. The
hand-off of a payload to a session is recorded as a `Delivery` in a trace,
in order. Each part has a partner:

- every header has an encoder with round-trip lemmas in both directions;
- the byte-level loop is proved equal to a record-level reference
  (`ProcessRecords`);
- the router is proved to keep a table invariant.

Where the code and a clean reading of the format differ, the model follows
the code:

- **Cut-off record header.** End of stream anywhere inside a record
  header, even part-way through it, ends the run cleanly. End of stream
  inside a payload is fatal (`Eof`).
- **Unknown link type.** This is only noticed when the first packet is
  handled. A capture with no records and any link type ends cleanly.
- **Cooked-header check order.** The three cooked-header checks run
  before the duplicate test, so a bad header on a duplicate is still an
  error.
- **Python `assert` statements.** They are modelled as always enabled.

## Model

| member | source | states |
|---|---|---|
| Bytes.EncodeBE16 | networkdump.py:37-42 | a `!H` field encodes to two bytes that decode back to the same value |
| Bytes.EncodeBE16OfBE16 | networkdump.py:37-42 | every two bytes are the `!H` encoding of the value they decode to |
| Bytes.EncodeBE32 | networkdump.py:43-44 | a `!I` field encodes to four bytes that decode back to the same value |
| Bytes.EncodeBE32OfBE32 | networkdump.py:43-44 | every four bytes are the `!I` encoding of the value they decode to |
| Bytes.EncodeLE16 | networkdump.py:18-20 | a 16-bit header field in the capture's byte order round-trips |
| Bytes.EncodeLE16OfLE16 | networkdump.py:18-20 | every two header bytes are the encoding of the value they decode to |
| Bytes.EncodeLE32 | networkdump.py:18-20 | a 32-bit header field in the capture's byte order round-trips |
| Bytes.EncodeLE32OfLE32 | networkdump.py:18-20 | every four header bytes are the encoding of the value they decode to |
| Bytes.AsI32 | networkdump.py:18-20 | the signed `i` field agrees with its unsigned bits modulo 2^32 |
| Bytes.FromI32 | networkdump.py:18-20 | every signed 32-bit value has bits that read back as that value |
| Cursor.Read | networkdump.py:35-44 | a cursor read yields exactly n bytes and the rest, and fails iff fewer than n remain |
| Pcap.ReadExact | networkdump.py:8-15 | succeeds iff the stream holds at least `size` bytes; then it returns exactly `size` bytes, the stream's prefix, and the rest; otherwise it fails with EOF and returns nothing |
| Pcap.RawRead | networkdump.py:11 | one raw read returns a prefix of the stream of at most the wanted and the granted size, and is empty only at end of stream |
| Pcap.ReadExactLoop | networkdump.py:8-15 | the accumulate loop yields the same result as one exact read, whatever non-empty sizes the successive raw reads return |
| Pcap.ParseEncodeFileHeader | networkdump.py:18-20 | decoding an encoded global header returns all seven fields |
| Pcap.EncodeParseFileHeader | networkdump.py:18-20 | any 24 bytes are the encoding of the global header they decode to |
| Pcap.ReadFileHeader | networkdump.py:17-24 | accepts iff at least 24 bytes exist with magic 0xa1b2c3d4, major 2 and minor 4; it then returns the `network` field and the stream after exactly 24 bytes; EOF when shorter |
| Pcap.ReadEncodedFileHeader | networkdump.py:17-24 | on an encoded header the checks fail in source order (magic, major, minor); a supported header yields its link type and exactly the bytes after it |
| Pcap.ReadFileHeaderIsEncoded | networkdump.py:17-24 | every accepted stream begins with the encoding of a supported global header, and the rest is exactly what is handed on |
| Pcap.ParseEncodeRecordHeader | networkdump.py:27-29 | decoding an encoded record header returns its four fields |
| Pcap.EncodeParseRecordHeader | networkdump.py:27-29 | any 16 bytes are the encoding of the record header they decode to |
| Pcap.ReadRecordHeader | networkdump.py:26-32 | EOF iff fewer than 16 bytes remain; success iff the captured and original lengths agree; success leaves the stream after exactly 16 bytes |
| Pcap.ReadEncodedRecordHeader | networkdump.py:26-32 | an encoded record header yields (incl_len, ts_sec, ts_usec) when incl_len == orig_len, and fails with a length mismatch otherwise |
| Pcap.ReadRecordHeaderIsEncoded | networkdump.py:26-32 | every accepted record header is the encoding of one with equal lengths, and the rest is exactly what is handed on |
| Pcap.RelTime | networkdump.py:124-128 | the relative time of the epoch record itself is 0 |
| Pcap.RelTimeSign | networkdump.py:124-128 | with microsecond fields below 10^6, the relative time is negative exactly for stamps before the first record and zero exactly for the first record's stamp |
| LinkLayer.ParseEncodeSll | networkdump.py:65-69 | decoding an encoded cooked header returns its five fields |
| LinkLayer.EncodeParseSll | networkdump.py:65-69 | any 16 bytes are the encoding of the cooked header they decode to |
| LinkLayer.StripLinkLayer | networkdump.py:62-83 | raw IP passes the packet through untouched; any type other than 101 and 113 is an error; a cooked packet is accepted iff its 16 header bytes exist and pass the hardware, address-length and ethertype checks; it is then dropped iff its packet type is non-zero, and otherwise forwarded as exactly the bytes after those 16 |
| LinkLayer.StripEncodedSll | networkdump.py:64-81 | on an encoded cooked header, all three checks fire, in source order, before the duplicate drop |
| LinkLayer.ForwardedIsEncoded | networkdump.py:64-83 | every forwarded cooked packet is an accepted header of packet type 0 followed by exactly the forwarded datagram |
| IPv4.ParseEncode | networkdump.py:35-44 | decoding an encoded 20-byte fixed header returns all ten fields |
| IPv4.EncodeParse | networkdump.py:35-44 | any 20 bytes are the encoding of the fixed header they decode to |
| IPv4.Decode | networkdump.py:34-49 | accepts iff 20 fixed bytes exist, version is 4, total length equals the datagram length, protocol is 17 and the header length in words covers 20 to all bytes; it then returns (src, dst) and the bytes after the whole header |
| IPv4.DecodeEncoded | networkdump.py:34-49 | a datagram whose header fits yields its addresses and exactly its payload |
| IPv4.DecodeLengthMismatch | networkdump.py:45-46 | a version-4 header whose total length is off by any non-zero amount is rejected with a length mismatch |
| IPv4.DecodedIsEncoded | networkdump.py:34-49 | every accepted datagram is an encoded header that fits, then its options, then exactly the payload handed on |
| Udp.ParseEncode | networkdump.py:52-55 | decoding an encoded UDP header returns its four fields |
| Udp.EncodeParse | networkdump.py:52-55 | any 8 bytes are the encoding of the UDP header they decode to |
| Udp.Decode | networkdump.py:51-57 | accepts iff 8 bytes exist and the length field equals the segment length; it then returns (srcport, dstport) and exactly the bytes after the 8-byte header |
| Udp.DecodeEncoded | networkdump.py:51-57 | an encoded segment yields its ports and payload iff its length field is 8 + payload length, and fails with a length mismatch otherwise |
| Udp.DecodedIsEncoded | networkdump.py:51-57 | every accepted segment is an encoded header whose length counts the payload, followed by exactly that payload |
| Router.MaskPort | networkdump.py:96 | the masked port is even and is the port itself or one below it |
| Router.MaskPortShared | networkdump.py:96 | two ports share a key exactly when they differ only in bit 0 (2k and 2k+1) |
| Router.Route | networkdump.py:91-112 | the table's keys become the old keys plus the server key; every other session is unchanged; exactly one delivery is appended, carrying the key, the direction, the time and the payload |
| Router.DirectionFlip | networkdump.py:91-110 | with one private and one public endpoint, the key sits on the public one in both directions; the direction is client iff the source is private |
| Router.RouteExistingKey | networkdump.py:98-111 | a packet for a known key changes only that session's direction and time |
| Router.RouteNewKey | networkdump.py:98-111 | a packet for a new key adds exactly one session with that key; it is GLS iff the server port is 5002, otherwise generic with ordinal = old table size and creation time = packet time; the direction is client iff the source is private |
| Router.EmptyInvariant | networkdump.py:116 | the empty table of the start of a run satisfies the table invariant |
| Router.RetagKeepsInvariant | networkdump.py:107-111 | updating a session's direction and time keeps the table invariant |
| Router.InsertKeepsInvariant | networkdump.py:101-105 | inserting a session whose ordinal is the old table size keeps keys self-consistent and ordinals distinct and below the table size |
| Router.RoutePreservesInvariant | networkdump.py:96-112 | routing preserves the table invariant: sessions sit under their own key, GLS sessions sit under port 5002, generic ordinals are distinct and below the table size, and every delivery's session is in the table |
| Router.FirstPacketFixesVariant | networkdump.py:96-105 | the first packet of a key fixes its variant: a first packet from server port 5003 makes a generic session under port 5002 that later 5002 packets join |
| NetworkDump.HandlePacket | networkdump.py:59-112 | an unknown link type is an error; a success never removes a session, and either leaves the state as it was or hands exactly one payload, a suffix of the packet, to a session at the packet's time |
| NetworkDump.HandleRawDatagram | networkdump.py:85-112 | a raw-IP packet holding a fitting datagram is routed with its own addresses, ports and exactly its UDP payload |
| NetworkDump.SllDuplicateDropped | networkdump.py:64-81 | a cooked packet with valid header and non-zero packet type leaves the state unchanged, whatever body follows |
| NetworkDump.SllCanonicalForwarded | networkdump.py:64-85 | a cooked packet of type 0 is handled exactly as its body on a raw-IP capture |
| NetworkDump.HandlePacketPreservesInvariant | networkdump.py:59-112 | handling a packet preserves the table invariant |
| NetworkDump.EpochFor | networkdump.py:124-127 | the first record's relative time is 0, and a set epoch is kept |
| NetworkDump.RunRecords | networkdump.py:118-129 | fewer than 16 bytes left ends the run cleanly with the state unchanged; a success only grows the table and only extends the trace |
| NetworkDump.Run | networkdump.py:114-129 | a stream shorter than the global header fails with EOF; a successful run had a supported global header |
| NetworkDump.RunRecordsPreservesInvariant | networkdump.py:118-129 | the record loop preserves the table invariant |
| NetworkDump.RunPreservesInvariant | networkdump.py:114-129 | every successful run ends with a table satisfying the invariant |
| NetworkDump.RunRecordsStep | networkdump.py:121-129 | one encoded record at the front of the stream is handled with exactly its payload at its time relative to the epoch; the loop then continues on the bytes after it, unless handling failed |
| NetworkDump.RunRecordsEncoded | networkdump.py:119-129 | a stream beginning with encoded records is handled record by record, in order; each record gets exactly its payload and its time relative to the first record; the loop then continues on what follows |
| NetworkDump.RunEncodedCapture | networkdump.py:114-129 | a supported capture of encoded records, optionally followed by a cut-off record header, runs exactly as the record-level fold from an empty table |
| NetworkDump.TruncatedPayloadFatal | networkdump.py:119-129 | a payload cut short by the end of the stream fails the run with EOF instead of ending it |
| NetworkDump.LengthMismatchFatal | networkdump.py:119-123 | a record header whose two lengths differ fails the run, even though EOF in the same read would not |
| Scenarios.HeaderOnlyCapture | networkdump.py:114-123 | a capture holding only a supported global header ends cleanly with no sessions, for any link type |
| Scenarios.PingScenario | networkdump.py:88-112 | a raw-IP "PING" from 10.0.0.5:4000 to 93.184.216.34:5002 creates one GLS session keyed (93.184.216.34, 5002), tagged client at time 0, and receives exactly "PING" |

## Left out

- Standard input: the stream is an in-memory byte sequence.
- Pcap.ReadExactLoop: the size each raw read returns is a parameter `grant(i)` per call, any positive number; a raw read that returns `None` (non-blocking input) is not modelled.
- Byte order of the capture's own headers: the source unpacks them in the host's native order; the model fixes little-endian.
- The packet cursor class (reader.py) is not part of this model. A read past the end, or a negative or oversized skip, is modelled as the opaque failure `ReaderFault`. No lemma claims what that class really does in those cases.
- IPv4.Decode: a header length below 5 words (a negative option skip) and an option skip past the datagram are reported as `ReaderFault`. The source leaves both to the cursor class, which is not part of this model.
- Session behaviour (session.py and glssession.py, including `handle_pkt_major` and the session constructors) is not part of this model. A session is a record of key, variant, ordinal and creation time, last direction and last time. The payload it receives is recorded in a trace, uninterpreted.
- The private-address test of Python's `ipaddress` library is a parameter `priv`. `Router.Rfc1918` (section 3 of RFC 1918) is used only in the concrete scenario; the library's wider special-purpose set is not claimed.
- Floating-point time: relative time is kept in integer microseconds, (sec − sec0)·10^6 + (usec − usec0). Seconds are exactly this value divided by 10^6; the model does not round.
- Pcap.RelTimeSign: the sign characterisation holds only when both microsecond fields are below 10^6. The source does not validate that range, and outside it no such statement holds.
- The dotted-quad string key is the pair (address, masked port), which has the same equality.
- Python `assert` statements are taken as enabled; running under `-O` would skip them and is not modelled.
- Exceptions raised inside a session's payload handling are not modelled.
