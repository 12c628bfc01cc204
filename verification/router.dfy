/** The session router of handle_packet: picks the server endpoint by a
    private-address test, keys the session on the server address and the
    server port with its lowest bit cleared, creates the session on first
    sight (the GLS variant for server port 5002, the generic variant
    otherwise) and tags it with the packet's direction and time.

    The private-address test is a parameter: the library predicate the
    source uses is not part of this model. `Rfc1918` is one instance. */
module Router {
  import opened Bytes

  const GlsPort: u16 := 5002

  /** The address blocks of section 3 of RFC 1918. */
  predicate Rfc1918(a: u32) {
    a / 0x100_0000 == 10 || a / 0x10_0000 == 0xAC1 || a / 0x1_0000 == 0xC0A8
  }

  datatype Endpoint = Endpoint(addr: u32, port: u16)

  /** Who sent the packet, as the session sees it. */
  datatype Direction = Client | Server

  /** The session key: server address and server port with bit 0 cleared. */
  datatype Key = Key(addr: u32, port: u16)

  /** The two session variants; only the generic one records its ordinal
      and creation time. */
  datatype Variant = Gls | Generic(ordinal: nat, created: int)

  /** One session: its key, its variant, and the direction and time of the
      packet last handed to it. */
  datatype Session = Session(key: Key, variant: Variant, source: Direction, time: int)

  /** One hand-off of a UDP payload to a session. */
  datatype Delivery = Delivery(key: Key, source: Direction, time: int, payload: seq<byte>)

  /** The session table and every payload handed off so far, in order. */
  datatype State = State(table: map<Key, Session>, trace: seq<Delivery>)

  const Empty := State(map[], [])

  /** `svrport & ~1`: the port with its lowest bit cleared. */
  function MaskPort(p: u16): (m: u16)
    ensures m % 2 == 0 && m <= p <= m + 1
  {
    p - p % 2
  }

  function ServerEndpoint(priv: u32 -> bool, src: Endpoint, dst: Endpoint): Endpoint {
    if priv(src.addr) then dst else src
  }

  function KeyOf(e: Endpoint): Key {
    Key(e.addr, MaskPort(e.port))
  }

  function DirectionOf(priv: u32 -> bool, src: Endpoint): Direction {
    if priv(src.addr) then Client else Server
  }

  /** The session created for a key not yet in the table. */
  function NewSession(key: Key, serverPort: u16, count: nat, time: int): (s: Session)
    ensures s.key == key
    ensures s.variant.Gls? <==> serverPort == GlsPort
    ensures s.variant.Generic? ==> s.variant == Generic(count, time)
  {
    var variant := if serverPort == GlsPort then Gls else Generic(count, time);
    Session(key, variant, Client, time)
  }

  /** Routes one decoded packet: looks up or creates its session, sets the
      session's direction and time, and hands it the payload. */
  function Route(priv: u32 -> bool, st: State, src: Endpoint, dst: Endpoint,
                 time: int, payload: seq<byte>): (st': State)
    ensures var key := KeyOf(ServerEndpoint(priv, src, dst));
            && st'.table.Keys == st.table.Keys + {key}
            && (forall k :: k in st.table && k != key ==> st'.table[k] == st.table[k])
            && st'.trace == st.trace + [Delivery(key, DirectionOf(priv, src), time, payload)]
  {
    var server := ServerEndpoint(priv, src, dst);
    var key := KeyOf(server);
    var session := if key in st.table then st.table[key]
                   else NewSession(key, server.port, |st.table|, time);
    var dir := DirectionOf(priv, src);
    State(st.table[key := session.(source := dir, time := time)],
          st.trace + [Delivery(key, dir, time, payload)])
  }

  /** The server endpoint is the destination exactly when the source is
      private; swapping a private and a public endpoint flips the direction
      and keeps the key on the public side. */
  lemma DirectionFlip(priv: u32 -> bool, a: Endpoint, b: Endpoint)
    requires priv(a.addr) && !priv(b.addr)
    ensures KeyOf(ServerEndpoint(priv, a, b)) == KeyOf(b)
    ensures KeyOf(ServerEndpoint(priv, b, a)) == KeyOf(b)
    ensures DirectionOf(priv, a) == Client && DirectionOf(priv, b) == Server
  {
  }

  /** Two ports share a key exactly when they differ only in bit 0. */
  lemma MaskPortShared(p: u16, q: u16)
    ensures MaskPort(p) == MaskPort(q) <==> p / 2 == q / 2
  {
  }

  /** A packet for a key already in the table changes only that session's
      direction and time; its variant, and every other session, stay. */
  lemma RouteExistingKey(priv: u32 -> bool, st: State, src: Endpoint, dst: Endpoint,
                         time: int, payload: seq<byte>)
    requires KeyOf(ServerEndpoint(priv, src, dst)) in st.table
    ensures var key := KeyOf(ServerEndpoint(priv, src, dst));
            var st' := Route(priv, st, src, dst, time, payload);
            st'.table == st.table[key := st.table[key].(source := DirectionOf(priv, src), time := time)]
  {
  }

  /** A packet for a new key adds exactly one session: GLS iff the
      unmasked server port is 5002, otherwise generic with the table's old
      size as ordinal and the packet's time as creation time. */
  lemma RouteNewKey(priv: u32 -> bool, st: State, src: Endpoint, dst: Endpoint,
                    time: int, payload: seq<byte>)
    requires KeyOf(ServerEndpoint(priv, src, dst)) !in st.table
    ensures var server := ServerEndpoint(priv, src, dst);
            var key := KeyOf(server);
            var st' := Route(priv, st, src, dst, time, payload);
            && |st'.table| == |st.table| + 1
            && st'.table[key].key == key
            && (st'.table[key].variant.Gls? <==> server.port == GlsPort)
            && (server.port != GlsPort ==> st'.table[key].variant == Generic(|st.table|, time))
            && (st'.table[key].source == Client <==> priv(src.addr))
            && st'.table[key].time == time
  {
  }

  /** What holds of every table the router builds: sessions sit under their
      own key, a GLS session's key port is 5002, and the generic ordinals
      are distinct and below the table size. Every delivery went to a
      session in the table. */
  ghost predicate Invariant(st: State) {
    && TableInvariant(st.table)
    && (forall i :: 0 <= i < |st.trace| ==> st.trace[i].key in st.table)
  }

  ghost predicate SelfKeyed(t: map<Key, Session>) {
    forall k :: k in t ==> t[k].key == k
  }

  ghost predicate GlsOnGlsPort(t: map<Key, Session>) {
    forall k :: k in t && t[k].variant.Gls? ==> k.port == GlsPort
  }

  ghost predicate OrdinalsBelowSize(t: map<Key, Session>) {
    forall k :: k in t && t[k].variant.Generic? ==> t[k].variant.ordinal < |t|
  }

  ghost predicate OrdinalsDistinct(t: map<Key, Session>) {
    forall k1, k2 ::
      k1 in t && k2 in t && k1 != k2 && t[k1].variant.Generic? && t[k2].variant.Generic?
      ==> t[k1].variant.ordinal != t[k2].variant.ordinal
  }

  lemma EmptyInvariant()
    ensures Invariant(Empty)
  {
  }

  ghost predicate TableInvariant(t: map<Key, Session>) {
    SelfKeyed(t) && GlsOnGlsPort(t) && OrdinalsBelowSize(t) && OrdinalsDistinct(t)
  }

  /** Re-tagging an existing session, variant unchanged, keeps the table
      invariant. */
  lemma RetagKeepsInvariant(t: map<Key, Session>, key: Key, s: Session)
    requires TableInvariant(t)
    requires key in t && s.key == key && s.variant == t[key].variant
    ensures TableInvariant(t[key := s])
  {
    var t' := t[key := s];
    assert t'.Keys == t.Keys;
    assert |t'| == |t|;
    assert forall k :: k in t' ==> t'[k].variant == t[k].variant;
  }

  /** Inserting a new session keeps the table invariant when its ordinal,
      if generic, is the old table size. */
  lemma InsertKeepsInvariant(t: map<Key, Session>, key: Key, s: Session)
    requires TableInvariant(t)
    requires key !in t && s.key == key
    requires s.variant.Gls? ==> key.port == GlsPort
    requires s.variant.Generic? ==> s.variant.ordinal == |t|
    ensures TableInvariant(t[key := s])
  {
    var t' := t[key := s];
    assert |t'| == |t| + 1;
    assert OrdinalsDistinct(t') by {
      forall k1, k2 | k1 in t' && k2 in t' && k1 != k2 && t'[k1].variant.Generic? && t'[k2].variant.Generic?
        ensures t'[k1].variant.ordinal != t'[k2].variant.ordinal
      {
        if k1 == key {
          assert t'[k2].variant.ordinal < |t|;
        } else if k2 == key {
          assert t'[k1].variant.ordinal < |t|;
        }
      }
    }
  }

  /** Routing keeps the invariant: an existing session keeps its variant,
      and a new generic session takes the one ordinal no other session has,
      the old table size. */
  lemma RoutePreservesInvariant(priv: u32 -> bool, st: State, src: Endpoint, dst: Endpoint,
                                time: int, payload: seq<byte>)
    requires Invariant(st)
    ensures Invariant(Route(priv, st, src, dst, time, payload))
  {
    var server := ServerEndpoint(priv, src, dst);
    var key := KeyOf(server);
    var dir := DirectionOf(priv, src);
    var st' := Route(priv, st, src, dst, time, payload);
    if key in st.table {
      var s := st.table[key].(source := dir, time := time);
      assert st'.table == st.table[key := s];
      RetagKeepsInvariant(st.table, key, s);
    } else {
      var s := NewSession(key, server.port, |st.table|, time).(source := dir, time := time);
      assert st'.table == st.table[key := s];
      InsertKeepsInvariant(st.table, key, s);
    }
    assert st'.trace == st.trace + [Delivery(key, dir, time, payload)];
  }

  /** The variant is fixed by the first packet of a key: a first packet to
      server port 5003 creates a generic session under the key of port
      5002, and a later packet to port 5002 joins that generic session. */
  lemma FirstPacketFixesVariant(priv: u32 -> bool, server: Endpoint, client: Endpoint, t1: int, t2: int,
                                p1: seq<byte>, p2: seq<byte>)
    requires !priv(server.addr)
    requires server.port == GlsPort + 1
    ensures var st1 := Route(priv, Empty, server, client, t1, p1);
            var st2 := Route(priv, st1, server.(port := GlsPort), client, t2, p2);
            && st2.table.Keys == {Key(server.addr, GlsPort)}
            && st2.table[Key(server.addr, GlsPort)].variant == Generic(0, t1)
  {
  }
}
