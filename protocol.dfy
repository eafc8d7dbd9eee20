/**
 * The master server's wire protocol over TCP: one connection carries one
 * packet, read in chunks until a read returns at least eight bytes or the peer
 * stops sending. A packet starts with a little-endian magic and version; a
 * registration adds two bytes of little-endian port, a query is answered with
 * the registry's response. Everything else is ignored.
 *
 * `Exchange` is the meaning of one connection as a function of the registry's
 * value; `MasterServer.HandlePacket` and `MasterServer.Await` are proved to
 * implement it on the `ServerList` object.
 */
module Protocol {
  import opened Wrappers
  import opened Utils
  import opened ServerEntry
  import opened Registry

  /** The TCP port the master listens on. */
  const PORT: int := 27017

  // ---------------------------------------------------------------------
  // Classifying one packet

  datatype Request =
    | TooShort                                 // fewer than PACKET_MIN_LEN bytes
    | ShortRegistration(version: Int32)        // server magic, but no room for a port
    | Registration(version: Int32, netPort: Int16)
    | Query(version: Int32)
    | Unrecognized(magic: Int32)

  /** What `handlePacket` makes of a packet, decided on its first ten bytes at most. */
  function Classify(packet: seq<Byte>): (q: Request)
    ensures q.TooShort? <==> |packet| < PACKET_MIN_LEN
    ensures q.Registration? ==> |packet| >= PACKET_SERVER_LEN
  {
    if |packet| < PACKET_MIN_LEN then TooShort
    else
      var magic := DecodeInt32(packet[0..4]);
      var version := DecodeInt32(packet[4..8]);
      if IsServerMagic(magic) then
        if |packet| < PACKET_SERVER_LEN then ShortRegistration(version)
        else Registration(version, DecodeInt16(packet[8..10]))
      else if IsClientMagic(magic) then Query(version)
      else Unrecognized(magic)
  }

  // ---------------------------------------------------------------------
  // Packets as the peers build them

  /** The two low bytes of a Java int, read back as a Java short. */
  function LowShort(p: Int32): (s: Int16)
    ensures s % 0x1_0000 == p % 0x1_0000
    ensures 0 <= p < 0x8000 ==> s == p
  {
    var u := p % 0x1_0000;
    if u < 0x8000 then u else u - 0x1_0000
  }

  /** A registration as a game server sends it: magic, version, then two bytes of its int port. */
  function ServerPing(version: Int32, port: Int32): seq<Byte> {
    EncodeInt32(OLD_SERVER_MAGIC) + EncodeInt32(version) + EncodeInt32(port)[..2]
  }

  /** A query: the client magic, then the client's version. */
  function ClientQuery(version: Int32): seq<Byte> {
    EncodeInt32(OLD_CLIENT_MAGIC) + EncodeInt32(version)
  }

  /** The 8-byte packet the pinger tool sends, with the renamed client magic. */
  function PingerPacket(version: Int32): seq<Byte> {
    EncodeInt32(NEW_CLIENT_MAGIC) + EncodeInt32(version)
  }

  /** Two bytes of an int in little-endian order are the short of its low half. */
  lemma LowShortBytes(p: Int32)
    ensures EncodeInt32(p)[..2] == EncodeInt16(LowShort(p))
  {
    var s := LowShort(p);
    EncodeInt32Bytes(p);
    EncodeInt16Bytes(s);
    var k := if p % 0x1_0000 < 0x8000 then p / 0x1_0000 else p / 0x1_0000 + 1;
    assert p == s + 0x1_0000 * k;
    LowBytesAgree(s, k);
  }

  /** Adding a multiple of 2^16 changes neither of the two low bytes. */
  lemma LowBytesAgree(s: int, k: int)
    ensures (s + 0x1_0000 * k) % 0x100 == s % 0x100
    ensures ((s + 0x1_0000 * k) / 0x100) % 0x100 == (s / 0x100) % 0x100
  {
    assert s + 0x1_0000 * k == s + 0x100 * (0x100 * k);
    assert (s + 0x1_0000 * k) / 0x100 == s / 0x100 + 0x100 * k;
  }

  /** The three header fields of any packet of at least eight bytes. */
  lemma HeaderFields(m: seq<Byte>, v: seq<Byte>, rest: seq<Byte>)
    requires |m| == 4 && |v| == 4
    ensures (m + v + rest)[0..4] == m && (m + v + rest)[4..8] == v && (m + v + rest)[8..] == rest
  {
  }

  /** A game server's ping registers it, with its port cut to a Java short. */
  lemma ServerPingRegisters(version: Int32, port: Int32)
    ensures |ServerPing(version, port)| == PACKET_SERVER_LEN
    ensures Classify(ServerPing(version, port)) == Registration(version, LowShort(port))
  {
    var p := ServerPing(version, port);
    HeaderFields(EncodeInt32(OLD_SERVER_MAGIC), EncodeInt32(version), EncodeInt32(port)[..2]);
    DecodeEncodeInt32(OLD_SERVER_MAGIC);
    DecodeEncodeInt32(version);
    LowShortBytes(port);
    assert p[8..10] == EncodeInt16(LowShort(port));
    DecodeEncodeInt16(LowShort(port));
  }

  /** A client's query is classified as a query for its version. */
  lemma ClientQueryIsQuery(version: Int32)
    ensures |ClientQuery(version)| == PACKET_CLIENT_LEN
    ensures Classify(ClientQuery(version)) == Query(version)
  {
    HeaderFields(EncodeInt32(OLD_CLIENT_MAGIC), EncodeInt32(version), []);
    DecodeEncodeInt32(OLD_CLIENT_MAGIC);
    DecodeEncodeInt32(version);
    MagicsExclusive(OLD_CLIENT_MAGIC);
  }

  /** Conversely, every registration starts with the bytes a server ping would carry. */
  lemma RegistrationHeader(packet: seq<Byte>)
    requires Classify(packet).Registration?
    ensures packet[..PACKET_SERVER_LEN] ==
      EncodeInt32(OLD_SERVER_MAGIC) + EncodeInt32(Classify(packet).version) + EncodeInt16(Classify(packet).netPort)
  {
    var q := Classify(packet);
    EncodeDecodeInt32(packet[0..4]);
    EncodeDecodeInt32(packet[4..8]);
    EncodeDecodeInt16(packet[8..10]);
    assert packet[..10] == packet[0..4] + packet[4..8] + packet[8..10];
  }

  /** Conversely, every query starts with the bytes of a client query. */
  lemma QueryHeader(packet: seq<Byte>)
    requires Classify(packet).Query?
    ensures packet[..PACKET_CLIENT_LEN] == ClientQuery(Classify(packet).version)
  {
    EncodeDecodeInt32(packet[0..4]);
    EncodeDecodeInt32(packet[4..8]);
    assert packet[..8] == packet[0..4] + packet[4..8];
  }

  /** Bytes after the fields a packet's kind uses change nothing. */
  lemma TrailingBytesIgnored(packet: seq<Byte>, extra: seq<Byte>)
    requires |packet| >= PACKET_MIN_LEN
    requires |packet| >= PACKET_SERVER_LEN || !IsServerMagic(DecodeInt32(packet[0..4]))
    ensures Classify(packet + extra) == Classify(packet)
  {
    var p := packet + extra;
    assert p[0..4] == packet[0..4] && p[4..8] == packet[4..8];
    if |packet| >= PACKET_SERVER_LEN {
      assert p[8..10] == packet[8..10];
    }
  }

  // ---------------------------------------------------------------------
  // One connection, on the registry's value

  /** The registry after a connection, and what was written back to the peer. */
  datatype Outcome = Outcome(registry: seq<Entry>, reply: Option<seq<Byte>>)

  /**
   * A connection from `from` carrying `packet`, handled at second `now`: a
   * registration upserts the peer, a query evicts and then answers; nothing
   * else changes anything or gets a reply.
   */
  function Exchange(es: seq<Entry>, from: Address, packet: seq<Byte>, now: int): Outcome {
    match Classify(packet)
    case Registration(v, port) => Outcome(Upsert(es, Entry(Identity(from, port, Some(v)), now), now), None)
    case Query(v) => Outcome(Survivors(es, now), Some(Response(Survivors(es, now), v)))
    case _ => Outcome(es, None)
  }

  /** The registry's invariant (one entry per identity, every entry versioned) survives any connection. */
  lemma ExchangeKeepsInvariant(es: seq<Entry>, from: Address, packet: seq<Byte>, now: int)
    requires Unique(es) && AllVersioned(es)
    ensures Unique(Exchange(es, from, packet, now).registry)
    ensures AllVersioned(Exchange(es, from, packet, now).registry)
  {
    match Classify(packet)
    case Registration(v, port) =>
      var e := Entry(Identity(from, port, Some(v)), now);
      UpsertExactlyOne(es, e, now);
      UpsertKeepsVersioned(es, e, now);
    case Query(v) =>
      SurvivorsKeepUnique(es, now);
      SurvivorsKeepVersioned(es, now);
    case _ =>
  }

  /** Only registrations and queries touch the registry, and only queries are answered. */
  lemma IgnoredPacketsChangeNothing(es: seq<Entry>, from: Address, packet: seq<Byte>, now: int)
    ensures Exchange(es, from, packet, now).reply.Some? <==> Classify(packet).Query?
    ensures !Classify(packet).Registration? && !Classify(packet).Query? ==>
      Exchange(es, from, packet, now) == Outcome(es, None)
  {
  }

  /** After a registration the peer's identity is present exactly once, stamped `now`. */
  lemma RegistrationRecorded(es: seq<Entry>, from: Address, packet: seq<Byte>, now: int)
    requires Unique(es) && Classify(packet).Registration?
    ensures var id := Identity(from, Classify(packet).netPort, Some(Classify(packet).version));
      var r := Exchange(es, from, packet, now).registry;
      CountId(r, id) == 1 && Entry(id, now) in r
  {
    var id := Identity(from, Classify(packet).netPort, Some(Classify(packet).version));
    var e := Entry(id, now);
    var r := Exchange(es, from, packet, now).registry;
    UpsertExactlyOne(es, e, now);
    if Registered(es, id) {
      var i :| 0 <= i < |es| && es[i].id == id;
      assert r[i] == e;
    } else {
      assert r[|es|] == e;
    }
  }

  /**
   * A query is answered with the count of entries that survive eviction, then
   * the endpoints of exactly those survivors of the queried version, in order:
   * every endpoint reported belongs to a live entry of that version.
   */
  lemma QueryShowsOnlyLive(es: seq<Entry>, from: Address, packet: seq<Byte>, now: int)
    requires AllIPv4(es) && Classify(packet).Query?
    ensures var v := Classify(packet).version;
      var reply := Exchange(es, from, packet, now).reply;
      reply.Some? && |reply.value| == 4 + 6 * |Matching(Survivors(es, now), v)| &&
      DecodeInt32(reply.value[..4]) == SizeAsInt32(|Survivors(es, now)|) &&
      ParseRecords(reply.value[4..]) == Endpoints(Matching(Survivors(es, now), v))
    ensures var v := Classify(packet).version;
      forall x :: x in Matching(Survivors(es, now), v) <==> x in es && now - x.time <= TTL && x.id.version == Some(v)
  {
    var v := Classify(packet).version;
    var live := Survivors(es, now);
    SurvivorsExact(es, now);
    MatchingExact(live, v);
    assert AllIPv4(live);
    ResponseHeader(live, v);
    ResponseLength(live, v);
  }

  /** The pinger's packet carries the server magic in eight bytes, so the master ignores it. */
  lemma PingerPacketIgnored(es: seq<Entry>, from: Address, version: Int32, now: int)
    ensures Classify(PingerPacket(version)) == ShortRegistration(version)
    ensures Exchange(es, from, PingerPacket(version), now) == Outcome(es, None)
  {
    HeaderFields(EncodeInt32(NEW_CLIENT_MAGIC), EncodeInt32(version), []);
    DecodeEncodeInt32(NEW_CLIENT_MAGIC);
    DecodeEncodeInt32(version);
  }

  // ---------------------------------------------------------------------
  // Worked exchanges

  /** A game server's ping, as a whole connection: the server is upserted, nothing is sent. */
  lemma ServerPingExchange(es: seq<Entry>, from: Address, version: Int32, port: Int16, now: int)
    requires port >= 0
    ensures Exchange(es, from, ServerPing(version, port), now) ==
      Outcome(Upsert(es, Entry(Identity(from, port, Some(version)), now), now), None)
  {
    ServerPingRegisters(version, port);
  }

  /** A client query, as a whole connection: eviction, then the response for its version. */
  lemma ClientQueryExchange(es: seq<Entry>, from: Address, version: Int32, now: int)
    ensures Exchange(es, from, ClientQuery(version), now) ==
      Outcome(Survivors(es, now), Some(Response(Survivors(es, now), version)))
  {
    ClientQueryIsQuery(version);
  }

  /** A list of one live IPv4 server, queried for its version: the count is 1 and the server is listed. */
  lemma QueryOneServer(e: Entry, from: Address, now: int)
    requires |e.id.address| == 4 && Live(e, now) && e.id.version.Some?
    ensures var reply := Exchange([e], from, ClientQuery(e.id.version.value), now).reply;
      reply.Some? && DecodeInt32(reply.value[..4]) == 1 &&
      ParseRecords(reply.value[4..]) == [EndpointOf(e)]
  {
    var v := e.id.version.value;
    assert [e][..0] == [];
    assert Survivors([e], now) == [e];
    ClientQueryExchange([e], from, v, now);
    assert Matching([e], v) == [e];
    ResponseHeader([e], v);
    ResponseLength([e], v);
  }

  /** A registration, then a query for its version within TTL seconds: one server, decoded back. */
  lemma RegisterThenQuery(server: Address, port: Int16, version: Int32, client: Address, now: int, later: int)
    requires |server| == 4 && port >= 0 && now <= later <= now + TTL
    ensures var reg := Exchange([], server, ServerPing(version, port), now).registry;
      var reply := Exchange(reg, client, ClientQuery(version), later).reply;
      reply.Some? && DecodeInt32(reply.value[..4]) == 1 &&
      ParseRecords(reply.value[4..]) == [Endpoint(server, port)]
  {
    var e := Entry(Identity(server, port, Some(version)), now);
    ServerPingExchange([], server, version, port, now);
    assert Upsert([], e, now) == [e];
    QueryOneServer(e, client, later);
  }

  /**
   * Two servers of different identities ping in turn: the list holds both.
   * The order is the model's insertion order (a new entry goes last).
   */
  lemma TwoServersRegistered(a: Address, pa: Int16, va: Int32, b: Address, pb: Int16, vb: Int32, now: int)
    requires pa >= 0 && pb >= 0 && Identity(a, pa, Some(va)) != Identity(b, pb, Some(vb))
    ensures var r1 := Exchange([], a, ServerPing(va, pa), now).registry;
      Exchange(r1, b, ServerPing(vb, pb), now).registry ==
        [Entry(Identity(a, pa, Some(va)), now), Entry(Identity(b, pb, Some(vb)), now)]
  {
    var ea := Entry(Identity(a, pa, Some(va)), now);
    var eb := Entry(Identity(b, pb, Some(vb)), now);
    ServerPingExchange([], a, va, pa, now);
    assert Upsert([], ea, now) == [ea];
    ServerPingExchange([ea], b, vb, pb, now);
    assert !Registered([ea], eb.id);
  }

  /**
   * The list the two pings above leave, queried for the first server's
   * version: only that server is listed, but the count in front is 2, the size
   * of the whole list.
   */
  lemma CountIsWholeList(ea: Entry, eb: Entry, from: Address, now: int)
    requires |ea.id.address| == 4 && |eb.id.address| == 4
    requires Live(ea, now) && Live(eb, now) && ea.id.version.Some? && eb.id.version != ea.id.version
    ensures var reply := Exchange([ea, eb], from, ClientQuery(ea.id.version.value), now).reply;
      reply.Some? && DecodeInt32(reply.value[..4]) == 2 &&
      ParseRecords(reply.value[4..]) == [EndpointOf(ea)]
  {
    var v := ea.id.version.value;
    assert [ea, eb][..1] == [ea] && [ea][..0] == [];
    assert Survivors([ea], now) == [ea];
    assert Survivors([ea, eb], now) == [ea, eb];
    ClientQueryExchange([ea, eb], from, v, now);
    assert Matching([ea], v) == [ea];
    assert Matching([ea, eb], v) == [ea];
    ResponseHeader([ea, eb], v);
    ResponseLength([ea, eb], v);
  }

  /** A query more than TTL seconds after the only registration evicts it and reports nothing. */
  lemma QueryAfterTimeout(server: Address, port: Int16, version: Int32, client: Address, now: int, later: int)
    requires port >= 0 && later > now + TTL
    ensures var reg := Exchange([], server, ServerPing(version, port), now).registry;
      var out := Exchange(reg, client, ClientQuery(version), later);
      out.registry == [] && out.reply.Some? &&
      DecodeInt32(out.reply.value[..4]) == 0 && out.reply.value[4..] == []
  {
    var e := Entry(Identity(server, port, Some(version)), now);
    ServerPingExchange([], server, version, port, now);
    assert Upsert([], e, now) == [e];
    ClientQueryExchange([e], client, version, later);
    assert [e][..0] == [];
    assert Survivors([e], later) == [];
    ResponseHeader([], version);
  }

  /** Four bytes of garbage: no reply, and the registry is as it was. */
  lemma GarbageIgnored(es: seq<Entry>, from: Address, now: int)
    ensures Exchange(es, from, [0xDE, 0xAD, 0xBE, 0xEF], now) == Outcome(es, None)
  {
  }

  // ---------------------------------------------------------------------
  // Reading one packet off the connection

  /** The bytes of successive reads, in order. */
  function Concat(chunks: seq<seq<Byte>>): seq<Byte> {
    if chunks == [] then [] else Concat(chunks[..|chunks| - 1]) + chunks[|chunks| - 1]
  }

  /**
   * Why the read loop stopped after `n` reads, given the successive results
   * `chunks` of `read` (an empty chunk is a read that returned no bytes, the
   * end of `chunks` the end of the stream): every read kept returned bytes,
   * only the last of them may have returned PACKET_MIN_LEN or more, and the
   * loop stopped because that one did, or the next read returned nothing.
   */
  predicate Stopped(chunks: seq<seq<Byte>>, n: nat) {
    n <= |chunks| &&
    (forall m :: 0 <= m < n ==> |chunks[m]| > 0) &&
    (forall m :: 0 <= m < n - 1 ==> |chunks[m]| < PACKET_MIN_LEN) &&
    (n == |chunks| || chunks[n] == [] || (n > 0 && |chunks[n - 1]| >= PACKET_MIN_LEN))
  }

  /** The number of reads whose bytes make up the packet. */
  function ReadCount(chunks: seq<seq<Byte>>): nat {
    if chunks == [] || chunks[0] == [] then 0
    else if |chunks[0]| >= PACKET_MIN_LEN then 1
    else 1 + ReadCount(chunks[1..])
  }

  /** The packet `await` hands to `handlePacket`. */
  function Received(chunks: seq<seq<Byte>>): seq<Byte>
    requires ReadCount(chunks) <= |chunks|
  {
    Concat(chunks[..ReadCount(chunks)])
  }

  /** The loop stops after exactly `ReadCount(chunks)` reads, and after no other number. */
  lemma {:induction false} StoppedIsReadCount(chunks: seq<seq<Byte>>, n: nat)
    ensures ReadCount(chunks) <= |chunks|
    ensures Stopped(chunks, n) <==> n == ReadCount(chunks)
  {
    if chunks == [] || chunks[0] == [] {
      assert Stopped(chunks, n) ==> n == 0;
    } else if |chunks[0]| >= PACKET_MIN_LEN {
      assert Stopped(chunks, n) ==> n == 1;
    } else {
      var tail := chunks[1..];
      StoppedIsReadCount(tail, if n > 0 then n - 1 else 0);
      if n == 0 {
        assert !Stopped(chunks, 0);
      } else if n <= |chunks| {
        StoppedShift(chunks, n);
      }
    }
  }

  /** After a short first read, stopping after `n` reads is stopping after `n - 1` of the rest. */
  lemma StoppedShift(chunks: seq<seq<Byte>>, n: nat)
    requires 0 < n <= |chunks| && 0 < |chunks[0]| < PACKET_MIN_LEN
    ensures Stopped(chunks, n) <==> Stopped(chunks[1..], n - 1)
  {
    var tail := chunks[1..];
    assert forall m :: 0 <= m < |tail| ==> tail[m] == chunks[m + 1];
    if Stopped(tail, n - 1) {
      forall m | 0 <= m < n ensures |chunks[m]| > 0 {
        if m > 0 { assert chunks[m] == tail[m - 1]; }
      }
      forall m | 0 <= m < n - 1 ensures |chunks[m]| < PACKET_MIN_LEN {
        if m > 0 { assert chunks[m] == tail[m - 1]; }
      }
    }
    if Stopped(chunks, n) {
      forall m | 0 <= m < n - 1 ensures |tail[m]| > 0 {
        assert tail[m] == chunks[m + 1];
      }
      forall m | 0 <= m < n - 2 ensures |tail[m]| < PACKET_MIN_LEN {
        assert tail[m] == chunks[m + 1];
      }
    }
  }

  /**
   * The read loop of `await`: append each read's bytes to the packet; stop on
   * a read that returns nothing, or after one that returns PACKET_MIN_LEN
   * bytes or more.
   */
  method ReadPacket(chunks: seq<seq<Byte>>) returns (out: seq<Byte>, taken: nat)
    ensures Stopped(chunks, taken)
    ensures out == Concat(chunks[..taken])
  {
    out := [];
    taken := 0;
    while taken < |chunks| && |chunks[taken]| > 0
      invariant taken <= |chunks|
      invariant forall m :: 0 <= m < taken ==> 0 < |chunks[m]| < PACKET_MIN_LEN
      invariant out == Concat(chunks[..taken])
    {
      var bytes := chunks[taken];
      ConcatStep(chunks, taken);
      out := out + bytes;
      taken := taken + 1;
      if |bytes| >= PACKET_MIN_LEN {
        break;
      }
    }
  }

  lemma ConcatStep(chunks: seq<seq<Byte>>, k: nat)
    requires k < |chunks|
    ensures Concat(chunks[..k + 1]) == Concat(chunks[..k]) + chunks[k]
  {
    assert chunks[..k + 1][..k] == chunks[..k];
  }

  // ---------------------------------------------------------------------
  // The server object

  class MasterServer {
    const serverList: ServerList

    /** The registry's invariant; every server on it has a version, so `getVersion` never fails. */
    ghost predicate Valid()
      reads this, serverList, serverList.entries
    {
      serverList.Valid() && AllVersioned(serverList.Snapshot())
    }

    /** The listening socket is not modelled; the registry starts empty. */
    constructor ()
      ensures Valid() && fresh(serverList) && serverList.Snapshot() == []
    {
      serverList := new ServerList();
    }

    /** Handles one packet from peer address `from` at second `now`; `sent` is what is written back. */
    method HandlePacket(from: Address, packetData: seq<Byte>, now: int) returns (sent: Option<seq<Byte>>)
      requires Valid()
      modifies serverList, serverList.entries
      ensures Valid()
      ensures Outcome(serverList.Snapshot(), sent) == Exchange(old(serverList.Snapshot()), from, packetData, now)
    {
      ghost var s0 := serverList.Snapshot();
      sent := None;
      if |packetData| < PACKET_MIN_LEN {
        return;
      }
      var blob := packetData;
      var magicBE := DecodeInt32(blob[0..4]);
      var versionBE := DecodeInt32(blob[4..8]);
      if IsServerMagic(magicBE) {
        if |packetData| < PACKET_SERVER_LEN {
          return;
        }
        var portBE := DecodeInt16(blob[8..10]);
        var server := new Server(from, portBE, versionBE, now);
        serverList.AddServer(server, now);
        UpsertKeepsVersioned(s0, Entry(Identity(from, portBE, Some(versionBE)), now), now);
        assert Classify(packetData) == Registration(versionBE, portBE);
      } else if IsClientMagic(magicBE) {
        serverList.RemoveInactive(now);
        SurvivorsKeepVersioned(s0, now);
        ghost var live := serverList.Snapshot();
        var toSend := serverList.CreateResponse(versionBE);
        sent := Some(toSend);
        assert serverList.Snapshot() == live;
        assert Classify(packetData) == Query(versionBE);
        assert Exchange(s0, from, packetData, now) == Outcome(live, Some(Response(live, versionBE)));
      }
    }

    /** One accepted connection: read the packet from `chunks`, then handle it. */
    method Await(from: Address, chunks: seq<seq<Byte>>, now: int) returns (sent: Option<seq<Byte>>)
      requires Valid()
      modifies serverList, serverList.entries
      ensures Valid()
      ensures ReadCount(chunks) <= |chunks|
      ensures Outcome(serverList.Snapshot(), sent) == Exchange(old(serverList.Snapshot()), from, Received(chunks), now)
    {
      var packet, taken := ReadPacket(chunks);
      StoppedIsReadCount(chunks, taken);
      sent := HandlePacket(from, packet, now);
    }
  }
}
