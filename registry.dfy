/**
 * The registry of live game servers: upsert with refresh, eviction by age,
 * and the binary response to a client query. The first half gives the meaning
 * of each operation as functions on the registry's value (a sequence of
 * entries in storage order) and proves their laws; the class `ServerList`
 * then implements them over mutable `Server` objects.
 */
module Registry {
  import opened Wrappers
  import opened Utils
  import opened ServerEntry

  /** Entries older than this many seconds are evicted. */
  const TTL: int := 60

  // ---------------------------------------------------------------------
  // The registry's value

  /** At most one entry per identity. */
  predicate Unique(es: seq<Entry>) {
    forall i, j :: 0 <= i < j < |es| ==> es[i].id != es[j].id
  }

  predicate Registered(es: seq<Entry>, id: Identity) {
    exists i :: 0 <= i < |es| && es[i].id == id
  }

  /** How many entries carry identity `id`. */
  function CountId(es: seq<Entry>, id: Identity): nat {
    if es == [] then 0
    else CountId(es[..|es| - 1], id) + (if es[|es| - 1].id == id then 1 else 0)
  }

  /** Every entry with identity `id` gets time `now`; all else stays. */
  function Refresh(es: seq<Entry>, id: Identity, now: int): seq<Entry> {
    seq(|es|, i requires 0 <= i < |es| => if es[i].id == id then es[i].(time := now) else es[i])
  }

  /** Registration: refresh a known identity, otherwise append the new entry. */
  function Upsert(es: seq<Entry>, e: Entry, now: int): seq<Entry> {
    if Registered(es, e.id) then Refresh(es, e.id, now) else es + [e]
  }

  predicate Live(e: Entry, now: int) {
    now - e.time <= TTL
  }

  /** The entries that eviction at time `now` keeps, in order. */
  function Survivors(es: seq<Entry>, now: int): seq<Entry> {
    if es == [] then []
    else Survivors(es[..|es| - 1], now) + (if Live(es[|es| - 1], now) then [es[|es| - 1]] else [])
  }

  /** The entries a query for version `v` reports, in order. */
  function Matching(es: seq<Entry>, v: Int32): seq<Entry> {
    if es == [] then []
    else Matching(es[..|es| - 1], v) + (if es[|es| - 1].id.version == Some(v) then [es[|es| - 1]] else [])
  }

  predicate AllVersioned(es: seq<Entry>) {
    forall i :: 0 <= i < |es| ==> es[i].id.version.Some?
  }

  predicate AllIPv4(es: seq<Entry>) {
    forall i :: 0 <= i < |es| ==> |es[i].id.address| == 4
  }

  // ---------------------------------------------------------------------
  // The query response

  /** A Java collection's size() as an int: it saturates at Integer.MAX_VALUE. */
  function SizeAsInt32(n: nat): (r: Int32)
    ensures 0 <= r <= n
    ensures n < 0x8000_0000 ==> r == n
  {
    if n < 0x8000_0000 then n else 0x7FFF_FFFF
  }

  /** One server in a response: its address with each 4-byte group flipped, then its port LE. */
  function Record(id: Identity): seq<Byte> {
    FlipQuads(id.address) + EncodeInt16(id.netPort)
  }

  function Records(es: seq<Entry>, v: Int32): seq<Byte> {
    if es == [] then []
    else Records(es[..|es| - 1], v) + (if es[|es| - 1].id.version == Some(v) then Record(es[|es| - 1].id) else [])
  }

  /** The whole response: the LE count of ALL entries, then the records of the matching ones. */
  function Response(es: seq<Entry>, v: Int32): seq<Byte> {
    EncodeInt32(SizeAsInt32(|es|)) + Records(es, v)
  }

  /** An address and port as a client reads them back from a response. */
  datatype Endpoint = Endpoint(address: seq<Byte>, port: Int16)

  function EndpointOf(e: Entry): Endpoint {
    Endpoint(e.id.address, e.id.netPort)
  }

  function Endpoints(es: seq<Entry>): (r: seq<Endpoint>)
    ensures |r| == |es|
    ensures forall i :: 0 <= i < |es| ==> r[i] == EndpointOf(es[i])
  {
    if es == [] then [] else Endpoints(es[..|es| - 1]) + [EndpointOf(es[|es| - 1])]
  }

  /** A client's reading of IPv4 records: 6 bytes each, the address flipped back. */
  function ParseRecords(b: seq<Byte>): seq<Endpoint>
    decreases |b|
  {
    if |b| < 6 then [] else [Endpoint(FlipQuads(b[..4]), DecodeInt16(b[4..6]))] + ParseRecords(b[6..])
  }

  // ---------------------------------------------------------------------
  // Laws of upsert

  lemma RefreshKeepsIds(es: seq<Entry>, id: Identity, now: int)
    ensures |Refresh(es, id, now)| == |es|
    ensures forall i :: 0 <= i < |es| ==> Refresh(es, id, now)[i].id == es[i].id
  {
  }

  lemma {:induction false} CountIdUnique(es: seq<Entry>, id: Identity)
    requires Unique(es)
    ensures CountId(es, id) == if Registered(es, id) then 1 else 0
  {
    if es != [] {
      var pre := es[..|es| - 1];
      assert Unique(pre);
      CountIdUnique(pre, id);
      if es[|es| - 1].id == id {
        assert !Registered(pre, id);
      } else {
        assert Registered(es, id) == Registered(pre, id) by {
          if Registered(es, id) {
            var i :| 0 <= i < |es| && es[i].id == id;
            assert i < |pre| && pre[i].id == id;
          }
        }
      }
    }
  }

  /**
   * Upsert keeps at most one entry per identity, leaves exactly one with the
   * new entry's identity, grows the registry only for an unknown identity, and
   * touches no entry of another identity.
   */
  lemma UpsertExactlyOne(es: seq<Entry>, e: Entry, now: int)
    requires Unique(es)
    ensures Unique(Upsert(es, e, now))
    ensures CountId(Upsert(es, e, now), e.id) == 1
    ensures |Upsert(es, e, now)| == if Registered(es, e.id) then |es| else |es| + 1
    ensures forall i :: 0 <= i < |es| && es[i].id != e.id ==> Upsert(es, e, now)[i] == es[i]
    ensures Registered(es, e.id) ==> forall i :: 0 <= i < |es| && es[i].id == e.id ==> Upsert(es, e, now)[i].time == now
    ensures !Registered(es, e.id) ==> Upsert(es, e, now)[|es|] == e
  {
    var r := Upsert(es, e, now);
    RefreshKeepsIds(es, e.id, now);
    assert Registered(r, e.id) by {
      if Registered(es, e.id) {
        var i :| 0 <= i < |es| && es[i].id == e.id;
        assert r[i].id == e.id;
      } else {
        assert r[|es|] == e;
      }
    }
    CountIdUnique(r, e.id);
  }

  /** Registering a versioned entry keeps every entry versioned. */
  lemma UpsertKeepsVersioned(es: seq<Entry>, e: Entry, now: int)
    requires AllVersioned(es) && e.id.version.Some?
    ensures AllVersioned(Upsert(es, e, now))
  {
    if Registered(es, e.id) {
      RefreshKeepsIds(es, e.id, now);
    }
  }

  /**
   * Registering one identity twice leaves one entry for it, stamped with the
   * second call's time, and the second call does not change the size.
   */
  lemma UpsertTwice(es: seq<Entry>, e1: Entry, e2: Entry, t1: int, t2: int)
    requires Unique(es) && e1.id == e2.id
    ensures |Upsert(Upsert(es, e1, t1), e2, t2)| == |Upsert(es, e1, t1)|
    ensures CountId(Upsert(Upsert(es, e1, t1), e2, t2), e1.id) == 1
    ensures forall i :: 0 <= i < |Upsert(es, e1, t1)| && Upsert(es, e1, t1)[i].id == e1.id ==>
              Upsert(Upsert(es, e1, t1), e2, t2)[i].time == t2
  {
    var r1 := Upsert(es, e1, t1);
    UpsertExactlyOne(es, e1, t1);
    assert Registered(r1, e1.id) by {
      if !Registered(es, e1.id) {
        assert r1[|es|].id == e1.id;
      } else {
        var i :| 0 <= i < |es| && es[i].id == e1.id;
        RefreshKeepsIds(es, e1.id, t1);
        assert r1[i].id == e1.id;
      }
    }
    UpsertExactlyOne(r1, e2, t2);
  }

  // ---------------------------------------------------------------------
  // Laws of eviction

  /** Eviction keeps exactly the entries aged at most TTL seconds, unchanged. */
  lemma {:induction false} SurvivorsExact(es: seq<Entry>, now: int)
    ensures forall x :: x in Survivors(es, now) <==> x in es && now - x.time <= TTL
  {
    if es != [] {
      var pre := es[..|es| - 1];
      SurvivorsExact(pre, now);
      assert es == pre + [es[|es| - 1]];
    }
  }

  lemma {:induction false} SurvivorsShrink(es: seq<Entry>, now: int)
    ensures |Survivors(es, now)| <= |es|
  {
    if es != [] {
      SurvivorsShrink(es[..|es| - 1], now);
    }
  }

  lemma {:induction false} SurvivorsIdempotent(es: seq<Entry>, now: int)
    ensures Survivors(Survivors(es, now), now) == Survivors(es, now)
  {
    if es != [] {
      var pre := es[..|es| - 1];
      var s := Survivors(es, now);
      SurvivorsIdempotent(pre, now);
      if Live(es[|es| - 1], now) {
        assert s == Survivors(pre, now) + [es[|es| - 1]];
        assert s[..|s| - 1] == Survivors(pre, now);
        assert s[|s| - 1] == es[|es| - 1];
        assert Survivors(s, now) == Survivors(s[..|s| - 1], now) + [s[|s| - 1]];
      } else {
        assert s == Survivors(pre, now);
      }
    }
  }

  lemma {:induction false} SurvivorsKeepUnique(es: seq<Entry>, now: int)
    requires Unique(es)
    ensures Unique(Survivors(es, now))
  {
    if es != [] {
      var pre := es[..|es| - 1];
      var last := es[|es| - 1];
      assert Unique(pre);
      SurvivorsKeepUnique(pre, now);
      SurvivorsExact(pre, now);
      var sp := Survivors(pre, now);
      forall x | x in sp ensures x.id != last.id {
        var k :| 0 <= k < |pre| && pre[k] == x;
        assert es[k] == x;
      }
    }
  }

  lemma {:induction false} SurvivorsKeepVersioned(es: seq<Entry>, now: int)
    requires AllVersioned(es)
    ensures AllVersioned(Survivors(es, now))
  {
    if es != [] {
      SurvivorsKeepVersioned(es[..|es| - 1], now);
    }
  }

  // ---------------------------------------------------------------------
  // Laws of the response

  /** A query reports exactly the entries of the requested version. */
  lemma {:induction false} MatchingExact(es: seq<Entry>, v: Int32)
    ensures forall x :: x in Matching(es, v) <==> x in es && x.id.version == Some(v)
  {
    if es != [] {
      var pre := es[..|es| - 1];
      MatchingExact(pre, v);
      assert es == pre + [es[|es| - 1]];
    }
  }

  /**
   * The first 4 bytes of a response decode to the size of the WHOLE registry,
   * counting entries of every version.
   */
  lemma ResponseHeader(es: seq<Entry>, v: Int32)
    ensures |Response(es, v)| >= 4
    ensures DecodeInt32(Response(es, v)[..4]) == SizeAsInt32(|es|)
    ensures |es| < 0x8000_0000 ==> DecodeInt32(Response(es, v)[..4]) == |es|
  {
    var h := EncodeInt32(SizeAsInt32(|es|));
    assert Response(es, v)[..4] == h;
    DecodeEncodeInt32(SizeAsInt32(|es|));
  }

  lemma RecordOfIPv4(e: Entry)
    requires |e.id.address| == 4
    ensures |Record(e.id)| == 6
    ensures ParseRecords(Record(e.id)) == [EndpointOf(e)]
  {
    var r := Record(e.id);
    FlipQuadsInvolution(e.id.address);
    assert r[..4] == FlipQuads(e.id.address);
    assert r[4..6] == EncodeInt16(e.id.netPort);
    DecodeEncodeInt16(e.id.netPort);
    assert r[6..] == [];
  }

  /**
   * An IPv6 server's record is 18 bytes: the 16 address bytes, flipped in
   * groups of 4, then the port. A response holding one therefore no longer
   * splits into the 6-byte records a client of IPv4 servers expects.
   */
  lemma RecordOfIPv6(e: Entry, v: Int32)
    requires |e.id.address| == 16 && e.id.version == Some(v)
    ensures |Record(e.id)| == 18
    ensures |Response([e], v)| == 22 != 4 + 6 * |Matching([e], v)|
  {
    FlipQuadsLength(e.id.address);
    assert [e][..0] == [];
    assert Records([e], v) == Record(e.id);
    assert Matching([e], v) == [e];
  }

  lemma {:induction false} ParseRecordsAppend(a: seq<Byte>, b: seq<Byte>)
    requires |a| % 6 == 0
    ensures ParseRecords(a + b) == ParseRecords(a) + ParseRecords(b)
    decreases |a|
  {
    if a == [] {
      assert a + b == b;
    } else {
      var ab := a + b;
      assert ab[..4] == a[..4] && ab[4..6] == a[4..6];
      assert ab[6..] == a[6..] + b;
      ParseRecordsAppend(a[6..], b);
    }
  }

  /**
   * For IPv4 entries the records are 6 bytes per matching entry, and a
   * client parsing them gets back exactly the matching entries' addresses
   * and ports, in order: nothing of another version is emitted.
   */
  lemma {:induction false} RecordsOfIPv4(es: seq<Entry>, v: Int32)
    requires AllIPv4(es)
    ensures |Records(es, v)| == 6 * |Matching(es, v)|
    ensures ParseRecords(Records(es, v)) == Endpoints(Matching(es, v))
  {
    if es != [] {
      var pre := es[..|es| - 1];
      var last := es[|es| - 1];
      RecordsOfIPv4(pre, v);
      if last.id.version == Some(v) {
        RecordOfIPv4(last);
        ParseRecordsAppend(Records(pre, v), Record(last.id));
        assert Matching(es, v) == Matching(pre, v) + [last];
        assert Endpoints(Matching(es, v)) == Endpoints(Matching(pre, v)) + [EndpointOf(last)];
      } else {
        assert Matching(es, v) == Matching(pre, v);
        assert Records(es, v) == Records(pre, v);
      }
    }
  }

  /** For IPv4 registries a response is 4 + 6 * (number of matching entries) bytes. */
  lemma ResponseLength(es: seq<Entry>, v: Int32)
    requires AllIPv4(es)
    ensures |Response(es, v)| == 4 + 6 * |Matching(es, v)|
    ensures ParseRecords(Response(es, v)[4..]) == Endpoints(Matching(es, v))
  {
    RecordsOfIPv4(es, v);
    assert Response(es, v)[4..] == Records(es, v);
  }

  /** A response depends on the identities alone: refreshing times never changes it. */
  lemma {:induction false} ResponseIgnoresTimes(a: seq<Entry>, b: seq<Entry>, v: Int32)
    requires |a| == |b|
    requires forall k :: 0 <= k < |a| ==> a[k].id == b[k].id
    ensures Records(a, v) == Records(b, v)
    ensures Response(a, v) == Response(b, v)
  {
    if a != [] {
      ResponseIgnoresTimes(a[..|a| - 1], b[..|b| - 1], v);
    }
  }

  // One more element of a prefix, for loops that walk the registry in order.

  lemma RecordsStep(es: seq<Entry>, i: nat, v: Int32)
    requires i < |es|
    ensures Records(es[..i + 1], v) == Records(es[..i], v) + (if es[i].id.version == Some(v) then Record(es[i].id) else [])
  {
    assert es[..i + 1][..i] == es[..i];
  }

  lemma SurvivorsStep(es: seq<Entry>, j: nat, now: int)
    requires j < |es|
    ensures Survivors(es[..j + 1], now) == Survivors(es[..j], now) + (if Live(es[j], now) then [es[j]] else [])
  {
    assert es[..j + 1][..j] == es[..j];
  }

  // ---------------------------------------------------------------------
  // The registry object

  lemma AppendAssoc(a: seq<Byte>, b: seq<Byte>, c: seq<Byte>)
    ensures a + b + c == a + (b + c)
  {
  }

  /** The values of a sequence of server objects. */
  ghost function Entries(ss: seq<Server>): (r: seq<Entry>)
    reads ss
    ensures |r| == |ss|
    ensures forall i :: 0 <= i < |ss| ==> r[i] == ss[i].AsEntry()
  {
    if ss == [] then [] else Entries(ss[..|ss| - 1]) + [ss[|ss| - 1].AsEntry()]
  }

  lemma EntriesSnoc(ss: seq<Server>, s: Server)
    ensures Entries(ss + [s]) == Entries(ss) + [s.AsEntry()]
  {
    assert (ss + [s])[..|ss|] == ss;
  }

  /** `getAddress()` hands out a fresh copy of the address bytes; the copy is flipped in place. */
  method FlippedAddress(address: Address) returns (ip: seq<Byte>)
    ensures ip == FlipQuads(address)
  {
    var copy := new Byte[|address|](k requires 0 <= k < |address| => address[k]);
    assert copy[..] == address;
    SwapByteArray(copy);
    ip := copy[..];
  }

  /** The bytes written for one server: its flipped address, then its port LE. */
  method ServerRecord(server: Server) returns (record: seq<Byte>)
    ensures record == Record(server.Id())
  {
    var ipBE := FlippedAddress(server.GetAddress());
    var portLE := EncodeInt16(server.GetNetPort());
    record := ipBE + portLE;
  }

  class ServerList {
    /** The Java set, in its iteration order. */
    var entries: seq<Server>

    ghost function Snapshot(): seq<Entry>
      reads this, entries
    {
      Entries(entries)
    }

    ghost predicate Valid()
      reads this, entries
    {
      Unique(Snapshot())
    }

    constructor ()
      ensures Valid() && Snapshot() == []
    {
      entries := [];
    }

    /**
     * Looks for an entry equal to `server`; when found, its time becomes `now`.
     * The set itself does not change and no other entry is touched.
     */
    method IsServerRegistered(server: Server, now: int) returns (found: bool)
      requires Valid()
      modifies entries
      ensures Valid()
      ensures found <==> Registered(old(Snapshot()), server.Id())
      ensures Snapshot() == Refresh(old(Snapshot()), server.Id(), now)
    {
      ghost var s0 := Snapshot();
      var i := 0;
      while i < |entries|
        invariant 0 <= i <= |entries|
        invariant Snapshot() == s0
        invariant forall j :: 0 <= j < i ==> s0[j].id != server.Id()
      {
        var other := entries[i];
        if server.Equals(other) {
          // Update the time so the server is not evicted
          other.UpdateTime(now);
          forall j | 0 <= j < |entries| && j != i ensures entries[j] != other {
            assert s0[j].id != s0[i].id;
          }
          RefreshKeepsIds(s0, server.Id(), now);
          assert Snapshot() == Refresh(s0, server.Id(), now);
          return true;
        }
        i := i + 1;
      }
      assert Refresh(s0, server.Id(), now) == s0;
      return false;
    }

    /** Upsert: a known identity is refreshed and the incoming object dropped; otherwise it is inserted. */
    method AddServer(server: Server, now: int)
      requires Valid()
      modifies this, entries
      ensures Valid()
      ensures Snapshot() == Upsert(old(Snapshot()), old(server.AsEntry()), now)
      ensures Registered(old(Snapshot()), server.Id()) ==> entries == old(entries)
      ensures !Registered(old(Snapshot()), server.Id()) ==> entries == old(entries) + [server]
    {
      ghost var s0 := Snapshot();
      ghost var e := server.AsEntry();
      var registered := IsServerRegistered(server, now);
      if !registered {
        assert server !in entries;
        assert Refresh(s0, server.Id(), now) == s0;
        entries := entries + [server];
        assert Snapshot() == s0 + [e];
        UpsertExactlyOne(s0, e, now);
      }
    }

    /**
     * Eviction at time `now`: one pass of the list's iterator keeps, in order,
     * the servers whose age is at most TTL seconds; the list is then exactly
     * those servers.
     */
    method RemoveInactive(now: int)
      requires Valid()
      modifies this
      ensures Valid()
      ensures Snapshot() == Survivors(old(Snapshot()), now)
    {
      ghost var s0 := Snapshot();
      var it := entries;
      var kept: seq<Server> := [];
      ghost var ks: seq<Entry> := [];
      ghost var j := 0;
      while it != []
        invariant |s0| == |entries| && 0 <= j <= |entries| && it == entries[j..]
        invariant ks == Survivors(s0[..j], now)
        invariant Entries(kept) == ks
        modifies {}
        decreases |it|
      {
        var server := it[0];
        it := it[1..];
        assert server.AsEntry() == s0[j];
        SurvivorsStep(s0, j, now);
        if now - server.GetTime() <= TTL {
          EntriesSnoc(kept, server);
          kept := kept + [server];
          ks := ks + [s0[j]];
        }
        j := j + 1;
      }
      assert s0[..j] == s0;
      entries := kept;
      SurvivorsKeepUnique(s0, now);
    }

    /**
     * The response to a query for `version`: the count, then one record per
     * server of that version, written in iteration order. Nothing is modified:
     * each address is flipped in a fresh copy of its bytes.
     */
    method CreateResponse(version: Int32) returns (builder: seq<Byte>)
      requires AllVersioned(Snapshot())
      ensures builder == Response(Snapshot(), version)
    {
      ghost var snap := Snapshot();
      var sizeLE := EncodeInt32(SizeAsInt32(|entries|));
      builder := sizeLE;
      var it := entries;
      ghost var j := 0;
      while it != []
        invariant |snap| == |entries| && 0 <= j <= |entries| && it == entries[j..]
        invariant forall k :: 0 <= k < |entries| ==> entries[k].Id() == snap[k].id
        invariant builder == sizeLE + Records(snap[..j], version)
        decreases |it|
      {
        var server := it[0];
        it := it[1..];
        RecordsStep(snap, j, version);
        if server.GetVersion() == version {
          var record := ServerRecord(server);
          AppendAssoc(sizeLE, Records(snap[..j], version), record);
          builder := builder + record;
        }
        j := j + 1;
      }
      assert snap[..j] == snap;
      ResponseIgnoresTimes(snap, Snapshot(), version);
    }
  }
}
