# ServerList master server: registry and wire protocol in Dafny

This project models the core of a game "master server". Game servers register
over TCP and clients query the same port for the list of live servers. The model
covers four parts:

- **`utils.dfy`, module `Utils`.** The wire codec:
  - Java `int` and `short` values as their little-endian bytes, with both
    round trips proved against a reference reading `LittleEndian`.
  - The in-place flip of each 4-byte group that is applied to address bytes.
  - The two magic-number tests.
- **`server.dfy`, module `ServerEntry`.** One registered server, as a class:
  - its identity (address, port, version) is fixed at construction;
  - its last-seen `time` is a mutable field;
  - equality is on identity alone.
- **`registry.dfy`, module `Registry`.** The registry. Its value is a sequence
  of entries in the set's iteration order. Upsert, eviction and the response
  are defined as functions on that value, and their laws are proved as lemmas.
  The class `ServerList` then implements each operation over mutable `Server`
  objects, with one loop per Java iterator loop, and is proved against those
  functions.
- **`protocol.dfy`, module `Protocol`.** One connection:
  - `Classify` gives the meaning of a packet.
  - `Exchange` gives the meaning of a whole connection on the registry's value:
    the new registry and the bytes written back, if any.
  - `MasterServer.HandlePacket` and `MasterServer.Await` are proved to
    implement `Exchange` on the objects.
  - `ReadPacket` is the read-accumulation loop, run over a given sequence of
    read results.
  - Packets as the game server and the pinger tool build them are stated as
    lemmas, and so are four end-to-end scenarios: register then query, mixed
    versions, timeout, and garbage.

Time is a parameter: every operation that reads the clock takes `now`, in
seconds. The peer's address is a parameter. The stream of reads is a
parameter too: a sequence of chunks, where an empty chunk is a read that
returned nothing.

Behaviour worth knowing:

- **The count counts every entry.** The count at the front of a response is
  the size of the whole registry, across all versions, after eviction. It is
  not the number of records that follow. `Registry.ResponseHeader` and
  `Protocol.CountIsWholeList` state this: two live servers of different
  versions, queried for one version, give count 2 and one record.
- **Ports are signed.** The port travels as a Java `short`, so ports at or
  above 32768 decode as negative numbers. `Protocol.LowShort` shows how a
  game server's `int` port is cut down to this short.
- **Eviction returns nothing.** `removeInactive` reports no count of removed
  entries.
- **The OLD magic pair is used.** Registration is 1212501072 and query is
  1414022477. The pinger tool sends the renamed client magic, 1212501072. That
  is the registration magic, and the pinger sends only 8 bytes, so the master
  ignores its packet (`Protocol.PingerPacketIgnored`).
- **IPv6 peers break the record framing.** Nothing rejects an IPv6 peer. Its
  record is 16 flipped address bytes plus the port, 18 bytes in all, where the
  documented layout has 4 address bytes. A response holding one no longer
  splits into 6-byte records (`Registry.RecordOfIPv6`). Every statement about
  parsing records back is therefore made for IPv4 registries.

## Model

| member | source | states |
|---|---|---|
| Utils.FlipQuads | src/main/java/com/diamante/serverlist/Utils.java:61-74 | defines what `swapByteArray` computes: each 4-byte group reversed |
| Registry.Refresh | src/main/java/com/diamante/serverlist/ServerList.java:39-53 | defines the effect of `isServerRegistered`: the entry of that identity gets time now |
| Registry.Upsert | src/main/java/com/diamante/serverlist/ServerList.java:55-59 | defines `addServer` on the registry's value: refresh a known identity, otherwise add the entry |
| Registry.Survivors | src/main/java/com/diamante/serverlist/ServerList.java:64-77 | defines `removeInactive` on the registry's value: the entries aged at most 60 seconds, in order |
| Registry.Record | src/main/java/com/diamante/serverlist/ServerList.java:108-117 | defines one server's bytes in a response: its flipped address, then its port LE |
| Registry.Records | src/main/java/com/diamante/serverlist/ServerList.java:101-123 | defines the records of a response: one per entry of the requested version, in order |
| Registry.Response | src/main/java/com/diamante/serverlist/ServerList.java:87-140 | defines `createResponse` on the registry's value: the LE count of all entries, then the records |
| Protocol.Exchange | src/main/java/com/diamante/serverlist/MasterServer.java:56-104 | defines `handlePacket` on the registry's value: the new registry and the reply, if any |
| Protocol.ReadCount | src/main/java/com/diamante/serverlist/MasterServer.java:130-140 | defines how many reads the loop takes |
| Protocol.Received | src/main/java/com/diamante/serverlist/MasterServer.java:125-140 | defines the packet `await` hands to `handlePacket`: the concatenation of the reads taken |
| Utils.MagicsExclusive | src/main/java/com/diamante/serverlist/Utils.java:42-54 | the server test holds exactly for 1212501072 and the client test exactly for 1414022477, and no value passes both |
| Utils.EncodeInt32 | src/main/java/com/diamante/serverlist/Utils.java:101-106 | `longSwap(int)` yields exactly 4 bytes whose little-endian value is x modulo 2^32 (its two's complement pattern) |
| Utils.EncodeInt32Bytes | src/main/java/com/diamante/serverlist/Utils.java:101-106 | byte k of the encoding is (x >> 8k) & 0xFF, for k = 0..3 |
| Utils.DecodeInt32 | src/main/java/com/diamante/serverlist/Utils.java:81-94 | `longSwap(byte[])` takes exactly 4 bytes and returns the Java int congruent to their little-endian value modulo 2^32 |
| Utils.DecodeEncodeInt32 | src/main/java/com/diamante/serverlist/Utils.java:81-106 | decoding the encoding of any Java int gives it back |
| Utils.EncodeDecodeInt32 | src/main/java/com/diamante/serverlist/Utils.java:81-106 | encoding the int decoded from any 4 bytes gives those bytes back |
| Utils.LittleEndianInjective | src/main/java/com/diamante/serverlist/Utils.java:81-94 | two byte strings of one length with the same little-endian value are equal, so decoding loses nothing |
| Utils.EncodeInt16 | src/main/java/com/diamante/serverlist/Utils.java:132-137 | `shortSwap(short)` yields exactly 2 bytes whose little-endian value is s modulo 2^16 |
| Utils.EncodeInt16Bytes | src/main/java/com/diamante/serverlist/Utils.java:132-137 | byte 0 is s & 0xFF and byte 1 is (s >> 8) & 0xFF |
| Utils.DecodeInt16 | src/main/java/com/diamante/serverlist/Utils.java:112-125 | `shortSwap(byte[])` takes exactly 2 bytes and returns the signed short congruent to their little-endian value modulo 2^16 |
| Utils.DecodeEncodeInt16 | src/main/java/com/diamante/serverlist/Utils.java:112-137 | decoding the encoding of any Java short gives it back |
| Utils.EncodeDecodeInt16 | src/main/java/com/diamante/serverlist/Utils.java:112-137 | encoding the short decoded from any 2 bytes gives those bytes back |
| Utils.SwapByteArray | src/main/java/com/diamante/serverlist/Utils.java:61-74 | for a length that is a multiple of 4, the array afterwards holds each 4-byte group of its old contents reversed, and nothing else changes |
| Utils.FlipQuadsGroup | src/main/java/com/diamante/serverlist/Utils.java:64-73 | in the flipped bytes, position 4g+k holds old byte 4g+3-k, for every group g and k = 0..3 |
| Utils.FlipQuadsLength | src/main/java/com/diamante/serverlist/Utils.java:61-74 | flipping keeps the length |
| Utils.FlipQuadsInvolution | src/main/java/com/diamante/serverlist/Utils.java:64-73 | flipping twice restores the original bytes |
| ServerEntry.Server.constructor | src/main/java/com/diamante/serverlist/Server.java:37-43 | the three-argument constructor stores address, port and version as given, and sets the time to now |
| ServerEntry.Server.WithoutVersion | src/main/java/com/diamante/serverlist/Server.java:45-50 | the two-argument constructor stores address and port, leaves the version unset, and sets the time to now |
| ServerEntry.Server.GetAddress | src/main/java/com/diamante/serverlist/Server.java:52-54 | returns the stored address |
| ServerEntry.Server.GetNetPort | src/main/java/com/diamante/serverlist/Server.java:56-58 | returns the stored port |
| ServerEntry.Server.GetTime | src/main/java/com/diamante/serverlist/Server.java:60-62 | returns the stored time |
| ServerEntry.Server.GetVersion | src/main/java/com/diamante/serverlist/Server.java:64-66 | returns the stored version; it needs the version to be set, since unboxing a null one fails |
| ServerEntry.Server.UpdateTime | src/main/java/com/diamante/serverlist/Server.java:68-70 | the time becomes now, and the identity (address, port, version) stays as it was |
| ServerEntry.Server.Equals | src/main/java/com/diamante/serverlist/Server.java:73-100 | true iff the other server is non-null and has the same address, port and version; time plays no part |
| ServerEntry.EqualsIsEquivalence | src/main/java/com/diamante/serverlist/Server.java:73-100 | equality is reflexive, symmetric and transitive, whatever the times |
| Registry.SizeAsInt32 | src/main/java/com/diamante/serverlist/ServerList.java:91 | `size()` as an int is the registry's size whenever that fits in an int, and never more than the size |
| Registry.RefreshKeepsIds | src/main/java/com/diamante/serverlist/ServerList.java:39-53 | refreshing a time keeps the length and every entry's identity |
| Registry.CountIdUnique | src/main/java/com/diamante/serverlist/ServerList.java:39-59 | in a registry with one entry per identity, an identity occurs once if registered and otherwise not at all |
| Registry.UpsertExactlyOne | src/main/java/com/diamante/serverlist/ServerList.java:55-59 | after an upsert, identities stay unique and the new identity occurs exactly once; the size is unchanged for a known identity and grows by 1 otherwise; a known entry gets time now; an unknown one is appended as given; entries of other identities are untouched |
| Registry.UpsertTwice | src/main/java/com/diamante/serverlist/ServerList.java:55-59 | registering one identity twice leaves one entry stamped with the second time, and the second call does not change the size |
| Registry.UpsertKeepsVersioned | src/main/java/com/diamante/serverlist/ServerList.java:55-59 | registering a versioned server keeps every entry versioned |
| Registry.SurvivorsExact | src/main/java/com/diamante/serverlist/ServerList.java:69-75 | an entry survives eviction iff it was there and its age now - time is at most 60, so exactly 60 survives; survivors are unchanged |
| Registry.SurvivorsShrink | src/main/java/com/diamante/serverlist/ServerList.java:69-75 | eviction never increases the size |
| Registry.SurvivorsIdempotent | src/main/java/com/diamante/serverlist/ServerList.java:69-75 | evicting twice at one time is evicting once |
| Registry.SurvivorsKeepUnique | src/main/java/com/diamante/serverlist/ServerList.java:64-77 | eviction keeps identities unique |
| Registry.SurvivorsKeepVersioned | src/main/java/com/diamante/serverlist/ServerList.java:64-77 | eviction keeps every entry versioned |
| Registry.MatchingExact | src/main/java/com/diamante/serverlist/ServerList.java:105-106 | an entry is reported iff it is in the registry and its version equals the requested one |
| Registry.ResponseHeader | src/main/java/com/diamante/serverlist/ServerList.java:91-95 | the first 4 bytes of a response decode to the size of the whole registry, counting every version |
| Registry.RecordOfIPv4 | src/main/java/com/diamante/serverlist/ServerList.java:108-117 | an IPv4 server's record is 6 bytes, and a client reading it gets back its address and port |
| Registry.RecordsOfIPv4 | src/main/java/com/diamante/serverlist/ServerList.java:101-123 | for IPv4 entries the records are 6 bytes per entry of the requested version; parsing them gives back exactly those entries' addresses and ports, in order, and nothing of another version |
| Registry.RecordOfIPv6 | src/main/java/com/diamante/serverlist/ServerList.java:108-117 | an IPv6 server's record is 18 bytes, so a one-server response is 22 bytes and not the 4 + 6 of the documented layout |
| Registry.ParseRecordsAppend | src/main/java/com/diamante/serverlist/ServerList.java:116-117 | records written one after another are read back one after another |
| Registry.ResponseLength | src/main/java/com/diamante/serverlist/ServerList.java:91-123 | for IPv4 entries a response is 4 + 6 times the number of matching entries bytes long, and its tail parses to their endpoints |
| Registry.ResponseIgnoresTimes | src/main/java/com/diamante/serverlist/ServerList.java:101-123 | a response depends on the entries' identities alone, not on their times |
| Registry.FlippedAddress | src/main/java/com/diamante/serverlist/ServerList.java:109-110 | the address is flipped in a fresh copy, so the stored address is left alone |
| Registry.ServerRecord | src/main/java/com/diamante/serverlist/ServerList.java:109-117 | the bytes written for one server are its group-flipped address followed by its port LE |
| Registry.ServerList.constructor | src/main/java/com/diamante/serverlist/ServerList.java:35-37 | a new registry is empty |
| Registry.ServerList.IsServerRegistered | src/main/java/com/diamante/serverlist/ServerList.java:39-53 | returns true iff some entry equals the server; the equal entry's time becomes now, no other entry changes, and the set stays the same |
| Registry.ServerList.AddServer | src/main/java/com/diamante/serverlist/ServerList.java:55-59 | the registry becomes the upsert of the incoming server: a known identity is refreshed and the list of objects stays the same, so the incoming object is dropped; otherwise the incoming object itself is added; identities stay unique |
| Registry.ServerList.RemoveInactive | src/main/java/com/diamante/serverlist/ServerList.java:64-77 | the registry becomes exactly the entries aged at most 60 seconds, unchanged and in order; identities stay unique |
| Registry.ServerList.CreateResponse | src/main/java/com/diamante/serverlist/ServerList.java:87-140 | the bytes are the LE count of the whole registry, then one record per server of the requested version in iteration order; nothing is modified |
| Protocol.Classify | src/main/java/com/diamante/serverlist/MasterServer.java:56-103 | a packet is too short iff it has fewer than 8 bytes, and a registration always has at least 10 bytes |
| Protocol.LowShort | src/main/java/com/diamante/serverlist/ServerEmulator.java:63-68 | the short read from an int's two low bytes agrees with that int modulo 2^16, and equals it when the int is in 0..32767 |
| Protocol.LowShortBytes | src/main/java/com/diamante/serverlist/ServerEmulator.java:63-68 | the first two LE bytes of an int are the LE bytes of its low short |
| Protocol.ServerPingRegisters | src/main/java/com/diamante/serverlist/ServerEmulator.java:58-68 | a game server's ping is 10 bytes and classifies as a registration of its version, with its port cut to a short |
| Protocol.ClientQueryIsQuery | src/main/java/com/diamante/serverlist/MasterServer.java:63-89 | client magic then version, 8 bytes, classifies as a query for that version |
| Protocol.RegistrationHeader | src/main/java/com/diamante/serverlist/MasterServer.java:63-80 | every registration's first 10 bytes are the server magic, its version and its port, all LE |
| Protocol.QueryHeader | src/main/java/com/diamante/serverlist/MasterServer.java:63-69 | every query's first 8 bytes are the client magic and its version, LE |
| Protocol.TrailingBytesIgnored | src/main/java/com/diamante/serverlist/MasterServer.java:63-80 | bytes past the fields a packet's kind uses do not change its classification |
| Protocol.ExchangeKeepsInvariant | src/main/java/com/diamante/serverlist/MasterServer.java:56-103 | any connection keeps identities unique and every entry versioned |
| Protocol.IgnoredPacketsChangeNothing | src/main/java/com/diamante/serverlist/MasterServer.java:56-103 | only queries get a reply; a packet that is too short, a short registration or an unknown magic leaves the registry as it was |
| Protocol.RegistrationRecorded | src/main/java/com/diamante/serverlist/MasterServer.java:79-84 | after a registration the peer's identity (its address, the decoded port and version) occurs exactly once and is stamped now |
| Protocol.QueryShowsOnlyLive | src/main/java/com/diamante/serverlist/MasterServer.java:86-90 | for IPv4 registries, a query evicts first and is then answered: the count is the number of survivors, and the records are exactly the survivors of the queried version, so evicted entries never appear |
| Protocol.PingerPacketIgnored | src/main/java/com/diamante/serverlist/MasterServerPinger.java:50-58 | the pinger's 8-byte packet carries the registration magic, is too short to register, and changes nothing |
| Protocol.ServerPingExchange | src/main/java/com/diamante/serverlist/ServerEmulator.java:58-68 | a game server's ping with a port in 0..32767 upserts that server and gets no reply |
| Protocol.ClientQueryExchange | src/main/java/com/diamante/serverlist/MasterServer.java:86-90 | a client query evicts and is answered with the response for its version |
| Protocol.QueryOneServer | src/main/java/com/diamante/serverlist/MasterServer.java:86-90 | one live IPv4 server queried for its version gives count 1 and that server's endpoint |
| Protocol.RegisterThenQuery | src/main/java/com/diamante/serverlist/MasterServer.java:71-90 | a registration, then a query for its version within 60 seconds: count 1, and the server decodes back to its address and port |
| Protocol.TwoServersRegistered | src/main/java/com/diamante/serverlist/MasterServer.java:79-84 | two servers of different identities registering in turn leave both, each stamped with the registration time, in the model's insertion order |
| Protocol.CountIsWholeList | src/main/java/com/diamante/serverlist/ServerList.java:91-95 | two live servers of different versions, queried for the first one's version: count 2, but only the first server listed |
| Protocol.QueryAfterTimeout | src/main/java/com/diamante/serverlist/ServerList.java:64-77 | a query more than 60 seconds after the only registration evicts it, and the reply is count 0 with no records |
| Protocol.GarbageIgnored | src/main/java/com/diamante/serverlist/MasterServer.java:58-61 | four bytes of garbage get no reply and leave the registry as it was |
| Protocol.StoppedIsReadCount | src/main/java/com/diamante/serverlist/MasterServer.java:130-140 | the read loop stops after exactly one number of reads, whatever the reads return |
| Protocol.ReadPacket | src/main/java/com/diamante/serverlist/MasterServer.java:125-140 | the loop stops at a read that returns nothing or after the first read of at least 8 bytes; the packet is the concatenation of exactly the reads taken |
| Protocol.MasterServer.constructor | src/main/java/com/diamante/serverlist/MasterServer.java:44-54 | a new master server has an empty registry |
| Protocol.MasterServer.HandlePacket | src/main/java/com/diamante/serverlist/MasterServer.java:56-104 | the registry afterwards and the bytes written back are those `Exchange` gives for the packet; the invariant is kept |
| Protocol.MasterServer.Await | src/main/java/com/diamante/serverlist/MasterServer.java:125-147 | one connection: the packet read from the chunks is handled as `Exchange` says; the invariant is kept |

## Left out

- Sockets are not modelled: creating the server socket, `accept`, the stream getters, writing the reply, closing, `stop` and `isValid`. The peer address, the read results and the reply are parameters and return values. `PORT` is kept as a constant only.
- The clock is not modelled. `System.currentTimeMillis() / 1000` is the parameter `now`, and `long` overflow of the time is not modelled.
- `synchronized` blocks and `Collections.synchronizedSet` are not modelled: the registry is one sequential object. `Main.java`, with its shutdown flag and accept loop, is lifecycle and concurrency and is not part of this model.
- `dumpOnlineServers` is not modelled, because it only starts a `ClientEmulator` thread. The emulators, `MasterServerPinger` and `InfoDumper` are not modelled either. They are networking and file tools. Their packet layouts appear only as `ServerPing` and `PingerPacket`.
- `ServerEmulator` refers to a version constant that `Utils.java` does not define, so the version is a parameter of `ServerPing`.
- `stringToServer` is not modelled, because it does DNS resolution and number parsing.
- Hashing (`hashCode`, which includes the time) is not modelled. The `HashSet` becomes a sequence with one entry per identity, and its iteration order is the sequence order. The model puts a new entry at the end. The set places it by its hash bucket and may reorder everything when it resizes. So the order of records in a response, and the order stated by `Protocol.TwoServersRegistered`, are the model's order, not one the program promises. The laws of eviction and of the response hold for every order of the entries.
- Logging to `System.out` and `System.err` is not modelled.
- The `ByteBuffer` copy at the end of `createResponse` is not modelled, because it returns the same bytes.
- The `-1` fallbacks of `longSwap(byte[])` and `shortSwap(byte[])` are not modelled. They cannot be reached when the input has the required length, which is a precondition here. The `IOException` paths of the in-memory byte streams are not modelled either.
- Registry.ServerList.RemoveInactive: the Java iterator removes servers one at a time while it walks the set. The model walks the list and then assigns the kept servers in one step. The final contents and order are the same, but the intermediate states are not modelled.
- Protocol.ReadPacket: a real read returns at most `BUFFER_SIZE` (512) bytes. The model does not require this of the chunks. The loop's behaviour does not depend on the bound.
- Protocol.MasterServer.Await: a failed `accept`, a failed `getInputStream` and an `IOException` during reading all return before a packet is handled. These paths are not modelled; the model covers the path that reaches `handlePacket`.
- The Java `Server` holds an `InetAddress`. The model holds its raw bytes, 4 for IPv4 and 16 for IPv6, and compares addresses by those bytes, as `InetAddress.equals` does.
