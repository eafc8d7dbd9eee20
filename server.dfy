/**
 * One registered game server. Its identity (address, port, version) is fixed
 * at construction; only the last-seen time changes afterwards.
 */
module ServerEntry {
  import opened Wrappers
  import opened Utils

  /** What two equal entries share. A missing version (Java `null`) is its own value. */
  datatype Identity = Identity(address: Address, netPort: Int16, version: Option<Int32>)

  /** The value of an entry at one moment: its identity and its last-seen time in seconds. */
  datatype Entry = Entry(id: Identity, time: int)

  class Server {
    const address: Address
    const netPort: Int16
    const version: Option<Int32>
    var time: int

    /** The three-argument constructor; `now` stands for the current second. */
    constructor (address: Address, netPort: Int16, version: Int32, now: int)
      ensures this.address == address && this.netPort == netPort
      ensures this.version == Some(version) && time == now
    {
      this.address := address;
      this.netPort := netPort;
      this.version := Some(version);
      time := now;
    }

    /** The two-argument constructor leaves the version unset. */
    constructor WithoutVersion(address: Address, netPort: Int16, now: int)
      ensures this.address == address && this.netPort == netPort
      ensures version == None && time == now
    {
      this.address := address;
      this.netPort := netPort;
      version := None;
      time := now;
    }

    function Id(): Identity {
      Identity(address, netPort, version)
    }

    function AsEntry(): (e: Entry)
      reads this
      ensures e.id == Id() && e.time == time
    {
      Entry(Id(), time)
    }

    function GetAddress(): (a: Address)
      ensures a == Id().address
    {
      address
    }

    function GetNetPort(): (p: Int16)
      ensures p == Id().netPort
    {
      netPort
    }

    function GetTime(): (t: int)
      reads this
      ensures t == AsEntry().time
    {
      time
    }

    /** Unboxing the version fails when it is unset. */
    function GetVersion(): (v: Int32)
      requires version.Some?
      ensures Id().version == Some(v)
    {
      version.value
    }

    /** Refreshes the time; the identity fields are constants, so equality with any server is unchanged. */
    method UpdateTime(now: int)
      modifies this
      ensures AsEntry() == Entry(old(AsEntry()).id, now)
    {
      time := now;
    }

    /** Equality on identity; the time takes no part. */
    function Equals(other: Server?): (b: bool)
      ensures b <==> other != null && Id() == other.Id()
    {
      if this == other then true
      else if other == null then false
      else if address != other.address then false
      else if netPort != other.netPort then false
      else if version != other.version then false
      else true
    }
  }

  /** Equals is an equivalence on servers, whatever their times. */
  lemma EqualsIsEquivalence(x: Server, y: Server, z: Server)
    ensures x.Equals(x)
    ensures x.Equals(y) == y.Equals(x)
    ensures x.Equals(y) && y.Equals(z) ==> x.Equals(z)
  {
  }
}
