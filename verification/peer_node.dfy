/** The peer record shared by the registry, the failure detector and the
    peer agent (`PeerNode.java`). Identity is the name alone: `equals` and
    `hashCode` read nothing else. */
module PeerNodes {
  import opened Wrappers
  import opened JavaText
  import opened JavaNumbers

  /** A `java.time.Instant`, counted in nanoseconds from the epoch. */
  type Instant = int

  datatype PeerNode = PeerNode(
    name: string,
    role: string,
    ipAddress: string,
    udpPort: int32,
    tcpPort: int32,
    storageCapacity: int32,
    registeredAt: Option<Instant>,
    lastTimestamp: Option<Instant>)

  // `lastTimestamp` is the heartbeat stamp the failure detector reads and
  // writes through `getLastTimestamp`/`setLastTimestamp`
  // (server/HeartbeatHandler.java). It lives on the node object, so a peer
  // that registers again arrives as a new node without one.

  /** The fields a setter can write. */
  datatype Field = Name | Role | IpAddress | UdpPort | TcpPort | StorageCapacity | RegisteredAt

  datatype FieldValue = Text(text: string) | Number(number: int32) | Stamp(stamp: Option<Instant>)

  /** Reads one field, as the matching getter does. */
  function Get(p: PeerNode, f: Field): FieldValue {
    match f
    case Name => Text(p.name)
    case Role => Text(p.role)
    case IpAddress => Text(p.ipAddress)
    case UdpPort => Number(p.udpPort)
    case TcpPort => Number(p.tcpPort)
    case StorageCapacity => Number(p.storageCapacity)
    case RegisteredAt => Stamp(p.registeredAt)
  }

  /** Whether `v` has the Java type of field `f`. */
  predicate Fits(f: Field, v: FieldValue) {
    match f
    case Name | Role | IpAddress => v.Text?
    case UdpPort | TcpPort | StorageCapacity => v.Number?
    case RegisteredAt => v.Stamp?
  }

  /** The six-argument constructor; `now` is the reading `Instant.now()`
      takes. Every argument lands in its own field. */
  function NewPeerNode(name: string, role: string, ipAddress: string,
                       udpPort: int32, tcpPort: int32, storageCapacity: int32,
                       now: Instant): (p: PeerNode)
    ensures Get(p, Name) == Text(name) && Get(p, Role) == Text(role)
    ensures Get(p, IpAddress) == Text(ipAddress)
    ensures Get(p, UdpPort) == Number(udpPort) && Get(p, TcpPort) == Number(tcpPort)
    ensures Get(p, StorageCapacity) == Number(storageCapacity)
    ensures Get(p, RegisteredAt) == Stamp(Some(now))
    ensures p.lastTimestamp.None?
  {
    PeerNode(name, role, ipAddress, udpPort, tcpPort, storageCapacity, Some(now), None)
  }

  /** The setters `setName` ... `setStorageCapacity` and
      `setRegisteredAt(Instant)`: the written field reads back the new
      value and every other field is unchanged. */
  function Set(p: PeerNode, f: Field, v: FieldValue): (r: PeerNode)
    requires Fits(f, v)
    ensures Get(r, f) == v
    ensures forall g :: g != f ==> Get(r, g) == Get(p, g)
    ensures r.lastTimestamp == p.lastTimestamp
  {
    match f
    case Name => p.(name := v.text)
    case Role => p.(role := v.text)
    case IpAddress => p.(ipAddress := v.text)
    case UdpPort => p.(udpPort := v.number)
    case TcpPort => p.(tcpPort := v.number)
    case StorageCapacity => p.(storageCapacity := v.number)
    case RegisteredAt => p.(registeredAt := v.stamp)
  }

  /** `setRegisteredAt(String)`: a null or blank text clears the stamp;
      other text goes through `Instant.parse`, given here as `parse`, whose
      failure (`None`) is the `DateTimeParseException` that leaves the call
      without a result. */
  function SetRegisteredAtText(p: PeerNode, text: Option<string>,
                               parse: string -> Option<Instant>): (r: Option<PeerNode>)
    ensures (text.None? || IsBlank(text.value)) ==> r == Some(p.(registeredAt := None))
    ensures r.None? <==> text.Some? && !IsBlank(text.value) && parse(text.value).None?
    ensures r.Some? ==> forall g :: g != RegisteredAt ==> Get(r.value, g) == Get(p, g)
    ensures r.Some? && text.Some? && !IsBlank(text.value) ==> r.value.registeredAt == parse(text.value)
    ensures r.Some? ==> r.value.lastTimestamp == p.lastTimestamp
  {
    if text.None? || IsBlank(text.value) then Some(p.(registeredAt := None))
    else
      match parse(text.value)
      case None => None
      case Some(t) => Some(p.(registeredAt := Some(t)))
  }

  /** `getRegisteredAt()`: absent exactly when no stamp is set; `render`
      stands for `Instant.toString`. */
  function GetRegisteredAt(p: PeerNode, render: Instant -> string): (r: Option<string>)
    ensures r.None? <==> p.registeredAt.None?
  {
    match p.registeredAt
    case None => None
    case Some(t) => Some(render(t))
  }

  /** Clearing by blank text and reading back gives null. */
  lemma BlankClearsRegisteredAt(p: PeerNode, text: Option<string>,
                                parse: string -> Option<Instant>, render: Instant -> string)
    requires text.None? || IsBlank(text.value)
    ensures SetRegisteredAtText(p, text, parse).Some?
    ensures GetRegisteredAt(SetRegisteredAtText(p, text, parse).value, render).None?
  {
  }

  /** `PeerNode.equals`: same name. */
  predicate Equals(a: PeerNode, b: PeerNode) {
    a.name == b.name
  }

  /** `String.hashCode`: `s[0]*31^(n-1) + ... + s[n-1]` in `int`
      arithmetic. */
  function StringHash(s: string): int32
    decreases |s|
  {
    if |s| == 0 then 0
    else WrapInt32(31 * StringHash(s[..|s| - 1]) + s[|s| - 1] as int)
  }

  /** `PeerNode.hashCode` = `Objects.hash(name)` = `31 + name.hashCode()`
      in `int` arithmetic. */
  function HashCode(p: PeerNode): int32 {
    WrapInt32(31 + StringHash(p.name))
  }

  /** Writing any field but the name keeps the peer equal to itself before
      the write, and keeps its hash code. */
  lemma IdentityIsTheName(p: PeerNode, f: Field, v: FieldValue)
    requires Fits(f, v) && f != Name
    ensures Equals(p, Set(p, f, v))
    ensures HashCode(p) == HashCode(Set(p, f, v))
  {
    assert Get(Set(p, f, v), Name) == Get(p, Name);
  }
}
