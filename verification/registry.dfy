/** The server's peer directory (`RegistryManager.java`): a name-keyed map
    with ordered validation on register, removal on deregister, and two
    lookups. Writes are serialised by the registry's write lock, so every
    operation here is one atomic step from one registry value to the next;
    `persist()` writes a copy to disk and changes nothing here. */
module Registry {
  import opened Wrappers
  import opened JavaNumbers
  import opened PeerNodes

  const MAX_PEERS: nat := 1000
  const VALID_ROLES: set<string> := {"OWNER", "STORAGE", "BOTH"}

  const INVALID_ROLE := "ERROR: Invalid role specified"
  const CAPACITY_EXCEEDED := "ERROR: Server capacity exceeded"
  const NAME_TAKEN := "ERROR: Name already registered"
  const ADDRESS_IN_USE := "ERROR: IP/port combination already in use"
  const NOT_REGISTERED := "ERROR: Name not registered"

  /** The contents of `peersByName`. */
  datatype Registry = Registry(peers: map<string, PeerNode>)

  /** `RegistryManager.Result`: success carries the message "OK". */
  datatype Outcome = Outcome(ok: bool, message: string)

  const OK := Outcome(true, "OK")

  function Fail(message: string): Outcome {
    Outcome(false, message)
  }

  /** The empty registry of a first start. */
  const Empty := Registry(map[])

  /** `isAddressInUse`: some registered peer has the same IP and either the
      same UDP port or the same TCP port. */
  predicate AddressInUse(reg: Registry, ip: string, udpPort: int, tcpPort: int) {
    exists n :: n in reg.peers && reg.peers[n].ipAddress == ip &&
      (reg.peers[n].udpPort == udpPort || reg.peers[n].tcpPort == tcpPort)
  }

  /** Two distinct peers clash when they share an IP and a UDP port, or an
      IP and a TCP port. */
  predicate Clash(a: PeerNode, b: PeerNode) {
    a.ipAddress == b.ipAddress && (a.udpPort == b.udpPort || a.tcpPort == b.tcpPort)
  }

  /** What registering keeps true: every peer is filed under its own name
      with a valid role, no two peers clash, and there are at most
      `MAX_PEERS` of them. */
  ghost predicate Valid(reg: Registry) {
    && |reg.peers| <= MAX_PEERS
    && (forall n :: n in reg.peers ==> reg.peers[n].name == n && reg.peers[n].role in VALID_ROLES)
    && (forall a, b :: a in reg.peers && b in reg.peers && a != b ==> !Clash(reg.peers[a], reg.peers[b]))
  }

  /** `registerPeer`: the checks run in the order role, capacity, name,
      address, and the first that fails decides the message; only when all
      pass is the peer filed under its name. */
  function Register(reg: Registry, peer: PeerNode): (r: (Registry, Outcome))
    ensures r.1.ok <==> (peer.role in VALID_ROLES && |reg.peers| < MAX_PEERS &&
                         peer.name !in reg.peers &&
                         !AddressInUse(reg, peer.ipAddress, peer.udpPort, peer.tcpPort))
    ensures r.1.ok ==> r.0.peers == reg.peers[peer.name := peer] && r.1 == OK
    ensures !r.1.ok ==> r.0 == reg
    ensures peer.role !in VALID_ROLES ==> r.1 == Fail(INVALID_ROLE)
    ensures peer.role in VALID_ROLES && |reg.peers| >= MAX_PEERS ==> r.1 == Fail(CAPACITY_EXCEEDED)
    ensures peer.role in VALID_ROLES && |reg.peers| < MAX_PEERS && peer.name in reg.peers ==>
              r.1 == Fail(NAME_TAKEN)
    ensures (peer.role in VALID_ROLES && |reg.peers| < MAX_PEERS && peer.name !in reg.peers &&
             AddressInUse(reg, peer.ipAddress, peer.udpPort, peer.tcpPort)) ==> r.1 == Fail(ADDRESS_IN_USE)
  {
    if peer.role !in VALID_ROLES then (reg, Fail(INVALID_ROLE))
    else if |reg.peers| >= MAX_PEERS then (reg, Fail(CAPACITY_EXCEEDED))
    else if peer.name in reg.peers then (reg, Fail(NAME_TAKEN))
    else if AddressInUse(reg, peer.ipAddress, peer.udpPort, peer.tcpPort) then (reg, Fail(ADDRESS_IN_USE))
    else (Registry(reg.peers[peer.name := peer]), OK)
  }

  /** `deregisterPeer`: an absent name is an error and changes nothing;
      otherwise exactly that name goes. */
  function Deregister(reg: Registry, name: string): (r: (Registry, Outcome))
    ensures r.1.ok <==> name in reg.peers
    ensures !r.1.ok ==> r == (reg, Fail(NOT_REGISTERED))
    ensures r.1.ok ==> r.1 == OK && r.0.peers.Keys == reg.peers.Keys - {name}
    ensures forall n :: n in r.0.peers ==> n in reg.peers && r.0.peers[n] == reg.peers[n]
  {
    if name !in reg.peers then (reg, Fail(NOT_REGISTERED))
    else (Registry(reg.peers - {name}), OK)
  }

  /** `getPeer`: present exactly for a registered name. */
  function GetPeer(reg: Registry, name: string): (r: Option<PeerNode>)
    ensures r.Some? <==> name in reg.peers
    ensures r.Some? ==> r.value == reg.peers[name]
  {
    if name in reg.peers then Some(reg.peers[name]) else None
  }

  /** Registering keeps the registry valid; in particular it never holds
      more than `MAX_PEERS` peers. */
  lemma RegisterPreservesValid(reg: Registry, peer: PeerNode)
    requires Valid(reg)
    ensures Valid(Register(reg, peer).0)
  {
    var (next, outcome) := Register(reg, peer);
    if outcome.ok {
      assert |next.peers| == |reg.peers| + 1;
      forall a, b | a in next.peers && b in next.peers && a != b
        ensures !Clash(next.peers[a], next.peers[b])
      {
        if a == peer.name {
          assert !Clash(reg.peers[b], peer);
        } else if b == peer.name {
          assert !Clash(reg.peers[a], peer);
        }
      }
    }
  }

  /** Deregistering keeps the registry valid. */
  lemma DeregisterPreservesValid(reg: Registry, name: string)
    requires Valid(reg)
    ensures Valid(Deregister(reg, name).0)
  {
    var next := Deregister(reg, name).0;
    assert next.peers.Keys <= reg.peers.Keys;
    assert |next.peers.Keys| <= |reg.peers.Keys| by {
      SubsetCardinality(next.peers.Keys, reg.peers.Keys);
    }
  }

  lemma SubsetCardinality<T>(a: set<T>, b: set<T>)
    requires a <= b
    ensures |a| <= |b|
  {
    assert b == a + (b - a);
  }

  /** Deregistering a freshly registered peer restores the registry. */
  lemma DeregisterUndoesRegister(reg: Registry, peer: PeerNode)
    requires Register(reg, peer).1.ok
    ensures Deregister(Register(reg, peer).0, peer.name) == (reg, OK)
  {
    var next := Register(reg, peer).0;
    assert next.peers - {peer.name} == reg.peers;
  }

  /** A failed registration leaves the registry exactly as it was, so a
      peer whose name is taken cannot displace the one holding it. */
  lemma DuplicateNameKeepsHolder(reg: Registry, peer: PeerNode)
    requires peer.name in reg.peers
    ensures !Register(reg, peer).1.ok
    ensures Register(reg, peer).0.peers[peer.name] == reg.peers[peer.name]
  {
  }

  /** `listPeers`: a snapshot holding every registered peer once, in the
      unspecified order of the underlying hash map (any order may come
      out). */
  method ListPeers(reg: Registry) returns (list: seq<PeerNode>)
    ensures |list| == |reg.peers|
    ensures forall p :: p in list <==> p in reg.peers.Values
    ensures Valid(reg) ==> forall i, j :: 0 <= i < j < |list| ==> list[i].name != list[j].name
  {
    var remaining := reg.peers.Keys;
    list := [];
    ghost var seen: seq<string> := [];
    while remaining != {}
      invariant remaining <= reg.peers.Keys
      invariant |list| == |seen| && |list| + |remaining| == |reg.peers.Keys|
      invariant forall i :: 0 <= i < |seen| ==>
                  seen[i] in reg.peers && seen[i] !in remaining && list[i] == reg.peers[seen[i]]
      invariant forall k :: k in reg.peers && k !in remaining ==> k in seen
      invariant forall i, j :: 0 <= i < j < |seen| ==> seen[i] != seen[j]
      decreases |remaining|
    {
      var k :| k in remaining;
      list := list + [reg.peers[k]];
      seen := seen + [k];
      remaining := remaining - {k};
    }
    forall p | p in reg.peers.Values
      ensures p in list
    {
      var k :| k in reg.peers && reg.peers[k] == p;
      assert k in seen;
      var i :| 0 <= i < |seen| && seen[i] == k;
      assert list[i] == p;
    }
  }

  /** Whether `p` answers at endpoint `(ip, udpPort)`. */
  predicate AtEndpoint(p: PeerNode, ip: string, udpPort: int) {
    p.ipAddress == ip && p.udpPort == udpPort
  }

  /** `findPeerByEndpoint`: the first peer in iteration order whose IP and
      UDP port both match; empty exactly when none does. In a valid registry
      the match is the only one. */
  method FindPeerByEndpoint(reg: Registry, ip: string, udpPort: int) returns (r: Option<PeerNode>)
    ensures r.Some? ==> r.value in reg.peers.Values && AtEndpoint(r.value, ip, udpPort)
    ensures r.None? <==> forall n :: n in reg.peers ==> !AtEndpoint(reg.peers[n], ip, udpPort)
    ensures Valid(reg) && r.Some? ==>
              forall n :: n in reg.peers && AtEndpoint(reg.peers[n], ip, udpPort) ==> reg.peers[n] == r.value
  {
    var list := ListPeers(reg);
    var i := 0;
    while i < |list|
      invariant 0 <= i <= |list|
      invariant forall j :: 0 <= j < i ==> !AtEndpoint(list[j], ip, udpPort)
    {
      if AtEndpoint(list[i], ip, udpPort) {
        r := Some(list[i]);
        if Valid(reg) {
          EndpointIdentifiesPeer(reg, ip, udpPort);
        }
        return;
      }
      i := i + 1;
    }
    r := None;
    forall n | n in reg.peers
      ensures !AtEndpoint(reg.peers[n], ip, udpPort)
    {
      assert reg.peers[n] in list;
    }
  }

  /** In a valid registry an endpoint names at most one peer. */
  lemma EndpointIdentifiesPeer(reg: Registry, ip: string, udpPort: int)
    requires Valid(reg)
    ensures forall a, b :: (a in reg.peers && b in reg.peers &&
              AtEndpoint(reg.peers[a], ip, udpPort) && AtEndpoint(reg.peers[b], ip, udpPort)) ==> a == b
  {
    forall a, b | a in reg.peers && b in reg.peers &&
                  AtEndpoint(reg.peers[a], ip, udpPort) && AtEndpoint(reg.peers[b], ip, udpPort)
      ensures a == b
    {
      assert Clash(reg.peers[a], reg.peers[b]);
    }
  }
}
