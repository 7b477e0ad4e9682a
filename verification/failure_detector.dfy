/** The server's failure detector and recovery planner
    (`HeartbeatHandler.java`). A sweep walks a snapshot of the registry,
    declares a peer failed when its last heartbeat is more than `MAX_TIME`
    whole seconds old, and for each failed peer plans re-replication of the
    chunks the backup plans place on it, then deregisters it.

    Inputs the handler takes from code outside this model are parameters:
    the clock (`clock(i)` is the reading taken for the i-th peer of the
    sweep), the TCP reachability probe `alive`, the registry's chunk-location
    index `locate` (as it reads after the failed peer's locations are
    removed), and the backup plan store, a snapshot `plans` in the order its
    `values()` iterate. */
module FailureDetector {
  import opened Wrappers
  import opened JavaText
  import opened JavaNumbers
  import opened PeerNodes
  import opened Registry

  /** Seconds of silence after which a peer is declared failed. */
  const MAX_TIME: nat := 10
  const NANOS_PER_SECOND: nat := 1_000_000_000
  const REQUEST_ID_MODULUS: nat := 1_000_000

  /** A backup plan: which peer holds each chunk of one owner's file. */
  datatype Plan = Plan(owner: string, fileName: string, placement: map<int32, PeerNode>)

  /** A `REPLICATE_REQ` to send: `source` holds the chunk and is reached at
      `endpoint`; `target` is to receive a copy. */
  datatype Replication = Replication(
    source: string, endpoint: PeerNode, fileName: string, chunkId: int32, target: string)

  // --------------------------------------------------------------- the sweep

  /** `Duration.between(last, now).getSeconds()`: whole seconds, rounded
      toward negative infinity. */
  function ElapsedSeconds(last: Instant, now: Instant): int {
    (now - last) / NANOS_PER_SECOND
  }

  predicate Expired(last: Instant, now: Instant) {
    ElapsedSeconds(last, now) > MAX_TIME
  }

  /** A peer expires exactly when eleven full seconds have passed. */
  lemma ExpiredIff(last: Instant, now: Instant)
    ensures Expired(last, now) <==> now - last >= (MAX_TIME + 1) * NANOS_PER_SECOND
  {
    var d := now - last;
    var q := d / NANOS_PER_SECOND;
    assert d == q * NANOS_PER_SECOND + d % NANOS_PER_SECOND;
    if q > MAX_TIME {
      assert q >= 11;
      assert q * NANOS_PER_SECOND >= 11 * NANOS_PER_SECOND;
    } else {
      assert q <= 10;
      assert q * NANOS_PER_SECOND <= 10 * NANOS_PER_SECOND;
    }
  }

  /** One iteration of the sweep for peer `p` at clock reading `now`, with
      `recovering` the names whose recovery is under way: a node without a
      heartbeat timestamp is stamped `now` (and so cannot fail in that
      iteration); the peer fails when its timestamp has expired and no
      recovery for its name is under way. */
  function Check(p: PeerNode, recovering: set<string>, now: Instant): (r: (PeerNode, bool))
    ensures r.1 <==> p.lastTimestamp.Some? && Expired(p.lastTimestamp.value, now) && p.name !in recovering
    ensures r.0.lastTimestamp.Some?
    ensures p.lastTimestamp.Some? ==> r.0 == p
    ensures p.lastTimestamp.None? ==> r.0 == p.(lastTimestamp := Some(now))
  {
    var stamped := if p.lastTimestamp.None? then p.(lastTimestamp := Some(now)) else p;
    (stamped, Expired(stamped.lastTimestamp.value, now) && p.name !in recovering)
  }

  /** A node without a timestamp, such as every node a registration
      creates, is stamped and survives that check. */
  lemma FreshPeerSurvives(p: PeerNode, recovering: set<string>, now: Instant)
    requires p.lastTimestamp.None?
    ensures !Check(p, recovering, now).1
    ensures Check(p, recovering, now).0.lastTimestamp == Some(now)
  {
  }

  /** A peer that failed and registers again is a new node: whatever its
      old node's stamp, the first check of the new one does not fail it. */
  lemma ReregisteredPeerSurvives(reg: Registry, gone: PeerNode, role: string, ipAddress: string,
                                 udpPort: int32, tcpPort: int32, capacity: int32,
                                 registered: Instant, recovering: set<string>, now: Instant)
    requires gone.lastTimestamp.Some? && Expired(gone.lastTimestamp.value, now)
    requires var renewed := NewPeerNode(gone.name, role, ipAddress, udpPort, tcpPort, capacity, registered);
             Register(Deregister(reg, gone.name).0, renewed).1.ok
    ensures Check(gone, recovering - {gone.name}, now).1
    ensures var renewed := NewPeerNode(gone.name, role, ipAddress, udpPort, tcpPort, capacity, registered);
            var filed := Register(Deregister(reg, gone.name).0, renewed).0.peers[gone.name];
            filed.lastTimestamp.None? && !Check(filed, recovering, now).1
  {
  }

  /** While a recovery for its name is under way a peer is not failed
      again, however old its timestamp. */
  lemma RecoveringBlocksRetrigger(p: PeerNode, recovering: set<string>, now: Instant)
    requires p.name in recovering
    ensures !Check(p, recovering, now).1
  {
  }

  /** The cooldown thread: after its delay the name leaves `recovering`. */
  function Cooldown(recovering: set<string>, name: string): (r: set<string>)
    ensures name !in r
    ensures r + {name} >= recovering && r <= recovering
  {
    recovering - {name}
  }

  /** Once the cooldown has run, a node whose timestamp is still expired
      fails again. */
  lemma CooldownReenables(p: PeerNode, recovering: set<string>, now: Instant)
    requires p.lastTimestamp.Some? && Expired(p.lastTimestamp.value, now)
    ensures Check(p, Cooldown(recovering, p.name), now).1
  {
  }

  /** `b` is the registry's node `a` after the sweep: the same, or `a`
      with the timestamp it lacked now set. */
  predicate Restamped(a: PeerNode, b: PeerNode) {
    b == a || (a.lastTimestamp.None? && b.lastTimestamp.Some? && b == a.(lastTimestamp := b.lastTimestamp))
  }

  /** The registry listing `peers` was taken from: every registered node,
      once each. */
  ghost predicate Listing(peers: seq<PeerNode>, reg: Registry) {
    |peers| == |reg.peers| && forall q :: q in peers <==> q in reg.peers.Values
  }

  /** The body of the sweep loop for peer `p`: check it; a stamp it gets
      is written on the registry's node; if it failed, its name joins
      `recovering`, its recovery is planned against the registry as it then
      stands, and it is deregistered. */
  method SweepStep(reg: Registry, recovering: set<string>, p: PeerNode, now: Instant, plans: seq<Plan>,
                   alive: PeerNode -> bool, locate: (string, int32) -> Option<string>)
    returns (next: Registry, after: set<string>, orders: seq<Replication>, failed: bool)
    ensures failed <==> p.lastTimestamp.Some? && Expired(p.lastTimestamp.value, now) && p.name !in recovering
    ensures after == (if failed then recovering + {p.name} else recovering)
    ensures Valid(reg) ==> Valid(next)
    ensures failed ==> next == Deregister(reg, p.name).0
    ensures failed ==> exists peers :: Listing(peers, reg) && Recovered(reg, peers, plans, p.name, alive, locate, orders)
    ensures !failed ==> orders == [] && next.peers.Keys == reg.peers.Keys
    ensures !failed ==> forall n :: n in reg.peers ==>
              next.peers[n] == if n == p.name && reg.peers[n] == p then Check(p, recovering, now).0 else reg.peers[n]
  {
    var checked := Check(p, recovering, now);
    failed := checked.1;
    after := if failed then recovering + {p.name} else recovering;
    next, orders := reg, [];
    if failed {
      var snapshot := ListPeers(reg);
      var scheduled, total;
      orders, scheduled, total := TriggerRecovery(reg, snapshot, plans, p.name, alive, locate);
      next := Deregister(reg, p.name).0;
      if Valid(reg) {
        DeregisterPreservesValid(reg, p.name);
      }
    } else if p.name in reg.peers && reg.peers[p.name] == p {
      next := Registry(reg.peers[p.name := checked.0]);
      if Valid(reg) {
        StampKeepsValid(reg, p.name, checked.0);
      }
    }
  }

  /** Writing a timestamp on a node keeps the registry valid. */
  lemma StampKeepsValid(reg: Registry, name: string, stamped: PeerNode)
    requires Valid(reg) && name in reg.peers
    requires stamped == reg.peers[name].(lastTimestamp := stamped.lastTimestamp)
    ensures Valid(Registry(reg.peers[name := stamped]))
  {
    var peers := reg.peers[name := stamped];
    assert peers.Keys == reg.peers.Keys;
    forall a, b | a in peers && b in peers && a != b
      ensures !Clash(peers[a], peers[b])
    {
      assert Clash(peers[a], peers[b]) == Clash(reg.peers[a], reg.peers[b]);
    }
  }

  /** `run`, one pass of its outer loop over a registry snapshot, with
      `clock(i)` the reading for the i-th listed peer. Only failed peers
      leave the registry; each of them had no recovery under way and now
      has one. The nodes that stay are unchanged but for a timestamp they
      lacked. In a valid registry every node that stays is stamped, and
      every node that left had a timestamp before the sweep began which
      had expired at the reading taken for it, so a node first stamped in
      this sweep survives it. */
  method Sweep(reg: Registry, recovering: set<string>, plans: seq<Plan>, clock: nat -> Instant,
               alive: PeerNode -> bool, locate: (string, int32) -> Option<string>)
    returns (next: Registry, after: set<string>, orders: seq<Replication>)
    ensures Valid(reg) ==> Valid(next)
    ensures next.peers.Keys <= reg.peers.Keys
    ensures forall n :: n in next.peers ==> Restamped(reg.peers[n], next.peers[n])
    ensures Valid(reg) ==> forall n :: n in next.peers ==> next.peers[n].lastTimestamp.Some?
    ensures recovering <= after
    ensures forall n :: n in reg.peers && n !in next.peers ==> n !in recovering && n in after
    ensures Valid(reg) ==> forall n :: n in reg.peers && n !in next.peers ==>
              && reg.peers[n].lastTimestamp.Some?
              && exists i :: 0 <= i < |reg.peers| && Expired(reg.peers[n].lastTimestamp.value, clock(i))
  {
    var list := ListPeers(reg);
    next := reg;
    after := recovering;
    orders := [];
    var i := 0;
    ghost var failedNames: set<string> := {};
    while i < |list|
      invariant 0 <= i <= |list|
      invariant SweepKeeps(reg, list, recovering, clock, i, next, after, failedNames)
    {
      var p := list[i];
      var failed, more;
      ghost var before, was := next, after;
      next, after, more, failed := SweepStep(next, after, p, clock(i), plans, alive, locate);
      SweepKeepsStep(reg, list, recovering, clock, i, before, was, failedNames, next, after, failed);
      if failed {
        failedNames := failedNames + {p.name};
      }
      orders := orders + more;
      i := i + 1;
    }
    SweepKeepsDone(reg, list, recovering, clock, next, after, failedNames);
  }

  /** The sweep loop's invariant after `i` listed nodes: the registry stays
      valid, only loses names and only gains stamps; recovering only grows;
      every name that left failed, had no recovery under way, and (in a
      valid registry) had a timestamp that had expired at one of the first
      `i` readings; and every node already checked that stays is stamped. */
  ghost predicate SweepKeeps(reg: Registry, list: seq<PeerNode>, recovering: set<string>, clock: nat -> Instant,
                             i: nat, next: Registry, after: set<string>, failedNames: set<string>) {
    && i <= |list|
    && (Valid(reg) ==> Valid(next))
    && next.peers.Keys <= reg.peers.Keys
    && (forall n :: n in next.peers ==> Restamped(reg.peers[n], next.peers[n]))
    && recovering <= after
    && (forall n :: n in reg.peers && n !in next.peers ==> n in failedNames)
    && failedNames <= after && failedNames !! recovering
    && (Valid(reg) ==> forall n :: n in failedNames ==>
          && n in reg.peers && reg.peers[n].lastTimestamp.Some?
          && exists j :: 0 <= j < i && Expired(reg.peers[n].lastTimestamp.value, clock(j)))
    && (Valid(reg) ==> forall j :: 0 <= j < i && list[j].name in next.peers ==>
          next.peers[list[j].name].lastTimestamp.Some?)
  }

  /** One step of the sweep loop keeps its invariant; the requires are
      what `SweepStep` promises for node `list[i]`. */
  lemma SweepKeepsStep(reg: Registry, list: seq<PeerNode>, recovering: set<string>, clock: nat -> Instant,
                       i: nat, next: Registry, after: set<string>, failedNames: set<string>,
                       next2: Registry, after2: set<string>, failed: bool)
    requires i < |list| && forall q :: q in list <==> q in reg.peers.Values
    requires SweepKeeps(reg, list, recovering, clock, i, next, after, failedNames)
    requires Valid(reg) ==> Valid(next2)
    requires failed <==> list[i].lastTimestamp.Some? && Expired(list[i].lastTimestamp.value, clock(i)) &&
                         list[i].name !in after
    requires after2 == (if failed then after + {list[i].name} else after)
    requires failed ==> next2 == Deregister(next, list[i].name).0
    requires !failed ==> next2.peers.Keys == next.peers.Keys
    requires !failed ==> forall n :: n in next.peers ==>
               next2.peers[n] == if n == list[i].name && next.peers[n] == list[i]
                                 then Check(list[i], after, clock(i)).0 else next.peers[n]
    ensures SweepKeeps(reg, list, recovering, clock, i + 1, next2, after2,
                       if failed then failedNames + {list[i].name} else failedNames)
  {
    if Valid(reg) {
      ListedIsFiled(reg, list, i);
    }
    if failed {
      SweepKeepsFailed(reg, list, recovering, clock, i, next, after, failedNames, next2, after2);
    } else {
      SweepKeepsPassed(reg, list, recovering, clock, i, next, after, failedNames, next2);
    }
  }

  /** The step for a node that failed: it leaves and its name is added. */
  lemma SweepKeepsFailed(reg: Registry, list: seq<PeerNode>, recovering: set<string>, clock: nat -> Instant,
                         i: nat, next: Registry, after: set<string>, failedNames: set<string>,
                         next2: Registry, after2: set<string>)
    requires i < |list| && (Valid(reg) ==> list[i].name in reg.peers && reg.peers[list[i].name] == list[i])
    requires SweepKeeps(reg, list, recovering, clock, i, next, after, failedNames)
    requires Valid(reg) ==> Valid(next2)
    requires list[i].lastTimestamp.Some? && Expired(list[i].lastTimestamp.value, clock(i)) && list[i].name !in after
    requires after2 == after + {list[i].name}
    requires next2 == Deregister(next, list[i].name).0
    ensures SweepKeeps(reg, list, recovering, clock, i + 1, next2, after2, failedNames + {list[i].name})
  {
    hide Expired, Deregister, Valid;
    var p := list[i];
    var names := failedNames + {p.name};
    assert forall n :: n in next2.peers ==> n in next.peers && next2.peers[n] == next.peers[n];
    assert p.name !in next2.peers;
    if Valid(reg) {
      forall n | n in names
        ensures && n in reg.peers && reg.peers[n].lastTimestamp.Some?
                && exists j :: 0 <= j < i + 1 && Expired(reg.peers[n].lastTimestamp.value, clock(j))
      {
        if n !in failedNames {
          assert n == p.name && reg.peers[n] == p;
          assert Expired(reg.peers[n].lastTimestamp.value, clock(i));
        }
      }
    }
  }

  /** The step for a node that did not fail: at most its own node gains a
      timestamp. */
  lemma SweepKeepsPassed(reg: Registry, list: seq<PeerNode>, recovering: set<string>, clock: nat -> Instant,
                         i: nat, next: Registry, after: set<string>, failedNames: set<string>, next2: Registry)
    requires i < |list| && (Valid(reg) ==> list[i].name in reg.peers && reg.peers[list[i].name] == list[i])
    requires SweepKeeps(reg, list, recovering, clock, i, next, after, failedNames)
    requires Valid(reg) ==> Valid(next2)
    requires next2.peers.Keys == next.peers.Keys
    requires forall n :: n in next.peers ==>
               next2.peers[n] == if n == list[i].name && next.peers[n] == list[i]
                                 then Check(list[i], after, clock(i)).0 else next.peers[n]
    ensures SweepKeeps(reg, list, recovering, clock, i + 1, next2, after, failedNames)
  {
    hide Expired, Valid;
    var p := list[i];
    var stamped := Check(p, after, clock(i)).0;
    forall n | n in next2.peers
      ensures Restamped(reg.peers[n], next2.peers[n])
    {
      if n == p.name && next.peers[n] == p {
        assert Restamped(reg.peers[n], p);
      }
    }
    if Valid(reg) {
      forall j | 0 <= j < i + 1 && list[j].name in next2.peers
        ensures next2.peers[list[j].name].lastTimestamp.Some?
      {
        if j == i {
          assert Restamped(p, next.peers[p.name]);
        }
      }
    }
  }

  /** After the last listed node the invariant gives the sweep's
      contract: in a valid registry every node that stays was listed, so
      it is stamped. */
  lemma SweepKeepsDone(reg: Registry, list: seq<PeerNode>, recovering: set<string>, clock: nat -> Instant,
                       next: Registry, after: set<string>, failedNames: set<string>)
    requires |list| == |reg.peers| && forall q :: q in list <==> q in reg.peers.Values
    requires SweepKeeps(reg, list, recovering, clock, |list|, next, after, failedNames)
    ensures Valid(reg) ==> forall n :: n in next.peers ==> next.peers[n].lastTimestamp.Some?
    ensures Valid(reg) ==> forall n :: n in reg.peers && n !in next.peers ==>
              && reg.peers[n].lastTimestamp.Some?
              && exists i :: 0 <= i < |reg.peers| && Expired(reg.peers[n].lastTimestamp.value, clock(i))
  {
    if Valid(reg) {
      forall n | n in next.peers
        ensures next.peers[n].lastTimestamp.Some?
      {
        assert reg.peers[n] in reg.peers.Values;
        var j :| 0 <= j < |list| && list[j] == reg.peers[n];
      }
    }
  }

  /** In a valid registry the i-th listed node is the one filed under its
      name. */
  lemma ListedIsFiled(reg: Registry, list: seq<PeerNode>, i: nat)
    requires Valid(reg) && i < |list| && forall q :: q in list <==> q in reg.peers.Values
    ensures list[i].name in reg.peers && reg.peers[list[i].name] == list[i]
  {
    assert list[i] in reg.peers.Values;
  }

  // ------------------------------------------------------- recovery planning

  /** `"STORAGE".equals(role) || "BOTH".equals(role)`. */
  predicate StorageRole(role: string) {
    role == "STORAGE" || role == "BOTH"
  }

  /** The filter of `selectNewStoragePeer`. */
  predicate Candidate(p: PeerNode, owner: string, failed: string) {
    p.name != owner && p.name != failed && StorageRole(p.role) && p.storageCapacity > 0
  }

  /** Position of the first candidate of greatest capacity, which is what
      a stable sort by descending capacity puts first. */
  function BestCandidate(peers: seq<PeerNode>, owner: string, failed: string): (r: Option<nat>)
    ensures r.None? <==> forall k :: 0 <= k < |peers| ==> !Candidate(peers[k], owner, failed)
    ensures r.Some? ==> r.value < |peers| && Candidate(peers[r.value], owner, failed)
    ensures r.Some? ==> forall k :: 0 <= k < |peers| && Candidate(peers[k], owner, failed) ==>
                          peers[k].storageCapacity <= peers[r.value].storageCapacity
    ensures r.Some? ==> forall k :: 0 <= k < r.value && Candidate(peers[k], owner, failed) ==>
                          peers[k].storageCapacity < peers[r.value].storageCapacity
    decreases |peers|
  {
    if |peers| == 0 then None
    else
      var init := peers[..|peers| - 1];
      var last := peers[|peers| - 1];
      var best := BestCandidate(init, owner, failed);
      if !Candidate(last, owner, failed) then best
      else if best.Some? && init[best.value].storageCapacity >= last.storageCapacity then best
      else Some(|peers| - 1)
  }

  /** `selectNewStoragePeer` over the registry listing `peers`: absent
      exactly when no peer but the owner and the failed one has a storage
      role and positive capacity; otherwise a candidate of greatest
      capacity, the first such in listing order. */
  function SelectNewStoragePeer(peers: seq<PeerNode>, owner: string, failed: string): (r: Option<string>)
    ensures r.None? <==> forall k :: 0 <= k < |peers| ==> !Candidate(peers[k], owner, failed)
    ensures r.Some? ==> exists k :: (0 <= k < |peers| && peers[k].name == r.value &&
              Candidate(peers[k], owner, failed) &&
              forall j :: 0 <= j < |peers| && Candidate(peers[j], owner, failed) ==>
                peers[j].storageCapacity <= peers[k].storageCapacity)
  {
    match BestCandidate(peers, owner, failed)
    case None => None
    case Some(k) => Some(peers[k].name)
  }

  /** The replacement never is the failed peer or the file's owner. */
  lemma ReplacementIsFresh(peers: seq<PeerNode>, owner: string, failed: string)
    requires SelectNewStoragePeer(peers, owner, failed).Some?
    ensures SelectNewStoragePeer(peers, owner, failed).value != failed
    ensures SelectNewStoragePeer(peers, owner, failed).value != owner
  {
  }

  /** Whether plan `pl` is for `fileName` and, when a chunk is given,
      places that chunk. */
  predicate Matches(pl: Plan, fileName: string, chunkId: Option<int32>) {
    pl.fileName == fileName && (chunkId.None? || chunkId.value in pl.placement)
  }

  /** Position of the first plan that matches. */
  function FirstPlan(plans: seq<Plan>, fileName: string, chunkId: Option<int32>): (r: Option<nat>)
    ensures r.None? <==> forall i :: 0 <= i < |plans| ==> !Matches(plans[i], fileName, chunkId)
    ensures r.Some? ==> r.value < |plans| && Matches(plans[r.value], fileName, chunkId)
    ensures r.Some? ==> forall i :: 0 <= i < r.value ==> !Matches(plans[i], fileName, chunkId)
    decreases |plans|
  {
    if |plans| == 0 then None
    else if Matches(plans[0], fileName, chunkId) then Some(0)
    else
      match FirstPlan(plans[1..], fileName, chunkId)
      case None => None
      case Some(i) => Some(i + 1)
  }

  /** `findFileOwner`: the owner named by the first plan for the file, or
      none. */
  function FindFileOwner(plans: seq<Plan>, fileName: string): (r: Option<string>)
    ensures r.None? <==> forall i :: 0 <= i < |plans| ==> plans[i].fileName != fileName
    ensures r.Some? ==> exists i :: (0 <= i < |plans| && plans[i].fileName == fileName &&
              plans[i].owner == r.value && forall j :: 0 <= j < i ==> plans[j].fileName != fileName)
  {
    match FirstPlan(plans, fileName, None)
    case None => None
    case Some(i) => Some(plans[i].owner)
  }

  /** Whether plan `pl` places chunk `chunkId` of `fileName` on the peer
      named `name`. */
  predicate Holds(pl: Plan, fileName: string, chunkId: int32, name: string) {
    pl.fileName == fileName && chunkId in pl.placement && pl.placement[chunkId].name == name
  }

  /** `findAllPeersWithChunk`: every peer some plan for the file places the
      chunk on, except `exclude`. */
  function FindAllPeersWithChunk(plans: seq<Plan>, fileName: string, chunkId: int32,
                                 exclude: string): (r: set<string>)
    ensures forall n :: n in r <==>
              n != exclude && exists i :: 0 <= i < |plans| && Holds(plans[i], fileName, chunkId, n)
    decreases |plans|
  {
    if |plans| == 0 then {}
    else
      var init := plans[..|plans| - 1];
      var last := plans[|plans| - 1];
      var rest := FindAllPeersWithChunk(init, fileName, chunkId, exclude);
      assert forall i, n :: 0 <= i < |init| && Holds(init[i], fileName, chunkId, n) ==>
               Holds(plans[i], fileName, chunkId, n);
      if last.fileName == fileName && chunkId in last.placement &&
         last.placement[chunkId].name != exclude
      then rest + {last.placement[chunkId].name}
      else rest
  }

  /** `getPeer(n)` is present and the probe reaches it. */
  predicate Live(reg: Registry, alive: PeerNode -> bool, n: string) {
    n in reg.peers && alive(reg.peers[n])
  }

  /** The filter of the fallback loop in `findAlternativeStoragePeer`. */
  predicate Fallback(p: PeerNode, exclude: string, owner: Option<string>, alive: PeerNode -> bool) {
    p.name != exclude && (owner.None? || p.name != owner.value) && StorageRole(p.role) && alive(p)
  }

  /** `findAlternativeStoragePeer`: a live registered peer that a plan
      places the chunk on, in the unspecified order of a hash set; failing
      that, the first peer of the listing with a storage role that answers
      the probe and does not own the file. Never the excluded peer. */
  method FindAlternativeStoragePeer(reg: Registry, peers: seq<PeerNode>, plans: seq<Plan>,
                                    fileName: string, chunkId: int32, exclude: string,
                                    alive: PeerNode -> bool)
    returns (r: Option<string>)
    ensures r.Some? ==> r.value != exclude
    ensures (exists n :: n in FindAllPeersWithChunk(plans, fileName, chunkId, exclude) &&
                         Live(reg, alive, n)) ==>
              r.Some? && r.value in FindAllPeersWithChunk(plans, fileName, chunkId, exclude) &&
              Live(reg, alive, r.value)
    ensures r.Some? && r.value !in FindAllPeersWithChunk(plans, fileName, chunkId, exclude) ==>
              exists k :: 0 <= k < |peers| && peers[k].name == r.value &&
                Fallback(peers[k], exclude, FindFileOwner(plans, fileName), alive)
    ensures r.None? <==>
              (forall n :: n in FindAllPeersWithChunk(plans, fileName, chunkId, exclude) ==>
                 !Live(reg, alive, n)) &&
              (forall k :: 0 <= k < |peers| ==>
                 !Fallback(peers[k], exclude, FindFileOwner(plans, fileName), alive))
  {
    var holders := FindAllPeersWithChunk(plans, fileName, chunkId, exclude);
    r := LiveHolder(reg, holders, alive);
    if r.None? {
      r := FirstFallback(peers, exclude, FindFileOwner(plans, fileName), alive);
    }
  }

  /** The hash-set loop: some live registered holder, in no particular
      order, or none when no holder is live. */
  method LiveHolder(reg: Registry, holders: set<string>, alive: PeerNode -> bool) returns (r: Option<string>)
    ensures r.Some? ==> r.value in holders && Live(reg, alive, r.value)
    ensures r.None? <==> forall n :: n in holders ==> !Live(reg, alive, n)
  {
    var remaining := holders;
    while remaining != {}
      invariant remaining <= holders
      invariant forall n :: n in holders && n !in remaining ==> !Live(reg, alive, n)
      decreases |remaining|
    {
      var n :| n in remaining;
      if n in reg.peers && alive(reg.peers[n]) {
        return Some(n);
      }
      remaining := remaining - {n};
    }
    return None;
  }

  /** The listing loop: the first peer passing the fallback filter. */
  method FirstFallback(peers: seq<PeerNode>, exclude: string, owner: Option<string>, alive: PeerNode -> bool)
    returns (r: Option<string>)
    ensures r.Some? ==> exists k :: 0 <= k < |peers| && peers[k].name == r.value && Fallback(peers[k], exclude, owner, alive)
    ensures r.None? <==> forall k :: 0 <= k < |peers| ==> !Fallback(peers[k], exclude, owner, alive)
  {
    var k := 0;
    while k < |peers|
      invariant 0 <= k <= |peers|
      invariant forall j :: 0 <= j < k ==> !Fallback(peers[j], exclude, owner, alive)
    {
      if Fallback(peers[k], exclude, owner, alive) {
        return Some(peers[k].name);
      }
      k := k + 1;
    }
    return None;
  }

  /** `findPeerWithChunk`: the peer the chunk-location index names, if it is
      registered and live; otherwise the first plan for the file that
      places the chunk decides: its holder if live, else an alternative. */
  method FindPeerWithChunk(reg: Registry, peers: seq<PeerNode>, plans: seq<Plan>,
                           fileName: string, chunkId: int32, alive: PeerNode -> bool,
                           locate: (string, int32) -> Option<string>)
    returns (r: Option<string>)
    ensures locate(fileName, chunkId).Some? && Live(reg, alive, locate(fileName, chunkId).value) ==>
              r == locate(fileName, chunkId)
    ensures !(locate(fileName, chunkId).Some? && Live(reg, alive, locate(fileName, chunkId).value)) ==>
              match FirstPlan(plans, fileName, Some(chunkId))
              case None => r.None?
              case Some(i) =>
                var holder := plans[i].placement[chunkId];
                && (alive(holder) ==> r == Some(holder.name))
                && (!alive(holder) && r.Some? ==> r.value != holder.name)
  {
    var located := locate(fileName, chunkId);
    if located.Some? && located.value in reg.peers && alive(reg.peers[located.value]) {
      return located;
    }
    match FirstPlan(plans, fileName, Some(chunkId))
    case None =>
      r := None;
    case Some(i) =>
      var holder := plans[i].placement[chunkId];
      if alive(holder) {
        r := Some(holder.name);
      } else {
        r := FindAlternativeStoragePeer(reg, peers, plans, fileName, chunkId, holder.name, alive);
      }
  }

  /** `triggerChunkReplication`: succeeds exactly when a source is found
      and differs from the target. The request goes out only when the
      source is registered; a success is counted either way. */
  method TriggerChunkReplication(reg: Registry, peers: seq<PeerNode>, plans: seq<Plan>,
                                 fileName: string, chunkId: int32, target: string,
                                 alive: PeerNode -> bool, locate: (string, int32) -> Option<string>)
    returns (source: Option<string>, ok: bool, order: Option<Replication>)
    ensures ok <==> source.Some? && source.value != target
    ensures order.Some? <==> ok && source.value in reg.peers
    ensures order.Some? ==> order.value == Replication(source.value, reg.peers[source.value],
                                                       fileName, chunkId, target)
    ensures locate(fileName, chunkId).Some? && Live(reg, alive, locate(fileName, chunkId).value) ==>
              source == locate(fileName, chunkId)
  {
    source := FindPeerWithChunk(reg, peers, plans, fileName, chunkId, alive, locate);
    if source.Some? && source.value != target {
      ok := true;
      order := if source.value in reg.peers
               then Some(Replication(source.value, reg.peers[source.value], fileName, chunkId, target))
               else None;
    } else {
      ok := false;
      order := None;
    }
  }

  /** The chunk ids plan `pl` places on the peer named `failed`. */
  function ChunksOnPeer(pl: Plan, failed: string): set<int32> {
    set c | c in pl.placement && pl.placement[c].name == failed
  }

  /** How many chunks the plans place on `failed`, counted plan by plan. */
  function TotalOnPeer(plans: seq<Plan>, failed: string): nat
    decreases |plans|
  {
    if |plans| == 0 then 0
    else TotalOnPeer(plans[..|plans| - 1], failed) + |ChunksOnPeer(plans[|plans| - 1], failed)|
  }

  /** What recovery may send for a chunk of plan `pl`: a request from a
      registered source other than the target, where the target is the
      replacement chosen for that plan. */
  predicate Planned(o: Replication, reg: Registry, peers: seq<PeerNode>, pl: Plan, failed: string) {
    && o.source in reg.peers && o.endpoint == reg.peers[o.source] && o.source != o.target
    && pl.fileName == o.fileName && o.chunkId in ChunksOnPeer(pl, failed)
    && SelectNewStoragePeer(peers, pl.owner, failed) == Some(o.target)
  }

  /** Chunk `c` of plan `pl` has a replacement target, and the
      chunk-location index names a live registered peer other than that
      target: the source is certain and a request must go out. */
  predicate Recoverable(reg: Registry, peers: seq<PeerNode>, pl: Plan, c: int32, failed: string,
                        alive: PeerNode -> bool, locate: (string, int32) -> Option<string>) {
    && SelectNewStoragePeer(peers, pl.owner, failed).Some?
    && locate(pl.fileName, c).Some? && Live(reg, alive, locate(pl.fileName, c).value)
    && locate(pl.fileName, c).value != SelectNewStoragePeer(peers, pl.owner, failed).value
  }

  /** Some request in `orders` replicates chunk `c` of `fileName`. */
  predicate Ordered(orders: seq<Replication>, fileName: string, c: int32) {
    exists o :: o in orders && o.fileName == fileName && o.chunkId == c
  }

  /** What recovering the failed peer's chunks sends, read from the plans
      alone: every request is one `Planned` for some plan; every
      `Recoverable` chunk gets a request; and when no plan has a
      replacement nothing is sent. */
  predicate Recovered(reg: Registry, peers: seq<PeerNode>, plans: seq<Plan>, failed: string,
                      alive: PeerNode -> bool, locate: (string, int32) -> Option<string>,
                      orders: seq<Replication>) {
    RecoveredUpTo(reg, peers, plans, |plans|, failed, alive, locate, orders)
  }

  /** `Recovered` for the first `n` plans. */
  predicate RecoveredUpTo(reg: Registry, peers: seq<PeerNode>, plans: seq<Plan>, n: nat, failed: string,
                          alive: PeerNode -> bool, locate: (string, int32) -> Option<string>,
                          orders: seq<Replication>)
    requires n <= |plans|
  {
    && (forall o :: o in orders ==> exists i :: 0 <= i < n && Planned(o, reg, peers, plans[i], failed))
    && (forall i, c ::
          (0 <= i < n && c in ChunksOnPeer(plans[i], failed) &&
           Recoverable(reg, peers, plans[i], c, failed, alive, locate)) ==> Ordered(orders, plans[i].fileName, c))
    && ((forall i :: 0 <= i < n ==> SelectNewStoragePeer(peers, plans[i].owner, failed).None?) ==> orders == [])
  }

  /** Adding the requests for plan `n` extends `RecoveredUpTo` by one plan. */
  lemma RecoveredStep(reg: Registry, peers: seq<PeerNode>, plans: seq<Plan>, n: nat, failed: string,
                      alive: PeerNode -> bool, locate: (string, int32) -> Option<string>,
                      orders: seq<Replication>, more: seq<Replication>)
    requires n < |plans| && RecoveredUpTo(reg, peers, plans, n, failed, alive, locate, orders)
    requires forall o :: o in more ==> Planned(o, reg, peers, plans[n], failed)
    requires forall c :: c in ChunksOnPeer(plans[n], failed) && Recoverable(reg, peers, plans[n], c, failed, alive, locate) ==>
               Ordered(more, plans[n].fileName, c)
    requires SelectNewStoragePeer(peers, plans[n].owner, failed).None? ==> more == []
    ensures RecoveredUpTo(reg, peers, plans, n + 1, failed, alive, locate, orders + more)
  {
    var all := orders + more;
    forall o | o in all
      ensures exists i :: 0 <= i < n + 1 && Planned(o, reg, peers, plans[i], failed)
    {
      if o in orders {
        var i :| 0 <= i < n && Planned(o, reg, peers, plans[i], failed);
      } else {
        assert Planned(o, reg, peers, plans[n], failed);
      }
    }
    forall i, c | (0 <= i < n + 1 && c in ChunksOnPeer(plans[i], failed) &&
                   Recoverable(reg, peers, plans[i], c, failed, alive, locate))
      ensures Ordered(all, plans[i].fileName, c)
    {
      if i < n {
        var o :| o in orders && o.fileName == plans[i].fileName && o.chunkId == c;
        assert o in all;
      } else {
        var o :| o in more && o.fileName == plans[i].fileName && o.chunkId == c;
        assert o in all;
      }
    }
  }

  /** The inner loop of `triggerRecoveryForFailedPeer` for one plan: every
      chunk the plan places on the failed peer, in the unspecified order of
      a hash map, gets the plan's replacement and a replication attempt.
      Without a replacement nothing is attempted; otherwise each chunk gets
      at most one request, and every `Recoverable` chunk gets one. */
  method RecoverPlan(reg: Registry, peers: seq<PeerNode>, plans: seq<Plan>, pl: Plan, failed: string,
                     alive: PeerNode -> bool, locate: (string, int32) -> Option<string>)
    returns (orders: seq<Replication>, scheduled: nat)
    ensures |orders| <= scheduled <= |ChunksOnPeer(pl, failed)|
    ensures forall o :: o in orders ==> Planned(o, reg, peers, pl, failed)
    ensures SelectNewStoragePeer(peers, pl.owner, failed).None? ==> orders == [] && scheduled == 0
    ensures forall j, k :: 0 <= j < k < |orders| ==> orders[j].chunkId != orders[k].chunkId
    ensures forall c :: c in ChunksOnPeer(pl, failed) && Recoverable(reg, peers, pl, c, failed, alive, locate) ==>
              Ordered(orders, pl.fileName, c)
  {
    var chunks := ChunksOnPeer(pl, failed);
    var target := SelectNewStoragePeer(peers, pl.owner, failed);
    orders := [];
    scheduled := 0;
    var remaining := chunks;
    while remaining != {}
      invariant remaining <= chunks
      invariant |orders| <= scheduled <= |chunks| - |remaining|
      invariant forall o :: o in orders ==> Planned(o, reg, peers, pl, failed) && o.chunkId !in remaining
      invariant target.None? ==> orders == [] && scheduled == 0
      invariant forall j, k :: 0 <= j < k < |orders| ==> orders[j].chunkId != orders[k].chunkId
      invariant forall c :: c in chunks && c !in remaining && Recoverable(reg, peers, pl, c, failed, alive, locate) ==>
                  Ordered(orders, pl.fileName, c)
      decreases |remaining|
    {
      var c :| c in remaining;
      if target.Some? {
        var _, ok, order := TriggerChunkReplication(reg, peers, plans, pl.fileName, c, target.value,
                                                    alive, locate);
        if ok {
          scheduled := scheduled + 1;
        }
        if order.Some? {
          orders := orders + [order.value];
          assert order.value in orders;
        }
      }
      remaining := remaining - {c};
    }
  }

  /** `triggerRecoveryForFailedPeer`: every plan is visited in turn and
      every chunk it places on the failed peer is counted and attempted.
      The plans are only read. What is sent is `Recovered`: requests only
      for chunks on the failed peer, to the plan's replacement, from a
      registered source other than the target; one for every chunk whose
      source the location index makes certain; none when no plan has a
      replacement. */
  method TriggerRecovery(reg: Registry, peers: seq<PeerNode>, plans: seq<Plan>, failed: string,
                         alive: PeerNode -> bool, locate: (string, int32) -> Option<string>)
    returns (orders: seq<Replication>, scheduled: nat, total: nat)
    ensures total == TotalOnPeer(plans, failed)
    ensures |orders| <= scheduled <= total
    ensures Recovered(reg, peers, plans, failed, alive, locate, orders)
    ensures (forall i :: 0 <= i < |plans| ==> SelectNewStoragePeer(peers, plans[i].owner, failed).None?) ==>
              scheduled == 0
  {
    orders := [];
    scheduled := 0;
    total := 0;
    var i := 0;
    while i < |plans|
      invariant 0 <= i <= |plans|
      invariant total == TotalOnPeer(plans[..i], failed)
      invariant |orders| <= scheduled <= total
      invariant RecoveredUpTo(reg, peers, plans, i, failed, alive, locate, orders)
      invariant (forall k :: 0 <= k < i ==> SelectNewStoragePeer(peers, plans[k].owner, failed).None?) ==>
                  scheduled == 0
    {
      assert plans[..i + 1][..i] == plans[..i];
      total := total + |ChunksOnPeer(plans[i], failed)|;
      var more, done := RecoverPlan(reg, peers, plans, plans[i], failed, alive, locate);
      RecoveredStep(reg, peers, plans, i, failed, alive, locate, orders, more);
      scheduled := scheduled + done;
      orders := orders + more;
      i := i + 1;
    }
    assert plans[..|plans|] == plans;
  }

  // ------------------------------------------------------------ the request

  /** `generateRequestId`: the clock in milliseconds, reduced with Java's
      `%`; a clock reading after the epoch gives an id in [0, 1000000). */
  function GenerateRequestId(millis: int): (r: int)
    ensures millis >= 0 ==> 0 <= r < REQUEST_ID_MODULUS
    ensures -(REQUEST_ID_MODULUS as int) < r < REQUEST_ID_MODULUS
    ensures (millis - r) % REQUEST_ID_MODULUS == 0
  {
    if millis >= 0 then millis % 1_000_000 else 0 - ((0 - millis) % 1_000_000)
  }

  /** The text `sendReplicateRequest` puts in its datagram. */
  function ReplicateRequestText(requestId: int, fileName: string, chunkId: int32,
                                target: string): (r: string)
    ensures r == Join(["REPLICATE_REQ", IntToString(requestId), fileName,
                       IntToString(chunkId), target], " ")
  {
    var id, chunk := IntToString(requestId), IntToString(chunkId);
    JoinCons(chunk, [target], " ");
    JoinCons(fileName, [chunk, target], " ");
    JoinCons(id, [fileName, chunk, target], " ");
    JoinCons("REPLICATE_REQ", [id, fileName, chunk, target], " ");
    "REPLICATE_REQ " + IntToString(requestId) + " " + fileName + " " + IntToString(chunkId) + " " + target
  }

  /** The datagram for one planned replication: its text and the endpoint's
      IP address and UDP port. */
  function ReplicateDatagram(order: Replication, millis: int): (r: (string, string, int32))
    ensures r.1 == order.endpoint.ipAddress && r.2 == order.endpoint.udpPort
    ensures StartsWith(r.0, "REPLICATE_REQ ")
  {
    var text := ReplicateRequestText(GenerateRequestId(millis), order.fileName, order.chunkId, order.target);
    assert text == "REPLICATE_REQ " + (IntToString(GenerateRequestId(millis)) + " " + order.fileName + " " +
                                       IntToString(order.chunkId) + " " + order.target);
    (text, order.endpoint.ipAddress, order.endpoint.udpPort)
  }
}
