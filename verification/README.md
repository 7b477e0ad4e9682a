# P2PBRS in Dafny

P2PBRS is a peer-to-peer backup and restore system. A central server keeps
a registry of peers that join over UDP. It watches their heartbeats and,
when a storage peer falls silent, plans the re-replication of the chunks
that peer held. Owner peers split a file into fixed-size chunks. They ask
the server for a backup plan and send each chunk over TCP to the peer the
plan assigns it to, round-robin. A restore fetches the chunks back and
checks the whole file against its CRC-32.

This project models the sequential decision and format logic of that
system as pure functions over immutable values. The modules are:

- `PeerNodes` (`peer_node.dfy`): the peer record, its setters and its
  name-only identity.
- `Registry` (`registry.dfy`): the server's name-keyed peer map, with
  ordered validation on register, deregister and the two lookups. The
  invariant that registering keeps is the ghost predicate `Valid`.
- `ControlCodec` (`control_codec.dfy`): the UDP control messages. It covers
  the client's `VERB rq arg…` builder, the server's tokenising handlers and
  their replies, and round trips for REGISTER and DE-REGISTER.
- `FailureDetector` (`failure_detector.dfy`): one heartbeat sweep with its
  recovering-peers guard. It also covers replacement-peer selection, source
  lookup over the backup plans and the REPLICATE_REQ datagram.
- `ChunkWindow` (`chunk_window.dfy`): the `readFileChunk` window arithmetic
  in 64-bit terms. The chunks tile the file.
- `ChunkStore` (`chunk_store.dfy`): the `SEND_CHUNK` protocol of
  `TCPClient.sendChunk` and `TCPServer.ChunkHandler`, including the
  acknowledgement mismatch under "## Findings".
- `PeerPlans` (`peer_plans.dfy`): the peer's request counter, plus
  BACKUP_PLAN and RESTORE_PLAN parsing with round trips from the plan text.
  It also holds the `i mod n` routing.
- `PeerStorage` (`peer_storage.dfy`): the peer-side chunk server
  (`handleIncomingChunk`, `handleReplicateChunk`). It covers store, fetch
  and replicate, with store-then-fetch and replication round trips.
- `PeerBackup` (`peer_backup.dfy`): the backup command. It covers the
  3-attempt send, the chunk loop and the abort on a chunk that fails every
  attempt.
- `PeerRestore` (`peer_restore.dfy`): `restoreFileChunks`. It covers the
  abort reasons, the final whole-file check and the proof that a backup
  followed by a restore rebuilds the file.

Supporting modules:

- `Wrappers` holds `Option`/`Result`.
- `JavaText` models `String.split`, `trim`, `startsWith` and `String.join`
  exactly as the JDK defines them.
- `JavaNumbers` models `Integer.parseInt`, `Long.parseLong(_, 16)`,
  `String.valueOf` and `Long.toHexString`, with 32-bit wrap-around.
- `Wire` models UTF-8 encoding, the one-byte-per-character header read and
  line reading.

Things the model cannot see are parameters:

- CRC-32 is a function `crc: seq<byte> -> Crc32`.
- The TCP liveness probe is `alive: PeerNode -> bool`.
- The registry's chunk-location lookup is `locate`.
- The network is a reply function `Network` or `Fetcher`.
- The clock is an `Instant`, which counts nanoseconds, or milliseconds.

Hash-map iteration order is an arbitrary choice (`:|`) wherever the source
iterates a `HashMap` or a `HashSet`.

In "## Left out", bare file names are under `src/main/java/com/P2PBRS/`.

## Model

| member | source | states |
|---|---|---|
| PeerNodes.NewPeerNode | src/main/java/com/P2PBRS/peer/PeerNode.java:17-26 | the constructor keeps name, role, ip, both ports and capacity exactly as given, stamps the registration time with `now`, and the new node has no heartbeat stamp yet |
| PeerNodes.Set | src/main/java/com/P2PBRS/peer/PeerNode.java:36-41 | a setter's field reads back the written value and every other field, the heartbeat stamp included, is unchanged |
| PeerNodes.SetRegisteredAtText | src/main/java/com/P2PBRS/peer/PeerNode.java:43-47 | null or blank text clears the stamp; other text sets it to the parsed instant, and a parse failure is the error outcome; no other field changes |
| PeerNodes.GetRegisteredAt | src/main/java/com/P2PBRS/peer/PeerNode.java:34 | the getter gives null exactly when there is no stamp |
| PeerNodes.BlankClearsRegisteredAt | src/main/java/com/P2PBRS/peer/PeerNode.java:34-47 | after setting the stamp from null or blank text, the getter returns null |
| PeerNodes.IdentityIsTheName | src/main/java/com/P2PBRS/peer/PeerNode.java:36-61 | no setter other than `setName` changes a peer's equality or hash code, since both compare the name only |
| Registry.Register | src/main/java/com/P2PBRS/server/RegistryManager.java:47-70 | succeeds iff the role is valid, fewer than 1000 peers are registered, the name is new and no peer shares the ip with a udp or tcp port; otherwise the first failing check in that order names the error and nothing changes; on success exactly the new peer is added under its name |
| Registry.RegisterPreservesValid | src/main/java/com/P2PBRS/server/RegistryManager.java:51-66 | registering keeps names unique, roles valid, (ip, udp) and (ip, tcp) pairs unique and the size at most 1000 |
| Registry.DuplicateNameKeepsHolder | src/main/java/com/P2PBRS/server/RegistryManager.java:57-59 | registering a taken name fails and leaves the holder of the name in place |
| Registry.Deregister | src/main/java/com/P2PBRS/server/RegistryManager.java:81-93 | an absent name fails with "Name not registered" and no change; otherwise exactly that name is removed and the rest is kept |
| Registry.DeregisterPreservesValid | src/main/java/com/P2PBRS/server/RegistryManager.java:81-93 | deregistering keeps the registry invariant |
| Registry.DeregisterUndoesRegister | src/main/java/com/P2PBRS/server/RegistryManager.java:47-93 | a successful register followed by a deregister of the same name restores the original registry |
| Registry.GetPeer | src/main/java/com/P2PBRS/server/RegistryManager.java:95-102 | a peer is returned iff its name is registered, and it is the registered record |
| Registry.ListPeers | src/main/java/com/P2PBRS/server/RegistryManager.java:72-79 | the list has one entry per registered peer and holds exactly the registered peers; under the invariant no name appears twice |
| Registry.FindPeerByEndpoint | src/main/java/com/P2PBRS/server/RegistryManager.java:104-117 | a returned peer is registered and matches both ip and udp port; nothing is returned iff no peer matches; under the invariant the match is the only one |
| Registry.EndpointIdentifiesPeer | src/main/java/com/P2PBRS/server/RegistryManager.java:104-131 | under the invariant two registered peers at the same (ip, udp) are the same peer |
| ControlCodec.CommandText | src/main/java/com/P2PBRS/peer/UDPClient.java:48-53 | the datagram is the command, the request number and each argument, with null as empty, separated by single spaces |
| ControlCodec.ReplyText | src/main/java/com/P2PBRS/peer/UDPClient.java:31-46 | a received reply is passed on as is; a receive timeout gives the fixed timeout text instead of an exception, and that text starts with ERROR and with none of REGISTERED, BACKUP_PLAN or RESTORE_PLAN, so no caller takes it for the reply it waits for |
| ControlCodec.RegisterText | src/main/java/com/P2PBRS/peer/UDPClient.java:55-67 | REGISTER carries name, role, ip, udp, tcp and capacity in that order |
| ControlCodec.DeregisterText | src/main/java/com/P2PBRS/peer/UDPClient.java:69-72 | DE-REGISTER carries the request number and the name |
| ControlCodec.BackupReqText | src/main/java/com/P2PBRS/peer/UDPClient.java:74-84 | BACKUP_REQ carries file name, size, checksum and chunk size in that order |
| ControlCodec.BackupDoneText | src/main/java/com/P2PBRS/peer/UDPClient.java:86-89 | BACKUP_DONE carries the request number and the file name, and a one-word file name splits back out as the third token |
| ControlCodec.ParseRegister | src/main/java/com/P2PBRS/server/ClientHandler.java:57-80 | fewer than 8 tokens is malformed; it parses iff the two ports and the capacity are Java ints, and the fields are the tokens at their positions |
| ControlCodec.ProcessRegister | src/main/java/com/P2PBRS/server/ClientHandler.java:57-88 | a parse error is returned with the registry untouched; otherwise the registry decides on a new node for the parsed fields; success replies exactly `REGISTERED rq name` and files a node with no heartbeat stamp; a refusal replies exactly the registry's message followed by the request token and the name |
| ControlCodec.ProcessDeregister | src/main/java/com/P2PBRS/server/ClientHandler.java:90-104 | fewer than 3 tokens is malformed with no change; otherwise the name is deregistered and the reply echoes the request token |
| ControlCodec.ProcessMessage | src/main/java/com/P2PBRS/server/ClientHandler.java:32-39 | dispatch by prefix: REGISTER, then DE-REGISTER, else the unknown-command error with no change |
| ControlCodec.ProcessMessagePreservesValid | src/main/java/com/P2PBRS/server/ClientHandler.java:32-104 | no control message can break the registry invariant |
| ControlCodec.RegisterRoundTrip | src/main/java/com/P2PBRS/server/ClientHandler.java:59-81 | parsing what the client sends for a peer with non-empty, whitespace-free fields recovers the request number and all six fields |
| ControlCodec.RegisterRequestReachesRegistry | src/main/java/com/P2PBRS/server/ClientHandler.java:57-88 | the server registers exactly the peer the client described, registered now and with no heartbeat stamp, and the reply is REGISTERED with the client's request number and name, or the registry's error |
| ControlCodec.DeregisterRoundTrip | src/main/java/com/P2PBRS/server/ClientHandler.java:90-104 | the client's DE-REGISTER is split into exactly its three tokens and deregisters that name |
| ControlCodec.CapacityWithUnitIsRejected | src/tests/TestClient.java:8 | the sample REGISTER with capacity "1024MB" gets the invalid-numeric error and leaves the registry as it was |
| ControlCodec.DeregisterWithoutNameIsMalformed | src/tests/TestClient.java:15 | "DE-REGISTER 01" is malformed and changes nothing |
| FailureDetector.ExpiredIff | src/main/java/com/P2PBRS/server/HeartbeatHandler.java:46-49 | more than 10 whole elapsed seconds means at least 11 seconds have passed |
| FailureDetector.Check | src/main/java/com/P2PBRS/server/HeartbeatHandler.java:39-55 | a node fails iff it already carried a heartbeat stamp, that stamp is more than 10 whole seconds old and its name is not recovering; a node without a stamp gets `now` and a stamped node is left as it was |
| FailureDetector.FreshPeerSurvives | src/main/java/com/P2PBRS/server/HeartbeatHandler.java:41-44 | a node with no stamp is stamped now and does not fail in that check |
| FailureDetector.ReregisteredPeerSurvives | src/main/java/com/P2PBRS/server/HeartbeatHandler.java:39-55 | a failed peer that is deregistered and registers again is filed as a new node without a stamp, so the first check does not fail it even though its old node would have failed |
| FailureDetector.RecoveringBlocksRetrigger | src/main/java/com/P2PBRS/server/HeartbeatHandler.java:50-55 | a node whose name is recovering is never declared failed, however old its stamp |
| FailureDetector.Cooldown | src/main/java/com/P2PBRS/server/HeartbeatHandler.java:123-131 | the cooldown removes exactly that name from the recovering set and keeps every other name |
| FailureDetector.CooldownReenables | src/main/java/com/P2PBRS/server/HeartbeatHandler.java:123-131 | after the cooldown a node whose stamp is still expired is declared failed again |
| FailureDetector.SweepStep | src/main/java/com/P2PBRS/server/HeartbeatHandler.java:37-64 | a node fails exactly as Check says; a failed one joins the recovering set, is deregistered, and the requests sent for it are the recovery of its chunks planned against the registry listing; a live one sends nothing, keeps every name and only gets the stamp it lacked; the registry invariant is kept |
| FailureDetector.Sweep | src/main/java/com/P2PBRS/server/HeartbeatHandler.java:30-74 | a sweep only removes nodes and changes a kept node only by giving it the stamp it lacked; it keeps the registry invariant; afterwards every kept node is stamped; the recovering set only grows; a removed node was not recovering before and is after, and under the invariant it had a stamp that had expired at one of the sweep's clock readings, so a node first stamped in this sweep is never removed by it |
| FailureDetector.BestCandidate | src/main/java/com/P2PBRS/server/HeartbeatHandler.java:134-159 | the first candidate of greatest capacity, or none iff there is no candidate |
| FailureDetector.SelectNewStoragePeer | src/main/java/com/P2PBRS/server/HeartbeatHandler.java:134-159 | none iff no peer other than owner and failed peer is STORAGE/BOTH with positive capacity; otherwise a candidate of maximal capacity |
| FailureDetector.ReplacementIsFresh | src/main/java/com/P2PBRS/server/HeartbeatHandler.java:140-146 | the replacement is neither the failed peer nor the owner |
| FailureDetector.FindFileOwner | src/main/java/com/P2PBRS/server/HeartbeatHandler.java:281-289 | the owner named by the first plan for the file, with no earlier plan for it, or none iff no plan names the file |
| FailureDetector.FindAllPeersWithChunk | src/main/java/com/P2PBRS/server/HeartbeatHandler.java:262-279 | exactly the holders of that chunk in plans for that file, without the excluded peer |
| FailureDetector.FindAlternativeStoragePeer | src/main/java/com/P2PBRS/server/HeartbeatHandler.java:225-260 | never the excluded peer; a live registered holder when there is one; a fallback is never the owner; none iff neither exists |
| FailureDetector.FindPeerWithChunk | src/main/java/com/P2PBRS/server/HeartbeatHandler.java:181-223 | the chunk-location index's peer when it is registered and alive; otherwise the first plan for the file that places the chunk decides: its holder when alive, never that holder when not, and none when no plan places it |
| FailureDetector.TriggerChunkReplication | src/main/java/com/P2PBRS/server/HeartbeatHandler.java:161-179 | succeeds iff a source was found and differs from the target; a request is sent iff the source is registered, to the source's endpoint |
| FailureDetector.RecoverPlan | src/main/java/com/P2PBRS/server/HeartbeatHandler.java:88-118 | at most the chunks the plan places on the failed peer are attempted, each at most once; every request goes to the plan's replacement from a registered source other than the target; every chunk whose location-index holder is live and not the target gets a request; without a replacement nothing is attempted |
| FailureDetector.TriggerRecovery | src/main/java/com/P2PBRS/server/HeartbeatHandler.java:76-132 | the total counted is the number of chunks all plans place on the failed peer; every request comes from a plan that placed that chunk on the failed peer; every chunk whose source the location index makes certain gets a request; when no plan has a replacement nothing is scheduled or sent |
| FailureDetector.RecoveredStep | src/main/java/com/P2PBRS/server/HeartbeatHandler.java:76-118 | the requests of one more plan, each planned for it and covering its certain chunks, extend the recovery of the plans before it |
| FailureDetector.GenerateRequestId | src/main/java/com/P2PBRS/server/HeartbeatHandler.java:334-336 | for a clock after the epoch the id lies in [0, 1000000) and is congruent to the clock |
| FailureDetector.ReplicateRequestText | src/main/java/com/P2PBRS/server/HeartbeatHandler.java:312-313 | REPLICATE_REQ carries id, file, chunk and target in that order |
| FailureDetector.ReplicateDatagram | src/main/java/com/P2PBRS/server/HeartbeatHandler.java:304-332 | the datagram goes to the source peer's ip and udp port and starts with REPLICATE_REQ |
| ChunkWindow.WindowStart | src/main/java/com/P2PBRS/peer/TCPClient.java:45 | the product of two ints always fits a long, so the 64-bit start is the exact product |
| ChunkWindow.ReadFileChunk | src/main/java/com/P2PBRS/peer/TCPClient.java:43-68 | empty past the end; a negative size or start is the matching Java exception; a zero size inside the file reads nothing; otherwise the bytes from the start, between 1 and chunkSize of them, a short read only at the end of the file |
| ChunkWindow.AssembleIsPrefix | src/main/java/com/P2PBRS/peer/TCPClient.java:45-59 | the first k chunks concatenated are the file's first k·chunkSize bytes |
| ChunkWindow.ChunksTileFile | src/main/java/com/P2PBRS/peer/TCPClient.java:45-64 | chunks 0 … ceil(F/C)−1 are non-empty and concatenate to the file; higher ids are empty |
| ChunkStore.ChunkChecksum | src/main/java/com/P2PBRS/peer/TCPClient.java:37-41 | the checksum text is one ASCII word that parses back, as hex, to the CRC |
| ChunkStore.ParseSendChunk | src/main/java/com/P2PBRS/peer/TCPServer.java:66-76 | invalid command iff fewer than 6 space-separated fields or the verb is not SEND_CHUNK; a number error iff the shape is right but the request number, chunk id or size is no int; otherwise the fields by position |
| ChunkStore.HandleHeader | src/main/java/com/P2PBRS/peer/TCPServer.java:79-124 | the order is size, completeness, checksum, store; a chunk is stored iff all pass and the store succeeds, and then the bytes stored are the announced size and CHUNK_OK is sent; a failed store after the checks gets the storage-failed error; a negative size gets no reply; any reply sent is a non-empty line starting with `C` |
| ChunkStore.HandleChunk | src/main/java/com/P2PBRS/peer/TCPServer.java:55-135 | on a connection whose client shuts its output after the chunk: no header gives no reply; invalid command iff the header is malformed, with nothing stored; a stored chunk is always acknowledged and announced |
| ChunkStore.SendChunkHeaderParses | src/main/java/com/P2PBRS/peer/TCPClient.java:8-35 | the server reads back the header the client writes: request number, file, chunk, length and checksum |
| ChunkStore.StoreExchange | src/main/java/com/P2PBRS/peer/TCPServer.java:55-135 | a client's chunk reaching the server is stored under chunks/file/chunk_id and acknowledged in a form the corrected ack test accepts |
| ChunkStore.AsWrittenRejectsEveryStore | src/main/java/com/P2PBRS/peer/TCPClient.java:24-29 | the client's test refuses the server's success reply for every chunk |
| ChunkStore.ChunkAckedRejectsChunkError | src/main/java/com/P2PBRS/peer/TCPServer.java:87-124 | no CHUNK_ERROR reply passes the corrected ack test |
| ChunkStore.ChunkAckedRejectsInvalidCommand | src/main/java/com/P2PBRS/peer/TCPServer.java:66-70 | the invalid-command reply does not pass the corrected ack test |
| ChunkStore.ReadPayload | src/main/java/com/P2PBRS/peer/TCPServer.java:79-85 | the payload loop blocks for ever iff fewer than `size` bytes are on the stream and the client has not shut its output; otherwise it has the first `size` bytes, or all there are |
| ChunkStore.ReadAheadLosesPayload | src/main/java/com/P2PBRS/peer/TCPServer.java:57-85 | when the reader buffered payload bytes past the header and the client shuts its output after the chunk, a full chunk is reported incomplete and nothing is stored |
| ChunkStore.ReadAheadHangs | src/main/java/com/P2PBRS/peer/TCPServer.java:57-85 | when the reader buffered payload bytes past the header and the client keeps its output open, as `TCPClient.sendChunk` does, the payload loop blocks for ever |
| ChunkStore.UnbufferedPayloadArrives | src/main/java/com/P2PBRS/peer/TCPServer.java:79-85 | read right after the header line, the loop has exactly the client's bytes, whether or not the client shuts its output |
| ChunkStore.HandleChunkUnbuffered | src/main/java/com/P2PBRS/peer/TCPServer.java:55-124 | with the payload read right after the header line, a parsed chunk is stored iff it is complete, its checksum matches and the store succeeds, and what is stored is exactly the announced number of bytes after the header |
| PeerPlans.NextRequest | src/main/java/com/P2PBRS/peer/PeerMain.java:815-817 | returns the counter and advances it by one, wrapping at the int maximum |
| PeerPlans.IssuedIncrease | src/main/java/com/P2PBRS/peer/PeerMain.java:815-817 | successive request numbers strictly increase while the counter does not wrap |
| PeerPlans.ParseEntry | src/main/java/com/P2PBRS/peer/PeerMain.java:277-304 | a trimmed entry with exactly 3 colon parts is an endpoint, or a crash when the port is no int; anything else is a name only |
| PeerPlans.EntryRoundTrip | src/main/java/com/P2PBRS/peer/PeerMain.java:277-304 | a `name:ip:port` entry parses back to its three parts |
| PeerPlans.BackupEntries | src/main/java/com/P2PBRS/peer/PeerMain.java:277-304 | endpoint entries fill both address maps, others add a name, and a bad port anywhere crashes the command |
| PeerPlans.PlanChunkSize | src/main/java/com/P2PBRS/peer/PeerMain.java:309-319 | the chunk size is the last token after the list when it is an int, else the requested size |
| PeerPlans.ParseBackupPlan | src/main/java/com/P2PBRS/peer/PeerMain.java:265-320 | a reply that is not a BACKUP_PLAN changes nothing; without brackets no peer is assigned; known peers stay known |
| PeerPlans.BackupPlanRoundTrip | src/main/java/com/P2PBRS/peer/PeerMain.java:265-320 | parsing a BACKUP_PLAN text recovers the peers in order, files every one's address, and takes the plan's chunk size |
| PeerPlans.RouteIndex | src/main/java/com/P2PBRS/peer/PeerMain.java:350 | chunk i goes to peer i mod n, and there is no peer iff n is 0 |
| PeerPlans.RouteRoundRobin | src/main/java/com/P2PBRS/peer/PeerMain.java:350 | routing repeats every n chunks and moves to the next peer for the next chunk |
| PeerPlans.RestoreEntries | src/main/java/com/P2PBRS/peer/PeerMain.java:438-447 | only endpoint entries are kept for the restore, each as its parts joined by `:`; it crashes iff some entry has a non-numeric port, and then the first such entry's ip has already been filed under its name; known peers stay known |
| PeerPlans.ParseRestorePlan | src/main/java/com/P2PBRS/peer/PeerMain.java:414-468 | a reply that is not a RESTORE_PLAN is ignored; missing brackets learn nothing; a plan's chunk size, chunk count and checksum are the first three fields after the list, the first two as ints; known peers stay known |
| PeerPlans.RestorePlanRoundTrip | src/main/java/com/P2PBRS/peer/PeerMain.java:414-468 | parsing a RESTORE_PLAN text recovers the entries, chunk size, chunk count and checksum |
| PeerStorage.ChunkPathInjective | src/main/java/com/P2PBRS/peer/PeerMain.java:557 | distinct (file, chunk) pairs are stored at distinct paths |
| PeerStorage.Stored | src/main/java/com/P2PBRS/peer/PeerMain.java:633-638 | the chunk is written at its path, every other file is kept, and the stored count rises by one |
| PeerStorage.ParseTransfer | src/main/java/com/P2PBRS/peer/PeerMain.java:587-597 | the header parses iff chunk id and size are ints and the checksum is a hex long, and then the transfer holds the file name, the two ints and the checksum value read from their fields |
| PeerStorage.ReceiveChunk | src/main/java/com/P2PBRS/peer/PeerMain.java:603-646 | a reply is sent iff the size is covered by the payload and the CRC matches; without a reply nothing is stored |
| PeerStorage.ServeChunk | src/main/java/com/P2PBRS/peer/PeerMain.java:546-581 | fewer than 4 fields gives nothing; when the request number and chunk id parse there is always an answer: the CHUNK_DATA header with the stored bytes and their CRC, or with ERROR when the chunk is not on disk |
| PeerStorage.HandleIncomingChunk | src/main/java/com/P2PBRS/peer/PeerMain.java:521-653 | an empty header does nothing; a fetch never changes storage; without a reply nothing is stored |
| PeerStorage.OneChunkPerConnection | src/main/java/com/P2PBRS/peer/PeerMain.java:587-646 | one connection stores at most one chunk |
| PeerStorage.StoreAccepted | src/main/java/com/P2PBRS/peer/PeerMain.java:587-646 | a well-formed store is written and acknowledged with CHUNK_OK and its chunk id |
| PeerStorage.TruncatedStoreIgnored | src/main/java/com/P2PBRS/peer/PeerMain.java:603-612 | a stream shorter than the announced size stores nothing and sends no reply |
| PeerStorage.CorruptedStoreIgnored | src/main/java/com/P2PBRS/peer/PeerMain.java:617-630 | a payload whose CRC differs stores nothing and sends no reply |
| PeerStorage.StoreThenFetch | src/main/java/com/P2PBRS/peer/PeerMain.java:546-646 | a chunk fetched after it was stored comes back byte for byte with its CRC |
| PeerStorage.ReplicateRequest | src/main/java/com/P2PBRS/peer/PeerMain.java:919-979 | a replication is sent iff the chunk is on disk |
| PeerStorage.ReplicationRoundTrip | src/main/java/com/P2PBRS/peer/PeerMain.java:981-1040 | replicating a stored chunk stores the same bytes at the same path on the target and the sender sees REPLICATE_OK |
| PeerStorage.SendChunkIgnoredByPeer | src/main/java/com/P2PBRS/peer/PeerMain.java:587-597 | TCPClient's SEND_CHUNK sent to a peer stores nothing and gets no reply |
| PeerStorage.PeerStoreRejectedByChunkServer | src/main/java/com/P2PBRS/peer/TCPServer.java:66-70 | the peer-to-peer store header sent to the chunk server is refused as an invalid command |
| PeerBackup.SendWithRetry | src/main/java/com/P2PBRS/peer/PeerMain.java:354-398 | 1 to 3 attempts; sent iff some attempt's reply starts with CHUNK_OK, which is then the last attempt; a failure used all 3 |
| PeerBackup.ChunkNonEmpty | src/main/java/com/P2PBRS/peer/PeerMain.java:340-348 | a chunk is non-empty iff its index is below the chunk count |
| PeerBackup.Target | src/main/java/com/P2PBRS/peer/PeerMain.java:350-353 | chunk i goes to the i mod n-th assigned peer at the address the plan gave it |
| PeerBackup.SendChunk | src/main/java/com/P2PBRS/peer/PeerMain.java:350-398 | sending chunk i succeeds iff it is delivered to its target within 3 attempts |
| PeerBackup.SendChunks | src/main/java/com/P2PBRS/peer/PeerMain.java:340-409 | aborts iff the size is negative or there are chunks but no peers; a finished loop delivered every chunk of the file; giving up stops at the first undelivered chunk |
| PeerBackup.BackupCommand | src/main/java/com/P2PBRS/peer/PeerMain.java:231-413 | fails iff the plan crashed or the loop aborted; ends the command iff connection info is missing; otherwise BACKUP_DONE takes the next request number; a finished loop delivered every chunk of the file, and a loop that gave up delivered every chunk before the one it stopped at and not that one |
| PeerBackup.ChunkStoredAndAcked | src/main/java/com/P2PBRS/peer/PeerMain.java:369-390 | a peer running the handler stores chunk i under its path and answers with an acknowledgement the loop accepts |
| PeerBackup.HealthyPeersTakeEveryChunk | src/main/java/com/P2PBRS/peer/PeerMain.java:340-409 | when every first attempt reaches a handler, every chunk is delivered |
| PeerRestore.ChunkWord | src/main/java/com/P2PBRS/peer/PeerMain.java:703-738 | the missing and not-found reasons are `Chunk_` followed by the chunk id, `_` and the word, and the id parses back from the digits after `Chunk_` |
| PeerRestore.ReasonsDistinct | src/main/java/com/P2PBRS/peer/PeerMain.java:703-768 | two abort reasons are equal iff they have the same cause and, except for the id-free mismatch reason, the same chunk |
| PeerRestore.FinalReasonDistinct | src/main/java/com/P2PBRS/peer/PeerMain.java:792-797 | the final mismatch reason differs from every per-chunk reason |
| PeerRestore.ChunkStep | src/main/java/com/P2PBRS/peer/PeerMain.java:685-768 | a network error iff the peer did not answer; an answer with an empty header line is missing and one not starting with CHUNK_DATA is an invalid response; a received chunk is the data after the header |
| PeerRestore.ReadChunkData | src/main/java/com/P2PBRS/peer/PeerMain.java:701-752 | each reason is chosen iff its check is the first to fail: missing iff the header is empty, invalid response iff it does not start with CHUNK_DATA, malformed iff fewer than 5 fields, mismatched iff the chunk id parses but file or id differ, not-found iff it names the chunk with ERROR; otherwise a non-numeric id or checksum or a negative size escapes, a zero size hangs, and only a named chunk with a hex checksum and a positive size is received |
| PeerRestore.ReadChunkFields | src/main/java/com/P2PBRS/peer/PeerMain.java:715-752 | on the split header: malformed iff fewer than 5 fields, mismatched iff the id parses but file or id differ, not-found iff it names the chunk with ERROR, received iff it names the chunk with a hex checksum and a positive size, escape iff the id is no int or a named chunk has a non-hex checksum or a negative size |
| PeerRestore.ReadChecksum | src/main/java/com/P2PBRS/peer/PeerMain.java:734-752 | ERROR in any letter case means not-found; otherwise the transfer escapes iff the field is not hex or the size is negative, hangs iff the size is 0, and receives iff the field is hex and the size positive |
| PeerRestore.ErrorAnswer | src/main/java/com/P2PBRS/peer/PeerMain.java:734-738 | a CHUNK_DATA reply with ERROR aborts as not-found |
| PeerRestore.AbsentChunkNotFound | src/main/java/com/P2PBRS/peer/PeerMain.java:546-564 | asking a peer for a chunk it lacks aborts the restore as not-found |
| PeerRestore.ServedChunkReceived | src/main/java/com/P2PBRS/peer/PeerMain.java:566-578 | asking a peer for a chunk it holds receives exactly the stored bytes |
| PeerRestore.FinalVerdict | src/main/java/com/P2PBRS/peer/PeerMain.java:775-800 | the whole-file check fails iff an expected CRC is known and differs; no expected CRC means success |
| PeerRestore.Remember | src/main/java/com/P2PBRS/peer/PeerMain.java:665-673 | a parsable checksum is remembered for the file; an unparsable one leaves the map as it was |
| PeerRestore.Advance | src/main/java/com/P2PBRS/peer/PeerMain.java:676-768 | no peers, or an entry with fewer than three parts or a non-numeric port, escapes without taking a request number; a port outside 0..65535 escapes too, since `new Socket` throws an uncaught IllegalArgumentException; a chunk fetched or reported always had a valid endpoint, a fetched chunk takes one request number, and a report names chunk k |
| PeerRestore.RestoreFrom | src/main/java/com/P2PBRS/peer/PeerMain.java:676-800 | written bytes only grow; a chunk failure names a chunk still to be fetched; any other report is the whole-file check on exactly the bytes written |
| PeerRestore.RestoreFileChunks | src/main/java/com/P2PBRS/peer/PeerMain.java:655-813 | the remembered checksum is the plan's; a chunk failure names a chunk of the file; a final verdict follows all chunks |
| PeerRestore.ChunkCrcIgnored | src/main/java/com/P2PBRS/peer/PeerMain.java:754-762 | a per-chunk CRC mismatch decides nothing: the same bytes are written and the run ends the same way up to the final check |
| PeerRestore.EndpointRoundTrip | src/main/java/com/P2PBRS/peer/PeerMain.java:678-681 | a `name:ip:port` entry gives back the peer's name, ip and port |
| PeerRestore.SameRoute | src/main/java/com/P2PBRS/peer/PeerMain.java:678-685 | restore asks for chunk k at the address the backup sent it to |
| PeerRestore.RestoreRebuildsFile | src/main/java/com/P2PBRS/peer/PeerMain.java:655-813 | when every chunk is served as stored, the restored file is the file, RESTORE_OK is reported and the file's CRC is remembered |
| JavaNumbers.IntToStringParses | src/main/java/com/P2PBRS/server/ClientHandler.java:73-79 | every int printed by the client parses back with Integer.parseInt |
| JavaNumbers.HexRoundTrip | src/main/java/com/P2PBRS/peer/PeerMain.java:366 | a 32-bit CRC printed with Long.toHexString parses back with Long.parseLong(_, 16) |
| JavaText.SplitWsJoin | src/main/java/com/P2PBRS/server/ClientHandler.java:59 | splitting on whitespace runs recovers non-empty, whitespace-free tokens joined by single spaces |
| Wire.LineRoundTrip | src/main/java/com/P2PBRS/peer/PeerMain.java:528-538 | the header loop reads back an ASCII line and leaves the payload that follows it intact |

## Left out

- Sockets, threads, the jline command loop and startup argument parsing are not part of this model. That includes `Main.java`, `ServerMain.java`, `UDPServer.java` and `HeartbeatSender.java`. Sockets are byte sequences and reply functions.
- The registry's YAML `persist`/`loadFromDisk` and its read-write lock are left out. Each registry operation is one atomic step.
- Wall-clock time and `Thread.sleep` are parameters. The 30-second cooldown thread is modelled by its effect only (`FailureDetector.Cooldown`).
- `isPeerActuallyAlive` is the parameter `alive`. The TCP probe has no model.
- `registry.findPeerWithChunk`, `removeChunkLocationsForPeer` and `PeerNode.get/setLastTimestamp` are called but not defined in the repository. The first is the parameter `locate`. The second is not modelled. The third is the field `PeerNode.lastTimestamp`, which a new node starts without.
- `ClientHandler.BackupManager` is not part of the repository. Plans are a sequence of `Plan(owner, fileName, placement)` in the order the plans map yields them.
- CRC-32 (`java.util.zip.CRC32`) is the parameter `crc`. The polynomial is not modelled.
- `sendChunkOk` and `sendChunkError` appear only as the notice the chunk server decides to send. Their messages are not modelled.
- UDPClient has no `sendRestoreReq`, `sendRestoreDone`, `sendRestoreFailed` or `sendReplicateReq`. The texts of those datagrams are therefore not modelled. The restore models which outcome is reported and the request numbers it takes.
- `processReplicateReq` (PeerMain.java:867-917) is left out. It only forwards a REPLICATE_REQ to `replicateChunkToPeer`, which is modelled.
- Disk-write failures in PeerMain's handlers are left out. A write that throws ends the handler without a reply, like a CRC mismatch.
- Paths are compared as text. There is no path normalisation.
- The restore's `Final_Checksum_Computation_Error` path (PeerMain.java:803-807) needs a failing file read, which the model does not have.
- FailureDetector.RecoverPlan and FailureDetector.TriggerRecovery: a request is promised only for chunks whose source is certain (the location index names a live peer other than the target). When the source comes from the plans or the fallback search, only what may be sent is constrained.
- FailureDetector.FindPeerWithChunk: when the plan's holder is down, the contract only says the answer is not that holder. What the alternative search returns is stated by FindAlternativeStoragePeer's own contract.
- PeerRestore.ChunkStep: a fetch is all-or-nothing. A stream that breaks midway is a network error with nothing written; the source writes the bytes read before the break.
- ChunkWindow.ReadFileChunk: the file is assumed to read in full. The short-read `IOException` of a file shrinking under the reader is not modelled.
- PeerStorage.StoreThenFetch, PeerStorage.ReplicationRoundTrip, PeerBackup.HealthyPeersTakeEveryChunk and PeerRestore.RestoreRebuildsFile: file names must be ASCII words without spaces (`Token`). Other names do not survive the space-split header.
- PeerBackup.BackupCommand: the chunk count must fit an int, as `int chunkId` in the loop requires. Files of more than 2^31 − 1 chunks are not covered.
- PeerPlans.NextRequest: the counter is `synchronized` in the source. Concurrent backups are not modelled.
- An exception that escapes a command is caught by the command loop (PeerMain.java:499-501). The model records this as `CommandFailed` or `Escaped` and does not model what follows.
- ChunkStore.HandleChunk: the end of the stream is assumed to come right after the client's bytes, as if the client shut its output. `TCPClient.sendChunk` keeps its output open while it waits for the reply; what the payload loop then does is stated by ChunkStore.ReadPayload and ChunkStore.ReadAheadHangs, not by HandleChunk.
- PeerPlans.ParseBackupPlan, PeerPlans.ParseRestorePlan, PeerPlans.BackupPlanRoundTrip and PeerPlans.RestorePlanRoundTrip: `UDPClient.sendAndReceive` receives into a 4096-byte buffer (UDPClient.java:38), so a longer REGISTERED, BACKUP_PLAN or RESTORE_PLAN reply reaches the parser cut short. The model parses the whole reply text; the round trips hold only for replies of at most 4096 bytes.
- Characters outside ASCII: `Wire.Encode` is UTF-8, but the byte-per-character header read is only proved to round-trip ASCII lines. Numbers are parsed from ASCII digits only (`JavaNumbers.ParseInt`, `JavaNumbers.ParseLongHex`); `Integer.parseInt` and `Long.parseLong` also accept the other Unicode decimal digits that `Character.digit` knows, and in radix 16 the full-width Latin letters.

## Findings

| source | as written | input that shows it | evidently intended | confidence | as-written member | corrected member |
|---|---|---|---|---|---|---|
| src/main/java/com/P2PBRS/peer/TCPClient.java:24-29 | `sendChunk` succeeds only if the trimmed reply equals `CHUNK_OK <rq>`, but `TCPServer`, the chunk server written as its counterpart, replies `CHUNK_OK <rq> <file> <chunk>` (TCPServer.java:115). Neither class is used anywhere in this version of the repository (peers serve chunks with `PeerMain.handleIncomingChunk`), so the mismatch is between two protocol classes meant to be paired | any chunk the server stores, e.g. rq 1, file `a`, chunk 0: reply `CHUNK_OK 1 a 0` | accept the server's success reply: `CHUNK_OK <rq>` alone or followed by a space and the rest | not executed | ChunkStore.AsWrittenRejectsEveryStore | ChunkStore.StoreExchange |
| src/main/java/com/P2PBRS/peer/TCPServer.java:57-85 | the header is read through a `BufferedReader`, but the payload is read from the raw socket stream; whatever the reader buffered past the header line is gone. With `TCPClient.sendChunk`, which keeps its output open and waits for the reply, the payload loop never reaches `size` and blocks for ever, and so does the client, as no socket timeout is set (ChunkStore.ReadAheadHangs). Only a client that shuts its output after the chunk gets the `Incomplete_Data` reply (ChunkStore.ReadAheadLosesPayload) | any SEND_CHUNK whose payload arrives with its header, e.g. a 4-byte chunk the reader takes along with the line | the payload is read right after the header line, from the same stream, so it arrives whether or not the client shuts its output (ChunkStore.UnbufferedPayloadArrives) | not executed | ChunkStore.ReadAheadHangs | ChunkStore.HandleChunkUnbuffered |
