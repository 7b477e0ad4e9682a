/** The chunk transfer of the agent's `backup` command (`PeerMain`): once
    the plan is parsed and every assigned peer's address is known, the file
    is cut into windows of the plan's chunk size, chunk `i` goes to the
    `i mod n`-th assigned peer with up to three attempts, the loop stops at
    the first chunk no attempt got acknowledged, and `BACKUP_DONE` follows.
    The connections are the parameter `net`. */
module PeerBackup {
  import opened Wrappers
  import opened JavaText
  import opened JavaNumbers
  import opened Wire
  import opened ChunkWindow
  import opened PeerPlans
  import opened PeerStorage

  /** One TCP connection to a storage peer: given its address, the bytes
      written and the attempt number (1 to 3), the bytes it answered with,
      or `None` when connecting, writing or waiting for the answer failed or
      timed out. */
  type Network = (string, int32, seq<byte>, nat) -> Option<seq<byte>>

  /** The acknowledgement test: the first line, as `Scanner.nextLine`
      returns it (untrimmed), starts with `CHUNK_OK`. */
  predicate AckOk(reply: Option<seq<byte>>) {
    reply.Some? && ReadLine(reply.value).Some? && StartsWith(ReadLine(reply.value).value.0, "CHUNK_OK")
  }

  /** One of the three attempts is acknowledged. */
  predicate Delivered(ip: string, port: int32, request: seq<byte>, net: Network) {
    exists a :: 1 <= a <= 3 && AckOk(net(ip, port, request, a))
  }

  /** The retry loop: attempt after attempt until one is acknowledged or
      three have been made. */
  method SendWithRetry(ip: string, port: int32, request: seq<byte>, net: Network) returns (sent: bool, attempts: nat)
    ensures 1 <= attempts <= 3
    ensures sent <==> Delivered(ip, port, request, net)
    ensures sent ==> AckOk(net(ip, port, request, attempts))
    ensures forall a :: 1 <= a < attempts ==> !AckOk(net(ip, port, request, a))
    ensures !sent ==> attempts == 3
  {
    sent := false;
    attempts := 0;
    while !sent && attempts < 3
      invariant 0 <= attempts <= 3
      invariant sent ==> 1 <= attempts && AckOk(net(ip, port, request, attempts))
      invariant forall a :: 1 <= a < attempts ==> !AckOk(net(ip, port, request, a))
      invariant !sent ==> forall a :: 1 <= a <= attempts ==> !AckOk(net(ip, port, request, a))
    {
      attempts := attempts + 1;
      sent := AckOk(net(ip, port, request, attempts));
    }
  }

  /** What the loop works from: the file's name and contents, the request
      counter's value when the loop runs (every chunk header carries it),
      the plan's chunk size, its peers and the address book. */
  datatype BackupJob = BackupJob(fileName: string, file: seq<byte>, rq: int32, chunkSize: int32,
                                 peers: seq<string>, book: PeerBook)

  /** The chunks the loop can number with an `int`. */
  predicate Numbered(job: BackupJob) {
    job.chunkSize <= 0 || ChunkCount(|job.file|, job.chunkSize) <= INT_MAX
  }

  /** Chunk `i`: the `i`-th window of the file, empty past its end. */
  function Chunk(job: BackupJob, i: nat): (r: seq<byte>)
    requires job.chunkSize > 0 && i <= INT_MAX
    ensures |r| <= job.chunkSize
  {
    MulMonotone(0, i, job.chunkSize as int);
    ReadFileChunk(job.file, i as int32, job.chunkSize).value
  }

  /** The windows before the chunk count are the non-empty ones. */
  lemma ChunkNonEmpty(job: BackupJob, i: nat)
    requires job.chunkSize > 0 && Numbered(job) && i <= ChunkCount(|job.file|, job.chunkSize)
    ensures |Chunk(job, i)| > 0 <==> i < ChunkCount(|job.file|, job.chunkSize)
    ensures ChunkCount(|job.file|, job.chunkSize) == 0 <==> |job.file| == 0
  {
    ChunksTileFile(job.file, job.chunkSize);
    var id: int32 := i;
    assert Chunk(job, i) == ReadFileChunk(job.file, id, job.chunkSize).value;
  }

  /** Putting the chunks back together gives the file. */
  lemma ChunksAssemble(job: BackupJob)
    requires job.chunkSize > 0 && Numbered(job)
    ensures Assemble(job.file, job.chunkSize, ChunkCount(|job.file|, job.chunkSize)) == job.file
  {
    ChunksTileFile(job.file, job.chunkSize);
  }

  /** The peer that gets chunk `i` (`assignedPeers.get(chunkId % size)`)
      and its address. */
  function Target(job: BackupJob, i: nat): (r: (string, string, int32))
    requires |job.peers| > 0 && ConnectionInfoComplete(job.peers, job.book)
    ensures r.0 == job.peers[RouteIndex(i, |job.peers|).value]
    ensures Knows(job.book, r.0) && r.1 == job.book.ips[r.0] && r.2 == job.book.ports[r.0]
  {
    var name := job.peers[RouteIndex(i, |job.peers|).value];
    (name, job.book.ips[name], job.book.ports[name])
  }

  /** The bytes written for chunk `i`: the store header with the chunk's
      CRC, then the chunk. */
  function ChunkRequest(job: BackupJob, i: nat, crc: seq<byte> -> Crc32): seq<byte>
    requires job.chunkSize > 0 && i <= INT_MAX
  {
    StoreRequest(job.rq, job.fileName, i as int32, Chunk(job, i), crc)
  }

  /** Chunk `i` reached its peer: some attempt was acknowledged. */
  predicate ChunkDelivered(job: BackupJob, net: Network, crc: seq<byte> -> Crc32, i: nat) {
    && |job.peers| > 0 && ConnectionInfoComplete(job.peers, job.book)
    && job.chunkSize > 0 && i <= INT_MAX
    && var t := Target(job, i);
       Delivered(t.1, t.2, ChunkRequest(job, i, crc), net)
  }

  /** One pass of the loop body: chunk `i` to its peer with retries. */
  method SendChunk(job: BackupJob, i: nat, net: Network, crc: seq<byte> -> Crc32) returns (sent: bool)
    requires |job.peers| > 0 && ConnectionInfoComplete(job.peers, job.book)
    requires job.chunkSize > 0 && i <= INT_MAX
    ensures sent <==> ChunkDelivered(job, net, crc, i)
  {
    var target := Target(job, i);
    var attempts;
    sent, attempts := SendWithRetry(target.1, target.2, ChunkRequest(job, i, crc), net);
  }

  /** The chunks before `i + 1` are delivered once those before `i` and
      chunk `i` are. */
  lemma DeliveredExtends(job: BackupJob, net: Network, crc: seq<byte> -> Crc32, i: nat)
    requires forall j :: 0 <= j < i ==> ChunkDelivered(job, net, crc, j)
    requires ChunkDelivered(job, net, crc, i)
    ensures forall j :: 0 <= j < i + 1 ==> ChunkDelivered(job, net, crc, j)
  {
  }

  /** How the loop ends. `Aborted`: an exception left the command (a
      negative chunk size fails the buffer allocation; no assigned peer
      fails the `%`), so `BACKUP_DONE` is not sent. `GaveUp(k)`: chunk `k`
      was not acknowledged in three attempts. `Finished(n)`: the file ran
      out after `n` chunks. */
  datatype LoopEnd = Aborted | GaveUp(chunkId: nat) | Finished(count: nat)

  /** The chunk loop. Reading into a buffer of the plan's size returns the
      next window, and the loop runs while that is non-empty; a buffer of
      size 0 reads nothing, so the loop does not run, and a negative size
      fails the allocation. */
  method SendChunks(job: BackupJob, net: Network, crc: seq<byte> -> Crc32) returns (end: LoopEnd)
    requires ConnectionInfoComplete(job.peers, job.book)
    requires Numbered(job)
    ensures end.Aborted? <==> job.chunkSize < 0 || (job.chunkSize > 0 && |job.file| > 0 && |job.peers| == 0)
    ensures job.chunkSize == 0 || (job.chunkSize > 0 && |job.file| == 0) ==> end == Finished(0)
    ensures end.Finished? && job.chunkSize > 0 ==>
              end.count == ChunkCount(|job.file|, job.chunkSize) &&
              Assemble(job.file, job.chunkSize, end.count) == job.file
    ensures end.Finished? ==> forall i :: 0 <= i < end.count ==> ChunkDelivered(job, net, crc, i)
    ensures end.GaveUp? ==>
              && job.chunkSize > 0 && end.chunkId < ChunkCount(|job.file|, job.chunkSize)
              && (forall i :: 0 <= i < end.chunkId ==> ChunkDelivered(job, net, crc, i))
              && !ChunkDelivered(job, net, crc, end.chunkId)
  {
    if job.chunkSize < 0 {
      return Aborted;
    }
    if job.chunkSize == 0 {
      return Finished(0);
    }
    end := ChunkLoop(job, net, crc);
  }

  /** The loop proper, for a positive chunk size: chunk after chunk until
      the file runs out or a chunk is not acknowledged. With no assigned
      peer the first non-empty chunk fails the `%`. */
  method ChunkLoop(job: BackupJob, net: Network, crc: seq<byte> -> Crc32) returns (end: LoopEnd)
    requires job.chunkSize > 0 && ConnectionInfoComplete(job.peers, job.book) && Numbered(job)
    ensures end.Aborted? <==> |job.file| > 0 && |job.peers| == 0
    ensures |job.file| == 0 ==> end == Finished(0)
    ensures end.Finished? ==>
              && end.count == ChunkCount(|job.file|, job.chunkSize)
              && Assemble(job.file, job.chunkSize, end.count) == job.file
              && forall i :: 0 <= i < end.count ==> ChunkDelivered(job, net, crc, i)
    ensures end.GaveUp? ==>
              && end.chunkId < ChunkCount(|job.file|, job.chunkSize)
              && (forall i :: 0 <= i < end.chunkId ==> ChunkDelivered(job, net, crc, i))
              && !ChunkDelivered(job, net, crc, end.chunkId)
  {
    var n := ChunkCount(|job.file|, job.chunkSize);
    var i: nat := 0;
    ChunkNonEmpty(job, i);
    while |Chunk(job, i)| > 0
      invariant i <= n
      invariant |Chunk(job, i)| > 0 <==> i < n
      invariant i > 0 ==> |job.peers| > 0
      invariant forall j :: 0 <= j < i ==> ChunkDelivered(job, net, crc, j)
      decreases n - i
    {
      if |job.peers| == 0 {
        return Aborted;
      }
      var sent := SendChunk(job, i, net, crc);
      if !sent {
        return GaveUp(i);
      }
      DeliveredExtends(job, net, crc, i);
      i := i + 1;
      ChunkNonEmpty(job, i);
    }
    ChunksAssemble(job);
    return Finished(i);
  }

  /** The command after the plan reply: a crash while reading the plan
      fails the command; an assigned peer without an address ends the
      command loop itself (`return`); otherwise the chunk loop runs and,
      unless it aborted, `BACKUP_DONE` is sent with the next request
      number. */
  datatype BackupResult =
    | CommandFailed
    | CliEnded
    | Completed(end: LoopEnd, doneRq: int32, counter: int32)

  method BackupCommand(plan: BackupPlanParse, fileName: string, file: seq<byte>, counter: int32,
                       net: Network, crc: seq<byte> -> Crc32) returns (result: BackupResult)
    requires plan.chunkSize <= 0 || ChunkCount(|file|, plan.chunkSize) <= INT_MAX
    ensures result == CommandFailed <==>
              plan.crashed ||
              (ConnectionInfoComplete(plan.assignedPeers, plan.book) &&
               (plan.chunkSize < 0 || (plan.chunkSize > 0 && |file| > 0 && |plan.assignedPeers| == 0)))
    ensures result == CliEnded <==> !plan.crashed && !ConnectionInfoComplete(plan.assignedPeers, plan.book)
    ensures result.Completed? ==>
              && result.doneRq == counter && result.counter == NextRequest(counter).1
              && !result.end.Aborted?
    ensures result.Completed? && result.end.Finished? ==>
              var job := BackupJob(fileName, file, counter, plan.chunkSize, plan.assignedPeers, plan.book);
              && (plan.chunkSize > 0 ==> result.end.count == ChunkCount(|file|, plan.chunkSize))
              && forall i :: 0 <= i < result.end.count ==> ChunkDelivered(job, net, crc, i)
    ensures result.Completed? && result.end.GaveUp? ==>
              var job := BackupJob(fileName, file, counter, plan.chunkSize, plan.assignedPeers, plan.book);
              && (forall i :: 0 <= i < result.end.chunkId ==> ChunkDelivered(job, net, crc, i))
              && !ChunkDelivered(job, net, crc, result.end.chunkId)
  {
    if plan.crashed {
      return CommandFailed;
    }
    if !ConnectionInfoComplete(plan.assignedPeers, plan.book) {
      return CliEnded;
    }
    var job := BackupJob(fileName, file, counter, plan.chunkSize, plan.assignedPeers, plan.book);
    var end := SendChunks(job, net, crc);
    if end.Aborted? {
      return CommandFailed;
    }
    var (doneRq, next) := NextRequest(counter);
    return Completed(end, doneRq, next);
  }

  // ---------------------------------------------------------------------
  // With storage peers running the handler

  /** The peer handler's `CHUNK_OK <id>` passes the acknowledgement test. */
  lemma ChunkAckLine(chunkId: int32)
    ensures AckOk(Some(Encode(AckLine("CHUNK_OK", chunkId))))
  {
    WordTokens();
    AckArrives("CHUNK_OK", chunkId);
  }

  /** A peer running the handler, whatever it holds already, stores chunk
      `i` under the chunk's path and answers with an acknowledgement the
      loop accepts. */
  lemma ChunkStoredAndAcked(st: Storage, job: BackupJob, i: nat, crc: seq<byte> -> Crc32)
    requires Token(job.fileName) && job.chunkSize > 0 && i <= INT_MAX
    ensures var ex := HandleIncomingChunk(st, ChunkRequest(job, i, crc), crc);
            && AckOk(Some(ex.reply))
            && ChunkPath(job.fileName, i as int32) in ex.storage.files
            && ex.storage.files[ChunkPath(job.fileName, i as int32)] == Chunk(job, i)
  {
    StoreAccepted(st, job.rq, job.fileName, i as int32, Chunk(job, i), crc);
    ChunkAckLine(i as int32);
  }

  /** When the first attempt for every chunk reaches a peer running the
      handler (in whatever state), every chunk is delivered, so the loop
      cannot give up and runs to the end of the file. */
  lemma HealthyPeersTakeEveryChunk(job: BackupJob, net: Network, crc: seq<byte> -> Crc32, stores: nat -> Storage)
    requires Token(job.fileName) && job.chunkSize > 0 && Numbered(job)
    requires |job.peers| > 0 && ConnectionInfoComplete(job.peers, job.book)
    requires forall i: nat :: i < ChunkCount(|job.file|, job.chunkSize) ==>
               net(Target(job, i).1, Target(job, i).2, ChunkRequest(job, i, crc), 1) ==
               Some(HandleIncomingChunk(stores(i), ChunkRequest(job, i, crc), crc).reply)
    ensures forall i: nat :: i < ChunkCount(|job.file|, job.chunkSize) ==> ChunkDelivered(job, net, crc, i)
  {
    forall i: nat | i < ChunkCount(|job.file|, job.chunkSize)
      ensures ChunkDelivered(job, net, crc, i)
    {
      ChunkStoredAndAcked(stores(i), job, i, crc);
      var t := Target(job, i);
      assert AckOk(net(t.1, t.2, ChunkRequest(job, i, crc), 1));
    }
  }
}
