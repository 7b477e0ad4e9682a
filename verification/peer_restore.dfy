/** The agent's `restore` transfer (`PeerMain.restoreFileChunks`): the
    plan's checksum is remembered, chunk `k` is fetched with `GET_CHUNK`
    from the `k mod n`-th listed peer, each `CHUNK_DATA` answer is checked
    field by field (the first failing check names the `RESTORE_FAIL`
    reason), the bytes after the header line are appended to the restored
    file, and a whole-file CRC comparison decides between `RESTORE_OK` and
    `Final_Checksum_Mismatch`. The connections are the parameter `fetch`. */
module PeerRestore {
  import opened Wrappers
  import opened JavaText
  import opened JavaNumbers
  import opened Wire
  import opened ChunkWindow
  import opened PeerPlans
  import opened PeerStorage
  import PeerBackup

  /** One connection: refused (the socket could not be opened, so no
      request number is taken), broken (an `IOException` after the request
      was written), or everything the peer wrote before closing. */
  datatype Conn = Refused | Broken | Answered(bytes: seq<byte>)

  /** Opening a connection to an address and writing a request. */
  type Fetcher = (string, int32, seq<byte>) -> Conn

  /** Why a chunk stopped the restore. */
  datatype Cause = Missing | InvalidResponse | Malformed | Mismatched | NotFound | NetworkError

  /** The `RESTORE_FAIL` reason text for chunk `chunkId`. */
  function Reason(cause: Cause, chunkId: int32): string {
    match cause
    case Missing => ChunkWord(chunkId, "Missing")
    case InvalidResponse => "Invalid_Response_For_Chunk_" + IntToString(chunkId)
    case Malformed => "Malformed_CHUNK_DATA_For_Chunk_" + IntToString(chunkId)
    case Mismatched => "Mismatched_CHUNK_DATA"
    case NotFound => ChunkWord(chunkId, "Not_Found")
    case NetworkError => "Network_Error_Chunk_" + IntToString(chunkId)
  }

  /** `"Chunk_" + chunkId + "_" + word`: the chunk id reads back from the
      digits after `Chunk_`. */
  function ChunkWord(chunkId: int32, word: string): (r: string)
    ensures |r| > 6 && r[..6] == "Chunk_" && r[6..] == IntToString(chunkId) + "_" + word
    ensures 6 + |IntToString(chunkId)| < |r| && r[6 + |IntToString(chunkId)|] == '_'
    ensures ParseInt(r[6..6 + |IntToString(chunkId)|]) == Some(chunkId)
  {
    var r := "Chunk_" + (IntToString(chunkId) + "_" + word);
    assert r[6..6 + |IntToString(chunkId)|] == IntToString(chunkId);
    IntToStringParses(chunkId);
    r
  }

  /** What the restore reports to the server. */
  datatype Verdict = RestoreOk | ChunkFailed(cause: Cause, chunkId: int32) | FinalMismatch

  /** The reason sent with `RESTORE_FAIL`. */
  function FailText(v: Verdict): string
    requires !v.RestoreOk?
  {
    match v
    case ChunkFailed(c, id) => Reason(c, id)
    case FinalMismatch => "Final_Checksum_Mismatch"
  }

  /** How the transfer ends: an exception that leaves the method (a bad
      peer entry, a non-numeric chunk id or checksum, a negative chunk size,
      no peers; the command loop reports it), a read loop that never ends
      (a zero-length buffer reads 0 bytes forever), or a report. */
  datatype RestoreEnd = Escaped | Hung | Reported(verdict: Verdict)

  /** The transfer's effects: how it ended, the bytes written to the
      restored file, the request counter and the remembered file
      checksums (`fileChecksums`). */
  datatype RestoreRun = RestoreRun(end: RestoreEnd, written: seq<byte>, counter: int32, known: map<string, int>)

  /** The restore plan's view of the transfer. */
  datatype RestoreJob = RestoreJob(fileName: string, peers: seq<string>, chunkSize: int32, totalChunks: int32,
                                   checksum: string)

  // ---------------------------------------------------------------------
  // Peer entries

  /** A peer entry `name:ip:port` split on `:`: fewer than three parts or a
      non-numeric port throw. */
  function PeerEndpoint(entry: string): (r: Option<(string, string, int32)>)
    ensures r.Some? ==> |SplitChar(entry, ':')| >= 3 && r.value.0 == SplitChar(entry, ':')[0]
                        && r.value.1 == SplitChar(entry, ':')[1]
                        && ParseInt(SplitChar(entry, ':')[2]) == Some(r.value.2)
  {
    var parts := SplitChar(entry, ':');
    if |parts| < 3 then None
    else
      match ParseInt(parts[2])
      case None => None
      case Some(port) => Some((parts[0], parts[1], port))
  }

  /** An entry written as `name:ip:port` reads back as that endpoint. */
  lemma EndpointRoundTrip(name: string, ip: string, port: int32)
    requires ':' !in name && ':' !in ip
    ensures PeerEndpoint(Join([name, ip, IntToString(port)], ":")) == Some((name, ip, port))
  {
    var ts := [name, ip, IntToString(port)];
    assert ":" == [':'];
    assert ':' !in IntToString(port) by {
      var s := IntToString(port);
      forall k | 0 <= k < |s|
        ensures s[k] != ':'
      {
        assert s[k] == '-' || IsDigitChar(s[k]);
      }
    }
    forall k | 0 <= k < |ts|
      ensures ':' !in ts[k]
    {
    }
    SplitCharJoin(ts, ':');
    IntToStringParses(port);
  }

  /** A port a socket accepts; any other makes `new Socket` throw an
      `IllegalArgumentException`, which no handler catches. */
  predicate IsPort(port: int32) {
    0 <= port <= 65535
  }

  /** The endpoint chunk `k` is fetched from: `peers.get(chunkId % size)`. */
  function Endpoint(job: RestoreJob, k: nat): Option<(string, string, int32)>
    requires |job.peers| > 0
  {
    PeerEndpoint(job.peers[RouteIndex(k, |job.peers|).value])
  }

  // ---------------------------------------------------------------------
  // One chunk

  /** The response header: the bytes up to the first line feed, one
      character per byte, trimmed. */
  function ReplyHeader(bs: seq<byte>): string {
    Trim(Decode(ReadUntilLf(bs).0))
  }

  /** The bytes after the header line, read until the stream ends. */
  function ReplyData(bs: seq<byte>): seq<byte> {
    ReadUntilLf(bs).1
  }

  /** The outcome of one chunk request. `Received` carries the bytes
      appended to the file and the checksum announced in the header. */
  datatype Step = Abort(cause: Cause) | Escape | Hang | Received(data: seq<byte>, expected: int)

  /** The per-chunk CRC comparison, whose outcome is only logged. */
  predicate Intact(s: Step, crc: seq<byte> -> Crc32) {
    s.Received? && crc(s.data) == s.expected
  }

  /** The checks on one answer, in the order they run. `equalsIgnoreCase`
      against `ERROR` is ASCII folding here: no other character the byte
      loop can produce folds to E, R or O. */
  function ReadChunkData(header: string, data: seq<byte>, fileName: string, chunkId: int32, chunkSize: int32): (s: Step)
    ensures s.Received? ==>
              && chunkSize > 0 && s.data == data
              && |SplitWs(header)| >= 5 && StartsWith(header, "CHUNK_DATA")
              && SplitWs(header)[2] == fileName && ParseInt(SplitWs(header)[3]) == Some(chunkId)
              && ParseLongHex(SplitWs(header)[4]) == Some(s.expected)
    ensures s.Abort? ==> s.cause != NetworkError
    ensures s == Abort(Missing) <==> header == []
    ensures s == Abort(InvalidResponse) <==> header != [] && !StartsWith(header, "CHUNK_DATA")
    ensures s == Abort(Malformed) <==> StartsWith(header, "CHUNK_DATA") && |SplitWs(header)| < 5
    ensures s == Abort(Mismatched) <==>
              && StartsWith(header, "CHUNK_DATA") && |SplitWs(header)| >= 5 && ParseInt(SplitWs(header)[3]).Some?
              && !NamesChunk(SplitWs(header), fileName, chunkId)
    ensures s == Abort(NotFound) <==>
              StartsWith(header, "CHUNK_DATA") && NamesChunk(SplitWs(header), fileName, chunkId)
              && EqualsIgnoreCaseAscii("ERROR", SplitWs(header)[4])
    ensures s == Escape <==>
              && StartsWith(header, "CHUNK_DATA") && |SplitWs(header)| >= 5
              && (|| ParseInt(SplitWs(header)[3]).None?
                  || (&& NamesChunk(SplitWs(header), fileName, chunkId)
                      && !EqualsIgnoreCaseAscii("ERROR", SplitWs(header)[4])
                      && (ParseLongHex(SplitWs(header)[4]).None? || chunkSize < 0)))
    ensures s == Hang <==>
              && StartsWith(header, "CHUNK_DATA") && NamesChunk(SplitWs(header), fileName, chunkId)
              && !EqualsIgnoreCaseAscii("ERROR", SplitWs(header)[4])
              && ParseLongHex(SplitWs(header)[4]).Some? && chunkSize == 0
  {
    if header == [] then Abort(Missing)
    else if !StartsWith(header, "CHUNK_DATA") then Abort(InvalidResponse)
    else ReadChunkFields(SplitWs(header), data, fileName, chunkId, chunkSize)
  }

  /** The header's fields name the chunk that was asked for. */
  predicate NamesChunk(parts: seq<string>, fileName: string, chunkId: int32) {
    |parts| >= 5 && parts[2] == fileName && ParseInt(parts[3]) == Some(chunkId)
  }

  /** The checks on the header's fields: at least five, the chunk id an
      `int`, the file and chunk the ones asked for. */
  function ReadChunkFields(parts: seq<string>, data: seq<byte>, fileName: string, chunkId: int32, chunkSize: int32): (s: Step)
    ensures s.Received? ==>
              && chunkSize > 0 && s.data == data && |parts| >= 5
              && parts[2] == fileName && ParseInt(parts[3]) == Some(chunkId)
              && ParseLongHex(parts[4]) == Some(s.expected)
    ensures s.Abort? ==> s.cause != NetworkError
    ensures s == Abort(Malformed) <==> |parts| < 5
    ensures s == Abort(Mismatched) <==> |parts| >= 5 && ParseInt(parts[3]).Some? && !NamesChunk(parts, fileName, chunkId)
    ensures s == Abort(NotFound) <==> NamesChunk(parts, fileName, chunkId) && EqualsIgnoreCaseAscii("ERROR", parts[4])
    ensures s.Received? <==>
              && NamesChunk(parts, fileName, chunkId) && !EqualsIgnoreCaseAscii("ERROR", parts[4])
              && ParseLongHex(parts[4]).Some? && chunkSize > 0
    ensures s == Escape <==>
              && |parts| >= 5
              && (|| ParseInt(parts[3]).None?
                  || (&& NamesChunk(parts, fileName, chunkId) && !EqualsIgnoreCaseAscii("ERROR", parts[4])
                      && (ParseLongHex(parts[4]).None? || chunkSize < 0)))
  {
    if |parts| < 5 then Abort(Malformed)
    else
      match ParseInt(parts[3])
      case None => Escape
      case Some(id) =>
        if parts[2] != fileName || id != chunkId then Abort(Mismatched)
        else ReadChecksum(parts[4], data, chunkSize)
  }

  /** The checks on the checksum field and the buffer: `ERROR` in any
      case means the peer lacks the chunk; otherwise the field must be
      hexadecimal and the buffer non-empty. */
  function ReadChecksum(checksum: string, data: seq<byte>, chunkSize: int32): (s: Step)
    ensures s.Received? ==> chunkSize > 0 && s.data == data && ParseLongHex(checksum) == Some(s.expected)
    ensures s.Abort? ==> s.cause == NotFound
    ensures s == Abort(NotFound) <==> EqualsIgnoreCaseAscii("ERROR", checksum)
    ensures s == Escape <==>
              !EqualsIgnoreCaseAscii("ERROR", checksum) && (ParseLongHex(checksum).None? || chunkSize < 0)
    ensures s == Hang <==>
              !EqualsIgnoreCaseAscii("ERROR", checksum) && ParseLongHex(checksum).Some? && chunkSize == 0
    ensures s.Received? <==>
              !EqualsIgnoreCaseAscii("ERROR", checksum) && ParseLongHex(checksum).Some? && chunkSize > 0
  {
    if EqualsIgnoreCaseAscii("ERROR", checksum) then Abort(NotFound)
    else
      match ParseLongHex(checksum)
      case None => Escape
      case Some(expected) =>
        if chunkSize < 0 then Escape
        else if chunkSize == 0 then Hang
        else Received(data, expected)
  }

  /** One chunk request's outcome; every connection failure is a network
      error. */
  function ChunkStep(answer: Conn, fileName: string, chunkId: int32, chunkSize: int32): (s: Step)
    ensures s == Abort(NetworkError) <==> !answer.Answered?
    ensures s.Received? ==> answer.Answered? && s.data == ReplyData(answer.bytes)
    ensures answer.Answered? ==> (s == Abort(Missing) <==> ReplyHeader(answer.bytes) == [])
    ensures answer.Answered? ==>
              (s == Abort(InvalidResponse) <==>
                 ReplyHeader(answer.bytes) != [] && !StartsWith(ReplyHeader(answer.bytes), "CHUNK_DATA"))
  {
    match answer
    case Refused => Abort(NetworkError)
    case Broken => Abort(NetworkError)
    case Answered(bs) => ReadChunkData(ReplyHeader(bs), ReplyData(bs), fileName, chunkId, chunkSize)
  }

  // ---------------------------------------------------------------------
  // The transfer

  /** The final check: with no remembered checksum the restore is
      reported done unchecked; otherwise the CRC of the whole restored file
      must equal it. */
  function FinalVerdict(known: map<string, int>, fileName: string, written: seq<byte>, crc: seq<byte> -> Crc32): (v: Verdict)
    ensures v != FinalMismatch <==> fileName !in known || crc(written) == known[fileName]
    ensures !v.ChunkFailed?
  {
    if fileName !in known then RestoreOk
    else if crc(written) != known[fileName] then FinalMismatch
    else RestoreOk
  }

  /** Reporting takes one more request number. */
  function Report(v: Verdict, written: seq<byte>, counter: int32, known: map<string, int>): RestoreRun {
    RestoreRun(Reported(v), written, NextRequest(counter).1, known)
  }

  /** One chunk's round: it stops the transfer, or its bytes are appended
      and the next chunk follows. */
  datatype Progress = Stop(end: RestoreEnd, counter: int32) | Next(data: seq<byte>, counter: int32)

  /** Chunk `k`: pick the peer, take a request number once the socket is
      open, ask for the chunk and judge the answer. Failures named by a
      reason report them, taking one more request number. */
  function Advance(job: RestoreJob, k: nat, counter: int32, fetch: Fetcher): (p: Progress)
    requires k < job.totalChunks
    ensures p.Stop? && p.end.Reported? ==> p.end.verdict.ChunkFailed? && p.end.verdict.chunkId as int == k
    ensures p.Stop? && p.end.Reported? && p.end.verdict.cause == NetworkError ==>
              |job.peers| > 0 && Endpoint(job, k).Some?
    ensures |job.peers| == 0 || Endpoint(job, k).None? ==> p == Stop(Escaped, counter)
    ensures |job.peers| > 0 && Endpoint(job, k).Some? && !IsPort(Endpoint(job, k).value.2) ==>
              p == Stop(Escaped, counter)
    ensures p.Next? || p.end.Reported? ==> |job.peers| > 0 && Endpoint(job, k).Some? && IsPort(Endpoint(job, k).value.2)
    ensures p.Next? ==> p.counter == NextRequest(counter).1
  {
    if |job.peers| == 0 then Stop(Escaped, counter)
    else
      match Endpoint(job, k)
      case None => Stop(Escaped, counter)
      case Some(ep) =>
        if !IsPort(ep.2) then Stop(Escaped, counter)
        else
        var id: int32 := k;
        var (rq, next) := NextRequest(counter);
        var answer := fetch(ep.1, ep.2, Encode(GetChunkRequest(rq, job.fileName, id)));
        var after := if answer.Refused? then counter else next;
        match ChunkStep(answer, job.fileName, id, job.chunkSize)
        case Abort(cause) => Stop(Reported(ChunkFailed(cause, id)), NextRequest(after).1)
        case Escape => Stop(Escaped, after)
        case Hang => Stop(Hung, after)
        case Received(data, _) => Next(data, after)
  }

  /** Chunks `k ..` of the transfer, with `written` already in the file;
      after the last chunk the final check decides the report. */
  function RestoreFrom(job: RestoreJob, known: map<string, int>, k: nat, written: seq<byte>, counter: int32,
                       fetch: Fetcher, crc: seq<byte> -> Crc32): (r: RestoreRun)
    ensures written <= r.written
    ensures r.known == known
    ensures r.end.Reported? && r.end.verdict.ChunkFailed? ==> k <= r.end.verdict.chunkId < job.totalChunks
    ensures r.end.Reported? && !r.end.verdict.ChunkFailed? ==>
              r.end.verdict == FinalVerdict(known, job.fileName, r.written, crc)
    decreases job.totalChunks - k
  {
    if k >= job.totalChunks then
      Report(FinalVerdict(known, job.fileName, written, crc), written, counter, known)
    else
      match Advance(job, k, counter, fetch)
      case Stop(end, after) => RestoreRun(end, written, after, known)
      case Next(data, after) => RestoreFrom(job, known, k + 1, written + data, after, fetch, crc)
  }

  /** The plan's checksum is remembered when it parses as hexadecimal;
      an earlier entry for the same file stays otherwise. */
  function Remember(known: map<string, int>, fileName: string, checksum: string): (r: map<string, int>)
    ensures ParseLongHex(checksum).Some? ==> r == known[fileName := ParseLongHex(checksum).value]
    ensures ParseLongHex(checksum).None? ==> r == known
  {
    if checksum != [] then
      match ParseLongHex(checksum)
      case Some(v) => known[fileName := v]
      case None => known
    else known
  }

  /** `restoreFileChunks`, starting with an empty restored file. */
  function RestoreFileChunks(job: RestoreJob, known: map<string, int>, counter: int32, fetch: Fetcher,
                             crc: seq<byte> -> Crc32): (r: RestoreRun)
    ensures r.known == Remember(known, job.fileName, job.checksum)
    ensures r.end.Reported? && !r.end.verdict.ChunkFailed? ==>
              r.end.verdict == FinalVerdict(r.known, job.fileName, r.written, crc)
    ensures r.end.Reported? && r.end.verdict.ChunkFailed? ==> 0 <= r.end.verdict.chunkId < job.totalChunks
  {
    RestoreFrom(job, Remember(known, job.fileName, job.checksum), 0, [], counter, fetch, crc)
  }

  // ---------------------------------------------------------------------
  // Properties

  /** The text before the first `_` of two texts joined at a `_`. */
  lemma UnderscoreSplit(x: string, s: string, y: string, t: string)
    requires '_' !in x && '_' !in y && x + "_" + s == y + "_" + t
    ensures x == y && s == t
  {
    var a := x + "_" + s;
    FirstUnderscore(x, s);
    FirstUnderscore(y, t);
    assert a[..|x|] == x && (y + "_" + t)[..|y|] == y;
    assert a[|x| + 1..] == s && (y + "_" + t)[|y| + 1..] == t;
  }

  lemma FirstUnderscore(x: string, s: string)
    requires '_' !in x
    ensures IndexOf(x + "_" + s, '_') == |x|
  {
    var a := x + "_" + s;
    assert a[|x|] == '_';
    assert forall k :: 0 <= k < |x| ==> a[k] == x[k];
    IndexWhereIs(a, CharIs('_'), |x|);
  }

  lemma NumberHasNoUnderscore(i: int32)
    ensures '_' !in IntToString(i)
  {
    var s := IntToString(i);
    forall k | 0 <= k < |s|
      ensures s[k] != '_'
    {
      assert s[k] == '-' || IsDigitChar(s[k]);
    }
  }

  /** Equal texts after a common prefix are equal. */
  lemma DropPrefix(p: string, x: string, y: string)
    requires p + x == p + y
    ensures x == y
  {
    assert x == (p + x)[|p|..];
    assert y == (p + y)[|p|..];
  }

  lemma NumberInjective(a: int32, b: int32)
    requires IntToString(a) == IntToString(b)
    ensures a == b
  {
    IntToStringParses(a);
    IntToStringParses(b);
  }

  /** Distinct failures give distinct reasons: the reason names the cause
      and, except for a mismatched header, the chunk. */
  lemma ReasonsDistinct(c1: Cause, a: int32, c2: Cause, b: int32)
    ensures Reason(c1, a) == Reason(c2, b) <==> c1 == c2 && (c1 == Mismatched || a == b)
  {
    if Reason(c1, a) == Reason(c2, b) {
      ReasonHead(c1, a);
      ReasonHead(c2, b);
      assert Head(c1) == Head(c2);
      if c1 == Missing || c1 == NotFound {
        ChunkWordsEqual(a, if c1 == Missing then "Missing" else "Not_Found",
                        b, if c2 == Missing then "Missing" else "Not_Found");
      } else if c1 == InvalidResponse {
        NumberSuffix("Invalid_Response_For_Chunk_", a, b);
      } else if c1 == Malformed {
        NumberSuffix("Malformed_CHUNK_DATA_For_Chunk_", a, b);
      } else if c1 == NetworkError {
        NumberSuffix("Network_Error_Chunk_", a, b);
      }
    }
  }

  /** The first two letters of a cause's reason. */
  function Head(c: Cause): string {
    match c
    case Missing => "Ch"
    case NotFound => "Ch"
    case InvalidResponse => "In"
    case Malformed => "Ma"
    case Mismatched => "Mi"
    case NetworkError => "Ne"
  }

  lemma ReasonHead(c: Cause, id: int32)
    ensures |Reason(c, id)| >= 2 && Reason(c, id)[..2] == Head(c)
  {
  }

  /** Two `Chunk_<id>_<word>` texts agree only on the same chunk and word. */
  lemma ChunkWordsEqual(a: int32, s: string, b: int32, t: string)
    requires ChunkWord(a, s) == ChunkWord(b, t)
    ensures a == b && s == t
  {
    NumberHasNoUnderscore(a);
    NumberHasNoUnderscore(b);
    UnderscoreSplit(IntToString(a), s, IntToString(b), t);
    NumberInjective(a, b);
  }

  /** A fixed prefix followed by a chunk number names one chunk. */
  lemma NumberSuffix(p: string, a: int32, b: int32)
    requires p + IntToString(a) == p + IntToString(b)
    ensures a == b
  {
    DropPrefix(p, IntToString(a), IntToString(b));
    NumberInjective(a, b);
  }

  /** The final mismatch reason is none of the per-chunk reasons. */
  lemma FinalReasonDistinct(c: Cause, id: int32)
    ensures FailText(FinalMismatch) != Reason(c, id)
  {
    assert FailText(FinalMismatch)[0] == 'F';
    assert Reason(c, id)[0] != 'F';
  }

  /** A hexadecimal checksum is never mistaken for `ERROR`. */
  lemma HexIsNotError(v: Crc32)
    ensures !EqualsIgnoreCaseAscii("ERROR", LongToHexString(v))
  {
    var h := LongToHexString(v);
    if |h| == 5 {
      assert UpperAscii(h[1]) != 'R';
    }
  }

  /** The tokens of a `CHUNK_DATA` line read back in place. */
  lemma ChunkDataFacts(rq: int32, fileName: string, chunkId: int32, last: string)
    requires Token(fileName) && Token(last)
    ensures var ts := ["CHUNK_DATA", IntToString(rq), fileName, IntToString(chunkId), last];
            var l := Join(ts, " ");
            && ChunkDataLine(rq, fileName, chunkId, last) == l + "\n"
            && PlainLine(l) && SplitWs(l) == ts && StartsWith(l, "CHUNK_DATA")
            && ParseInt(ts[3]) == Some(chunkId)
  {
    var ts := ["CHUNK_DATA", IntToString(rq), fileName, IntToString(chunkId), last];
    IntToStringToken(rq);
    IntToStringToken(chunkId);
    assert Token("CHUNK_DATA");
    TokenLine(ts);
    JoinStartsWithFirst(ts, " ");
    IntToStringParses(chunkId);
  }

  /** A `CHUNK_DATA` line followed by a payload, as the restore reads it. */
  lemma ChunkDataArrives(rq: int32, fileName: string, chunkId: int32, last: string, payload: seq<byte>)
    requires Token(fileName) && Token(last)
    ensures var bs := Encode(ChunkDataLine(rq, fileName, chunkId, last)) + payload;
            var ts := ["CHUNK_DATA", IntToString(rq), fileName, IntToString(chunkId), last];
            && ReplyHeader(bs) == Join(ts, " ") && ReplyData(bs) == payload
            && SplitWs(ReplyHeader(bs)) == ts && StartsWith(ReplyHeader(bs), "CHUNK_DATA")
            && ParseInt(ts[3]) == Some(chunkId)
  {
    ChunkDataFacts(rq, fileName, chunkId, last);
    var ts := ["CHUNK_DATA", IntToString(rq), fileName, IntToString(chunkId), last];
    HeaderLine(Join(ts, " "), payload);
  }

  /** A peer running the handler that holds the chunk answers with it, and
      the restore accepts the answer with the chunk's own checksum. */
  lemma ServedChunkReceived(st: Storage, rq: int32, fileName: string, chunkId: int32, chunkSize: int32,
                            crc: seq<byte> -> Crc32)
    requires Token(fileName) && chunkSize > 0 && ChunkPath(fileName, chunkId) in st.files
    ensures var data := st.files[ChunkPath(fileName, chunkId)];
            var reply := HandleIncomingChunk(st, Encode(GetChunkRequest(rq, fileName, chunkId)), crc).reply;
            var s := ChunkStep(Answered(reply), fileName, chunkId, chunkSize);
            s == Received(data, crc(data)) && Intact(s, crc)
  {
    var data := st.files[ChunkPath(fileName, chunkId)];
    FetchAnswer(st, rq, fileName, chunkId, crc);
    ChunkDataReceived(rq, fileName, chunkId, chunkSize, data, crc(data));
  }

  /** A `CHUNK_DATA` answer with a hexadecimal checksum for the requested
      file and chunk is accepted with that checksum and the bytes after the
      line. */
  lemma ChunkDataReceived(rq: int32, fileName: string, chunkId: int32, chunkSize: int32, data: seq<byte>,
                          checksum: Crc32)
    requires Token(fileName) && chunkSize > 0
    ensures var bs := Encode(ChunkDataLine(rq, fileName, chunkId, LongToHexString(checksum))) + data;
            ChunkStep(Answered(bs), fileName, chunkId, chunkSize) == Received(data, checksum)
  {
    var hex := LongToHexString(checksum);
    var bs := Encode(ChunkDataLine(rq, fileName, chunkId, hex)) + data;
    var ts := ["CHUNK_DATA", IntToString(rq), fileName, IntToString(chunkId), hex];
    assert |ts| == 5 && ts[2] == fileName && ts[4] == hex;
    hide *;
    HexToken(checksum);
    ChunkDataArrives(rq, fileName, chunkId, hex, data);
    AcceptedAnswer(bs, ts, data, fileName, chunkId, chunkSize, checksum);
  }

  /** An answer whose header fields name the requested file and chunk and
      carry a hexadecimal checksum is accepted with the bytes after the
      header. */
  lemma AcceptedAnswer(bs: seq<byte>, ts: seq<string>, data: seq<byte>, fileName: string, chunkId: int32,
                       chunkSize: int32, checksum: Crc32)
    requires StartsWith(ReplyHeader(bs), "CHUNK_DATA") && SplitWs(ReplyHeader(bs)) == ts && ReplyData(bs) == data
    requires |ts| >= 5 && ts[2] == fileName && ParseInt(ts[3]) == Some(chunkId) && ts[4] == LongToHexString(checksum)
    requires chunkSize > 0
    ensures ChunkStep(Answered(bs), fileName, chunkId, chunkSize) == Received(data, checksum)
  {
    hide *;
    FieldsOfHeader(bs, ts, fileName, chunkId, chunkSize);
    ChecksumOfFields(ts, data, fileName, chunkId, chunkSize);
    ChecksumAccepted(checksum, data, chunkSize);
  }

  /** An answer whose header line starts with `CHUNK_DATA` is judged by
      its whitespace-separated fields. */
  lemma FieldsOfHeader(bs: seq<byte>, ts: seq<string>, fileName: string, chunkId: int32, chunkSize: int32)
    requires StartsWith(ReplyHeader(bs), "CHUNK_DATA") && SplitWs(ReplyHeader(bs)) == ts
    ensures ChunkStep(Answered(bs), fileName, chunkId, chunkSize) == ReadChunkFields(ts, ReplyData(bs), fileName, chunkId, chunkSize)
  {
  }

  /** Five or more fields naming the requested file and chunk are judged
      by the checksum field. */
  lemma ChecksumOfFields(ts: seq<string>, data: seq<byte>, fileName: string, chunkId: int32, chunkSize: int32)
    requires |ts| >= 5 && ts[2] == fileName && ParseInt(ts[3]) == Some(chunkId)
    ensures ReadChunkFields(ts, data, fileName, chunkId, chunkSize) == ReadChecksum(ts[4], data, chunkSize)
  {
  }

  /** A hexadecimal checksum field with a non-empty buffer is accepted. */
  lemma ChecksumAccepted(checksum: Crc32, data: seq<byte>, chunkSize: int32)
    requires chunkSize > 0
    ensures ReadChecksum(LongToHexString(checksum), data, chunkSize) == Received(data, checksum)
  {
    HexIsNotError(checksum);
    HexRoundTrip(checksum);
  }

  /** A peer running the handler that lacks the chunk answers `ERROR`, and
      the restore stops with `Chunk_<id>_Not_Found`. */
  lemma AbsentChunkNotFound(st: Storage, rq: int32, fileName: string, chunkId: int32, chunkSize: int32,
                            crc: seq<byte> -> Crc32)
    requires Token(fileName) && ChunkPath(fileName, chunkId) !in st.files
    ensures var reply := HandleIncomingChunk(st, Encode(GetChunkRequest(rq, fileName, chunkId)), crc).reply;
            ChunkStep(Answered(reply), fileName, chunkId, chunkSize) == Abort(NotFound)
  {
    FetchAnswer(st, rq, fileName, chunkId, crc);
    var bs := Encode(ChunkDataLine(rq, fileName, chunkId, "ERROR"));
    assert bs + [] == bs;
    ErrorAnswer(rq, fileName, chunkId, chunkSize);
  }

  /** A `CHUNK_DATA` answer for the requested chunk whose checksum field is
      `ERROR` stops the restore. */
  lemma ErrorAnswer(rq: int32, fileName: string, chunkId: int32, chunkSize: int32)
    requires Token(fileName)
    ensures ChunkStep(Answered(Encode(ChunkDataLine(rq, fileName, chunkId, "ERROR"))), fileName, chunkId, chunkSize) == Abort(NotFound)
  {
    var bs := Encode(ChunkDataLine(rq, fileName, chunkId, "ERROR"));
    var ts := ["CHUNK_DATA", IntToString(rq), fileName, IntToString(chunkId), "ERROR"];
    assert Token("ERROR");
    hide *;
    ChunkDataArrives(rq, fileName, chunkId, "ERROR", []);
    assert bs + [] == bs;
    FieldsOfHeader(bs, ts, fileName, chunkId, chunkSize);
    ChecksumOfFields(ts, [], fileName, chunkId, chunkSize);
    ErrorChecksum(chunkSize);
  }

  /** The checksum field `ERROR` means the peer lacks the chunk. */
  lemma ErrorChecksum(chunkSize: int32)
    ensures ReadChecksum("ERROR", [], chunkSize) == Abort(NotFound)
  {
    assert EqualsIgnoreCaseAscii("ERROR", "ERROR");
  }

  /** Storage `st`, at chunk `k`'s endpoint, holds window `k` of `file`
      and answers every `GET_CHUNK` for it through the handler. */
  predicate ServesChunk(job: RestoreJob, file: seq<byte>, fetch: Fetcher, crc: seq<byte> -> Crc32, st: Storage, k: nat) {
    && |job.peers| > 0 && k <= INT_MAX && job.chunkSize > 0
    && Endpoint(job, k).Some? && IsPort(Endpoint(job, k).value.2)
    && ReadFileChunk(file, k as int32, job.chunkSize).Ok?
    && ChunkPath(job.fileName, k as int32) in st.files
    && st.files[ChunkPath(job.fileName, k as int32)] == ReadFileChunk(file, k as int32, job.chunkSize).value
    && AnswersAt(fetch, Endpoint(job, k).value.1, Endpoint(job, k).value.2, st, job.fileName, k as int32, crc)
  }

  /** The connection to `ip:port` is the handler on `st` for every request
      number of a `GET_CHUNK` for this chunk. */
  predicate AnswersAt(fetch: Fetcher, ip: string, port: int32, st: Storage, fileName: string, chunkId: int32,
                      crc: seq<byte> -> Crc32) {
    forall rq: int32 :: fetch(ip, port, Encode(GetChunkRequest(rq, fileName, chunkId))) ==
                        Answered(HandleIncomingChunk(st, Encode(GetChunkRequest(rq, fileName, chunkId)), crc).reply)
  }

  /** A served chunk is appended and the transfer moves on. */
  lemma ServedStep(job: RestoreJob, file: seq<byte>, known: map<string, int>, k: nat, written: seq<byte>,
                   counter: int32, fetch: Fetcher, crc: seq<byte> -> Crc32, st: Storage)
    requires Token(job.fileName) && k < job.totalChunks
    requires ServesChunk(job, file, fetch, crc, st, k)
    ensures RestoreFrom(job, known, k, written, counter, fetch, crc) ==
            RestoreFrom(job, known, k + 1, written + ReadFileChunk(file, k as int32, job.chunkSize).value,
                        NextRequest(counter).1, fetch, crc)
  {
    ServedAdvance(job, file, k, counter, fetch, crc, st);
  }

  /** A served chunk's round appends the window. */
  lemma ServedAdvance(job: RestoreJob, file: seq<byte>, k: nat, counter: int32, fetch: Fetcher,
                      crc: seq<byte> -> Crc32, st: Storage)
    requires Token(job.fileName) && k < job.totalChunks
    requires ServesChunk(job, file, fetch, crc, st, k)
    ensures Advance(job, k, counter, fetch) ==
            Next(ReadFileChunk(file, k as int32, job.chunkSize).value, NextRequest(counter).1)
  {
    var id: int32 := k;
    var rq := NextRequest(counter).0;
    var ep := Endpoint(job, k).value;
    var request := Encode(GetChunkRequest(rq, job.fileName, id));
    var reply := HandleIncomingChunk(st, request, crc).reply;
    assert fetch(ep.1, ep.2, request) == Answered(reply);
    ServedChunkReceived(st, rq, job.fileName, id, job.chunkSize, crc);
    var data := st.files[ChunkPath(job.fileName, id)];
    AdvanceReceived(job, k, counter, fetch, ep, data, crc(data));
  }

  /** A round whose answer the restore accepts appends the answer's bytes
      and spends one request number. */
  lemma AdvanceReceived(job: RestoreJob, k: nat, counter: int32, fetch: Fetcher, ep: (string, string, int32),
                        data: seq<byte>, expected: int)
    requires k < job.totalChunks && |job.peers| > 0 && Endpoint(job, k) == Some(ep) && IsPort(ep.2)
    requires var answer := fetch(ep.1, ep.2, Encode(GetChunkRequest(NextRequest(counter).0, job.fileName, k as int32)));
             answer.Answered? && ChunkStep(answer, job.fileName, k as int32, job.chunkSize) == Received(data, expected)
    ensures Advance(job, k, counter, fetch) == Next(data, NextRequest(counter).1)
  {
  }

  /** Chunks `k ..` served by peers holding the file's windows rebuild the
      rest of the file, and the final check decides the verdict. */
  lemma {:induction false} ServedFrom(job: RestoreJob, file: seq<byte>, known: map<string, int>, k: nat, counter: int32,
                                      fetch: Fetcher, crc: seq<byte> -> Crc32, stores: nat -> Storage)
    requires Token(job.fileName) && job.chunkSize > 0 && k <= job.totalChunks
    requires ServedRange(job, file, fetch, crc, stores, k)
    ensures var r := RestoreFrom(job, known, k, Assemble(file, job.chunkSize, k), counter, fetch, crc);
            var whole := Assemble(file, job.chunkSize, job.totalChunks as nat);
            r.written == whole && r.end == Reported(FinalVerdict(known, job.fileName, whole, crc))
    decreases job.totalChunks - k
  {
    hide *;
    if k < job.totalChunks {
      ServedRangeStep(job, file, fetch, crc, stores, k);
      ServedWindow(job, file, known, k, counter, fetch, crc, stores(k));
      ServedFrom(job, file, known, k + 1, NextRequest(counter).1, fetch, crc, stores);
    } else {
      AllChunksIn(job, known, k, Assemble(file, job.chunkSize, k), counter, fetch, crc);
    }
  }

  /** Chunks `k ..` are each served by their storage in `stores`. */
  predicate ServedRange(job: RestoreJob, file: seq<byte>, fetch: Fetcher, crc: seq<byte> -> Crc32,
                        stores: nat -> Storage, k: nat)
    decreases job.totalChunks - k
  {
    k >= job.totalChunks ||
    (ServesChunk(job, file, fetch, crc, stores(k), k) && ServedRange(job, file, fetch, crc, stores, k + 1))
  }

  lemma ServedRangeStep(job: RestoreJob, file: seq<byte>, fetch: Fetcher, crc: seq<byte> -> Crc32,
                         stores: nat -> Storage, k: nat)
    requires k < job.totalChunks && ServedRange(job, file, fetch, crc, stores, k)
    ensures ServesChunk(job, file, fetch, crc, stores(k), k) && ServedRange(job, file, fetch, crc, stores, k + 1)
  {
  }

  lemma {:induction false} AllServed(job: RestoreJob, file: seq<byte>, fetch: Fetcher, crc: seq<byte> -> Crc32,
                                     stores: nat -> Storage, k: nat)
    requires forall j: nat :: k <= j < job.totalChunks ==> ServesChunk(job, file, fetch, crc, stores(j), j)
    ensures ServedRange(job, file, fetch, crc, stores, k)
    decreases job.totalChunks - k
  {
    if k < job.totalChunks {
      AllServed(job, file, fetch, crc, stores, k + 1);
    }
  }

  /** Past the last chunk only the final check remains. */
  lemma AllChunksIn(job: RestoreJob, known: map<string, int>, k: nat, written: seq<byte>, counter: int32,
                    fetch: Fetcher, crc: seq<byte> -> Crc32)
    requires k >= job.totalChunks
    ensures var r := RestoreFrom(job, known, k, written, counter, fetch, crc);
            r.written == written && r.end == Reported(FinalVerdict(known, job.fileName, written, crc))
  {
  }

  /** With chunks `..k` already assembled, a served chunk `k` extends the
      assembled prefix by one window. */
  lemma ServedWindow(job: RestoreJob, file: seq<byte>, known: map<string, int>, k: nat, counter: int32,
                     fetch: Fetcher, crc: seq<byte> -> Crc32, st: Storage)
    requires Token(job.fileName) && k < job.totalChunks
    requires ServesChunk(job, file, fetch, crc, st, k)
    ensures RestoreFrom(job, known, k, Assemble(file, job.chunkSize, k), counter, fetch, crc) ==
            RestoreFrom(job, known, k + 1, Assemble(file, job.chunkSize, k + 1), NextRequest(counter).1, fetch, crc)
  {
    ServedStep(job, file, known, k, Assemble(file, job.chunkSize, k), counter, fetch, crc, st);
    assert Assemble(file, job.chunkSize, k + 1) ==
           Assemble(file, job.chunkSize, k) + ReadFileChunk(file, k as int32, job.chunkSize).value;
  }

  /** Backup followed by restore: when every chunk of the file is held by
      the peer the restore asks for it, and the plan carries the file's
      CRC as the backup computed it, the restored file is the file and the
      restore is reported done. */
  lemma RestoreRebuildsFile(job: RestoreJob, file: seq<byte>, known: map<string, int>, counter: int32,
                            fetch: Fetcher, crc: seq<byte> -> Crc32, stores: nat -> Storage)
    requires Token(job.fileName) && job.chunkSize > 0
    requires job.totalChunks as int == ChunkCount(|file|, job.chunkSize)
    requires job.checksum == LongToHexString(crc(file))
    requires forall j: nat :: j < job.totalChunks ==> ServesChunk(job, file, fetch, crc, stores(j), j)
    ensures var r := RestoreFileChunks(job, known, counter, fetch, crc);
            r.written == file && r.end == Reported(RestoreOk) && r.known == known[job.fileName := crc(file)]
  {
    var checksum := crc(file);
    HexRoundTrip(checksum);
    var remembered := Remember(known, job.fileName, job.checksum);
    assert remembered == known[job.fileName := checksum];
    ChunksTileFile(file, job.chunkSize);
    assert Assemble(file, job.chunkSize, 0) == [];
    AllServed(job, file, fetch, crc, stores, 0);
    ServedFrom(job, file, remembered, 0, counter, fetch, crc, stores);
  }

  /** The per-chunk checksum decides nothing: with another CRC function
      the transfer writes the same bytes, takes the same request numbers
      and ends the same way up to the final whole-file comparison. */
  lemma {:induction false} ChunkCrcIgnored(job: RestoreJob, known: map<string, int>, k: nat, written: seq<byte>,
                                           counter: int32, fetch: Fetcher, crc1: seq<byte> -> Crc32,
                                           crc2: seq<byte> -> Crc32)
    ensures var r1 := RestoreFrom(job, known, k, written, counter, fetch, crc1);
            var r2 := RestoreFrom(job, known, k, written, counter, fetch, crc2);
            && r1.written == r2.written && r1.counter == r2.counter
            && (r1.end.Reported? <==> r2.end.Reported?)
            && (r1.end.Reported? && r1.end.verdict.ChunkFailed? ==> r1.end == r2.end)
            && (!r1.end.Reported? ==> r1.end == r2.end)
    decreases job.totalChunks - k
  {
    hide Advance, ChunkStep, ReadChunkData, ReadChunkFields, ReadChecksum, FinalVerdict, Endpoint;
    if k < job.totalChunks {
      var p := Advance(job, k, counter, fetch);
      if p.Next? {
        ChunkCrcIgnored(job, known, k + 1, written + p.data, p.counter, fetch, crc1, crc2);
      }
    }
  }

  /** Restore asks each chunk of the peer the backup sent it to: when the
      restore plan lists, in the backup's order, every assigned peer as
      `name:ip:port` with the address the backup used, chunk `k` is
      fetched from the address it was stored at. */
  lemma SameRoute(backup: PeerBackup.BackupJob, restore: RestoreJob, k: nat)
    requires |backup.peers| > 0 && ConnectionInfoComplete(backup.peers, backup.book)
    requires |restore.peers| == |backup.peers|
    requires forall j :: 0 <= j < |backup.peers| ==>
               var name := backup.peers[j];
               && ':' !in name && ':' !in backup.book.ips[name]
               && restore.peers[j] == Join([name, backup.book.ips[name], IntToString(backup.book.ports[name])], ":")
    ensures Endpoint(restore, k) == Some(PeerBackup.Target(backup, k))
  {
    var j := RouteIndex(k, |backup.peers|).value;
    var name := backup.peers[j];
    EndpointRoundTrip(name, backup.book.ips[name], backup.book.ports[name]);
  }
}
