/** The storage side of a peer (`PeerMain.handleIncomingChunk` and
    `handleReplicateChunk`) and the replication sender
    (`replicateChunkToPeer`). One TCP connection carries a header line and,
    for a store, the chunk bytes; the handler answers with at most one line
    (plus the chunk for a fetch). The chunk directory is a map from paths to
    file contents, and the CRC-32 of `java.util.zip.CRC32` is the parameter
    `crc`. */
module PeerStorage {
  import opened Wrappers
  import opened JavaText
  import opened JavaNumbers
  import opened Wire
  import ChunkStore

  /** The peer's chunk directory and its `numberChunksStored` counter. */
  datatype Storage = Storage(files: map<string, seq<byte>>, chunksStored: int32)

  /** What one connection leaves behind: the new storage and the bytes
      written back (empty when the handler returns without answering). */
  datatype Exchange = Exchange(storage: Storage, reply: seq<byte>)

  /** `storageDir.resolve(fileName).resolve("chunk" + chunkId)`, relative to
      the storage directory. */
  function ChunkPath(fileName: string, chunkId: int32): string {
    fileName + "/chunk" + IntToString(chunkId)
  }

  /** Distinct (file, chunk) pairs have distinct paths as long as file names
      hold no `/`. */
  lemma ChunkPathInjective(f1: string, id1: int32, f2: string, id2: int32)
    requires '/' !in f1 && '/' !in f2
    requires ChunkPath(f1, id1) == ChunkPath(f2, id2)
    ensures f1 == f2 && id1 == id2
  {
    var p := ChunkPath(f1, id1);
    FirstSlash(f1, id1);
    FirstSlash(f2, id2);
    assert f1 == p[..|f1|] == f2;
    assert IntToString(id1) == p[|f1| + 6..] == IntToString(id2);
    IntToStringInjective(id1, id2);
  }

  /** The first `/` of a chunk path ends the file name; the chunk number
      follows `/chunk`. */
  lemma FirstSlash(f: string, id: int32)
    requires '/' !in f
    ensures var p := ChunkPath(f, id);
            IndexOf(p, '/') == |f| && p[..|f|] == f && p[|f| + 6..] == IntToString(id)
  {
    var p := ChunkPath(f, id);
    assert p[|f|] == '/';
    assert p[..|f|] == f;
    assert p[|f| + 6..] == IntToString(id);
  }

  /** The directory after `Files.write` of one chunk and the counter
      increment (an `int`, so it wraps). */
  function Stored(st: Storage, fileName: string, chunkId: int32, data: seq<byte>): (r: Storage)
    ensures ChunkPath(fileName, chunkId) in r.files && r.files[ChunkPath(fileName, chunkId)] == data
    ensures r.files.Keys == st.files.Keys + {ChunkPath(fileName, chunkId)}
    ensures forall p :: p in st.files && p != ChunkPath(fileName, chunkId) ==> r.files[p] == st.files[p]
    ensures st.chunksStored < INT_MAX ==> r.chunksStored == st.chunksStored + 1
  {
    Storage(st.files[ChunkPath(fileName, chunkId) := data], WrapInt32(st.chunksStored as int + 1))
  }

  // ---------------------------------------------------------------------
  // Header texts

  /** A header token the whitespace splitter keeps whole and the line
      reader passes through unchanged: non-empty, printable ASCII without
      spaces. */
  predicate Token(t: string) {
    |t| > 0 && forall k :: 0 <= k < |t| ==> ' ' < t[k] && t[k] as int < 0x80
  }

  predicate Tokens(ts: seq<string>) {
    |ts| > 0 && forall k :: 0 <= k < |ts| ==> Token(ts[k])
  }

  lemma IntToStringToken(i: int)
    ensures Token(IntToString(i))
  {
    var s := IntToString(i);
    forall k | 0 <= k < |s|
      ensures ' ' < s[k] && s[k] as int < 0x80
    {
      assert s[k] == '-' || IsDigitChar(s[k]);
    }
  }

  /** The command and acknowledgement words are tokens. */
  lemma WordTokens()
    ensures Token("GET_CHUNK") && Token("REPLICATE_CHUNK") && Token("SEND_CHUNK")
    ensures Token("CHUNK_OK") && Token("REPLICATE_OK")
  {
  }

  lemma HexToken(v: Crc32)
    ensures Token(LongToHexString(v))
  {
  }

  /** Header text that survives the trip: printable at both ends, ASCII,
      with no line break inside. */
  predicate PlainLine(l: string) {
    && IsAscii(l) && '\n' !in l && '\r' !in l
    && |l| > 0 && l[0] > ' ' && l[|l| - 1] > ' '
  }

  /** Tokens joined with single spaces form a plain line that both
      splitters cut back into the same tokens. */
  lemma TokenLine(ts: seq<string>)
    requires Tokens(ts)
    ensures PlainLine(Join(ts, " ")) && Join(ts, " ")[0] == ts[0][0]
    ensures SplitWs(Join(ts, " ")) == ts && SplitChar(Join(ts, " "), ' ') == ts
  {
    var l := Join(ts, " ");
    TokenChars(ts);
    JoinEnds(ts, " ");
    assert AllWords(ts) by {
      forall k | 0 <= k < |ts|
        ensures IsWord(ts[k])
      {
        assert Token(ts[k]);
      }
    }
    SplitWsJoin(ts);
    assert " " == [' '];
    forall k | 0 <= k < |ts|
      ensures ' ' !in ts[k]
    {
      assert Token(ts[k]);
    }
    SplitCharJoin(ts, ' ');
  }

  /** Every character of a line of tokens is a space or printable ASCII. */
  lemma TokenChars(ts: seq<string>)
    requires Tokens(ts)
    ensures forall k :: 0 <= k < |Join(ts, " ")| ==> ' ' <= Join(ts, " ")[k] && Join(ts, " ")[k] as int < 0x80
  {
    var l := Join(ts, " ");
    ChunkStore.JoinChars(ts, " ");
    forall k | 0 <= k < |l|
      ensures ' ' <= l[k] && l[k] as int < 0x80
    {
      var ch := l[k];
      assert ch in l;
      if ch !in " " {
        var j :| 0 <= j < |ts| && ch in ts[j];
        var m :| 0 <= m < |ts[j]| && ts[j][m] == ch;
      }
    }
  }

  /** The text of the header line, as the handler's byte loop and `trim`
      leave it. */
  function HeaderOf(stream: seq<byte>): string {
    Trim(Decode(ReadThroughLf(stream).0))
  }

  /** The bytes after the header line. */
  function PayloadOf(stream: seq<byte>): seq<byte> {
    ReadThroughLf(stream).1
  }

  /** A plain line followed by a payload reaches every reader as the same
      text with the payload intact. */
  lemma HeaderLine(l: string, payload: seq<byte>)
    requires PlainLine(l)
    ensures var s := Encode(l + "\n") + payload;
            && HeaderOf(s) == l && PayloadOf(s) == payload
            && ReadUntilLf(s) == (Encode(l), payload) && Trim(Decode(Encode(l))) == l
            && ReadLine(s) == Some((l, payload))
  {
    LineRoundTrip(l, payload);
    DecodeLine(l);
    TrimDropsNewline(l);
    TrimKeeps(l);
  }

  /** The byte loop turns an encoded ASCII line and its line feed back into
      the text and the line feed. */
  lemma DecodeLine(l: string)
    requires IsAscii(l)
    ensures Decode(Encode(l) + [LF]) == l + "\n"
  {
    EncodeAppend(l, "\n");
    assert Encode("\n") == [LF];
    AsciiAppend(l, "\n");
    DecodeEncodeAscii(l + "\n");
  }

  /** A non-empty text that differs from `p` in its first character does
      not start with `p`. */
  lemma NotStartsWith(s: string, p: string)
    requires |s| > 0 && |p| > 0 && s[0] != p[0]
    ensures !StartsWith(s, p)
  {
    if |p| <= |s| {
      assert s[..|p|][0] == s[0];
    }
  }

  /** `"CHUNK_OK " + chunkId + "\n"` and `"REPLICATE_OK " + chunkId + "\n"`. */
  function AckLine(verb: string, chunkId: int32): string {
    Join([verb, IntToString(chunkId)], " ") + "\n"
  }

  /** The store header the backup loop writes:
      `request + " " + fileName + " " + chunkId + " " + length + " " + checksum`. */
  function StoreHeader(rq: int32, fileName: string, chunkId: int32, size: int, checksum: string): string {
    Join([IntToString(rq), fileName, IntToString(chunkId), IntToString(size), checksum], " ") + "\n"
  }

  /** A store connection: the header with the chunk's CRC, then the chunk. */
  function StoreRequest(rq: int32, fileName: string, chunkId: int32, data: seq<byte>, crc: seq<byte> -> Crc32): seq<byte> {
    Encode(StoreHeader(rq, fileName, chunkId, |data|, LongToHexString(crc(data)))) + data
  }

  /** `"GET_CHUNK %d %s %d\n"`. */
  function GetChunkRequest(rq: int32, fileName: string, chunkId: int32): string {
    Join(["GET_CHUNK", IntToString(rq), fileName, IntToString(chunkId)], " ") + "\n"
  }

  /** `"CHUNK_DATA %d %s %d %s\n"`, whose last field is the chunk's CRC in
      hexadecimal or `ERROR`. */
  function ChunkDataLine(rq: int32, fileName: string, chunkId: int32, last: string): string {
    Join(["CHUNK_DATA", IntToString(rq), fileName, IntToString(chunkId), last], " ") + "\n"
  }

  /** `"REPLICATE_CHUNK " + fileName + " " + chunkId + " " + length + " " + checksum + "\n"`. */
  function ReplicateHeader(fileName: string, chunkId: int32, size: int, checksum: string): string {
    Join(["REPLICATE_CHUNK", fileName, IntToString(chunkId), IntToString(size), checksum], " ") + "\n"
  }

  // ---------------------------------------------------------------------
  // The handler

  /** The fields a store or replication header shares at positions 1-4:
      file name, chunk id, size and the expected CRC. */
  datatype Transfer = Transfer(fileName: string, chunkId: int32, size: int32, expected: int)

  /** `parseInt` of the chunk id and size and `parseLong(_, 16)` of the
      checksum; any `NumberFormatException` is `None`. */
  function ParseTransfer(parts: seq<string>): (r: Option<Transfer>)
    requires |parts| >= 5
    ensures r.Some? <==> ParseInt(parts[2]).Some? && ParseInt(parts[3]).Some? && ParseLongHex(parts[4]).Some?
    ensures r.Some? ==> r.value.fileName == parts[1]
    ensures r.Some? ==>
              r.value == Transfer(parts[1], ParseInt(parts[2]).value, ParseInt(parts[3]).value, ParseLongHex(parts[4]).value)
  {
    var id := ParseInt(parts[2]);
    var size := ParseInt(parts[3]);
    var expected := ParseLongHex(parts[4]);
    if id.None? || size.None? || expected.None? then None
    else Some(Transfer(parts[1], id.value, size.value, expected.value))
  }

  /** Receiving the payload of a transfer: a negative size
      (`NegativeArraySizeException`), a stream that ends early
      (`IOException`) and a CRC mismatch all end the connection without a
      reply; otherwise the first `size` bytes are stored and acknowledged
      with `verb`. Extra bytes are never read. */
  function ReceiveChunk(st: Storage, t: Transfer, payload: seq<byte>, crc: seq<byte> -> Crc32, verb: string): (r: Exchange)
    ensures r.reply != [] <==> 0 <= t.size <= |payload| && crc(payload[..t.size]) == t.expected
    ensures r.reply == [] ==> r.storage == st
    ensures r.reply != [] ==>
              r.storage == Stored(st, t.fileName, t.chunkId, payload[..t.size]) &&
              r.reply == Encode(AckLine(verb, t.chunkId))
  {
    if t.size < 0 || |payload| < t.size then Exchange(st, [])
    else
      var data := payload[..t.size];
      if crc(data) != t.expected then Exchange(st, [])
      else Exchange(Stored(st, t.fileName, t.chunkId, data), Encode(AckLine(verb, t.chunkId)))
  }

  /** A store (`numbered`: the request number leads the header) or a
      replication header already split on whitespace: fewer than five
      fields, or a field that does not parse, ends the connection
      silently. */
  function ReceiveParts(st: Storage, parts: seq<string>, payload: seq<byte>, crc: seq<byte> -> Crc32,
                        verb: string, numbered: bool): (r: Exchange)
    ensures r.reply == [] ==> r.storage == st
  {
    if |parts| < 5 || (numbered && ParseInt(parts[0]).None?) then Exchange(st, [])
    else
      match ParseTransfer(parts)
      case None => Exchange(st, [])
      case Some(t) =>
        ReceiveChunk(st, t, payload, crc, verb)
  }

  /** Answering `GET_CHUNK rq file id`: fewer than four fields or an
      unparsable number ends the connection silently; a missing chunk is
      answered with `ERROR` in place of the checksum; a stored chunk with
      its CRC in hexadecimal, followed by its bytes. */
  function ServeChunk(st: Storage, parts: seq<string>, crc: seq<byte> -> Crc32): (r: seq<byte>)
    ensures |parts| < 4 ==> r == []
    ensures |parts| >= 4 && ParseInt(parts[1]).Some? && ParseInt(parts[3]).Some? ==> r != []
    ensures r != [] ==>
              var rq := ParseInt(parts[1]);
              var id := ParseInt(parts[3]);
              && |parts| >= 4 && rq.Some? && id.Some?
              && var path := ChunkPath(parts[2], id.value);
                 r == if path in st.files
                      then Encode(ChunkDataLine(rq.value, parts[2], id.value, LongToHexString(crc(st.files[path])))) + st.files[path]
                      else Encode(ChunkDataLine(rq.value, parts[2], id.value, "ERROR"))
  {
    if |parts| < 4 then []
    else
      var rq := ParseInt(parts[1]);
      var id := ParseInt(parts[3]);
      if rq.None? || id.None? then []
      else
        var path := ChunkPath(parts[2], id.value);
        if path in st.files
        then Encode(ChunkDataLine(rq.value, parts[2], id.value, LongToHexString(crc(st.files[path])))) + st.files[path]
        else Encode(ChunkDataLine(rq.value, parts[2], id.value, "ERROR"))
  }

  /** The dispatch on the trimmed header: empty is ignored, a `GET_CHUNK`
      prefix is a fetch, a `REPLICATE_CHUNK` prefix a replication and
      anything else a store. */
  function Dispatch(st: Storage, header: string, payload: seq<byte>, crc: seq<byte> -> Crc32): (r: Exchange)
    ensures header == [] ==> r == Exchange(st, [])
    ensures StartsWith(header, "GET_CHUNK") ==> r.storage == st
    ensures r.reply == [] ==> r.storage == st
  {
    if header == [] then Exchange(st, [])
    else if StartsWith(header, "GET_CHUNK") then Exchange(st, ServeChunk(st, SplitWs(header), crc))
    else if StartsWith(header, "REPLICATE_CHUNK") then ReceiveParts(st, SplitWs(header), payload, crc, "REPLICATE_OK", false)
    else ReceiveParts(st, SplitWs(header), payload, crc, "CHUNK_OK", true)
  }

  /** `handleIncomingChunk` on the bytes of one connection. Every exception
      is caught, so a failure is an empty reply and an unchanged directory;
      at most one chunk is written per connection, and a fetch writes
      nothing. */
  function HandleIncomingChunk(st: Storage, stream: seq<byte>, crc: seq<byte> -> Crc32): (r: Exchange)
    ensures HeaderOf(stream) == [] ==> r == Exchange(st, [])
    ensures StartsWith(HeaderOf(stream), "GET_CHUNK") ==> r.storage == st
    ensures r.reply == [] ==> r.storage == st
  {
    Dispatch(st, HeaderOf(stream), PayloadOf(stream), crc)
  }

  /** A connection writes at most one chunk: the directory afterwards is
      the one before, or it with one chunk stored and the counter moved
      on. */
  lemma OneChunkPerConnection(st: Storage, stream: seq<byte>, crc: seq<byte> -> Crc32)
    ensures var r := HandleIncomingChunk(st, stream, crc);
            r.storage == st || exists f: string, id: int32, data: seq<byte> :: r.storage == Stored(st, f, id, data)
  {
    var header := HeaderOf(stream);
    var payload := PayloadOf(stream);
    if header != [] && !StartsWith(header, "GET_CHUNK") {
      var replicate := StartsWith(header, "REPLICATE_CHUNK");
      var verb := if replicate then "REPLICATE_OK" else "CHUNK_OK";
      assert Dispatch(st, header, payload, crc) == ReceiveParts(st, SplitWs(header), payload, crc, verb, !replicate);
      ReceivePartsOneChunk(st, SplitWs(header), payload, crc, verb, !replicate);
    }
  }

  lemma ReceivePartsOneChunk(st: Storage, parts: seq<string>, payload: seq<byte>, crc: seq<byte> -> Crc32,
                             verb: string, numbered: bool)
    ensures var r := ReceiveParts(st, parts, payload, crc, verb, numbered);
            r.storage == st || exists f: string, id: int32, data: seq<byte> :: r.storage == Stored(st, f, id, data)
  {
    if |parts| >= 5 && !(numbered && ParseInt(parts[0]).None?) && ParseTransfer(parts).Some? {
      var t := ParseTransfer(parts).value;
      var ex := ReceiveChunk(st, t, payload, crc, verb);
      assert ex.storage == st || ex.storage == Stored(st, t.fileName, t.chunkId, payload[..t.size]);
    }
  }

  // ---------------------------------------------------------------------
  // Exchanges

  /** A header whose first token is a number is a store header: it starts
      with neither command word. */
  lemma NumberLedHeader(ts: seq<string>, rq: int32)
    requires Tokens(ts) && ts[0] == IntToString(rq)
    ensures !StartsWith(Join(ts, " "), "GET_CHUNK") && !StartsWith(Join(ts, " "), "REPLICATE_CHUNK")
  {
    TokenLine(ts);
    var l := Join(ts, " ");
    assert l[0] == '-' || IsDigitChar(l[0]);
    NotStartsWith(l, "GET_CHUNK");
    NotStartsWith(l, "REPLICATE_CHUNK");
  }

  /** Once a header of tokens has arrived, the handler dispatches on its
      text with the payload that followed it. */
  lemma Arrives(st: Storage, ts: seq<string>, payload: seq<byte>, crc: seq<byte> -> Crc32)
    requires Tokens(ts)
    ensures HandleIncomingChunk(st, Encode(Join(ts, " ") + "\n") + payload, crc) == Dispatch(st, Join(ts, " "), payload, crc)
    ensures SplitWs(Join(ts, " ")) == ts
  {
    TokenLine(ts);
    HeaderLine(Join(ts, " "), payload);
  }

  /** A store connection in full: the chunk is stored and acknowledged with
      `CHUNK_OK <id>` exactly when the stream holds at least `size` bytes
      after the header and the CRC of the first `size` of them is the one
      the header announces; otherwise nothing is stored and nothing is
      answered. */
  lemma StoreOutcome(st: Storage, rq: int32, fileName: string, chunkId: int32, size: int32,
                     checksum: Crc32, payload: seq<byte>, crc: seq<byte> -> Crc32)
    requires Token(fileName)
    ensures HandleIncomingChunk(st, Encode(StoreHeader(rq, fileName, chunkId, size, LongToHexString(checksum))) + payload, crc) ==
              if 0 <= size <= |payload| && crc(payload[..size]) == checksum
              then Exchange(Stored(st, fileName, chunkId, payload[..size]), Encode(AckLine("CHUNK_OK", chunkId)))
              else Exchange(st, [])
  {
    var ts := [IntToString(rq), fileName, IntToString(chunkId), IntToString(size), LongToHexString(checksum)];
    StoreHeaderFacts(rq, fileName, chunkId, size, checksum);
    var l := Join(ts, " ");
    Arrives(st, ts, payload, crc);
    var t := Transfer(fileName, chunkId, size, checksum);
    assert Dispatch(st, l, payload, crc) == ReceiveParts(st, ts, payload, crc, "CHUNK_OK", true);
    assert ReceiveParts(st, ts, payload, crc, "CHUNK_OK", true) == ReceiveChunk(st, t, payload, crc, "CHUNK_OK");
  }

  /** The store header's tokens: a line led by a number, so neither
      command word, whose fields read back as the transfer that was sent. */
  lemma StoreHeaderFacts(rq: int32, fileName: string, chunkId: int32, size: int32, checksum: Crc32)
    requires Token(fileName)
    ensures var ts := [IntToString(rq), fileName, IntToString(chunkId), IntToString(size), LongToHexString(checksum)];
            && Tokens(ts)
            && !StartsWith(Join(ts, " "), "GET_CHUNK") && !StartsWith(Join(ts, " "), "REPLICATE_CHUNK")
            && ParseInt(ts[0]).Some?
            && ParseTransfer(ts) == Some(Transfer(fileName, chunkId, size, checksum))
  {
    var ts := [IntToString(rq), fileName, IntToString(chunkId), IntToString(size), LongToHexString(checksum)];
    IntToStringToken(rq);
    IntToStringToken(chunkId);
    IntToStringToken(size);
    HexToken(checksum);
    assert Tokens(ts);
    NumberLedHeader(ts, rq);
    IntToStringParses(rq);
    IntToStringParses(chunkId);
    IntToStringParses(size);
    HexRoundTrip(checksum);
  }

  /** What the backup loop sends is stored as sent and acknowledged. */
  lemma StoreAccepted(st: Storage, rq: int32, fileName: string, chunkId: int32, data: seq<byte>, crc: seq<byte> -> Crc32)
    requires Token(fileName) && |data| <= INT_MAX
    ensures HandleIncomingChunk(st, StoreRequest(rq, fileName, chunkId, data, crc), crc) ==
              Exchange(Stored(st, fileName, chunkId, data), Encode(AckLine("CHUNK_OK", chunkId)))
  {
    StoreOutcome(st, rq, fileName, chunkId, |data|, crc(data), data, crc);
    assert data[..|data|] == data;
  }

  /** A stream cut short before the announced size stores nothing and gets
      no answer. */
  lemma TruncatedStoreIgnored(st: Storage, rq: int32, fileName: string, chunkId: int32, data: seq<byte>,
                              n: nat, crc: seq<byte> -> Crc32)
    requires Token(fileName) && |data| <= INT_MAX && n < |data|
    ensures HandleIncomingChunk(st, Encode(StoreHeader(rq, fileName, chunkId, |data|, LongToHexString(crc(data)))) + data[..n], crc) ==
              Exchange(st, [])
  {
    StoreOutcome(st, rq, fileName, chunkId, |data|, crc(data), data[..n], crc);
  }

  /** Bytes whose CRC differs from the announced one are dropped silently. */
  lemma CorruptedStoreIgnored(st: Storage, rq: int32, fileName: string, chunkId: int32, data: seq<byte>,
                              received: seq<byte>, crc: seq<byte> -> Crc32)
    requires Token(fileName) && |data| <= INT_MAX
    requires |received| == |data| && crc(received) != crc(data)
    ensures HandleIncomingChunk(st, Encode(StoreHeader(rq, fileName, chunkId, |data|, LongToHexString(crc(data)))) + received, crc) ==
              Exchange(st, [])
  {
    assert received[..|data|] == received;
    assert crc(received[..|data|]) != crc(data);
    StoreOutcome(st, rq, fileName, chunkId, |data|, crc(data), received, crc);
  }

  /** A fetch of a stored chunk returns its CRC line and its bytes; a fetch
      of a chunk that is not there returns the `ERROR` line. Either way the
      directory is left alone. */
  lemma FetchAnswer(st: Storage, rq: int32, fileName: string, chunkId: int32, crc: seq<byte> -> Crc32)
    requires Token(fileName)
    ensures var path := ChunkPath(fileName, chunkId);
            HandleIncomingChunk(st, Encode(GetChunkRequest(rq, fileName, chunkId)), crc) ==
              Exchange(st, if path in st.files
                           then Encode(ChunkDataLine(rq, fileName, chunkId, LongToHexString(crc(st.files[path])))) + st.files[path]
                           else Encode(ChunkDataLine(rq, fileName, chunkId, "ERROR")))
  {
    var ts := ["GET_CHUNK", IntToString(rq), fileName, IntToString(chunkId)];
    FetchHeaderFacts(rq, fileName, chunkId);
    var l := Join(ts, " ");
    Arrives(st, ts, [], crc);
    assert Encode(GetChunkRequest(rq, fileName, chunkId)) + [] == Encode(GetChunkRequest(rq, fileName, chunkId));
    assert Dispatch(st, l, [], crc) == Exchange(st, ServeChunk(st, ts, crc));
  }

  /** The fetch header's tokens: a `GET_CHUNK` line whose request number
      and chunk id read back. */
  lemma FetchHeaderFacts(rq: int32, fileName: string, chunkId: int32)
    requires Token(fileName)
    ensures var ts := ["GET_CHUNK", IntToString(rq), fileName, IntToString(chunkId)];
            && Tokens(ts) && StartsWith(Join(ts, " "), "GET_CHUNK")
            && ParseInt(ts[1]) == Some(rq) && ParseInt(ts[3]) == Some(chunkId)
  {
    var ts := ["GET_CHUNK", IntToString(rq), fileName, IntToString(chunkId)];
    IntToStringToken(rq);
    IntToStringToken(chunkId);
    WordTokens();
    assert Tokens(ts);
    JoinStartsWithFirst(ts, " ");
    IntToStringParses(rq);
    IntToStringParses(chunkId);
  }

  /** A chunk fetched after it was stored comes back byte for byte, with the
      CRC of those bytes. */
  lemma StoreThenFetch(st: Storage, rq: int32, fileName: string, chunkId: int32, data: seq<byte>,
                       rq2: int32, crc: seq<byte> -> Crc32)
    requires Token(fileName) && |data| <= INT_MAX
    ensures var st2 := HandleIncomingChunk(st, StoreRequest(rq, fileName, chunkId, data, crc), crc).storage;
            HandleIncomingChunk(st2, Encode(GetChunkRequest(rq2, fileName, chunkId)), crc).reply ==
              Encode(ChunkDataLine(rq2, fileName, chunkId, LongToHexString(crc(data)))) + data
  {
    StoreAccepted(st, rq, fileName, chunkId, data, crc);
    FetchAnswer(Stored(st, fileName, chunkId, data), rq2, fileName, chunkId, crc);
  }

  // ---------------------------------------------------------------------
  // Replication

  /** What `replicateChunkToPeer` writes: nothing when the chunk is not on
      disk, else the `REPLICATE_CHUNK` header and the chunk bytes. */
  function ReplicateRequest(source: Storage, fileName: string, chunkId: int32, crc: seq<byte> -> Crc32): (r: Option<seq<byte>>)
    ensures r.Some? <==> ChunkPath(fileName, chunkId) in source.files
  {
    var path := ChunkPath(fileName, chunkId);
    if path !in source.files then None
    else
      var data := source.files[path];
      Some(Encode(ReplicateHeader(fileName, chunkId, |data|, LongToHexString(crc(data)))) + data)
  }

  /** The acknowledgement test: a first line whose trimmed text starts with
      `REPLICATE_OK`. */
  predicate ReplicateAcked(reply: seq<byte>) {
    ReadLine(reply).Some? && StartsWith(Trim(ReadLine(reply).value.0), "REPLICATE_OK")
  }

  /** `replicateChunkToPeer`'s verdict. `deliver` is the connection to the
      target: the bytes it answers a request with, `None` when connecting,
      writing or reading fails or times out. */
  predicate ReplicateChunkToPeer(source: Storage, fileName: string, chunkId: int32, crc: seq<byte> -> Crc32,
                                 deliver: seq<byte> -> Option<seq<byte>>) {
    match ReplicateRequest(source, fileName, chunkId, crc)
    case None => false
    case Some(req) => deliver(req).Some? && ReplicateAcked(deliver(req).value)
  }

  /** An acknowledgement `verb id` arrives as one line that starts with the
      verb, trimmed or not. */
  lemma AckArrives(verb: string, chunkId: int32)
    requires Token(verb)
    ensures var line := Join([verb, IntToString(chunkId)], " ");
            && ReadLine(Encode(AckLine(verb, chunkId))) == Some((line, []))
            && Trim(line) == line && StartsWith(line, verb)
  {
    var ts := [verb, IntToString(chunkId)];
    IntToStringToken(chunkId);
    assert Tokens(ts);
    var line := Join(ts, " ");
    TokenLine(ts);
    HeaderLine(line, []);
    assert Encode(line + "\n") + [] == Encode(AckLine(verb, chunkId));
    TrimKeeps(line);
    JoinStartsWithFirst(ts, " ");
  }

  /** A replication header with the chunk's CRC, followed by the chunk,
      is stored under the same path and acknowledged with
      `REPLICATE_OK <id>`. */
  lemma ReplicaStored(target: Storage, fileName: string, chunkId: int32, data: seq<byte>, crc: seq<byte> -> Crc32)
    requires Token(fileName) && |data| <= INT_MAX
    ensures HandleIncomingChunk(target, Encode(ReplicateHeader(fileName, chunkId, |data|, LongToHexString(crc(data)))) + data, crc) ==
              Exchange(Stored(target, fileName, chunkId, data), Encode(AckLine("REPLICATE_OK", chunkId)))
  {
    var ts := ["REPLICATE_CHUNK", fileName, IntToString(chunkId), IntToString(|data|), LongToHexString(crc(data))];
    hide HandleIncomingChunk, HeaderOf, PayloadOf, ServeChunk, SplitWs, ParseTransfer, Encode;
    ReplicateHeaderFacts(fileName, chunkId, data, crc);
    var l := Join(ts, " ");
    Arrives(target, ts, data, crc);
    ReplicaDispatch(target, l, ts, Transfer(fileName, chunkId, |data| as int32, crc(data)), data, crc);
  }

  /** A replication header whose fields parse to a transfer of exactly the
      payload, with its CRC, stores it and acknowledges. */
  lemma ReplicaDispatch(st: Storage, l: string, ts: seq<string>, t: Transfer, data: seq<byte>, crc: seq<byte> -> Crc32)
    requires StartsWith(l, "REPLICATE_CHUNK") && !StartsWith(l, "GET_CHUNK")
    requires SplitWs(l) == ts && |ts| >= 5 && ParseTransfer(ts) == Some(t)
    requires t.size as int == |data| && t.expected == crc(data)
    ensures Dispatch(st, l, data, crc) == Exchange(Stored(st, t.fileName, t.chunkId, data), Encode(AckLine("REPLICATE_OK", t.chunkId)))
  {
    assert Dispatch(st, l, data, crc) == ReceiveParts(st, ts, data, crc, "REPLICATE_OK", false);
    assert data[..|data|] == data;
  }

  /** The replication header's tokens: a `REPLICATE_CHUNK` line whose
      fields read back as the transfer that was sent. */
  lemma ReplicateHeaderFacts(fileName: string, chunkId: int32, data: seq<byte>, crc: seq<byte> -> Crc32)
    requires Token(fileName) && |data| <= INT_MAX
    ensures var ts := ["REPLICATE_CHUNK", fileName, IntToString(chunkId), IntToString(|data|), LongToHexString(crc(data))];
            && Tokens(ts)
            && StartsWith(Join(ts, " "), "REPLICATE_CHUNK") && !StartsWith(Join(ts, " "), "GET_CHUNK")
            && ParseTransfer(ts) == Some(Transfer(fileName, chunkId, |data|, crc(data)))
  {
    var ts := ["REPLICATE_CHUNK", fileName, IntToString(chunkId), IntToString(|data|), LongToHexString(crc(data))];
    WordTokens();
    IntToStringToken(chunkId);
    IntToStringToken(|data|);
    HexToken(crc(data));
    assert Tokens(ts);
    var l := Join(ts, " ");
    JoinStartsWithFirst(ts, " ");
    TokenLine(ts);
    NotStartsWith(l, "GET_CHUNK");
    IntToStringParses(chunkId);
    IntToStringParses(|data|);
    HexRoundTrip(crc(data));
  }

  /** The handler's replication acknowledgement passes the sender's test. */
  lemma ReplicateAckLine(chunkId: int32)
    ensures ReplicateAcked(Encode(AckLine("REPLICATE_OK", chunkId)))
  {
    WordTokens();
    AckArrives("REPLICATE_OK", chunkId);
  }

  /** The sender's verdict is positive when the chunk is there and the
      connection brings back the handler's acknowledgement. */
  lemma ReplicateAckAccepted(source: Storage, fileName: string, chunkId: int32, crc: seq<byte> -> Crc32,
                             deliver: seq<byte> -> Option<seq<byte>>)
    requires ChunkPath(fileName, chunkId) in source.files
    requires deliver(ReplicateRequest(source, fileName, chunkId, crc).value) == Some(Encode(AckLine("REPLICATE_OK", chunkId)))
    ensures ReplicateChunkToPeer(source, fileName, chunkId, crc, deliver)
  {
    var req := ReplicateRequest(source, fileName, chunkId, crc).value;
    ReplicateAckLine(chunkId);
    assert deliver(req).Some? && ReplicateAcked(deliver(req).value);
  }

  /** Replicating a stored chunk to a peer running the same handler stores
      the same bytes under the same path there, and the sender sees the
      acknowledgement. `deliver` is a connection that hands the request to
      that handler and brings back its reply. */
  lemma ReplicationRoundTrip(source: Storage, target: Storage, fileName: string, chunkId: int32,
                             crc: seq<byte> -> Crc32, deliver: seq<byte> -> Option<seq<byte>>)
    requires Token(fileName)
    requires ChunkPath(fileName, chunkId) in source.files
    requires |source.files[ChunkPath(fileName, chunkId)]| <= INT_MAX
    requires var req := ReplicateRequest(source, fileName, chunkId, crc).value;
             deliver(req) == Some(HandleIncomingChunk(target, req, crc).reply)
    ensures var data := source.files[ChunkPath(fileName, chunkId)];
            HandleIncomingChunk(target, ReplicateRequest(source, fileName, chunkId, crc).value, crc) ==
              Exchange(Stored(target, fileName, chunkId, data), Encode(AckLine("REPLICATE_OK", chunkId)))
    ensures ReplicateChunkToPeer(source, fileName, chunkId, crc, deliver)
  {
    var data := source.files[ChunkPath(fileName, chunkId)];
    var req := Encode(ReplicateHeader(fileName, chunkId, |data|, LongToHexString(crc(data)))) + data;
    assert ReplicateRequest(source, fileName, chunkId, crc) == Some(req);
    ReplicaStored(target, fileName, chunkId, data, crc);
    ReplicateAckAccepted(source, fileName, chunkId, crc, deliver);
  }

  // ---------------------------------------------------------------------
  // The two chunk protocols side by side

  /** `TCPClient.sendChunk` sent to a peer's handler is read as a store
      whose request number is `SEND_CHUNK`, which `parseInt` rejects: no
      chunk is written and no acknowledgement comes back. */
  lemma SendChunkIgnoredByPeer(st: Storage, rq: int32, fileName: string, chunkId: int32, data: seq<byte>,
                               checksum: string, crc: seq<byte> -> Crc32)
    requires Token(fileName) && Token(checksum)
    ensures HandleIncomingChunk(st, ChunkStore.SendChunkRequest(rq, fileName, chunkId, data, checksum), crc) == Exchange(st, [])
  {
    var ts := ["SEND_CHUNK", IntToString(rq), fileName, IntToString(chunkId), IntToString(|data|), checksum];
    IntToStringToken(rq);
    IntToStringToken(chunkId);
    IntToStringToken(|data|);
    assert Token("SEND_CHUNK");
    assert Tokens(ts);
    var l := Join(ts, " ");
    Arrives(st, ts, data, crc);
    TokenLine(ts);
    NotStartsWith(l, "GET_CHUNK");
    NotStartsWith(l, "REPLICATE_CHUNK");
    ParseIntLastNotDigit("SEND_CHUNK");
    assert Dispatch(st, l, data, crc) == ReceiveParts(st, ts, data, crc, "CHUNK_OK", true);
  }

  /** The peer's store header sent to `TCPServer.ChunkHandler` has five
      space-separated fields and no `SEND_CHUNK`, so it is refused as an
      invalid command whatever the payload. */
  lemma PeerStoreRejectedByChunkServer(rq: int32, fileName: string, chunkId: int32, data: seq<byte>,
                                       readAhead: nat, crc: seq<byte> -> Crc32, storeOk: bool)
    requires Token(fileName) && |data| <= INT_MAX
    ensures ChunkStore.HandleChunk(StoreRequest(rq, fileName, chunkId, data, crc), readAhead, crc, storeOk) ==
              ChunkStore.Handled(Some(ChunkStore.INVALID_COMMAND), None, None)
  {
    var ts := [IntToString(rq), fileName, IntToString(chunkId), IntToString(|data|), LongToHexString(crc(data))];
    IntToStringToken(rq);
    IntToStringToken(chunkId);
    IntToStringToken(|data|);
    HexToken(crc(data));
    assert Tokens(ts);
    TokenLine(ts);
    HeaderLine(Join(ts, " "), data);
  }
}
