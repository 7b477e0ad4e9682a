/** The standalone chunk transfer pair: `TCPClient` on the owner's side (the
    `SEND_CHUNK` request, the acknowledgement rule, the chunk checksum) and
    `TCPServer.ChunkHandler` on the storage side (header validation, payload
    checks, the single reply, the stored file and the notification to the
    server). The CRC-32 of `java.util.zip.CRC32` is the parameter `crc`. */
module ChunkStore {
  import opened Wrappers
  import opened JavaText
  import opened JavaNumbers
  import opened Wire

  /** `calculateChunkChecksum`: the CRC in lower-case hexadecimal, which
      `Long.parseLong(_, 16)` reads back as the CRC. */
  function ChunkChecksum(crc: seq<byte> -> Crc32, data: seq<byte>): (r: string)
    ensures IsWord(r) && IsAscii(r)
    ensures ParseLongHex(r) == Some(crc(data))
  {
    HexRoundTrip(crc(data));
    LongToHexString(crc(data))
  }

  /** The header `sendChunk` formats as `"SEND_CHUNK %d %s %d %d %s\n"`. */
  function SendChunkHeader(rq: int32, fileName: string, chunkId: int32, length: int, checksum: string): string {
    Join(["SEND_CHUNK", IntToString(rq), fileName, IntToString(chunkId), IntToString(length), checksum], " ") + "\n"
  }

  /** Everything `sendChunk` writes: the header, then the chunk bytes. */
  function SendChunkRequest(rq: int32, fileName: string, chunkId: int32, data: seq<byte>, checksum: string): seq<byte> {
    Encode(SendChunkHeader(rq, fileName, chunkId, |data|, checksum)) + data
  }

  /** `sendChunk`'s verdict as the code states it. `reply` is what the one
      `read` of up to 1024 bytes delivered, `None` for an `IOException`; the
      trimmed text must be exactly `CHUNK_OK <rq>`. */
  predicate SendChunkAcceptsAsWritten(rq: int32, reply: Option<seq<byte>>) {
    reply.Some? && |reply.value| > 0 && Trim(Decode(reply.value)) == "CHUNK_OK " + IntToString(rq)
  }

  /** The acknowledgement rule the exchange needs: the trimmed reply is
      `CHUNK_OK <rq>`, alone or followed by further fields, which is the
      shape `ChunkHandler` answers with. */
  predicate ChunkAcked(rq: int32, reply: Option<seq<byte>>) {
    && reply.Some? && |reply.value| > 0
    && var t := Trim(Decode(reply.value));
       var p := "CHUNK_OK " + IntToString(rq);
       t == p || StartsWith(t, p + " ")
  }

  const INVALID_COMMAND := "ERROR: Invalid command\n"
  const INCOMPLETE_DATA := "Incomplete_Data"
  const CHECKSUM_MISMATCH := "Checksum_Mismatch"
  const STORAGE_FAILED := "Storage_Failed"

  /** A header that passed `ChunkHandler`'s checks. */
  datatype ChunkHeader = ChunkHeader(rq: int32, fileName: string, chunkId: int32, size: int32, checksum: string)

  /** `InvalidCommand` is answered; `BadNumber` is the
      `NumberFormatException` the handler does not catch, which ends the
      connection without a reply. */
  datatype HeaderError = InvalidCommand | BadNumber

  /** The header checks of `ChunkHandler.run`: split on single spaces, at
      least six pieces led by `SEND_CHUNK`, then `parseInt` of the request
      number, chunk id and size. */
  function ParseSendChunk(header: string): (r: Result<ChunkHeader, HeaderError>)
    ensures r == Err(InvalidCommand) <==>
              |SplitChar(header, ' ')| < 6 || SplitChar(header, ' ')[0] != "SEND_CHUNK"
    ensures r.Ok? ==>
              var parts := SplitChar(header, ' ');
              && |parts| >= 6 && parts[0] == "SEND_CHUNK"
              && ParseInt(parts[1]) == Some(r.value.rq) && parts[2] == r.value.fileName
              && ParseInt(parts[3]) == Some(r.value.chunkId) && ParseInt(parts[4]) == Some(r.value.size)
              && parts[5] == r.value.checksum
    ensures r == Err(BadNumber) <==>
              var parts := SplitChar(header, ' ');
              && |parts| >= 6 && parts[0] == "SEND_CHUNK"
              && (ParseInt(parts[1]).None? || ParseInt(parts[3]).None? || ParseInt(parts[4]).None?)
  {
    var parts := SplitChar(header, ' ');
    if |parts| < 6 || parts[0] != "SEND_CHUNK" then Err(InvalidCommand)
    else
      match (ParseInt(parts[1]), ParseInt(parts[3]), ParseInt(parts[4]))
      case (Some(rq), Some(chunkId), Some(size)) => Ok(ChunkHeader(rq, parts[2], chunkId, size, parts[5]))
      case _ => Err(BadNumber)
  }

  /** `storeChunk`'s file: `chunks/<fileName>/chunk_<chunkId>`. */
  function StorePath(fileName: string, chunkId: int32): string {
    "chunks/" + fileName + "/chunk_" + IntToString(chunkId)
  }

  datatype StoredChunk = StoredChunk(path: string, data: seq<byte>)

  /** The UDP notification `ChunkHandler` sends the server alongside its
      reply. */
  datatype Notice =
    | ChunkOkNotice(rq: int32, fileName: string, chunkId: int32)
    | ChunkErrorNotice(rq: int32, fileName: string, chunkId: int32, reason: string)

  /** One connection's effect: the reply written back, the chunk written
      to disk, the notification sent. */
  datatype Handled = Handled(reply: Option<string>, stored: Option<StoredChunk>, notice: Option<Notice>)

  const Silent := Handled(None, None, None)

  /** The line `CHUNK_OK rq file chunk`, without its line feed. */
  function ChunkOkLine(rq: int32, fileName: string, chunkId: int32): string {
    "CHUNK_OK " + IntToString(rq) + " " + fileName + " " + IntToString(chunkId)
  }

  function ChunkErrorReply(h: ChunkHeader, reason: string): string {
    "CHUNK_ERROR " + IntToString(h.rq) + " " + h.fileName + " " + IntToString(h.chunkId) + " " + reason + "\n"
  }

  function ChunkFailure(h: ChunkHeader, reason: string): Handled {
    Handled(Some(ChunkErrorReply(h, reason)), None, Some(ChunkErrorNotice(h.rq, h.fileName, h.chunkId, reason)))
  }

  /** The checks after the header, in the handler's order. A negative size
      is the uncaught `NegativeArraySizeException` (no reply); otherwise
      exactly `size` payload bytes must be there, their checksum text must
      equal the header's, and the write (`storeOk`, the outcome of
      `storeChunk`) must succeed. Every outcome but the first is one reply
      plus one notification, and only the last stores anything. */
  function HandleHeader(h: ChunkHeader, payload: seq<byte>, crc: seq<byte> -> Crc32, storeOk: bool): (r: Handled)
    ensures h.size < 0 ==> r == Silent
    ensures 0 <= h.size && |payload| < h.size ==> r == ChunkFailure(h, INCOMPLETE_DATA)
    ensures 0 <= h.size <= |payload| && ChunkChecksum(crc, payload[..h.size]) != h.checksum ==>
              r == ChunkFailure(h, CHECKSUM_MISMATCH)
    ensures r.stored.Some? <==>
              0 <= h.size <= |payload| && ChunkChecksum(crc, payload[..h.size]) == h.checksum && storeOk
    ensures r.stored.Some? ==>
              && r.stored.value == StoredChunk(StorePath(h.fileName, h.chunkId), payload[..h.size])
              && r.reply == Some(ChunkOkLine(h.rq, h.fileName, h.chunkId) + "\n")
              && r.notice == Some(ChunkOkNotice(h.rq, h.fileName, h.chunkId))
    ensures 0 <= h.size && r.stored.None? ==>
              r.notice.Some? && r.notice.value.ChunkErrorNotice? &&
              r == ChunkFailure(h, r.notice.value.reason)
    ensures 0 <= h.size <= |payload| && ChunkChecksum(crc, payload[..h.size]) == h.checksum && !storeOk ==>
              r == ChunkFailure(h, STORAGE_FAILED)
    ensures r.reply.Some? ==> |r.reply.value| > 0 && r.reply.value[0] == 'C'
  {
    if h.size < 0 then Silent
    else
      var data := if h.size <= |payload| then payload[..h.size] else payload;
      if |data| != h.size then ChunkFailure(h, INCOMPLETE_DATA)
      else if ChunkChecksum(crc, data) != h.checksum then ChunkFailure(h, CHECKSUM_MISMATCH)
      else if storeOk then
        Handled(Some(ChunkOkLine(h.rq, h.fileName, h.chunkId) + "\n"),
                Some(StoredChunk(StorePath(h.fileName, h.chunkId), data)),
                Some(ChunkOkNotice(h.rq, h.fileName, h.chunkId)))
      else ChunkFailure(h, STORAGE_FAILED)
  }

  /** `ChunkHandler.run` on the bytes of one connection. The header is read
      through a `BufferedReader`, but the payload from the raw socket
      stream, so whatever the reader fetched ahead of the line is no longer
      there: `readAhead` is how many bytes past the header that was, which
      depends on how the bytes arrived. */
  function HandleChunk(stream: seq<byte>, readAhead: nat, crc: seq<byte> -> Crc32, storeOk: bool): (r: Handled)
    ensures stream == [] ==> r == Silent
    ensures r.reply == Some(INVALID_COMMAND) <==>
              ReadLine(stream).Some? && ParseSendChunk(ReadLine(stream).value.0) == Err(InvalidCommand)
    ensures r.reply == Some(INVALID_COMMAND) ==> r.stored.None? && r.notice.None?
    ensures r.stored.Some? ==> r.reply.Some? && r.notice.Some? && r.notice.value.ChunkOkNotice?
  {
    match ReadLine(stream)
    case None => Silent
    case Some((header, rest)) =>
      match ParseSendChunk(header)
      case Err(InvalidCommand) => Handled(Some(INVALID_COMMAND), None, None)
      case Err(BadNumber) => Silent
      case Ok(h) => HandleHeader(h, AfterReadAhead(rest, readAhead), crc, storeOk)
  }

  /** What is left on the raw socket stream for the payload loop once the
      line reader has fetched `readAhead` bytes past the header line. */
  function AfterReadAhead(rest: seq<byte>, readAhead: nat): seq<byte> {
    if readAhead < |rest| then rest[readAhead..] else []
  }

  /** How the payload loop of `ChunkHandler.run` ends. `in.read` returns
      -1 only once the client has shut its output; before that it blocks
      until a byte arrives, and no socket timeout is set. So the loop
      either has its bytes (`Payload`) or waits for ever (`Blocked`). */
  datatype PayloadRead = Payload(data: seq<byte>) | Blocked

  /** The number of payload bytes the loop collects before it stops on its
      own: `size` when that many arrive, else all of them. */
  function Collected(raw: seq<byte>, size: int): nat {
    if size <= 0 then 0 else if size < |raw| then size else |raw|
  }

  /** The payload loop on the bytes `raw` still on the raw stream, reading
      for `size` bytes. `clientClosed` says whether the client shut its
      output after those bytes. Each `read` is taken one byte at a time;
      how many bytes one `read` delivers does not change where the loop
      ends. */
  function ReadPayload(raw: seq<byte>, size: int, clientClosed: bool): (r: PayloadRead)
    ensures r.Blocked? <==> |raw| < size && !clientClosed
    ensures r.Payload? ==> r.data == raw[..Collected(raw, size)]
  {
    ReadPayloadFrom(raw, size, 0, clientClosed)
  }

  /** The loop from `totalRead` bytes on. */
  function ReadPayloadFrom(raw: seq<byte>, size: int, totalRead: nat, clientClosed: bool): (r: PayloadRead)
    requires totalRead <= |raw| && (totalRead == 0 || totalRead <= size)
    ensures r.Blocked? <==> |raw| < size && !clientClosed
    ensures r.Payload? ==> r.data == raw[..Collected(raw, size)]
    decreases |raw| - totalRead
  {
    if size <= totalRead then Payload(raw[..totalRead])
    else if totalRead < |raw| then ReadPayloadFrom(raw, size, totalRead + 1, clientClosed)
    else if clientClosed then Payload(raw[..totalRead])
    else Blocked
  }

  /** The characters of a joined text come from its tokens or separators. */
  lemma {:induction false} JoinChars(ts: seq<string>, sep: string)
    ensures forall ch :: ch in Join(ts, sep) ==> ch in sep || exists k :: 0 <= k < |ts| && ch in ts[k]
    decreases |ts|
  {
    if |ts| > 1 {
      JoinChars(ts[1..], sep);
      forall ch | ch in Join(ts, sep)
        ensures ch in sep || exists k :: 0 <= k < |ts| && ch in ts[k]
      {
        assert Join(ts, sep) == ts[0] + sep + Join(ts[1..], sep);
        if ch in Join(ts[1..], sep) && ch !in sep {
          var k :| 0 <= k < |ts[1..]| && ch in ts[1..][k];
          assert ch in ts[k + 1];
        } else if ch in ts[0] {
          assert ch in ts[0];
        }
      }
    } else if |ts| == 1 {
      assert Join(ts, sep) == ts[0];
    }
  }

  /** The six header tokens when the file name is ASCII and free of
      spaces and line breaks. */
  predicate WireName(fileName: string) {
    IsAscii(fileName) && ' ' !in fileName && '\n' !in fileName && '\r' !in fileName
  }

  lemma IntToStringIsAscii(i: int)
    ensures IsAscii(IntToString(i)) && ' ' !in IntToString(i)
    ensures '\n' !in IntToString(i) && '\r' !in IntToString(i)
  {
    var s := IntToString(i);
    forall k | 0 <= k < |s|
      ensures s[k] as int < 0x80 && s[k] != ' ' && s[k] != '\n' && s[k] != '\r'
    {
      assert s[k] == '-' || IsDigitChar(s[k]);
    }
  }

  /** ASCII tokens free of spaces and line breaks join into one ASCII line. */
  lemma CleanLine(ts: seq<string>)
    requires forall k :: 0 <= k < |ts| ==> IsAscii(ts[k]) && ' ' !in ts[k] && '\n' !in ts[k] && '\r' !in ts[k]
    ensures IsAscii(Join(ts, " ")) && '\n' !in Join(ts, " ") && '\r' !in Join(ts, " ")
  {
    var line := Join(ts, " ");
    JoinChars(ts, " ");
    forall k | 0 <= k < |line|
      ensures line[k] as int < 0x80
    {
      var ch := line[k];
      assert ch in line;
      if ch !in " " {
        var j :| 0 <= j < |ts| && ch in ts[j];
        var m :| 0 <= m < |ts[j]| && ts[j][m] == ch;
      }
    }
  }

  /** `ChunkHandler` reads back every field `sendChunk` wrote, payload
      included, when the header arrives on its own. */
  lemma SendChunkHeaderParses(rq: int32, fileName: string, chunkId: int32, data: seq<byte>, checksum: string)
    requires WireName(fileName) && |data| <= INT_MAX
    requires IsWord(checksum) && IsAscii(checksum)
    ensures ReadLine(SendChunkRequest(rq, fileName, chunkId, data, checksum)) ==
              Some((Join(["SEND_CHUNK", IntToString(rq), fileName, IntToString(chunkId), IntToString(|data|), checksum], " "), data))
    ensures ParseSendChunk(ReadLine(SendChunkRequest(rq, fileName, chunkId, data, checksum)).value.0) ==
              Ok(ChunkHeader(rq, fileName, chunkId, |data| as int32, checksum))
  {
    var ts := ["SEND_CHUNK", IntToString(rq), fileName, IntToString(chunkId), IntToString(|data|), checksum];
    HeaderTokensClean(rq, fileName, chunkId, |data|, checksum);
    CleanLine(ts);
    LineRoundTrip(Join(ts, " "), data);
    HeaderFieldsParse(rq, fileName, chunkId, |data| as int32, checksum);
  }

  /** Every token of a `SEND_CHUNK` header is ASCII without spaces or line
      breaks. */
  lemma HeaderTokensClean(rq: int32, fileName: string, chunkId: int32, n: int, checksum: string)
    requires WireName(fileName) && IsWord(checksum) && IsAscii(checksum)
    ensures var ts := ["SEND_CHUNK", IntToString(rq), fileName, IntToString(chunkId), IntToString(n), checksum];
            forall k :: 0 <= k < |ts| ==> IsAscii(ts[k]) && ' ' !in ts[k] && '\n' !in ts[k] && '\r' !in ts[k]
  {
    IntToStringIsAscii(rq);
    IntToStringIsAscii(chunkId);
    IntToStringIsAscii(n);
    forall k | 0 <= k < |checksum|
      ensures checksum[k] != ' ' && checksum[k] != '\n' && checksum[k] != '\r'
    {
      assert !IsRegexSpace(checksum[k]);
    }
  }

  /** The header line's fields parse back to the values written. */
  lemma HeaderFieldsParse(rq: int32, fileName: string, chunkId: int32, n: int32, checksum: string)
    requires WireName(fileName) && IsWord(checksum) && n >= 0
    ensures var ts := ["SEND_CHUNK", IntToString(rq), fileName, IntToString(chunkId), IntToString(n), checksum];
            ParseSendChunk(Join(ts, " ")) == Ok(ChunkHeader(rq, fileName, chunkId, n, checksum))
  {
    var ts := ["SEND_CHUNK", IntToString(rq), fileName, IntToString(chunkId), IntToString(n), checksum];
    IntToStringIsAscii(rq);
    IntToStringIsAscii(chunkId);
    IntToStringIsAscii(n as int);
    assert ' ' !in checksum by {
      forall k | 0 <= k < |checksum|
        ensures checksum[k] != ' '
      {
        assert !IsRegexSpace(checksum[k]);
      }
    }
    assert " " == [' '];
    SplitCharJoin(ts, ' ');
    IntToStringParses(rq);
    IntToStringParses(chunkId);
    IntToStringParses(n);
  }

  /** As written, `sendChunk` refuses every acknowledgement `ChunkHandler`
      sends for a stored chunk: the reply carries the file name and chunk id
      after the request number, so it never equals `CHUNK_OK <rq>`. */
  lemma AsWrittenRejectsEveryStore(rq: int32, fileName: string, chunkId: int32)
    requires IsAscii(fileName)
    ensures !SendChunkAcceptsAsWritten(rq, Some(Encode(ChunkOkLine(rq, fileName, chunkId) + "\n")))
    ensures ChunkAcked(rq, Some(Encode(ChunkOkLine(rq, fileName, chunkId) + "\n")))
  {
    var p := "CHUNK_OK " + IntToString(rq);
    var line := ChunkOkLine(rq, fileName, chunkId);
    ChunkOkLineFacts(rq, fileName, chunkId);
    DecodeEncodeAscii(line + "\n");
    TrimDropsNewline(line);
    assert line[..|p + " "|] == p + " ";
  }

  /** The acknowledgement line is ASCII, ends in a digit, and starts with
      `CHUNK_OK <rq> `. */
  lemma ChunkOkLineFacts(rq: int32, fileName: string, chunkId: int32)
    requires IsAscii(fileName)
    ensures var line := ChunkOkLine(rq, fileName, chunkId);
            var p := "CHUNK_OK " + IntToString(rq);
            && IsAscii(line + "\n") && line[0] > ' ' && line[|line| - 1] > ' '
            && |line| > |p| + 1 && line[..|p| + 1] == p + " "
  {
    var r := IntToString(rq);
    var c := IntToString(chunkId);
    var p := "CHUNK_OK " + r;
    var line := ChunkOkLine(rq, fileName, chunkId);
    IntToStringIsAscii(rq);
    IntToStringIsAscii(chunkId);
    hide IntToString;
    assert line == (p + " ") + (fileName + " " + c);
    AsciiAppend("CHUNK_OK ", r);
    AsciiAppend(p, " ");
    AsciiAppend(fileName, " ");
    AsciiAppend(fileName + " ", c);
    AsciiAppend(p + " ", fileName + " " + c);
    AsciiAppend(line, "\n");
    assert line[|line| - 1] == c[|c| - 1];
    assert line[..|p| + 1] == p + " ";
  }

  /** A reply whose text differs from `CHUNK_OK` at one of its first seven
      printable positions is never taken for an acknowledgement. */
  lemma NotAckedWhenPrefixDiffers(rq: int32, s: string, i: nat)
    requires IsAscii(s) && i < 7 && i < |s|
    requires s[0] > ' ' && s[i] > ' ' && s[i] != "CHUNK_OK"[i]
    ensures !ChunkAcked(rq, Some(Encode(s)))
  {
    DecodeEncodeAscii(s);
    var p := "CHUNK_OK " + IntToString(rq);
    assert p[i] == "CHUNK_OK"[i];
    assert TrimLeft(s) == s;
    var t := Trim(s);
    assert i < |t| && t[i] == s[i];
    assert (p + " ")[i] != t[i];
    assert |p| + 1 <= |t| ==> t[..|p| + 1][i] == t[i];
  }

  /** The corrected rule still refuses the handler's refusals: the
      `ERROR: Invalid command` reply ... */
  lemma ChunkAckedRejectsInvalidCommand(rq: int32)
    ensures !ChunkAcked(rq, Some(Encode(INVALID_COMMAND)))
  {
    assert IsAscii(INVALID_COMMAND);
    NotAckedWhenPrefixDiffers(rq, INVALID_COMMAND, 0);
  }

  /** ... and every `CHUNK_ERROR` reply. */
  lemma ChunkAckedRejectsChunkError(rq: int32, h: ChunkHeader, reason: string)
    requires IsAscii(h.fileName) && IsAscii(reason)
    ensures !ChunkAcked(rq, Some(Encode(ChunkErrorReply(h, reason))))
  {
    var e := ChunkErrorReply(h, reason);
    ChunkErrorAscii(h, reason);
    NotAckedWhenPrefixDiffers(rq, e, 6);
  }

  /** A `CHUNK_ERROR` reply is ASCII text whose seventh letter is `E`. */
  lemma ChunkErrorAscii(h: ChunkHeader, reason: string)
    requires IsAscii(h.fileName) && IsAscii(reason)
    ensures var e := ChunkErrorReply(h, reason);
            IsAscii(e) && |e| > 6 && e[6] == 'E'
  {
    var r := IntToString(h.rq);
    var c := IntToString(h.chunkId);
    var e := ChunkErrorReply(h, reason);
    IntToStringIsAscii(h.rq);
    IntToStringIsAscii(h.chunkId);
    hide IntToString;
    var e1 := "CHUNK_ERROR " + r;
    var e2 := " " + h.fileName + " ";
    var e3 := c + " " + reason + "\n";
    assert e == e1 + e2 + e3;
    AsciiAppend("CHUNK_ERROR ", r);
    AsciiAppend(" ", h.fileName);
    AsciiAppend(" " + h.fileName, " ");
    AsciiAppend(c, " ");
    AsciiAppend(c + " ", reason);
    AsciiAppend(c + " " + reason, "\n");
    AsciiAppend(e1, e2);
    AsciiAppend(e1 + e2, e3);
    assert e[6] == 'E';
  }

  /** One `SEND_CHUNK` exchange end to end: the handler stores exactly the
      bytes sent under `chunks/<file>/chunk_<id>`, answers `CHUNK_OK rq
      file chunk` and notifies the server; the corrected client rule
      accepts that answer and the rule as written does not. */
  lemma StoreExchange(rq: int32, fileName: string, chunkId: int32, data: seq<byte>, crc: seq<byte> -> Crc32)
    requires WireName(fileName) && |data| <= INT_MAX
    ensures var request := SendChunkRequest(rq, fileName, chunkId, data, ChunkChecksum(crc, data));
            var r := HandleChunkUnbuffered(request, crc, true);
            && r.stored == Some(StoredChunk(StorePath(fileName, chunkId), data))
            && r.reply == Some(ChunkOkLine(rq, fileName, chunkId) + "\n")
            && r.notice == Some(ChunkOkNotice(rq, fileName, chunkId))
            && ChunkAcked(rq, Some(Encode(r.reply.value)))
            && !SendChunkAcceptsAsWritten(rq, Some(Encode(r.reply.value)))
  {
    var checksum := ChunkChecksum(crc, data);
    SendChunkHeaderParses(rq, fileName, chunkId, data, checksum);
    assert data[..|data|] == data;
    AsWrittenRejectsEveryStore(rq, fileName, chunkId);
  }

  /** `ChunkHandler.run` as evidently intended: the header is read from the
      raw stream itself (as the restore transfer reads its `CHUNK_DATA`
      header), so the payload is the bytes right after the header's line
      feed, and a well-formed chunk is stored exactly when it is complete,
      its checksum matches and the write succeeds. */
  function HandleChunkUnbuffered(stream: seq<byte>, crc: seq<byte> -> Crc32, storeOk: bool): (r: Handled)
    ensures ReadLine(stream).Some? && ParseSendChunk(ReadLine(stream).value.0).Ok? ==>
              var h := ParseSendChunk(ReadLine(stream).value.0).value;
              var rest := ReadLine(stream).value.1;
              && (r.stored.Some? <==>
                    0 <= h.size <= |rest| && ChunkChecksum(crc, rest[..h.size]) == h.checksum && storeOk)
              && (r.stored.Some? ==> r.stored.value == StoredChunk(StorePath(h.fileName, h.chunkId), rest[..h.size]))
  {
    HandleChunk(stream, 0, crc, storeOk)
  }

  /** When the line reader has taken payload bytes along with the header,
      a complete and correct chunk is refused as incomplete. This is the
      outcome only for a client that shuts its output after the chunk, so
      that the payload loop sees the end of the stream; `HandleChunk`
      assumes that end. `TCPClient.sendChunk` keeps its output open while
      it waits for the reply, and then the loop blocks instead
      (`ReadAheadHangs`). */
  lemma ReadAheadLosesPayload(rq: int32, fileName: string, chunkId: int32, data: seq<byte>,
                              crc: seq<byte> -> Crc32, readAhead: nat)
    requires WireName(fileName) && |data| <= INT_MAX
    requires 0 < readAhead
    requires |data| > 0
    ensures var h := ChunkHeader(rq, fileName, chunkId, |data| as int32, ChunkChecksum(crc, data));
            HandleChunk(SendChunkRequest(rq, fileName, chunkId, data, ChunkChecksum(crc, data)), readAhead, crc, true) ==
              ChunkFailure(h, INCOMPLETE_DATA)
  {
    SendChunkHeaderParses(rq, fileName, chunkId, data, ChunkChecksum(crc, data));
  }

  /** With the code's own client, which keeps its output open and waits
      for the reply, payload bytes taken by the line reader leave the
      payload loop short, and it waits for ever; the client waits for a
      reply that never comes. */
  lemma ReadAheadHangs(rq: int32, fileName: string, chunkId: int32, data: seq<byte>,
                       crc: seq<byte> -> Crc32, readAhead: nat)
    requires WireName(fileName) && |data| <= INT_MAX
    requires 0 < readAhead
    requires |data| > 0
    ensures var request := SendChunkRequest(rq, fileName, chunkId, data, ChunkChecksum(crc, data));
            && ReadLine(request).Some?
            && ReadPayload(AfterReadAhead(ReadLine(request).value.1, readAhead), |data|, false) == Blocked
  {
    SendChunkHeaderParses(rq, fileName, chunkId, data, ChunkChecksum(crc, data));
  }

  /** Read right after the header line, the payload loop has the client's
      bytes whether or not the client shuts its output. */
  lemma UnbufferedPayloadArrives(rq: int32, fileName: string, chunkId: int32, data: seq<byte>,
                                 crc: seq<byte> -> Crc32, clientClosed: bool)
    requires WireName(fileName) && |data| <= INT_MAX
    ensures var request := SendChunkRequest(rq, fileName, chunkId, data, ChunkChecksum(crc, data));
            && ReadLine(request).Some?
            && ReadPayload(ReadLine(request).value.1, |data|, clientClosed) == Payload(data)
  {
    SendChunkHeaderParses(rq, fileName, chunkId, data, ChunkChecksum(crc, data));
    assert data[..|data|] == data;
  }
}
