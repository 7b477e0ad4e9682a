/** The control-plane text protocol between a peer and the server: the
    peer's request builder (`UDPClient.java`) and the server's request
    handler (`ClientHandler.java`). A request is `VERB rq arg...` in one
    datagram; the server splits it on runs of whitespace and answers with a
    line that echoes the request number. */
module ControlCodec {
  import opened Wrappers
  import opened JavaText
  import opened JavaNumbers
  import opened PeerNodes
  import opened Registry

  const TIMEOUT_REPLY := "ERROR" + ": No response from server (timeout)"
  const UNKNOWN_COMMAND := "ERROR: Unknown command"
  const MALFORMED_REGISTER := "ERROR: Malformed REGISTER message"
  const INVALID_NUMERIC := "ERROR: Invalid numeric field in REGISTER"
  const MALFORMED_DEREGISTER := "ERROR: Malformed DE-REGISTER message"

  /** `String.endsWith`. */
  predicate EndsWith(s: string, suffix: string) {
    |suffix| <= |s| && s[|s| - |suffix|..] == suffix
  }

  // ---------------------------------------------------------------- peer side

  /** One argument as `sendCommand` appends it: a null argument is empty. */
  function ArgText(a: Option<string>): string {
    a.GetOr("")
  }

  function ArgTexts(args: seq<Option<string>>): (r: seq<string>)
    ensures |r| == |args|
    ensures forall i :: 0 <= i < |args| ==> r[i] == ArgText(args[i])
  {
    seq(|args|, i requires 0 <= i < |args| => ArgText(args[i]))
  }

  /** What the argument loop of `sendCommand` appends: `" " + arg` for each
      argument in turn. */
  function ArgsSuffix(args: seq<Option<string>>): string
    decreases |args|
  {
    if |args| == 0 then "" else " " + ArgText(args[0]) + ArgsSuffix(args[1..])
  }

  lemma {:induction false} ArgsSuffixIsJoin(head: string, args: seq<Option<string>>)
    ensures head + ArgsSuffix(args) == Join([head] + ArgTexts(args), " ")
    decreases |args|
  {
    if |args| > 0 {
      var next := head + " " + ArgText(args[0]);
      ArgsSuffixIsJoin(ArgText(args[0]), args[1..]);
      assert ArgTexts(args) == [ArgText(args[0])] + ArgTexts(args[1..]);
      assert ([head] + ArgTexts(args))[1..] == [ArgText(args[0])] + ArgTexts(args[1..]);
    }
  }

  /** The payload `sendCommand` sends: the command, the request number and
      the arguments joined by single spaces. */
  function CommandText(rq: int32, command: string, args: seq<Option<string>>): (r: string)
    ensures r == Join([command, IntToString(rq)] + ArgTexts(args), " ")
  {
    ArgsSuffixIsJoin(IntToString(rq), args);
    assert [command] + ([IntToString(rq)] + ArgTexts(args)) == [command, IntToString(rq)] + ArgTexts(args);
    command + " " + IntToString(rq) + ArgsSuffix(args)
  }

  /** `sendAndReceive`: the reply text, or the fixed timeout text when the
      receive timed out (`None`); a timeout is not an exception, and its
      text is an error that no command can take for the reply it waits
      for. */
  function ReplyText(reply: Option<string>): (r: string)
    ensures reply.None? ==> r == TIMEOUT_REPLY
    ensures reply.Some? ==> r == reply.value
    ensures reply.None? ==>
              && StartsWith(r, "ERROR") && !StartsWith(r, "REGISTERED")
              && !StartsWith(r, "BACKUP_PLAN") && !StartsWith(r, "RESTORE_PLAN")
  {
    TimeoutIsError();
    reply.GetOr(TIMEOUT_REPLY)
  }

  lemma TimeoutIsError()
    ensures StartsWith(TIMEOUT_REPLY, "ERROR") && !StartsWith(TIMEOUT_REPLY, "REGISTERED")
    ensures !StartsWith(TIMEOUT_REPLY, "BACKUP_PLAN") && !StartsWith(TIMEOUT_REPLY, "RESTORE_PLAN")
  {
    PrefixOfConcat("ERROR", ": No response from server (timeout)");
    FirstCharDecides(TIMEOUT_REPLY, "REGISTERED");
    FirstCharDecides(TIMEOUT_REPLY, "BACKUP_PLAN");
    FirstCharDecides(TIMEOUT_REPLY, "RESTORE_PLAN");
  }

  /** A text starts with any of its leading parts. */
  lemma PrefixOfConcat(a: string, b: string)
    ensures StartsWith(a + b, a)
  {
    assert (a + b)[..|a|] == a;
  }

  /** Texts whose first characters differ do not start one with the other. */
  lemma FirstCharDecides(s: string, p: string)
    requires |s| > 0 && |p| > 0 && s[0] != p[0]
    ensures !StartsWith(s, p)
  {
    if |p| <= |s| {
      assert s[..|p|][0] == s[0];
    }
  }

  /** `sendRegister`: name, role, IP, UDP port, TCP port, capacity. */
  function RegisterText(rq: int32, node: PeerNode): (r: string)
    ensures r == Join(["REGISTER", IntToString(rq), node.name, node.role, node.ipAddress,
                       IntToString(node.udpPort), IntToString(node.tcpPort),
                       IntToString(node.storageCapacity)], " ")
  {
    var args := [Some(node.name), Some(node.role), Some(node.ipAddress),
                 Some(IntToString(node.udpPort)), Some(IntToString(node.tcpPort)),
                 Some(IntToString(node.storageCapacity))];
    assert ["REGISTER", IntToString(rq)] + ArgTexts(args) ==
           ["REGISTER", IntToString(rq), node.name, node.role, node.ipAddress,
            IntToString(node.udpPort), IntToString(node.tcpPort),
            IntToString(node.storageCapacity)];
    CommandText(rq, "REGISTER", args)
  }

  /** `sendDeregister`. */
  function DeregisterText(rq: int32, name: string): (r: string)
    ensures r == Join(["DE-REGISTER", IntToString(rq), name], " ")
  {
    assert ["DE-REGISTER", IntToString(rq)] + ArgTexts([Some(name)]) == ["DE-REGISTER", IntToString(rq), name];
    CommandText(rq, "DE-REGISTER", [Some(name)])
  }

  /** `sendBackupReq`: file name, file size, checksum text, chunk size. */
  function BackupReqText(rq: int32, fileName: string, fileSize: int, checksumHex: string,
                         chunkSize: int32): (r: string)
    ensures r == Join(["BACKUP_REQ", IntToString(rq), fileName, IntToString(fileSize),
                       checksumHex, IntToString(chunkSize)], " ")
  {
    var args := [Some(fileName), Some(IntToString(fileSize)), Some(checksumHex),
                 Some(IntToString(chunkSize))];
    assert ["BACKUP_REQ", IntToString(rq)] + ArgTexts(args) ==
           ["BACKUP_REQ", IntToString(rq), fileName, IntToString(fileSize), checksumHex, IntToString(chunkSize)];
    CommandText(rq, "BACKUP_REQ", args)
  }

  /** `sendBackupDone`: a file name that is one word comes back as the
      third token when the server splits the text. */
  function BackupDoneText(rq: int32, fileName: string): (r: string)
    ensures r == Join(["BACKUP_DONE", IntToString(rq), fileName], " ")
    ensures IsWord(fileName) ==> SplitWs(r) == ["BACKUP_DONE", IntToString(rq), fileName]
  {
    var ts := ["BACKUP_DONE", IntToString(rq), fileName];
    assert ["BACKUP_DONE", IntToString(rq)] + ArgTexts([Some(fileName)]) == ts;
    assert IsWord(fileName) ==> SplitWs(Join(ts, " ")) == ts by {
      if IsWord(fileName) {
        assert IsWord("BACKUP_DONE");
        assert AllWords(ts);
        SplitWsJoin(ts);
      }
    }
    CommandText(rq, "BACKUP_DONE", [Some(fileName)])
  }

  // -------------------------------------------------------------- server side

  /** The fields `processRegisterMessage` reads, in token order. */
  datatype RegisterRequest = RegisterRequest(
    rq: string, name: string, role: string, ipAddress: string,
    udpPort: int32, tcpPort: int32, capacity: int32)

  /** The parsing half of `processRegisterMessage`: at least eight
      whitespace-separated tokens, and tokens 5-7 must be `int`s. */
  function ParseRegister(message: string): (r: Result<RegisterRequest, string>)
    ensures |SplitWs(message)| < 8 ==> r == Err(MALFORMED_REGISTER)
    ensures r.Err? ==> r.error in {MALFORMED_REGISTER, INVALID_NUMERIC}
    ensures r.Ok? <==> (|SplitWs(message)| >= 8 && ParseInt(SplitWs(message)[5]).Some? &&
                        ParseInt(SplitWs(message)[6]).Some? && ParseInt(SplitWs(message)[7]).Some?)
    ensures r.Ok? ==> var c := SplitWs(message);
                      r.value.rq == c[1] && r.value.name == c[2] && r.value.role == c[3] &&
                      r.value.ipAddress == c[4] && Some(r.value.udpPort) == ParseInt(c[5]) &&
                      Some(r.value.tcpPort) == ParseInt(c[6]) && Some(r.value.capacity) == ParseInt(c[7])
  {
    var c := SplitWs(message);
    if |c| < 8 then Err(MALFORMED_REGISTER)
    else
      match (ParseInt(c[5]), ParseInt(c[6]), ParseInt(c[7]))
      case (Some(udp), Some(tcp), Some(capacity)) =>
        Ok(RegisterRequest(c[1], c[2], c[3], c[4], udp, tcp, capacity))
      case _ => Err(INVALID_NUMERIC)
  }

  /** `processRegisterMessage`; `now` is the clock reading the new
      `PeerNode` takes. A parse error leaves the registry alone; otherwise
      the registry decides and the reply ends with the request number and
      name exactly as they were received. */
  function ProcessRegister(reg: Registry, message: string, now: Instant): (r: (Registry, string))
    ensures ParseRegister(message).Err? ==> r == (reg, ParseRegister(message).error)
    ensures ParseRegister(message).Ok? ==>
              var q := ParseRegister(message).value;
              var out := Register(reg, NewPeerNode(q.name, q.role, q.ipAddress, q.udpPort, q.tcpPort, q.capacity, now));
              && r.0 == out.0
              && EndsWith(r.1, " " + q.rq + " " + q.name)
              && (out.1.ok ==> r.1 == "REGISTERED " + q.rq + " " + q.name)
              && (!out.1.ok ==> StartsWith(r.1, out.1.message))
              && (!out.1.ok ==> r.1 == out.1.message + " " + q.rq + " " + q.name)
              && (out.1.ok ==> q.name in r.0.peers && r.0.peers[q.name].lastTimestamp.None?)
  {
    match ParseRegister(message)
    case Err(e) => (reg, e)
    case Ok(q) =>
      var peer := NewPeerNode(q.name, q.role, q.ipAddress, q.udpPort, q.tcpPort, q.capacity, now);
      var (next, outcome) := Register(reg, peer);
      var tail := " " + q.rq + " " + q.name;
      if !outcome.ok then
        assert (outcome.message + tail)[..|outcome.message|] == outcome.message;
        SeqAssoc(outcome.message, " ", q.rq, " ", q.name);
        (next, outcome.message + tail)
      else
        assert next.peers == reg.peers[q.name := peer];
        assert ("REGISTERED" + tail)[|"REGISTERED"|..] == tail;
        (next, "REGISTERED" + tail)
  }

  /** `processDeregisterMessage`: at least three tokens, then the registry
      decides; the reply ends with the request number as received. */
  function ProcessDeregister(reg: Registry, message: string): (r: (Registry, string))
    ensures |SplitWs(message)| < 3 ==> r == (reg, MALFORMED_DEREGISTER)
    ensures |SplitWs(message)| >= 3 ==>
              var c := SplitWs(message);
              var out := Deregister(reg, c[2]);
              && r.0 == out.0
              && EndsWith(r.1, " " + c[1])
              && (out.1.ok ==> r.1 == "DE-REGISTERED " + c[1])
              && (!out.1.ok ==> r.1 == NOT_REGISTERED + " " + c[1])
  {
    var c := SplitWs(message);
    if |c| < 3 then (reg, MALFORMED_DEREGISTER)
    else
      var (next, outcome) := Deregister(reg, c[2]);
      if !outcome.ok then (next, outcome.message + " " + c[1])
      else (next, "DE-REGISTERED " + c[1])
  }

  /** `processMessage`: dispatch on the text's prefix. */
  function ProcessMessage(reg: Registry, message: string, now: Instant): (r: (Registry, string))
    ensures StartsWith(message, "REGISTER") ==> r == ProcessRegister(reg, message, now)
    ensures !StartsWith(message, "REGISTER") && StartsWith(message, "DE-REGISTER") ==>
              r == ProcessDeregister(reg, message)
    ensures !StartsWith(message, "REGISTER") && !StartsWith(message, "DE-REGISTER") ==>
              r == (reg, UNKNOWN_COMMAND)
  {
    if StartsWith(message, "REGISTER") then ProcessRegister(reg, message, now)
    else if StartsWith(message, "DE-REGISTER") then ProcessDeregister(reg, message)
    else (reg, UNKNOWN_COMMAND)
  }

  /** The server handles every request a handler thread gives it without
      breaking the registry invariant. */
  lemma ProcessMessagePreservesValid(reg: Registry, message: string, now: Instant)
    requires Valid(reg)
    ensures Valid(ProcessMessage(reg, message, now).0)
  {
    if StartsWith(message, "REGISTER") {
      match ParseRegister(message)
      case Err(_) =>
      case Ok(q) =>
        RegisterPreservesValid(reg, NewPeerNode(q.name, q.role, q.ipAddress, q.udpPort, q.tcpPort, q.capacity, now));
    } else if StartsWith(message, "DE-REGISTER") {
      var c := SplitWs(message);
      if |c| >= 3 {
        DeregisterPreservesValid(reg, c[2]);
      }
    }
  }

  // --------------------------------------------------------------- round trips

  /** Fields the whitespace splitter keeps intact. */
  predicate WireSafe(node: PeerNode) {
    IsWord(node.name) && IsWord(node.role) && IsWord(node.ipAddress)
  }

  /** The server reads back every field a peer's REGISTER carries. */
  lemma RegisterRoundTrip(rq: int32, node: PeerNode)
    requires WireSafe(node)
    ensures ParseRegister(RegisterText(rq, node)) ==
            Ok(RegisterRequest(IntToString(rq), node.name, node.role, node.ipAddress,
                               node.udpPort, node.tcpPort, node.storageCapacity))
  {
    var ts := ["REGISTER", IntToString(rq), node.name, node.role, node.ipAddress,
               IntToString(node.udpPort), IntToString(node.tcpPort),
               IntToString(node.storageCapacity)];
    assert IsWord("REGISTER");
    assert AllWords(ts);
    SplitWsJoin(ts);
    IntToStringParses(node.udpPort);
    IntToStringParses(node.tcpPort);
    IntToStringParses(node.storageCapacity);
  }

  /** A peer's REGISTER reaches the registry as that very peer (stamped
      with the server's clock as its registration time, and without a
      heartbeat stamp, whatever an earlier registration under the name
      had), and the reply names the request and peer. */
  lemma RegisterRequestReachesRegistry(reg: Registry, rq: int32, node: PeerNode, now: Instant)
    requires WireSafe(node)
    ensures var out := Register(reg, node.(registeredAt := Some(now), lastTimestamp := None));
            var r := ProcessMessage(reg, RegisterText(rq, node), now);
            && r.0 == out.0
            && (out.1.ok ==> r.1 == "REGISTERED " + IntToString(rq) + " " + node.name)
            && (!out.1.ok ==> r.1 == out.1.message + " " + IntToString(rq) + " " + node.name)
            && (out.1.ok ==> r.0.peers[node.name].lastTimestamp.None?)
  {
    RegisterRoundTrip(rq, node);
    RegisterTextIsRegister(rq, node);
    var m := RegisterText(rq, node);
    assert ProcessMessage(reg, m, now) == ProcessRegister(reg, m, now);
    var peer := node.(registeredAt := Some(now), lastTimestamp := None);
    assert NewPeerNode(node.name, node.role, node.ipAddress, node.udpPort, node.tcpPort, node.storageCapacity, now) == peer;
    var out := Register(reg, peer);
    if !out.1.ok {
      var tail := " " + IntToString(rq) + " " + node.name;
      assert ProcessRegister(reg, m, now).1 == out.1.message + tail;
      SeqAssoc(out.1.message, " ", IntToString(rq), " ", node.name);
    }
  }

  lemma SeqAssoc<T>(a: seq<T>, b: seq<T>, c: seq<T>, d: seq<T>, e: seq<T>)
    ensures a + (b + c + d + e) == a + b + c + d + e
  {
  }

  lemma RegisterTextIsRegister(rq: int32, node: PeerNode)
    ensures StartsWith(RegisterText(rq, node), "REGISTER")
  {
    var ts := ["REGISTER", IntToString(rq), node.name, node.role, node.ipAddress,
               IntToString(node.udpPort), IntToString(node.tcpPort),
               IntToString(node.storageCapacity)];
    JoinStartsWithFirst(ts, " ");
  }

  /** A peer's DE-REGISTER reaches the registry for its own name. */
  lemma DeregisterRoundTrip(reg: Registry, rq: int32, name: string, now: Instant)
    requires IsWord(name)
    ensures SplitWs(DeregisterText(rq, name)) == ["DE-REGISTER", IntToString(rq), name]
    ensures var out := Deregister(reg, name);
            var r := ProcessMessage(reg, DeregisterText(rq, name), now);
            && r.0 == out.0
            && (out.1.ok ==> r.1 == "DE-REGISTERED " + IntToString(rq))
            && (!out.1.ok ==> r.1 == NOT_REGISTERED + " " + IntToString(rq))
  {
    DeregisterTextFields(rq, name);
    hide *;
  }

  /** The de-registration text splits back into its three tokens and is
      not taken for a registration. */
  lemma DeregisterTextFields(rq: int32, name: string)
    requires IsWord(name)
    ensures SplitWs(DeregisterText(rq, name)) == ["DE-REGISTER", IntToString(rq), name]
    ensures !StartsWith(DeregisterText(rq, name), "REGISTER") && StartsWith(DeregisterText(rq, name), "DE-REGISTER")
  {
    var ts := ["DE-REGISTER", IntToString(rq), name];
    assert IsWord("DE-REGISTER");
    assert AllWords(ts);
    SplitWsJoin(ts);
    JoinStartsWithFirst(ts, " ");
    var m := DeregisterText(rq, name);
    assert m[0] == 'D';
  }

  /** The sample registration `REGISTER 01 Alice BOTH 192.168.1.10 5001
      6001 1024MB`, token by token. */
  const SAMPLE_REGISTER_TOKENS := ["REGISTER", "01", "Alice", "BOTH", "192.168.1.10", "5001", "6001", "1024MB"]
  const SAMPLE_REGISTER := Join(SAMPLE_REGISTER_TOKENS, " ")

  /** The sample de-registration `DE-REGISTER 01`. */
  const SAMPLE_DEREGISTER := Join(["DE-REGISTER", "01"], " ")

  lemma NotAnInt()
    ensures ParseInt("1024MB") == None
  {
    assert "1024MB"[..5] == "1024M";
    assert "1024M"[..4] == "1024";
    assert DigitValue('M') == Some(22);
  }

  /** The sample registration carries a capacity with a unit, which is not
      an `int`: the server refuses it and leaves the registry alone. */
  lemma CapacityWithUnitIsRejected(reg: Registry, now: Instant)
    ensures ProcessMessage(reg, SAMPLE_REGISTER, now) == (reg, INVALID_NUMERIC)
  {
    SampleTokens();
    NotAnInt();
    hide SplitWs, Join, ParseInt;
    assert ParseRegister(SAMPLE_REGISTER) == Err(INVALID_NUMERIC);
  }

  /** The sample registration splits into its eight tokens. */
  lemma SampleTokens()
    ensures SplitWs(SAMPLE_REGISTER) == SAMPLE_REGISTER_TOKENS && StartsWith(SAMPLE_REGISTER, "REGISTER")
  {
    var ts := SAMPLE_REGISTER_TOKENS;
    assert AllWords(ts);
    SplitWsJoin(ts);
    JoinStartsWithFirst(ts, " ");
  }

  /** The sample de-registration names no peer: it is malformed. */
  lemma DeregisterWithoutNameIsMalformed(reg: Registry, now: Instant)
    ensures ProcessMessage(reg, SAMPLE_DEREGISTER, now) == (reg, MALFORMED_DEREGISTER)
  {
    var ts := ["DE-REGISTER", "01"];
    var m := SAMPLE_DEREGISTER;
    assert AllWords(ts);
    SplitWsJoin(ts);
    assert |SplitWs(m)| == 2;
    JoinStartsWithFirst(ts, " ");
    assert m[0] == ts[0][0] == 'D';
    assert |m| < 8 || m[..8][0] != "REGISTER"[0];
    assert ProcessDeregister(reg, m) == (reg, MALFORMED_DEREGISTER);
  }
}
