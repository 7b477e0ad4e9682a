/** The peer agent's bookkeeping (`PeerMain`): the request counter, the
    name-to-endpoint maps filled from the server's plans, the parsing of
    `BACKUP_PLAN` and `RESTORE_PLAN` replies, and the round-robin rule that
    picks a chunk's peer. */
module PeerPlans {
  import opened Wrappers
  import opened JavaText
  import opened JavaNumbers
  import opened ChunkWindow

  /** `nextRequest`: hands out the counter and advances it in `int`
      arithmetic, so `Integer.MAX_VALUE` is followed by
      `Integer.MIN_VALUE`. */
  function NextRequest(counter: int32): (r: (int32, int32))
    ensures r.0 == counter
    ensures counter < INT_MAX ==> r.1 == counter + 1
    ensures counter == INT_MAX ==> r.1 == INT_MIN
  {
    (counter, WrapInt32(counter as int + 1))
  }

  /** The numbers `count` successive calls hand out, starting from
      `counter`. */
  function Issued(counter: int32, count: nat): seq<int32>
    decreases count
  {
    if count == 0 then []
    else
      var (rq, next) := NextRequest(counter);
      [rq] + Issued(next, count - 1)
  }

  /** Until the counter reaches `Integer.MAX_VALUE` the numbers handed out
      are consecutive, so each is larger than every earlier one. */
  lemma {:induction false} IssuedIncrease(counter: int32, count: nat)
    requires counter as int + count <= INT_MAX + 1
    ensures |Issued(counter, count)| == count
    ensures forall j :: 0 <= j < count ==> Issued(counter, count)[j] == counter as int + j
    ensures forall i, j :: 0 <= i < j < count ==> Issued(counter, count)[i] < Issued(counter, count)[j]
    decreases count
  {
    if count > 0 {
      var next := NextRequest(counter).1;
      if count > 1 {
        assert next == counter + 1;
      }
      IssuedIncrease(next, count - 1);
      var rest := Issued(next, count - 1);
      assert Issued(counter, count) == [counter] + rest;
      if count == 1 {
        assert rest == [];
      }
    }
  }

  /** `storagePeerIps` and `storagePeerPorts`. */
  datatype PeerBook = PeerBook(ips: map<string, string>, ports: map<string, int32>)

  function Learn(book: PeerBook, name: string, ip: string, port: int32): (r: PeerBook)
    ensures r.ips == book.ips[name := ip] && r.ports == book.ports[name := port]
  {
    PeerBook(book.ips[name := ip], book.ports[name := port])
  }

  /** Both maps know the peer: the check the backup runs before sending. */
  predicate Knows(book: PeerBook, name: string) {
    name in book.ips && name in book.ports
  }

  /** One comma-separated entry of a plan's peer list after trimming:
      `name:ip:port` with a numeric port (kept with its parts re-joined by
      `:`, which is how the restore command records it), a non-numeric port
      (the `NumberFormatException` that ends the command; the name and ip
      are kept because the restore command files the ip first), or
      anything else. */
  datatype Entry =
    | EndpointEntry(name: string, ip: string, port: int32, joined: string)
    | BadPort(name: string, ip: string)
    | OtherEntry(text: string)

  function ParseEntry(entry: string): (r: Entry)
    ensures r.EndpointEntry? || r.BadPort? <==> |SplitChar(Trim(entry), ':')| == 3
    ensures r.BadPort? ==>
              var parts := SplitChar(Trim(entry), ':');
              ParseInt(parts[2]).None? && r.name == parts[0] && r.ip == parts[1]
    ensures r.EndpointEntry? ==>
              var parts := SplitChar(Trim(entry), ':');
              && ParseInt(parts[2]) == Some(r.port)
              && r.name == parts[0] && r.ip == parts[1] && r.joined == Join(parts, ":")
    ensures r.OtherEntry? ==> r.text == Trim(entry)
  {
    var text := Trim(entry);
    var parts := SplitChar(text, ':');
    if |parts| != 3 then OtherEntry(text)
    else
      match ParseInt(parts[2])
      case None => BadPort(parts[0], parts[1])
      case Some(port) => EndpointEntry(parts[0], parts[1], port, Join(parts, ":"))
  }

  function ParseEntries(entries: seq<string>): (r: seq<Entry>)
    ensures |r| == |entries| && forall k :: 0 <= k < |entries| ==> r[k] == ParseEntry(entries[k])
  {
    seq(|entries|, k requires 0 <= k < |entries| => ParseEntry(entries[k]))
  }

  /** A peer as a plan lists it. */
  datatype PlanPeer = PlanPeer(name: string, ip: string, port: int32)

  function EntryText(p: PlanPeer): string {
    Join([p.name, p.ip, IntToString(p.port)], ":")
  }

  /** A plan field the list syntax leaves intact: non-empty, printable, and
      free of the separators `:` `,` `[` `]`. */
  predicate PlanField(s: string) {
    |s| > 0 && forall k :: 0 <= k < |s| ==> s[k] > ' ' && s[k] != ':' && s[k] != ',' && s[k] != '[' && s[k] != ']'
  }

  predicate PlanPeerOk(p: PlanPeer) {
    PlanField(p.name) && PlanField(p.ip)
  }

  lemma IntToStringIsPlanField(i: int)
    ensures PlanField(IntToString(i))
  {
    var s := IntToString(i);
    forall k | 0 <= k < |s|
      ensures s[k] > ' ' && s[k] != ':' && s[k] != ',' && s[k] != '[' && s[k] != ']'
    {
      assert s[k] == '-' || IsDigitChar(s[k]);
    }
  }

  lemma EntryTextFields(p: PlanPeer)
    requires PlanPeerOk(p)
    ensures EntryText(p) == p.name + ":" + p.ip + ":" + IntToString(p.port)
    ensures |EntryText(p)| > 0 && EntryText(p)[0] > ' ' && EntryText(p)[|EntryText(p)| - 1] > ' '
    ensures forall k :: 0 <= k < |EntryText(p)| ==>
              EntryText(p)[k] != ',' && EntryText(p)[k] != '[' && EntryText(p)[k] != ']'
  {
    var t := IntToString(p.port);
    IntToStringIsPlanField(p.port);
    JoinCons(p.name, [p.ip, t], ":");
    JoinCons(p.ip, [t], ":");
    var e := EntryText(p);
    assert e == p.name + ":" + p.ip + ":" + t;
    forall k | 0 <= k < |e|
      ensures e[k] != ',' && e[k] != '[' && e[k] != ']'
    {
      if k < |p.name| {
        assert e[k] == p.name[k];
      } else if k == |p.name| {
      } else if k < |p.name| + 1 + |p.ip| {
        assert e[k] == p.ip[k - |p.name| - 1];
      } else if k == |p.name| + 1 + |p.ip| {
      } else {
        assert e[k] == t[k - |p.name| - |p.ip| - 2];
      }
    }
    assert e[0] == p.name[0];
    assert e[|e| - 1] == t[|t| - 1];
  }

  /** Every well-formed peer reads back from its own entry text. */
  lemma EntryRoundTrip(p: PlanPeer)
    requires PlanPeerOk(p)
    ensures ParseEntry(EntryText(p)) == EndpointEntry(p.name, p.ip, p.port, EntryText(p))
  {
    var t := IntToString(p.port);
    IntToStringIsPlanField(p.port);
    EntryTextFields(p);
    TrimKeeps(EntryText(p));
    SplitCharJoin([p.name, p.ip, t], ':');
    IntToStringParses(p.port);
  }

  /** What a plan's peer list did to the book: the names it contributed, in
      order, and whether a bad port ended the command part way through. */
  datatype EntriesParse = EntriesParse(book: PeerBook, names: seq<string>, crashed: bool)

  /** The BACKUP_PLAN loop over the entries: a `name:ip:port` entry files
      its endpoint and contributes its name; any other entry contributes
      its trimmed text and files nothing; a bad port stops the loop, keeping
      what earlier entries filed. */
  function BackupEntries(es: seq<Entry>, book: PeerBook): (r: EntriesParse)
    ensures forall n :: Knows(book, n) ==> Knows(r.book, n)
    ensures r.crashed <==> exists k :: 0 <= k < |es| && es[k].BadPort?
    ensures !r.crashed ==> |r.names| == |es|
    ensures !r.crashed ==> forall k :: 0 <= k < |es| ==>
              && (es[k].EndpointEntry? ==> r.names[k] == es[k].name && Knows(r.book, es[k].name))
              && (es[k].OtherEntry? ==> r.names[k] == es[k].text)
    decreases |es|
  {
    if |es| == 0 then EntriesParse(book, [], false)
    else
      var rest := BackupEntries(es[1..], if es[0].EndpointEntry? then Learn(book, es[0].name, es[0].ip, es[0].port) else book);
      assert forall k :: 1 <= k < |es| ==> es[k] == es[1..][k - 1];
      match es[0]
      case BadPort(_, _) => EntriesParse(book, [], true)
      case EndpointEntry(n, _, _, _) => EntriesParse(rest.book, [n] + rest.names, rest.crashed)
      case OtherEntry(t) => EntriesParse(rest.book, [t] + rest.names, rest.crashed)
  }

  /** The result of reading a BACKUP_PLAN reply: the book afterwards, the
      assigned peers, the chunk size to use, and whether a bad port ended
      the command. */
  datatype BackupPlanParse = BackupPlanParse(book: PeerBook, assignedPeers: seq<string>, chunkSize: int32, crashed: bool)

  /** The text after the first `]`, or the whole reply when there is
      none (`substring(indexOf(']') + 1)`). */
  function AfterList(resp: string): (r: string)
    ensures ']' !in resp ==> r == resp
  {
    resp[IndexOf(resp, ']') + 1..]
  }

  /** The chunk-size rule, applied to the text after the first `]` (the
      whole reply when there is none): its last whitespace token if that is
      an `int`, otherwise the size the user asked for. */
  function PlanChunkSize(tail: string, requested: int32): (r: int32)
    ensures var tokens := SplitWs(Trim(tail));
            |tokens| > 0 && ParseInt(tokens[|tokens| - 1]).Some? ==> r == ParseInt(tokens[|tokens| - 1]).value
    ensures var tokens := SplitWs(Trim(tail));
            (|tokens| == 0 || ParseInt(tokens[|tokens| - 1]).None?) ==> r == requested
  {
    var tokens := SplitWs(Trim(tail));
    if |tokens| > 0 && ParseInt(tokens[|tokens| - 1]).Some? then ParseInt(tokens[|tokens| - 1]).value
    else requested
  }

  /** The backup command's reading of the server's reply. A reply not
      starting with `BACKUP_PLAN` assigns nobody and keeps the requested
      size. The peer list is the text between the first `[` and the first
      `]`, taken only when the `[` comes first. */
  function ParseBackupPlan(resp: string, requested: int32, book: PeerBook): (r: BackupPlanParse)
    ensures !StartsWith(resp, "BACKUP_PLAN") ==> r == BackupPlanParse(book, [], requested, false)
    ensures forall n :: Knows(book, n) ==> Knows(r.book, n)
    ensures StartsWith(resp, "BACKUP_PLAN") && !r.crashed ==> r.chunkSize == PlanChunkSize(AfterList(resp), requested)
    ensures (IndexOf(resp, '[') < 0 || IndexOf(resp, ']') <= IndexOf(resp, '[')) ==>
              r.assignedPeers == [] && r.book == book
  {
    if !StartsWith(resp, "BACKUP_PLAN") then BackupPlanParse(book, [], requested, false)
    else
      var open := IndexOf(resp, '[');
      var close := IndexOf(resp, ']');
      var listed := if 0 <= open && open < close then BackupEntries(ParseEntries(SplitChar(resp[open + 1..close], ',')), book)
                    else EntriesParse(book, [], false);
      BackupFromParts(listed, AfterList(resp), requested)
  }

  /** The rest of the backup command's reading, once the list is read: a
      bad port ends the command with the requested size; otherwise the size
      comes from the text after the list. */
  function BackupFromParts(listed: EntriesParse, tail: string, requested: int32): (r: BackupPlanParse)
    ensures r.book == listed.book && r.assignedPeers == listed.names && r.crashed == listed.crashed
    ensures !r.crashed ==> r.chunkSize == PlanChunkSize(tail, requested)
  {
    if listed.crashed then BackupPlanParse(listed.book, listed.names, requested, true)
    else BackupPlanParse(listed.book, listed.names, PlanChunkSize(tail, requested), false)
  }

  /** The check before sending: every assigned peer must be in both maps,
      or the agent's command loop ends without a backup. */
  predicate ConnectionInfoComplete(assignedPeers: seq<string>, book: PeerBook) {
    forall k :: 0 <= k < |assignedPeers| ==> Knows(book, assignedPeers[k])
  }

  /** A plan reply in the bracketed form the agent reads: the verb, the
      request number, the file name, the peer list in brackets, and the
      fields after it. */
  function PlanText(head: string, rq: int32, fileName: string, peers: seq<PlanPeer>, tail: string): string {
    PlanHead(head, rq, fileName) + "[" + Join(EntryTexts(peers), ",") + "]" + tail
  }

  function PlanHead(head: string, rq: int32, fileName: string): string {
    head + " " + IntToString(rq) + " " + fileName + " "
  }

  /** `BACKUP_PLAN <rq> <file> [name:ip:port,...] <chunkSize>`. */
  function BackupPlanText(rq: int32, fileName: string, peers: seq<PlanPeer>, chunkSize: int32): string {
    PlanText("BACKUP_PLAN", rq, fileName, peers, " " + IntToString(chunkSize))
  }

  function EntryTexts(peers: seq<PlanPeer>): (r: seq<string>)
    ensures |r| == |peers| && forall k :: 0 <= k < |peers| ==> r[k] == EntryText(peers[k])
  {
    seq(|peers|, k requires 0 <= k < |peers| => EntryText(peers[k]))
  }

  function Names(peers: seq<PlanPeer>): (r: seq<string>)
    ensures |r| == |peers| && forall k :: 0 <= k < |peers| ==> r[k] == peers[k].name
  {
    seq(|peers|, k requires 0 <= k < |peers| => peers[k].name)
  }

  /** A text with a bracketed list: where the brackets are and what is
      between and after them, when nothing before the list holds a bracket
      and the list holds none. */
  lemma BracketsFound(prefix: string, list: string, suffix: string)
    requires '[' !in prefix && ']' !in prefix && '[' !in list && ']' !in list
    ensures var s := prefix + "[" + list + "]" + suffix;
            && IndexOf(s, '[') == |prefix| && IndexOf(s, ']') == |prefix| + 1 + |list|
            && s[|prefix| + 1..|prefix| + 1 + |list|] == list
            && s[|prefix| + 2 + |list|..] == suffix
  {
    var s := prefix + "[" + list + "]" + suffix;
    forall k | 0 <= k < |prefix|
      ensures !CharIs('[')(s[k]) && !CharIs(']')(s[k])
    {
      assert s[k] == prefix[k] && prefix[k] in prefix;
    }
    IndexWhereIs(s, CharIs('['), |prefix|);
    forall k | 0 <= k < |prefix| + 1 + |list|
      ensures !CharIs(']')(s[k])
    {
      if |prefix| < k {
        assert s[k] == list[k - |prefix| - 1] && list[k - |prefix| - 1] in list;
      }
    }
    IndexWhereIs(s, CharIs(']'), |prefix| + 1 + |list|);
    assert s[|prefix| + 1..|prefix| + 1 + |list|] == list;
    assert s[|prefix| + 2 + |list|..] == suffix;
  }

  /** The backup reading of a reply once the brackets and the text
      between and after them are located. */
  lemma ParseBackupAt(resp: string, close: int, list: string, suffix: string, requested: int32, book: PeerBook)
    requires StartsWith(resp, "BACKUP_PLAN") && IndexOf(resp, '[') == close - |list| - 1
    requires IndexOf(resp, ']') == close && 0 <= close - |list| - 1
    requires resp[close - |list|..close] == list && resp[close + 1..] == suffix
    ensures ParseBackupPlan(resp, requested, book) ==
              BackupFromParts(BackupEntries(ParseEntries(SplitChar(list, ',')), book), suffix, requested)
  {
    hide BackupFromParts, BackupEntries, ParseEntries, SplitChar, PlanChunkSize, SplitWs, Trim, IndexOf, StartsWith;
    assert AfterList(resp) == suffix;
  }

  /** The restore reading of a reply once the brackets and the text
      between and after them are located. */
  lemma ParseRestoreAt(resp: string, close: int, list: string, suffix: string, book: PeerBook)
    requires StartsWith(resp, "RESTORE_PLAN") && IndexOf(resp, '[') == close - |list| - 1
    requires IndexOf(resp, ']') == close && 0 <= close - |list| - 1
    requires resp[close - |list|..close] == list && resp[close + 1..] == suffix
    ensures ParseRestorePlan(resp, book) ==
              RestoreFromParts(RestoreEntries(ParseEntries(SplitChar(list, ',')), book), SplitWs(Trim(suffix)))
  {
    hide RestoreFromParts, RestoreEntries, ParseEntries, SplitChar, SplitWs, Trim, IndexOf, StartsWith;
    assert Fields(resp) == SplitWs(Trim(suffix));
    assert AfterList(resp) == suffix;
  }

  /** The entries of a joined, well-formed peer list come back one by one. */
  lemma ListRoundTrip(peers: seq<PlanPeer>)
    requires |peers| > 0 && forall k :: 0 <= k < |peers| ==> PlanPeerOk(peers[k])
    ensures ParseEntries(SplitChar(Join(EntryTexts(peers), ","), ',')) == PlanEntries(peers)
    ensures '[' !in Join(EntryTexts(peers), ",") && ']' !in Join(EntryTexts(peers), ",")
  {
    var ts := EntryTexts(peers);
    forall k | 0 <= k < |peers|
      ensures ',' !in ts[k] && '[' !in ts[k] && ']' !in ts[k]
    {
      EntryTextFields(peers[k]);
    }
    EntryTextFields(peers[|peers| - 1]);
    assert ts[|ts| - 1] != [];
    assert "," == [','];
    SplitCharJoin(ts, ',');
    JoinAvoids(ts, ",", '[');
    JoinAvoids(ts, ",", ']');
    var es := ParseEntries(ts);
    forall k | 0 <= k < |peers|
      ensures es[k] == PlanEntries(peers)[k]
    {
      EntryRoundTrip(peers[k]);
    }
  }

  /** The entries a well-formed peer list parses to. */
  function PlanEntries(peers: seq<PlanPeer>): (r: seq<Entry>)
    ensures |r| == |peers|
    ensures forall k :: 0 <= k < |peers| ==>
              r[k] == EndpointEntry(peers[k].name, peers[k].ip, peers[k].port, EntryText(peers[k]))
  {
    seq(|peers|, k requires 0 <= k < |peers| => EndpointEntry(peers[k].name, peers[k].ip, peers[k].port, EntryText(peers[k])))
  }

  lemma {:induction false} JoinAvoids(ts: seq<string>, sep: string, c: char)
    requires c !in sep && forall k :: 0 <= k < |ts| ==> c !in ts[k]
    ensures c !in Join(ts, sep)
    decreases |ts|
  {
    if |ts| > 1 {
      JoinAvoids(ts[1..], sep, c);
      assert Join(ts, sep) == ts[0] + sep + Join(ts[1..], sep);
    }
  }

  lemma TrimLeadingSpace(x: string)
    requires |x| > 0 && x[0] > ' ' && x[|x| - 1] > ' '
    ensures Trim(" " + x) == x
  {
    assert (" " + x)[1..] == x;
    assert TrimLeft(" " + x) == TrimLeft(x);
    TrimKeeps(x);
  }

  /** A reply that starts with `head`, holds no bracket before its list
      and none inside it, after whatever text came before the list. */
  lemma PlanPrefix(head: string, rq: int32, fileName: string)
    requires '[' !in head && ']' !in head
    requires '[' !in fileName && ']' !in fileName
    ensures var prefix := PlanHead(head, rq, fileName);
            && StartsWith(prefix, head) && '[' !in prefix && ']' !in prefix
  {
    var rqText := IntToString(rq);
    IntToStringIsPlanField(rq);
    assert '[' !in rqText && ']' !in rqText;
    var prefix := PlanHead(head, rq, fileName);
    assert prefix[..|head|] == head;
  }

  lemma StartsWithExtend(s: string, t: string, head: string)
    requires StartsWith(s, head)
    ensures StartsWith(s + t, head)
  {
    assert (s + t)[..|head|] == s[..|head|];
  }

  /** How the backup command reads a reply whose peer list sits in
      brackets after a bracket-free prefix. */
  lemma ParseBackupBracketed(prefix: string, list: string, suffix: string, requested: int32, book: PeerBook)
    requires StartsWith(prefix, "BACKUP_PLAN")
    requires '[' !in prefix && ']' !in prefix && '[' !in list && ']' !in list
    ensures ParseBackupPlan(prefix + "[" + list + "]" + suffix, requested, book) ==
              BackupFromParts(BackupEntries(ParseEntries(SplitChar(list, ',')), book), suffix, requested)
  {
    hide ParseBackupPlan, BackupFromParts, BackupEntries, ParseEntries, SplitChar, IndexOf, StartsWith;
    var resp := prefix + "[" + list + "]" + suffix;
    BracketsFound(prefix, list, suffix);
    assert resp == prefix + ("[" + list + "]" + suffix);
    StartsWithExtend(prefix, "[" + list + "]" + suffix, "BACKUP_PLAN");
    ParseBackupAt(resp, |prefix| + 1 + |list|, list, suffix, requested, book);
  }

  /** A chunk size written as the last field reads back. */
  lemma SizeSuffixParses(chunkSize: int32, requested: int32)
    ensures PlanChunkSize(" " + IntToString(chunkSize), requested) == chunkSize
  {
    var sizeText := IntToString(chunkSize);
    TrimLeadingSpace(sizeText);
    assert SplitWs(sizeText) == [sizeText] by {
      SplitWsJoin([sizeText]);
    }
    IntToStringParses(chunkSize);
  }

  /** The backup loop over a well-formed list assigns exactly its peers and
      files each one. */
  lemma BackupEntriesOfPlan(peers: seq<PlanPeer>, book: PeerBook)
    ensures var listed := BackupEntries(PlanEntries(peers), book);
            && !listed.crashed && listed.names == Names(peers)
            && ConnectionInfoComplete(listed.names, listed.book)
  {
    var listed := BackupEntries(PlanEntries(peers), book);
    assert !listed.crashed;
    assert listed.names == Names(peers);
  }

  /** A BACKUP_PLAN the server writes for well-formed peers gives the
      agent exactly those peers, in order, with their endpoints filed, and
      the plan's chunk size. */
  lemma BackupPlanRoundTrip(rq: int32, fileName: string, peers: seq<PlanPeer>, chunkSize: int32,
                            requested: int32, book: PeerBook)
    requires |peers| > 0 && forall k :: 0 <= k < |peers| ==> PlanPeerOk(peers[k])
    requires '[' !in fileName && ']' !in fileName
    ensures var r := ParseBackupPlan(BackupPlanText(rq, fileName, peers, chunkSize), requested, book);
            && !r.crashed && r.assignedPeers == Names(peers) && r.chunkSize == chunkSize
            && ConnectionInfoComplete(r.assignedPeers, r.book)
  {
    var prefix := PlanHead("BACKUP_PLAN", rq, fileName);
    var list := Join(EntryTexts(peers), ",");
    var suffix := " " + IntToString(chunkSize);
    hide ParseBackupPlan, BackupFromParts, BackupEntries, ParseEntries, SplitChar, PlanChunkSize, SplitWs, Trim, IndexOf, Join, EntryTexts,
         IntToString, ParseInt, StartsWith, PlanHead, ConnectionInfoComplete, Names;
    PlanPrefix("BACKUP_PLAN", rq, fileName);
    ListRoundTrip(peers);
    ParseBackupBracketed(prefix, list, suffix, requested, book);
    BackupEntriesOfPlan(peers, book);
    SizeSuffixParses(chunkSize, requested);
    var listed := BackupEntries(PlanEntries(peers), book);
    assert ParseBackupPlan(BackupPlanText(rq, fileName, peers, chunkSize), requested, book) ==
             BackupFromParts(listed, suffix, requested);
  }

  /** The round-robin rule both transfers use: chunk `i` goes to, or comes
      from, peer `i mod n`; with no peers the division throws
      (`ArithmeticException`). */
  function RouteIndex(chunkId: nat, n: nat): (r: Option<nat>)
    ensures r.None? <==> n == 0
    ensures r.Some? ==> r.value < n
    ensures chunkId < n ==> r == Some(chunkId)
  {
    if n == 0 then None else Some(chunkId % n)
  }

  /** Division with remainder is unique. */
  lemma ModUnique(a: int, n: int, q: int, m: int)
    requires n > 0 && 0 <= m < n && a == q * n + m
    ensures a % n == m && a / n == q
  {
    var q0 := a / n;
    var m0 := a % n;
    assert (q - q0) * n == m0 - m;
    if q > q0 {
      MulMonotone(1, q - q0, n);
      assert false;
    }
    if q < q0 {
      MulMonotone(1, q0 - q, n);
      assert false;
    }
  }

  /** Chunks `n` apart share a peer, and consecutive chunks visit the peers
      in turn. */
  lemma RouteRoundRobin(chunkId: nat, n: nat)
    requires n > 0
    ensures RouteIndex(chunkId + n, n) == RouteIndex(chunkId, n)
    ensures RouteIndex(chunkId + 1, n).value ==
              if RouteIndex(chunkId, n).value == n - 1 then 0 else RouteIndex(chunkId, n).value + 1
  {
    var q := chunkId / n;
    var m := chunkId % n;
    ModUnique(chunkId, n, q, m);
    MulSucc(q, n);
    ModUnique(chunkId + n, n, q + 1, m);
    if m == n - 1 {
      ModUnique(chunkId + 1, n, q + 1, 0);
    } else {
      ModUnique(chunkId + 1, n, q, m + 1);
    }
  }

  /** How reading a RESTORE_PLAN ended. */
  datatype RestorePlanOutcome =
    | NotAPlan
    | MissingBrackets
    | MissingFields
    | Crashed
    | Plan(peers: seq<string>, chunkSize: int32, totalChunks: int32, checksum: string)

  datatype RestorePlanParse = RestorePlanParse(book: PeerBook, outcome: RestorePlanOutcome)

  /** The RESTORE_PLAN loop over the entries: only `name:ip:port` entries
      count; each files its endpoint and is kept as its parts joined by `:`;
      a bad port stops the loop after its ip is filed (the ip is put before
      the port is parsed). */
  function RestoreEntries(es: seq<Entry>, book: PeerBook): (r: EntriesParse)
    ensures forall n :: Knows(book, n) ==> Knows(r.book, n)
    ensures r.crashed <==> exists k :: 0 <= k < |es| && es[k].BadPort?
    ensures r.crashed ==> exists k :: FirstBadPort(es, k) && es[k].name in r.book.ips && r.book.ips[es[k].name] == es[k].ip
    ensures !r.crashed ==> |r.names| <= |es|
    ensures (forall k :: 0 <= k < |es| ==> es[k].OtherEntry?) ==> r == EntriesParse(book, [], false)
    ensures (forall k :: 0 <= k < |es| ==> es[k].EndpointEntry?) ==>
              && !r.crashed && |r.names| == |es|
              && forall k :: 0 <= k < |es| ==> r.names[k] == es[k].joined && Knows(r.book, es[k].name)
    decreases |es|
  {
    if |es| == 0 then EntriesParse(book, [], false)
    else
      var rest := RestoreEntries(es[1..], if es[0].EndpointEntry? then Learn(book, es[0].name, es[0].ip, es[0].port) else book);
      assert forall k :: 1 <= k < |es| ==> es[k] == es[1..][k - 1];
      match es[0]
      case BadPort(n, ip) =>
        assert FirstBadPort(es, 0);
        EntriesParse(PeerBook(book.ips[n := ip], book.ports), [], true)
      case EndpointEntry(_, _, _, j) =>
        assert forall k :: FirstBadPort(es[1..], k) ==> FirstBadPort(es, k + 1);
        EntriesParse(rest.book, [j] + rest.names, rest.crashed)
      case OtherEntry(_) =>
        assert forall k :: FirstBadPort(es[1..], k) ==> FirstBadPort(es, k + 1);
        rest
  }

  /** Entry `k` is the first with a non-numeric port. */
  predicate FirstBadPort(es: seq<Entry>, k: int) {
    0 <= k < |es| && es[k].BadPort? && forall j :: 0 <= j < k ==> !es[j].BadPort?
  }

  /** The whitespace-separated fields after the first `]` (the whole
      reply when there is none), trimmed. */
  function Fields(resp: string): seq<string> {
    SplitWs(Trim(AfterList(resp)))
  }

  /** The restore command's reading of the server's reply: both brackets
      must be present; the list between them (an exception when `]` comes
      before `[`); then at least three whitespace tokens after the `]`:
      chunk size and chunk count as `int`s, and the file checksum. */
  function ParseRestorePlan(resp: string, book: PeerBook): (r: RestorePlanParse)
    ensures !StartsWith(resp, "RESTORE_PLAN") ==> r == RestorePlanParse(book, NotAPlan)
    ensures r.outcome == MissingBrackets ==> r.book == book
    ensures forall n :: Knows(book, n) ==> Knows(r.book, n)
    ensures r.outcome.Plan? ==>
              && |Fields(resp)| >= 3
              && ParseInt(Fields(resp)[0]) == Some(r.outcome.chunkSize)
              && ParseInt(Fields(resp)[1]) == Some(r.outcome.totalChunks)
              && Fields(resp)[2] == r.outcome.checksum
  {
    if !StartsWith(resp, "RESTORE_PLAN") then RestorePlanParse(book, NotAPlan)
    else
      var open := IndexOf(resp, '[');
      var close := IndexOf(resp, ']');
      if open < 0 || close < 0 then RestorePlanParse(book, MissingBrackets)
      else if close < open + 1 then RestorePlanParse(book, Crashed)
      else
        RestoreFromParts(RestoreEntries(ParseEntries(SplitChar(resp[open + 1..close], ',')), book), Fields(resp))
  }

  /** The rest of the restore command's reading, once the list is read: a
      bad port ends it, fewer than three fields make the plan malformed,
      and a non-numeric size or count ends it. */
  function RestoreFromParts(listed: EntriesParse, tokens: seq<string>): (r: RestorePlanParse)
    ensures r.book == listed.book
    ensures listed.crashed ==> r.outcome == Crashed
    ensures !listed.crashed && |tokens| < 3 ==> r.outcome == MissingFields
    ensures r.outcome.Plan? ==>
              && !listed.crashed && |tokens| >= 3 && r.outcome.peers == listed.names
              && ParseInt(tokens[0]) == Some(r.outcome.chunkSize)
              && ParseInt(tokens[1]) == Some(r.outcome.totalChunks)
              && tokens[2] == r.outcome.checksum
    ensures !listed.crashed && |tokens| >= 3 && ParseInt(tokens[0]).Some? && ParseInt(tokens[1]).Some? ==>
              r.outcome.Plan?
  {
    if listed.crashed then RestorePlanParse(listed.book, Crashed)
    else if |tokens| < 3 then RestorePlanParse(listed.book, MissingFields)
    else
      var size := ParseInt(tokens[0]);
      var total := ParseInt(tokens[1]);
      if size.Some? && total.Some? then RestorePlanParse(listed.book, Plan(listed.names, size.value, total.value, tokens[2]))
      else RestorePlanParse(listed.book, Crashed)
  }

  /** `RESTORE_PLAN <rq> <file> [name:ip:port,...] <chunkSize> <totalChunks>
      <checksum>`. */
  function RestorePlanText(rq: int32, fileName: string, peers: seq<PlanPeer>, chunkSize: int32,
                           totalChunks: int32, checksum: string): string {
    PlanText("RESTORE_PLAN", rq, fileName, peers, " " + Join([IntToString(chunkSize), IntToString(totalChunks), checksum], " "))
  }

  /** How the restore command reads a reply whose peer list sits in
      brackets after a bracket-free prefix. */
  lemma ParseRestoreBracketed(prefix: string, list: string, suffix: string, book: PeerBook)
    requires StartsWith(prefix, "RESTORE_PLAN")
    requires '[' !in prefix && ']' !in prefix && '[' !in list && ']' !in list
    ensures ParseRestorePlan(prefix + "[" + list + "]" + suffix, book) ==
              RestoreFromParts(RestoreEntries(ParseEntries(SplitChar(list, ',')), book), SplitWs(Trim(suffix)))
  {
    hide ParseRestorePlan, RestoreFromParts, RestoreEntries, ParseEntries, SplitChar, SplitWs, Trim, IndexOf, StartsWith;
    var resp := prefix + "[" + list + "]" + suffix;
    BracketsFound(prefix, list, suffix);
    assert resp == prefix + ("[" + list + "]" + suffix);
    StartsWithExtend(prefix, "[" + list + "]" + suffix, "RESTORE_PLAN");
    ParseRestoreAt(resp, |prefix| + 1 + |list|, list, suffix, book);
  }

  /** The restore loop over a well-formed list keeps every entry as its
      own text and files every endpoint. */
  lemma RestoreEntriesOfPlan(peers: seq<PlanPeer>, book: PeerBook)
    ensures var listed := RestoreEntries(PlanEntries(peers), book);
            && !listed.crashed && listed.names == EntryTexts(peers)
            && ConnectionInfoComplete(Names(peers), listed.book)
  {
    var es := PlanEntries(peers);
    var listed := RestoreEntries(es, book);
    assert !listed.crashed && |listed.names| == |peers|;
    forall k | 0 <= k < |peers|
      ensures listed.names[k] == EntryTexts(peers)[k] && Knows(listed.book, peers[k].name)
    {
      assert es[k].name == peers[k].name;
    }
  }

  /** The three trailing fields of a restore plan read back. */
  lemma RestoreFieldsParse(chunkSize: int32, totalChunks: int32, checksum: string)
    requires IsWord(checksum) && checksum[|checksum| - 1] > ' '
    ensures var ts := [IntToString(chunkSize), IntToString(totalChunks), checksum];
            && SplitWs(Trim(" " + Join(ts, " "))) == ts
            && ParseInt(ts[0]) == Some(chunkSize) && ParseInt(ts[1]) == Some(totalChunks)
  {
    var ts := [IntToString(chunkSize), IntToString(totalChunks), checksum];
    FieldWords(chunkSize, totalChunks, checksum);
    IntToStringParses(chunkSize);
    IntToStringParses(totalChunks);
    hide IntToString, ParseInt, IsWord, AllWords, Join, Trim, SplitWs;
    var fields := Join(ts, " ");
    JoinEnds(ts, " ");
    TrimLeadingSpace(fields);
    SplitWsJoin(ts);
  }

  lemma FieldWords(chunkSize: int32, totalChunks: int32, checksum: string)
    requires IsWord(checksum) && checksum[|checksum| - 1] > ' '
    ensures var ts := [IntToString(chunkSize), IntToString(totalChunks), checksum];
            && AllWords(ts) && ts[0][0] > ' ' && forall k :: 0 <= k < |ts| ==> |ts[k]| > 0
  {
    var ts := [IntToString(chunkSize), IntToString(totalChunks), checksum];
    IntToStringIsPlanField(chunkSize as int);
    IntToStringIsPlanField(totalChunks as int);
    forall k | 0 <= k < 2
      ensures IsWord(ts[k])
    {
      assert PlanField(ts[k]);
    }
  }

  /** A RESTORE_PLAN the server writes for well-formed peers gives the
      agent those peers' entries, in order, with their endpoints filed, and
      the plan's three fields. */
  lemma RestorePlanRoundTrip(rq: int32, fileName: string, peers: seq<PlanPeer>, chunkSize: int32,
                             totalChunks: int32, checksum: string, book: PeerBook)
    requires |peers| > 0 && forall k :: 0 <= k < |peers| ==> PlanPeerOk(peers[k])
    requires '[' !in fileName && ']' !in fileName
    requires IsWord(checksum) && checksum[|checksum| - 1] > ' '
    ensures var r := ParseRestorePlan(RestorePlanText(rq, fileName, peers, chunkSize, totalChunks, checksum), book);
            && r.outcome == Plan(EntryTexts(peers), chunkSize, totalChunks, checksum)
            && ConnectionInfoComplete(Names(peers), r.book)
  {
    var prefix := PlanHead("RESTORE_PLAN", rq, fileName);
    var list := Join(EntryTexts(peers), ",");
    var suffix := " " + Join([IntToString(chunkSize), IntToString(totalChunks), checksum], " ");
    hide ParseRestorePlan, RestoreFromParts, RestoreEntries, ParseEntries, SplitChar, SplitWs, Trim, IndexOf, Join, EntryTexts,
         IntToString, ParseInt, StartsWith, IsWord, PlanHead, ConnectionInfoComplete, Names;
    PlanPrefix("RESTORE_PLAN", rq, fileName);
    ListRoundTrip(peers);
    ParseRestoreBracketed(prefix, list, suffix, book);
    RestoreEntriesOfPlan(peers, book);
    RestoreFieldsParse(chunkSize, totalChunks, checksum);
  }
}
