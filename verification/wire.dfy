/** Text on the peers' TCP streams. Senders write `String.getBytes` in
    UTF-8; the receivers here read a header one byte per character (PeerMain
    appends `(char) b`), or through a line reader. Bytes are `JavaNumbers.byte`
    values 0..255. */
module Wire {
  import opened Wrappers
  import opened JavaText
  import opened JavaNumbers

  const LF: byte := 10
  const CR: byte := 13

  /** The UTF-8 bytes of one character. Every byte of a multi-byte
      sequence is at least 0x80, so an ASCII byte in an encoding always
      stands for that ASCII character. */
  function Utf8(c: char): (r: seq<byte>)
    ensures 1 <= |r| <= 4
    ensures c as int < 0x80 ==> r == [c as int]
    ensures c as int >= 0x80 ==> forall k :: 0 <= k < |r| ==> r[k] >= 0x80
  {
    var v := c as int;
    if v < 0x80 then [v]
    else if v < 0x800 then [0xC0 + v / 0x40, 0x80 + v % 0x40]
    else if v < 0x1_0000 then [0xE0 + v / 0x1000, 0x80 + (v / 0x40) % 0x40, 0x80 + v % 0x40]
    else [0xF0 + v / 0x4_0000, 0x80 + (v / 0x1000) % 0x40, 0x80 + (v / 0x40) % 0x40, 0x80 + v % 0x40]
  }

  /** `s.getBytes(StandardCharsets.UTF_8)`. */
  function Encode(s: string): (r: seq<byte>)
    ensures |r| >= |s|
    decreases |s|
  {
    if |s| == 0 then [] else Utf8(s[0]) + Encode(s[1..])
  }

  lemma {:induction false} EncodeAppend(a: string, b: string)
    ensures Encode(a + b) == Encode(a) + Encode(b)
    decreases |a|
  {
    if |a| > 0 {
      assert (a + b)[0] == a[0];
      assert (a + b)[1..] == a[1..] + b;
      EncodeAppend(a[1..], b);
    } else {
      assert a + b == b;
    }
  }

  /** An ASCII byte occurs in the encoding of `s` exactly when its
      character occurs in `s`. */
  lemma {:induction false} EncodeHasAsciiByte(s: string, b: byte)
    requires b < 0x80
    ensures b in Encode(s) <==> (b as char) in s
    decreases |s|
  {
    if |s| > 0 {
      EncodeHasAsciiByte(s[1..], b);
      assert s == [s[0]] + s[1..];
      if s[0] as int >= 0x80 {
        assert b !in Utf8(s[0]);
      }
    }
  }

  predicate IsAscii(s: string) {
    forall k :: 0 <= k < |s| ==> s[k] as int < 0x80
  }

  lemma AsciiAppend(a: string, b: string)
    requires IsAscii(a) && IsAscii(b)
    ensures IsAscii(a + b)
  {
    forall k | 0 <= k < |a + b|
      ensures (a + b)[k] as int < 0x80
    {
      if k >= |a| {
        assert (a + b)[k] == b[k - |a|];
      }
    }
  }

  /** A header read one byte per character, as `(char) b` does. */
  function Decode(bs: seq<byte>): (r: string)
    ensures |r| == |bs|
    ensures forall k :: 0 <= k < |bs| ==> r[k] as int == bs[k]
  {
    seq(|bs|, k requires 0 <= k < |bs| => bs[k] as char)
  }

  /** ASCII text survives encoding and byte-per-character decoding, and its
      encoding has one byte per character. */
  lemma {:induction false} DecodeEncodeAscii(s: string)
    requires IsAscii(s)
    ensures |Encode(s)| == |s|
    ensures Decode(Encode(s)) == s
    decreases |s|
  {
    if |s| > 0 {
      DecodeEncodeAscii(s[1..]);
      assert Encode(s) == [s[0] as int] + Encode(s[1..]);
    }
  }

  predicate IsLf(b: byte) {
    b == LF
  }

  predicate IsLineBreak(b: byte) {
    b == LF || b == CR
  }

  /** PeerMain's header loop: the bytes up to and including the first line
      feed (all of them when there is none), and the bytes after it. */
  function ReadThroughLf(bs: seq<byte>): (r: (seq<byte>, seq<byte>))
    ensures r.0 + r.1 == bs
    ensures LF !in r.0 ==> r.1 == []
    ensures LF in r.0 ==> r.0[|r.0| - 1] == LF && LF !in r.0[..|r.0| - 1]
  {
    var i := IndexWhere(bs, IsLf);
    if i == |bs| then (bs, []) else (bs[..i + 1], bs[i + 1..])
  }

  /** The restore loop's variant: the bytes before the first line feed, and
      those after it (the line feed itself is consumed). */
  function ReadUntilLf(bs: seq<byte>): (r: (seq<byte>, seq<byte>))
    ensures LF !in r.0
    ensures r.0 == bs || r.0 + [LF] + r.1 == bs
    ensures r.0 == bs ==> r.1 == []
  {
    var i := IndexWhere(bs, IsLf);
    if i == |bs| then (bs, []) else (bs[..i], bs[i + 1..])
  }

  /** `BufferedReader.readLine`: absent on an empty stream; otherwise the
      text up to the first line feed or carriage return, a carriage return
      followed by a line feed counting as one terminator. The second
      component is what follows the terminator. */
  function ReadLine(bs: seq<byte>): (r: Option<(string, seq<byte>)>)
    ensures r.None? <==> bs == []
    ensures r.Some? ==> '\n' !in r.value.0 && '\r' !in r.value.0
  {
    if bs == [] then None
    else
      var i := IndexWhere(bs, IsLineBreak);
      assert forall k :: 0 <= k < |Decode(bs[..i])| ==> Decode(bs[..i])[k] as int == bs[k];
      if i == |bs| then Some((Decode(bs), []))
      else if bs[i] == CR && i + 1 < |bs| && bs[i + 1] == LF then Some((Decode(bs[..i]), bs[i + 2..]))
      else Some((Decode(bs[..i]), bs[i + 1..]))
  }

  /** A text line sent as UTF-8 followed by a line feed and a payload comes
      back from every reader as the same text and the same payload, as long
      as the text is ASCII and holds no line break. */
  lemma LineRoundTrip(line: string, payload: seq<byte>)
    requires IsAscii(line) && '\n' !in line && '\r' !in line
    ensures ReadThroughLf(Encode(line + "\n") + payload) == (Encode(line) + [LF], payload)
    ensures ReadUntilLf(Encode(line + "\n") + payload) == (Encode(line), payload)
    ensures ReadLine(Encode(line + "\n") + payload) == Some((line, payload))
    ensures Decode(Encode(line)) == line
  {
    var e := Encode(line);
    EncodeAppend(line, "\n");
    assert Encode("\n") == [LF];
    DecodeEncodeAscii(line);
    var bs := e + [LF] + payload;
    assert Encode(line + "\n") + payload == bs;
    EncodeHasAsciiByte(line, LF);
    EncodeHasAsciiByte(line, CR);
    forall k | 0 <= k < |e|
      ensures !IsLineBreak(bs[k])
    {
      assert bs[k] == e[k] && e[k] in e;
    }
    IndexWhereIs(bs, IsLf, |e|);
    IndexWhereIs(bs, IsLineBreak, |e|);
    assert bs[..|e| + 1] == e + [LF];
    assert bs[..|e|] == e;
    assert bs[|e| + 1..] == payload;
  }
}
