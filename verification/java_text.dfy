/** The handful of `java.lang.String` operations the protocol code relies on,
    stated with Java's own semantics: `trim`, `isBlank`, `startsWith`,
    `indexOf`, `equalsIgnoreCase` on ASCII text, and `split` with limit 0
    (leading empty piece kept, trailing empty pieces dropped, an input with no
    separator returned whole). */
module JavaText {

  /** A character of the regular-expression class `\s`: space, tab, line
      feed, vertical tab, form feed, carriage return. */
  predicate IsRegexSpace(c: char) {
    c == ' ' || '\t' <= c <= '\r'
  }

  /** What `Character.isWhitespace` accepts: the ASCII controls 9-13 and
      28-31 and the Unicode space, line and paragraph separators other than
      the three no-break spaces. */
  predicate IsJavaWhitespace(c: char) {
    || '\t' <= c <= '\r'
    || (28 <= c as int <= 32)
    || c as int == 0x1680
    || (0x2000 <= c as int <= 0x2006)
    || (0x2008 <= c as int <= 0x200A)
    || c as int == 0x2028 || c as int == 0x2029
    || c as int == 0x205F || c as int == 0x3000
  }

  /** `String.isBlank`: empty or whitespace only. */
  predicate IsBlank(s: string) {
    forall k :: 0 <= k < |s| ==> IsJavaWhitespace(s[k])
  }

  /** `String.startsWith`. */
  predicate StartsWith(s: string, prefix: string) {
    |prefix| <= |s| && s[..|prefix|] == prefix
  }

  /** ASCII upper-casing; every other character is left alone. */
  function UpperAscii(c: char): char {
    if 'a' <= c <= 'z' then (c as int - 32) as char else c
  }

  /** `String.equalsIgnoreCase` restricted to ASCII case folding. */
  predicate EqualsIgnoreCaseAscii(a: string, b: string) {
    |a| == |b| && forall k :: 0 <= k < |a| ==> UpperAscii(a[k]) == UpperAscii(b[k])
  }

  /** Position of the first character satisfying `p`, or `|s|` if none does. */
  function IndexWhere<T>(s: seq<T>, p: T -> bool): (i: nat)
    ensures i <= |s|
    ensures forall k :: 0 <= k < i ==> !p(s[k])
    ensures i < |s| ==> p(s[i])
  {
    if |s| == 0 then 0
    else if p(s[0]) then 0
    else 1 + IndexWhere(s[1..], p)
  }

  /** `IndexWhere` is characterised by its contract: the first position
      whose character satisfies `p`. */
  lemma IndexWhereIs<T>(s: seq<T>, p: T -> bool, i: nat)
    requires i <= |s|
    requires forall k :: 0 <= k < i ==> !p(s[k])
    requires i < |s| ==> p(s[i])
    ensures IndexWhere(s, p) == i
  {
    var j := IndexWhere(s, p);
  }

  /** `String.indexOf(char)`: the first position of `c`, or -1. */
  function IndexOf(s: string, c: char): (i: int)
    ensures -1 <= i < |s|
    ensures i == -1 <==> c !in s
    ensures 0 <= i ==> s[i] == c && c !in s[..i]
  {
    var k := IndexWhere(s, CharIs(c));
    if k == |s| then -1 else k
  }

  /** `String.trim`: strips characters at or below U+0020 from both ends. */
  function Trim(s: string): (r: string)
    ensures |r| <= |s|
    ensures r == [] || (r[0] > ' ' && r[|r| - 1] > ' ')
  {
    TrimRight(TrimLeft(s))
  }

  function TrimLeft(s: string): (r: string)
    ensures |r| <= |s| && r == s[|s| - |r|..]
    ensures r == [] || r[0] > ' '
  {
    if |s| > 0 && s[0] <= ' ' then TrimLeft(s[1..]) else s
  }

  function TrimRight(s: string): (r: string)
    ensures |r| <= |s| && r == s[..|r|]
    ensures r == [] || r[|r| - 1] > ' '
    ensures r != [] ==> r[0] == s[0]
    ensures forall i :: 0 <= i < |s| && s[i] > ' ' ==> i < |r|
  {
    if |s| > 0 && s[|s| - 1] <= ' ' then TrimRight(s[..|s| - 1]) else s
  }

  /** Trimming text whose ends are printable changes nothing. */
  lemma TrimKeeps(s: string)
    requires s == [] || (s[0] > ' ' && s[|s| - 1] > ' ')
    ensures Trim(s) == s
  {
  }

  /** Trimming text with a line feed appended gives the text back. */
  lemma TrimDropsNewline(s: string)
    requires s == [] || (s[0] > ' ' && s[|s| - 1] > ' ')
    ensures Trim(s + "\n") == s
  {
    if s == [] {
      assert TrimLeft("\n") == "";
    } else {
      assert TrimLeft(s + "\n") == s + "\n";
      assert (s + "\n")[..|s|] == s;
      assert TrimRight(s + "\n") == TrimRight(s);
    }
  }

  /** The pieces of `s` between separators; with `runs` a maximal run of
      separators counts as one, which is what the pattern `\s+` does. */
  function RawSplit(s: string, isSep: char -> bool, runs: bool): (r: seq<string>)
    ensures |r| >= 1
    ensures forall k :: 0 <= k < |r| ==> forall m :: 0 <= m < |r[k]| ==> !isSep(r[k][m])
    decreases |s|
  {
    var i := IndexWhere(s, isSep);
    if i == |s| then [s]
    else
      var rest := s[i + 1..];
      var j := if runs then IndexWhere(rest, x => !isSep(x)) else 0;
      [s[..i]] + RawSplit(rest[j..], isSep, runs)
  }

  function DropTrailingEmpty(ps: seq<string>): (r: seq<string>)
    ensures |r| <= |ps| && r == ps[..|r|]
    ensures r == [] || r[|r| - 1] != []
    ensures forall k :: |r| <= k < |ps| ==> ps[k] == []
  {
    if |ps| > 0 && ps[|ps| - 1] == [] then DropTrailingEmpty(ps[..|ps| - 1]) else ps
  }

  /** `String.split(regex)` with limit 0. */
  function JavaSplit(s: string, isSep: char -> bool, runs: bool): (r: seq<string>)
    ensures forall k :: 0 <= k < |r| ==> forall m :: 0 <= m < |r[k]| ==> !isSep(r[k][m])
  {
    if IndexWhere(s, isSep) == |s| then [s]
    else DropTrailingEmpty(RawSplit(s, isSep, runs))
  }

  /** `s.split("\\s+")`. */
  function SplitWs(s: string): seq<string> {
    JavaSplit(s, IsRegexSpace, true)
  }

  /** The separator test of a one-character pattern. */
  function CharIs(c: char): char -> bool {
    x => x == c
  }

  /** `s.split(c)` for a one-character literal pattern such as `" "`, `","`
      or `":"`. */
  function SplitChar(s: string, c: char): seq<string> {
    JavaSplit(s, CharIs(c), false)
  }

  /** The tokens separated by `sep`, as `String.join` writes them. */
  function Join(ts: seq<string>, sep: string): string
    decreases |ts|
  {
    if |ts| == 0 then ""
    else if |ts| == 1 then ts[0]
    else ts[0] + sep + Join(ts[1..], sep)
  }

  /** `Join` seen from the front: the first token, a separator, the rest. */
  lemma JoinCons(t: string, ts: seq<string>, sep: string)
    requires |ts| > 0
    ensures Join([t] + ts, sep) == t + sep + Join(ts, sep)
  {
    assert ([t] + ts)[1..] == ts;
  }

  /** A token the whitespace splitter leaves intact: non-empty, no `\s`. */
  predicate IsWord(t: string) {
    |t| > 0 && forall m :: 0 <= m < |t| ==> !IsRegexSpace(t[m])
  }

  predicate AllWords(ts: seq<string>) {
    forall k :: 0 <= k < |ts| ==> IsWord(ts[k])
  }

  lemma {:induction false} JoinStartsWithFirst(ts: seq<string>, sep: string)
    requires |ts| > 0
    ensures StartsWith(Join(ts, sep), ts[0])
  {
    if |ts| > 1 {
      assert Join(ts, sep) == ts[0] + (sep + Join(ts[1..], sep));
    }
  }

  lemma {:induction false} RawSplitJoin(ts: seq<string>)
    requires |ts| > 0 && AllWords(ts)
    ensures RawSplit(Join(ts, " "), IsRegexSpace, true) == ts
    decreases |ts|
  {
    var s := Join(ts, " ");
    if |ts| == 1 {
      IndexWhereIs(s, IsRegexSpace, |s|);
    } else {
      var rest := Join(ts[1..], " ");
      assert s == ts[0] + " " + rest;
      JoinStartsWithFirst(ts[1..], " ");
      assert rest[0] == ts[1][0];
      RawSplitWord(ts[0], rest);
      RawSplitJoin(ts[1..]);
      assert ts == [ts[0]] + ts[1..];
    }
  }

  /** A word, one space and a text starting with a non-space split into
      the word and the pieces of that text. */
  lemma RawSplitWord(t: string, rest: string)
    requires IsWord(t) && |rest| > 0 && !IsRegexSpace(rest[0])
    ensures RawSplit(t + " " + rest, IsRegexSpace, true) == [t] + RawSplit(rest, IsRegexSpace, true)
  {
    var s := t + " " + rest;
    assert forall k :: 0 <= k < |t| ==> s[k] == t[k];
    IndexWhereIs(s, IsRegexSpace, |t|);
    assert s[..|t|] == t;
    assert s[|t| + 1..] == rest;
    IndexWhereIs(rest, x => !IsRegexSpace(x), 0);
    assert rest[0..] == rest;
  }

  /** Splitting on `\s+` undoes joining non-empty whitespace-free tokens
      with single spaces. */
  lemma SplitWsJoin(ts: seq<string>)
    requires |ts| > 0 && AllWords(ts)
    ensures SplitWs(Join(ts, " ")) == ts
  {
    var s := Join(ts, " ");
    RawSplitJoin(ts);
    if |ts| > 1 {
      assert s == ts[0] + " " + Join(ts[1..], " ");
      assert s[|ts[0]|] == ' ';
      assert IndexWhere(s, IsRegexSpace) <= |ts[0]|;
    } else {
      IndexWhereIs(s, IsRegexSpace, |s|);
    }
  }

  lemma {:induction false} RawSplitCharJoin(ts: seq<string>, c: char)
    requires |ts| > 0 && forall k :: 0 <= k < |ts| ==> c !in ts[k]
    ensures RawSplit(Join(ts, [c]), CharIs(c), false) == ts
    decreases |ts|
  {
    var s := Join(ts, [c]);
    if |ts| == 1 {
      IndexWhereIs(s, CharIs(c), |s|);
    } else {
      var rest := Join(ts[1..], [c]);
      assert s == ts[0] + [c] + rest;
      RawSplitPiece(ts[0], c, rest);
      RawSplitCharJoin(ts[1..], c);
      assert ts == [ts[0]] + ts[1..];
    }
  }

  /** A piece free of `c`, then `c`, then any text: the piece comes first. */
  lemma RawSplitPiece(t: string, c: char, rest: string)
    requires c !in t
    ensures RawSplit(t + [c] + rest, CharIs(c), false) == [t] + RawSplit(rest, CharIs(c), false)
  {
    var s := t + [c] + rest;
    IndexWhereIs(s, CharIs(c), |t|);
    assert s[..|t|] == t;
    assert s[|t| + 1..] == rest;
    assert rest[0..] == rest;
  }

  /** Splitting on a character undoes joining with it, for tokens free of
      that character whose last one is non-empty (`split` drops trailing
      empty pieces); empty tokens elsewhere are kept. */
  lemma SplitCharJoin(ts: seq<string>, c: char)
    requires |ts| > 0 && forall k :: 0 <= k < |ts| ==> c !in ts[k]
    requires ts[|ts| - 1] != []
    ensures SplitChar(Join(ts, [c]), c) == ts
  {
    var s := Join(ts, [c]);
    RawSplitCharJoin(ts, c);
    if |ts| > 1 {
      assert s == ts[0] + [c] + Join(ts[1..], [c]);
      assert s[|ts[0]|] == c;
      assert IndexWhere(s, CharIs(c)) <= |ts[0]|;
    } else {
      IndexWhereIs(s, CharIs(c), |s|);
    }
  }

  /** A join starts with its first token and ends with its last. */
  lemma {:induction false} JoinEnds(ts: seq<string>, sep: string)
    requires |ts| > 0 && forall k :: 0 <= k < |ts| ==> |ts[k]| > 0
    ensures var s := Join(ts, sep);
            |s| > 0 && s[0] == ts[0][0] && s[|s| - 1] == ts[|ts| - 1][|ts[|ts| - 1]| - 1]
    decreases |ts|
  {
    if |ts| > 1 {
      var rest := Join(ts[1..], sep);
      JoinEnds(ts[1..], sep);
      assert Join(ts, sep) == ts[0] + sep + rest;
    }
  }
}
