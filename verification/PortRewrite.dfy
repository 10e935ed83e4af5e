/**
  Moving an instance to a new port: `_rewrite_port` of core/backup/store.py
  against `_read_port` of core/tomcat/instance.py, at character level. File
  contents are what text-mode reading gives, with LF line ends.
*/
module PortRewrite {
  import opened Wrappers
  import opened PyText
  import opened AppEnvCodec

  function SpaceRun(s: string): (n: nat)
    ensures n <= |s|
  {
    if s != "" && IsSpace(s[0]) then 1 + SpaceRun(s[1..]) else 0
  }

  /** How many digits s begins with. */
  function DigitRun(s: string): (n: nat)
    ensures n <= |s| && AllDigits(s[..n]) && (n < |s| ==> !IsDigit(s[n]))
  {
    if s != "" && IsDigit(s[0]) then
      var n := DigitRun(s[1..]);
      assert forall i | 0 < i <= n :: s[i] == s[1..][..n][i - 1];
      1 + n
    else 0
  }

  // ---------- server.xml ----------

  /** A match, its digits, and what follows: the three groups the substitution keeps apart. */
  datatype Found = Found(head: string, digits: string, tail: string)

  /** Connector\s+port="\d+" at the start of s. */
  function Match(s: string): (m: Option<Found>)
    ensures m.Some? ==> s == m.value.head + m.value.digits + m.value.tail && AllDigits(m.value.digits)
  {
    if !StartsWith(s, "Connector") then None
    else
      var spaces := SpaceRun(s[9..]);
      if spaces == 0 || !StartsWith(s[9 + spaces..], "port=\"") then None
      else
        var from := 15 + spaces;
        var digits := DigitRun(s[from..]);
        if digits > 0 && from + digits < |s| && s[from + digits] == '"'
        then Some(Found(s[..from], s[from..][..digits], s[from + digits..]))
        else None
  }

  /** How much of s the match takes, closing quote included. */
  function Extent(m: Found): nat {
    |m.head| + |m.digits| + 1
  }

  /** The index of the leftmost match. */
  function Search(s: string): (i: Option<nat>)
    ensures i.Some? ==> i.value < |s| && Match(s[i.value..]).Some?
  {
    if s == "" then None
    else if Match(s).Some? then Some(0)
    else
      match Search(s[1..])
      case None => None
      case Some(j) => Some(j + 1)
  }

  /** re.sub with count=1: the digits of the leftmost match are replaced. */
  function RewriteXml(s: string, port: nat): string {
    match Search(s)
    case None => s
    case Some(i) =>
      var m := Match(s[i..]).value;
      s[..i] + (m.head + Decimal(port) + m.tail)
  }

  /** The digits of the leftmost match, as a number. */
  function XmlPort(s: string): Option<nat> {
    match Search(s)
    case None => None
    case Some(i) => Some(ValueOf(Match(s[i..]).value.digits))
  }

  lemma {:induction false} SpaceRunIsSpaces(s: string)
    ensures forall i | 0 <= i < SpaceRun(s) :: IsSpace(s[i])
  {
    if s != "" && IsSpace(s[0]) { SpaceRunIsSpaces(s[1..]); }
  }

  lemma {:induction false} SpaceRunOf(spaces: string, rest: string)
    requires forall i | 0 <= i < |spaces| :: IsSpace(spaces[i])
    requires rest != "" && !IsSpace(rest[0])
    ensures SpaceRun(spaces + rest) == |spaces|
  {
    if spaces == "" {
      assert spaces + rest == rest;
    } else {
      assert (spaces + rest)[1..] == spaces[1..] + rest;
      SpaceRunOf(spaces[1..], rest);
    }
  }

  lemma {:induction false} DigitRunOf(digits: string, rest: string)
    requires AllDigits(digits) && (rest == "" || !IsDigit(rest[0]))
    ensures DigitRun(digits + rest) == |digits|
  {
    if digits == "" {
      assert digits + rest == rest;
    } else {
      assert (digits + rest)[1..] == digits[1..] + rest;
      DigitRunOf(digits[1..], rest);
    }
  }

  /** The text before the digits of a match, for any run of spaces. */
  function Head(spaces: string): string {
    "Connector" + spaces + "port=\""
  }

  ghost predicate AllSpaces(s: string) {
    s != "" && forall i | 0 <= i < |s| :: IsSpace(s[i])
  }

  lemma Cut(a: string, b: string)
    ensures (a + b)[..|a|] == a && (a + b)[|a|..] == b
  {}

  lemma CutAgain(s: string, i: nat, j: nat)
    requires i + j <= |s|
    ensures s[i..][j..] == s[i + j..]
  {}

  /** Cutting up a text that is built like a match. */
  lemma Pieces(connector: string, spaces: string, port: string, digits: string, rest: string)
    ensures var s := connector + spaces + port + digits + rest;
            var i, j := |connector| + |spaces|, |connector| + |spaces| + |port|;
            && s[..|connector|] == connector && s[|connector|..] == spaces + (port + (digits + rest))
            && s[i..] == port + (digits + rest) && s[i..][..|port|] == port
            && s[..j] == connector + spaces + port && s[j..] == digits + rest
            && s[j..][..|digits|] == digits && s[j + |digits|..] == rest
  {
    hide *;
    var s := connector + spaces + port + digits + rest;
    var i, j := |connector| + |spaces|, |connector| + |spaces| + |port|;
    var u := digits + rest;
    var tail, front := spaces + (port + u), connector + spaces + port;
    assert s == connector + tail by { assert s == connector + spaces + port + u; }
    assert s == front + u;
    Cut(connector, tail);
    CutAgain(s, |connector|, |spaces|);
    Cut(spaces, port + u);
    Cut(port, u);
    Cut(front, u);
    Cut(digits, rest);
    CutAgain(s, j, |digits|);
  }

  /** Whatever is built like a match is one. */
  lemma MatchOf(spaces: string, digits: string, rest: string)
    requires AllSpaces(spaces) && digits != "" && AllDigits(digits)
    ensures Match(Head(spaces) + digits + ("\"" + rest)) == Some(Found(Head(spaces), digits, "\"" + rest))
  {
    var s := Head(spaces) + digits + ("\"" + rest);
    var after := "port=\"" + (digits + ("\"" + rest));
    Pieces("Connector", spaces, "port=\"", digits, "\"" + rest);
    assert s[9..] == spaces + after && !IsSpace(after[0]);
    SpaceRunOf(spaces, after);
    DigitRunOf(digits, "\"" + rest);
    hide SpaceRun, DigitRun, IsSpace, IsDigit, AllDigits, AllSpaces;
    assert s[15 + |spaces| + |digits|] == s[15 + |spaces| + |digits|..][0] == '"';
  }

  /** Every match is built like one. */
  lemma PiecesOf(s: string) returns (spaces: string, rest: string)
    requires Match(s).Some?
    ensures var m := Match(s).value;
            AllSpaces(spaces) && m.head == Head(spaces) && m.digits != "" && m.tail == "\"" + rest
  {
    var m := Match(s).value;
    var n := SpaceRun(s[9..]);
    SpaceRunIsSpaces(s[9..]);
    spaces, rest := s[9..][..n], m.tail[1..];
    assert s[9 + n..15 + n] == s[9 + n..][..6] == "port=\"";
    assert s[..15 + n] == s[..9] + spaces + s[9 + n..15 + n];
  }

  /** A match stays a match when what follows it changes. */
  lemma MatchIsLocal(s: string, t: string)
    requires Match(s).Some?
    requires Extent(Match(s).value) <= |t| && s[..Extent(Match(s).value)] == t[..Extent(Match(s).value)]
    ensures Match(t).Some?
  {
    var m := Match(s).value;
    var spaces, rest := PiecesOf(s);
    var e := Extent(m);
    hide Match, Head;
    assert s == (m.head + m.digits + "\"") + rest;
    assert s[..e] == m.head + m.digits + "\"";
    assert t == t[..e] + t[e..] == m.head + m.digits + ("\"" + t[e..]);
    MatchOf(spaces, m.digits, t[e..]);
  }

  lemma NoOtherC(spaces: string, k: nat)
    requires AllSpaces(spaces) && 0 < k < |Head(spaces)|
    ensures Head(spaces)[k] != 'C'
  {
    var c := "Connector";
    if k < 9 {
      assert Head(spaces)[k] == c[k];
    } else if k < 9 + |spaces| {
      assert Head(spaces)[k] == spaces[k - 9];
    } else {
      var p := "port=\"";
      assert Head(spaces)[k] == p[k - 9 - |spaces|];
    }
  }

  /** Only the first character of a match is a C. */
  lemma OneC(s: string, k: nat)
    requires Match(s).Some? && 0 < k < Extent(Match(s).value)
    ensures s[k] != 'C'
  {
    var m := Match(s).value;
    var spaces, rest := PiecesOf(s);
    var d := m.digits;
    hide Match;
    assert s == Head(spaces) + d + ("\"" + rest);
    if k < |m.head| {
      NoOtherC(spaces, k);
      assert s[k] == Head(spaces)[k];
    } else if k < |m.head| + |d| {
      assert s[k] == d[k - |m.head|];
    }
  }

  /** One character of the search. */
  lemma SearchFrom(s: string)
    requires s != ""
    ensures Match(s).Some? ==> Search(s) == Some(0)
    ensures Match(s).None? && Search(s[1..]).Some? ==> Search(s) == Some(Search(s[1..]).value + 1)
  {
    hide Match;
  }

  lemma {:induction false} SearchIsLeftmost(s: string, i: nat)
    requires i < |s| && Match(s[i..]).Some?
    requires forall j | 0 <= j < i :: Match(s[j..]).None?
    ensures Search(s) == Some(i)
  {
    hide Match, Search;
    SearchFrom(s);
    assert s[0..] == s;
    if i > 0 {
      CutAgain(s, 1, i - 1);
      forall j | 0 <= j < i - 1 ensures Match(s[1..][j..]).None? {
        CutAgain(s, 1, j);
      }
      SearchIsLeftmost(s[1..], i - 1);
    }
  }

  lemma {:induction false} NothingBefore(s: string, j: nat)
    requires Search(s).Some? && j < Search(s).value
    ensures Match(s[j..]).None?
  {
    hide Match;
    if j == 0 {
      assert s[0..] == s;
    } else {
      CutAgain(s, 1, j - 1);
      NothingBefore(s[1..], j - 1);
    }
  }

  lemma SameSlice(s: string, t: string, i: nat, j: nat, e: nat)
    requires i <= |s| && i <= |t| && s[..i] == t[..i] && j + e <= i
    ensures s[j..][..e] == t[j..][..e]
  {
    assert s[j..][..e] == s[..i][j..j + e] && t[j..][..e] == t[..i][j..j + e];
  }

  /** No match begins before the rewritten one: it would have been there before, or hold a second C. */
  lemma StillLeftmost(s: string, t: string, i: nat, j: nat)
    requires Search(s) == Some(i) && j < i < |t| && s[..i] == t[..i] && t[i] == 'C'
    ensures Match(t[j..]).None?
  {
    hide Match, Search;
    if Match(t[j..]).Some? {
      var e := Extent(Match(t[j..]).value);
      if j + e > i {
        OneC(t[j..], i - j);
      } else {
        SameSlice(s, t, i, j, e);
        NothingBefore(s, j);
        MatchIsLocal(t[j..], s[j..]);
      }
      assert false;
    }
  }

  /**
    The port read after a rewrite is the new one if and only if server.xml has a
    connector match at all; then the match rewritten is the one read, whatever else the file holds.
  */
  lemma RewriteThenReadXml(s: string, port: nat)
    ensures XmlPort(RewriteXml(s, port)) == Some(port) <==> Search(s).Some?
    ensures Search(s).None? ==> RewriteXml(s, port) == s
    ensures Search(RewriteXml(s, port)) == Search(s)
  {
    if Search(s).Some? {
      var i := Search(s).value;
      var m := Match(s[i..]).value;
      var spaces, rest := PiecesOf(s[i..]);
      var t := RewriteXml(s, port);
      assert t[i..] == m.head + Decimal(port) + m.tail;
      MatchOf(spaces, Decimal(port), rest);
      assert t[..i] == s[..i];
      assert t[i] == t[i..][0] == 'C';
      forall j | 0 <= j < i ensures Match(t[j..]).None? { StillLeftmost(s, t, i, j); }
      SearchIsLeftmost(t, i);
      ValueOfDecimal(port);
    }
  }

  /** The port of the first connector in a file is the one read. */
  lemma ConnectorReads(front: string, port: nat, back: string)
    requires 'C' !in front
    ensures XmlPort(front + ("Connector port=\"" + Decimal(port) + ("\"" + back))) == Some(port)
  {
    var spaces := " ";
    var m := "Connector port=\"" + Decimal(port) + ("\"" + back);
    assert Head(spaces) == "Connector port=\"";
    MatchOf(spaces, Decimal(port), back);
    ValueOfDecimal(port);
    hide Match, Decimal, Head;
    var s := front + m;
    Cut(front, m);
    forall j | 0 <= j < |front| ensures Match(s[j..]).None? {
      assert s[j] == front[j];
      NoMatchWithoutC(s[j..]);
    }
    SearchIsLeftmost(s, |front|);
  }

  lemma NoMatchWithoutC(s: string)
    requires s != "" && s[0] != 'C'
    ensures Match(s).None?
  {
    assert |s| >= 9 ==> s[..9][0] == s[0];
  }

  /** Nothing but the digits of the leftmost match changes. */
  lemma OnlyThePortChanges(s: string, port: nat)
    requires Search(s).Some?
    ensures var i, t := Search(s).value, RewriteXml(s, port);
            var m, n := Match(s[i..]).value, Match(t[i..]);
            t[..i] == s[..i] && n == Some(m.(digits := Decimal(port)))
  {
    RewriteThenReadXml(s, port);
    var i := Search(s).value;
    var m := Match(s[i..]).value;
    var spaces, rest := PiecesOf(s[i..]);
    assert RewriteXml(s, port)[i..] == m.head + Decimal(port) + m.tail;
    MatchOf(spaces, Decimal(port), rest);
  }

  // ---------- app.env ----------

  const KEY := "SERVER_PORT"

  predicate IsQuote(c: char) {
    c == '"' || c == '\''
  }

  /** How much of a line ^SERVER_PORT=["']?\d+["']? matches. */
  function LineMatch(line: string): (end: Option<nat>)
    ensures end.Some? ==> 12 < end.value <= |line| && StartsWith(line, KEY + "=")
  {
    if !StartsWith(line, KEY + "=") then None
    else
      var from := if |line| > 12 && IsQuote(line[12]) then 13 else 12;
      var digits := DigitRun(line[from..]);
      var to := from + digits;
      if digits == 0 then None else if to < |line| && IsQuote(line[to]) then Some(to + 1) else Some(to)
  }

  function RewriteLine(line: string, port: nat): string {
    match LineMatch(line)
    case None => line
    case Some(end) => KEY + ("=" + (Decimal(port) + line[end..]))
  }

  function LineEnd(s: string): (n: nat)
    ensures n <= |s| && (n < |s| ==> s[n] == '\n')
  {
    if s == "" || s[0] == '\n' then 0 else 1 + LineEnd(s[1..])
  }

  /** Some line matches. */
  predicate AnyMatch(s: string)
    decreases |s|
  {
    var n := LineEnd(s);
    LineMatch(s[..n]).Some? || (n < |s| && AnyMatch(s[n + 1..]))
  }

  /** Every matching line is rewritten; a match never goes past its line. */
  function RewriteAll(s: string, port: nat): string
    decreases |s|
  {
    var n := LineEnd(s);
    if n < |s| then RewriteLine(s[..n], port) + "\n" + RewriteAll(s[n + 1..], port) else RewriteLine(s, port)
  }

  function RewriteEnv(s: string, port: nat): string {
    if AnyMatch(s) then RewriteAll(s, port) else KEY + "=" + Decimal(port) + "\n" + s
  }

  predicate IsPort(value: string) {
    value != "" && AllDigits(value)
  }

  /** What _read_port makes of the parsed file. */
  function EnvPort(s: string): Option<nat> {
    match Lookup(Parse(s), KEY)
    case None => None
    case Some(value) => if IsPort(value) then Some(ValueOf(value)) else None
  }

  // ---------- text-mode reading ----------

  /** Universal newlines: CR and CRLF become LF. */
  function Translated(raw: string): string
    decreases |raw|
  {
    if raw == "" then ""
    else if raw[0] == '\r' then "\n" + Translated(if |raw| > 1 && raw[1] == '\n' then raw[2..] else raw[1..])
    else [raw[0]] + Translated(raw[1..])
  }

  ghost predicate NoCR(s: string) {
    forall i | 0 <= i < |s| :: s[i] != '\r'
  }

  lemma {:induction false} TranslatedHasNoCR(raw: string)
    ensures NoCR(Translated(raw))
    decreases |raw|
  {
    if raw != "" {
      if raw[0] == '\r' {
        TranslatedHasNoCR(if |raw| > 1 && raw[1] == '\n' then raw[2..] else raw[1..]);
      } else {
        TranslatedHasNoCR(raw[1..]);
      }
    }
  }

  lemma {:induction false} TranslatedAgain(s: string)
    requires NoCR(s)
    ensures Translated(s) == s
  {
    if s != "" { TranslatedAgain(s[1..]); }
  }

  /** Translating does not change what the lines are. */
  lemma {:induction false} LinesTranslated(raw: string, cur: string)
    ensures Lines(Translated(raw), cur) == Lines(raw, cur)
    decreases |raw|
  {
    if raw != "" {
      if raw[0] == '\r' {
        var rest := if |raw| > 1 && raw[1] == '\n' then raw[2..] else raw[1..];
        LinesTranslated(rest, "");
        assert ("\n" + Translated(rest))[1..] == Translated(rest);
      } else {
        var rest := Translated(raw[1..]);
        assert ([raw[0]] + rest)[1..] == rest;
        LinesTranslated(raw[1..], if raw[0] == '\n' then "" else cur + [raw[0]]);
      }
    }
  }

  // ---------- lines ----------

  function Rewritten(lines: seq<string>, port: nat): seq<string> {
    if lines == [] then [] else [RewriteLine(lines[0], port)] + Rewritten(lines[1..], port)
  }

  lemma {:induction false} LineEndBefore(s: string)
    requires NoCR(s)
    ensures NoBreaks(s[..LineEnd(s)])
  {
    if s != "" && s[0] != '\n' {
      LineEndBefore(s[1..]);
      assert s[..LineEnd(s)] == [s[0]] + s[1..][..LineEnd(s[1..])];
    }
  }

  lemma {:induction false} LastLineOf(line: string, cur: string)
    requires NoBreaks(line)
    ensures Lines(line, cur) == if cur + line == "" then [] else [cur + line]
  {
    if line == "" {
      assert cur + line == cur;
    } else {
      assert cur + line == (cur + [line[0]]) + line[1..];
      LastLineOf(line[1..], cur + [line[0]]);
    }
  }

  lemma DecimalHasNoBreaks(n: nat)
    ensures NoBreaks(Decimal(n))
  {}

  lemma KeyHasNoBreaks()
    ensures NoBreaks(KEY) && NoBreaks("=")
  {}

  lemma RewriteHasNoBreaks(line: string, port: nat)
    requires NoBreaks(line)
    ensures NoBreaks(RewriteLine(line, port)) && (RewriteLine(line, port) == "" <==> line == "")
  {
    DecimalHasNoBreaks(port);
    hide Decimal, LineMatch, IsBreak;
    if LineMatch(line).Some? {
      KeyHasNoBreaks();
      var rest := line[LineMatch(line).value..];
      assert NoBreaks(rest);
      assert NoBreaks(Decimal(port) + rest);
    }
  }

  ghost predicate SomeMatch(lines: seq<string>) {
    exists i :: 0 <= i < |lines| && LineMatch(lines[i]).Some?
  }

  lemma SomeMatchMore(line: string, lines: seq<string>)
    ensures SomeMatch([line] + lines) <==> LineMatch(line).Some? || SomeMatch(lines)
  {
    hide LineMatch;
    var all := [line] + lines;
    if LineMatch(line).Some? { assert LineMatch(all[0]).Some?; }
    if i :| 0 <= i < |lines| && LineMatch(lines[i]).Some? { assert LineMatch(all[i + 1]).Some?; }
  }

  lemma LastOne(s: string, port: nat)
    requires NoBreaks(s) && LineEnd(s) == |s|
    ensures Lines(RewriteAll(s, port), "") == Rewritten(Lines(s, ""), port)
    ensures AnyMatch(s) <==> SomeMatch(Lines(s, ""))
  {
    LastLineOf(s, "");
    RewriteHasNoBreaks(s, port);
    LastLineOf(RewriteLine(s, port), "");
    assert s[..|s|] == s && "" + s == s && "" + RewriteLine(s, port) == RewriteLine(s, port);
    hide LineMatch, RewriteLine;
    if s == "" {
      NoMatchInNothing();
    } else {
      assert Lines(s, "") == [s] && [s][1..] == [];
      SomeMatchMore(s, []);
      assert [s] + [] == [s];
    }
  }

  lemma NoMatchInNothing()
    ensures LineMatch("").None?
  {}

  lemma OneLine(line: string, rest: string, port: nat)
    requires NoBreaks(line) && LineEnd(line + "\n" + rest) == |line|
    ensures RewriteAll(line + "\n" + rest, port) == RewriteLine(line, port) + "\n" + RewriteAll(rest, port)
    ensures AnyMatch(line + "\n" + rest) == (LineMatch(line).Some? || AnyMatch(rest))
  {
    var s := line + "\n" + rest;
    assert s[..|line|] == line && s[|line| + 1..] == rest;
    hide LineMatch, RewriteLine;
  }

  /** Rewriting a file is rewriting each of its lines. */
  lemma {:induction false} RewriteLines(s: string, port: nat)
    requires NoCR(s)
    ensures Lines(RewriteAll(s, port), "") == Rewritten(Lines(s, ""), port)
    ensures AnyMatch(s) <==> SomeMatch(Lines(s, ""))
    decreases |s|
  {
    var n := LineEnd(s);
    LineEndBefore(s);
    hide LineMatch, RewriteLine, Lines, RewriteAll, AnyMatch, LineEnd, NoBreaks;
    if n == |s| {
      assert s[..n] == s;
      LastOne(s, port);
    } else {
      var line, rest := s[..n], s[n + 1..];
      assert s == line + "\n" + rest;
      OneLine(line, rest, port);
      RewriteLines(rest, port);
      LinesOf(line, rest, "");
      RewriteHasNoBreaks(line, port);
      LinesOf(RewriteLine(line, port), RewriteAll(rest, port), "");
      assert "" + line == line && "" + RewriteLine(line, port) == RewriteLine(line, port);
      SomeMatchMore(line, Lines(rest, ""));
      assert ([line] + Lines(rest, ""))[1..] == Lines(rest, "");
    }
  }

  // ---------- the line that decides about a key ----------

  predicate Assigns(line: string, key: string) {
    ParseLine(line).Some? && ParseLine(line).value.key == key
  }

  /** The last line that assigns the key; the reader lets it win. */
  function LastLine(lines: seq<string>, key: string): (l: Option<string>)
    ensures l.Some? ==> l.value in lines && Assigns(l.value, key)
  {
    if lines == [] then None
    else if LastLine(lines[1..], key).Some? then LastLine(lines[1..], key)
    else if Assigns(lines[0], key) then Some(lines[0])
    else None
  }

  lemma {:induction false} LookupOfParse(lines: seq<string>, env: Dict, key: string)
    ensures Lookup(ParseLines(lines, env), key)
         == match LastLine(lines, key)
            case Some(l) => Some(ParseLine(l).value.value)
            case None => Lookup(env, key)
    decreases |lines|
  {
    hide ParseLine;
    if lines != [] {
      if ParseLine(lines[0]).Some? {
        var item := ParseLine(lines[0]).value;
        PutKeys(env, item.key, item.value);
        LookupOfParse(lines[1..], Put(env, item.key, item.value), key);
      } else {
        LookupOfParse(lines[1..], env, key);
      }
    }
  }

  /** A key reads as the last line that assigns it says. */
  lemma LookupOfText(s: string, key: string)
    ensures Lookup(Parse(s), key)
         == match LastLine(Lines(s, ""), key) case Some(l) => Some(ParseLine(l).value.value) case None => None
  {
    LookupOfParse(Lines(s, ""), [], key);
  }

  lemma KeyIsIdentifier()
    ensures IsIdentifier(KEY)
  {}

  /** What a matching line assigns before and after it is rewritten; every other line stays. */
  lemma MatchedLine(line: string, port: nat)
    ensures LineMatch(line).None? ==> RewriteLine(line, port) == line
    ensures LineMatch(line).Some? ==>
      && ParseLine(line).Some? && ParseLine(line).value.key == KEY
      && ParseLine(RewriteLine(line, port))
         == Some(Item(KEY, Unquote(RStrip(LStrip(Decimal(port) + line[LineMatch(line).value..])))))
  {
    if LineMatch(line).Some? {
      assert line == KEY + ("=" + line[12..]);
      KeyIsIdentifier();
      hide LineMatch, Decimal, ParseLine;
      ParseAssignment(KEY, line[12..]);
      ParseAssignment(KEY, Decimal(port) + line[LineMatch(line).value..]);
    }
  }

  lemma {:induction false} LastLineRewritten(lines: seq<string>, key: string, port: nat)
    ensures LastLine(Rewritten(lines, port), key)
         == match LastLine(lines, key) case Some(l) => Some(RewriteLine(l, port)) case None => None
  {
    hide LineMatch, RewriteLine, ParseLine;
    if lines != [] {
      MatchedLine(lines[0], port);
      LastLineRewritten(lines[1..], key, port);
      assert ([RewriteLine(lines[0], port)] + Rewritten(lines[1..], port))[1..] == Rewritten(lines[1..], port);
    }
  }

  lemma {:induction false} SomeMatchAssigns(lines: seq<string>)
    ensures SomeMatch(lines) ==> LastLine(lines, KEY).Some?
    ensures !SomeMatch(lines) ==> forall l | l in lines :: LineMatch(l).None?
  {
    hide LineMatch, ParseLine;
    if lines != [] {
      MatchedLine(lines[0], 0);
      SomeMatchAssigns(lines[1..]);
      assert lines == [lines[0]] + lines[1..];
      SomeMatchMore(lines[0], lines[1..]);
    }
  }

  // ---------- the value after a match ----------

  lemma {:induction false} RStripAfter(a: string, b: string)
    requires a != "" && !IsSpace(a[|a| - 1])
    ensures RStrip(a + b) == a + RStrip(b) && (RStrip(b) == "" <==> Blank(b))
  {
    hide IsSpace;
    if b == "" {
      assert a + b == a;
    } else {
      var front := b[..|b| - 1];
      assert (a + b)[..|a + b| - 1] == a + front && b == front + [b[|b| - 1]];
      if IsSpace(b[|b| - 1]) { RStripAfter(a, front); }
    }
  }

  lemma DecimalEnds(n: nat)
    ensures IsDigit(Decimal(n)[0]) && IsDigit(Decimal(n)[|Decimal(n)| - 1])
  {}

  lemma DigitIsPlain(c: char)
    requires IsDigit(c)
    ensures !IsSpace(c) && !IsQuote(c) && !IsBreak(c)
  {}

  /** Text that begins with the port is read as the port and what follows it, without blanks at the end. */
  lemma ValueAfter(port: nat, tail: string)
    ensures Unquote(RStrip(LStrip(Decimal(port) + tail))) == Decimal(port) + RStrip(tail)
    ensures RStrip(tail) == "" <==> Blank(tail)
  {
    var d := Decimal(port);
    DecimalEnds(port);
    DigitIsPlain(d[0]);
    DigitIsPlain(d[|d| - 1]);
    hide Decimal, IsSpace, IsDigit;
    RStripAfter(d, tail);
    assert (d + tail)[0] == d[0] && (d + RStrip(tail))[0] == d[0];
  }

  lemma AllDigitsConcat(a: string, b: string)
    ensures AllDigits(a + b) <==> AllDigits(a) && AllDigits(b)
  {
    if AllDigits(a + b) {
      forall i | 0 <= i < |a| ensures IsDigit(a[i]) { assert a[i] == (a + b)[i]; }
      forall i | 0 <= i < |b| ensures IsDigit(b[i]) { assert b[i] == (a + b)[|a| + i]; }
    }
  }

  predicate OnlyZeros(s: string) {
    forall i | 0 <= i < |s| :: s[i] == '0'
  }

  /** More digits behind make another number, but for zeros behind zero. */
  lemma {:induction false} ValueOfLonger(a: string, b: string)
    requires AllDigits(a) && AllDigits(b) && AllDigits(a + b)
    ensures b != "" ==> ValueOf(a + b) >= 10 * ValueOf(a)
    ensures ValueOf(a) == 0 ==> (ValueOf(a + b) == 0 <==> OnlyZeros(b))
  {
    if b == "" {
      assert a + b == a;
    } else {
      var front := b[..|b| - 1];
      AllDigitsConcat(a, front);
      assert (a + b)[..|a + b| - 1] == a + front && b == front + [b[|b| - 1]];
      ValueOfLonger(a, front);
      if front == "" { assert a + front == a; }
    }
  }

  /** What follows the match leaves the value alone: blanks, or zeros behind port 0. */
  predicate Harmless(port: nat, tail: string) {
    Blank(tail) || (port == 0 && OnlyZeros(RStrip(tail)))
  }

  /** The value reads as the port if and only if what follows it is harmless. */
  lemma ReadsAsPort(port: nat, tail: string)
    ensures var v := Decimal(port) + RStrip(tail);
            Harmless(port, tail) <==> IsPort(v) && ValueOf(v) == port
  {
    var d, rest := Decimal(port), RStrip(tail);
    ValueAfter(port, tail);
    ValueOfDecimal(port);
    hide Decimal, ValueOf, RStrip;
    AllDigitsConcat(d, rest);
    if Blank(tail) {
      assert d + rest == d;
    } else if AllDigits(d + rest) {
      ValueOfLonger(d, rest);
    } else if OnlyZeros(rest) {
      ZerosAreDigits(rest);
    }
  }

  lemma ZerosAreDigits(s: string)
    ensures OnlyZeros(s) ==> AllDigits(s)
  {}

  // ---------- rewriting any app.env ----------

  /** A line the rewrite turns into one that reads as the new port: only blanks follow the match. */
  predicate Moves(line: string) {
    LineMatch(line).Some? && Blank(line[LineMatch(line).value..])
  }

  /** No line assigns the port, or the one that decides moves. */
  predicate Movable(raw: string) {
    LastLine(Lines(raw, ""), KEY).None? || Moves(LastLine(Lines(raw, ""), KEY).value)
  }

  function PortLine(port: nat): string {
    KEY + "=" + Decimal(port)
  }

  lemma PortLineParses(port: nat)
    ensures NoBreaks(PortLine(port)) && ParseLine(PortLine(port)) == Some(Item(KEY, Decimal(port)))
  {
    DecimalHasNoBreaks(port);
    KeyHasNoBreaks();
    KeyIsIdentifier();
    ValueAfter(port, "");
    assert Decimal(port) + "" == Decimal(port);
    hide Decimal, ParseLine;
    ParseAssignment(KEY, Decimal(port));
    assert KEY + ("=" + Decimal(port)) == PortLine(port);
  }

  /** The lines after a rewrite: each rewritten, or a new one in front when none matches. */
  lemma LinesAfter(raw: string, port: nat)
    ensures var lines := Lines(raw, "");
            Lines(RewriteEnv(Translated(raw), port), "")
            == if SomeMatch(lines) then Rewritten(lines, port) else [PortLine(port)] + lines
  {
    var s := Translated(raw);
    TranslatedHasNoCR(raw);
    LinesTranslated(raw, "");
    RewriteLines(s, port);
    PortLineParses(port);
    hide Lines, Decimal, AnyMatch, RewriteAll, Translated, ParseLine;
    LinesOf(PortLine(port), s, "");
    assert "" + PortLine(port) == PortLine(port);
  }

  /** The line that decides about a key after a rewrite. */
  lemma LastLineAfter(raw: string, port: nat, key: string)
    ensures LastLine(Lines(RewriteEnv(Translated(raw), port), ""), key)
         == match LastLine(Lines(raw, ""), key)
            case Some(l) => Some(RewriteLine(l, port))
            case None => if key == KEY then Some(PortLine(port)) else None
  {
    LinesAfter(raw, port);
    hide Lines, RewriteEnv, Translated, RewriteLine, LineMatch, ParseLine, PortLine;
    var lines := Lines(raw, "");
    SomeMatchAssigns(lines);
    if SomeMatch(lines) {
      LastLineRewritten(lines, key, port);
    } else {
      var all := [PortLine(port)] + lines;
      assert all[1..] == lines;
      PortLineParses(port);
      if LastLine(lines, key).Some? {
        MatchedLine(LastLine(lines, key).value, port);
      }
    }
  }

  /** Rewriting the port leaves the value of every other key alone, whatever the file holds. */
  lemma OtherKeysStay(raw: string, port: nat, key: string)
    requires key != KEY
    ensures Lookup(Parse(RewriteEnv(Translated(raw), port)), key) == Lookup(Parse(raw), key)
  {
    hide Lines, RewriteEnv, Translated, RewriteLine, LineMatch, ParseLine, Parse;
    LastLineAfter(raw, port, key);
    LookupOfText(raw, key);
    LookupOfText(RewriteEnv(Translated(raw), port), key);
    if LastLine(Lines(raw, ""), key).Some? {
      MatchedLine(LastLine(Lines(raw, ""), key).value, port);
    }
  }

  /** The value of the port after a rewrite. */
  lemma PortAfter(raw: string, port: nat)
    ensures Lookup(Parse(RewriteEnv(Translated(raw), port)), KEY)
         == match LastLine(Lines(raw, ""), KEY)
            case None => Some(Decimal(port))
            case Some(l) =>
              if LineMatch(l).None? then Lookup(Parse(raw), KEY)
              else Some(Decimal(port) + RStrip(l[LineMatch(l).value..]))
  {
    hide Lines, RewriteEnv, Translated, RewriteLine, LineMatch, ParseLine, Parse, Unquote, RStrip, LStrip, Decimal, PortLine;
    LastLineAfter(raw, port, KEY);
    LookupOfText(raw, KEY);
    LookupOfText(RewriteEnv(Translated(raw), port), KEY);
    var last := LastLine(Lines(raw, ""), KEY);
    if last.None? {
      PortLineParses(port);
    } else {
      MatchedLine(last.value, port);
      if LineMatch(last.value).Some? {
        ValueAfter(port, last.value[LineMatch(last.value).value..]);
      }
    }
  }

  /** A rewrite to the port will be read back: no line names a port, or the deciding one moves, or it stays and is right. */
  predicate LandsOn(raw: string, port: nat) {
    match LastLine(Lines(raw, ""), KEY)
    case None => true
    case Some(l) => if LineMatch(l).Some? then Harmless(port, l[LineMatch(l).value..]) else EnvPort(raw) == Some(port)
  }

  /**
    For every app.env whatsoever the rewrite reads back as the new port if and
    only if no line assigned SERVER_PORT, or the last one that does matches with
    nothing harmful behind the match, or it does not match and named this very
    port already.  A last line that does not match keeps its value.  Every other
    key keeps its value in any case.
  */
  lemma RewriteThenReadEnv(raw: string, port: nat)
    ensures var after, last := RewriteEnv(Translated(raw), port), LastLine(Lines(raw, ""), KEY);
            && (EnvPort(after) == Some(port) <==> LandsOn(raw, port))
            && (last.Some? && LineMatch(last.value).None? ==> EnvPort(after) == EnvPort(raw))
    ensures Movable(raw) ==> LandsOn(raw, port)
    ensures forall key | key != KEY ::
              Lookup(Parse(RewriteEnv(Translated(raw), port)), key) == Lookup(Parse(raw), key)
  {
    var last := LastLine(Lines(raw, ""), KEY);
    hide Lines, RewriteEnv, Translated, LineMatch, ParseLine, Parse, RStrip, Decimal, Blank, ValueOf, IsPort, LastLine;
    PortAfter(raw, port);
    ReadsAsPort(port, "");
    BlankNothing();
    assert Decimal(port) + "" == Decimal(port);
    if last.Some? && LineMatch(last.value).Some? {
      ReadsAsPort(port, last.value[LineMatch(last.value).value..]);
    }
    forall key | key != KEY
      ensures Lookup(Parse(RewriteEnv(Translated(raw), port)), key) == Lookup(Parse(raw), key)
    {
      OtherKeysStay(raw, port, key);
    }
  }

  lemma BlankNothing()
    ensures Blank("") && RStrip("") == ""
  {}

  lemma QuotedPortMoves(q: char, port: nat, tail: string)
    requires IsQuote(q) && Blank(tail)
    ensures Moves(KEY + ("=" + ([q] + (Decimal(port) + ([q] + tail)))))
  {
    var d := Decimal(port);
    var rest := [q] + tail;
    var line := KEY + ("=" + ([q] + (d + rest)));
    assert !IsDigit(q);
    DigitRunOf(d, rest);
    hide Decimal, IsDigit, IsSpace, DigitRun;
    assert line[..12] == KEY + "=" && line[12] == q && line[13..] == d + rest;
    CutAgain(line, 13, |d|);
    Cut(d, rest);
    CutAgain(line, 13 + |d|, 1);
    assert line[13 + |d|] == q;
    assert rest[1..] == tail;
  }

  lemma PortPrefix(rest: string)
    ensures "SERVER_PORT=" + rest == KEY + ("=" + rest)
    ensures "SERVER_PORT='" + rest == KEY + ("=" + (['\''] + rest))
    ensures "SERVER_PORT=\"" + rest == KEY + ("=" + (['"'] + rest))
  {}

  /** The port may be bare or in quotes of either kind, with blanks behind it. */
  lemma AnyQuoting(port: nat, tail: string)
    requires Blank(tail)
    ensures Moves("SERVER_PORT=" + (Decimal(port) + tail))
    ensures Moves("SERVER_PORT='" + (Decimal(port) + ("'" + tail)))
    ensures Moves("SERVER_PORT=\"" + (Decimal(port) + ("\"" + tail)))
  {
    var d := Decimal(port);
    BareLineMoves(port, tail);
    QuotedPortMoves('\'', port, tail);
    QuotedPortMoves('"', port, tail);
    hide *;
    PortPrefix(d + tail);
    PortPrefix(d + ("'" + tail));
    PortPrefix(d + ("\"" + tail));
  }

  // ---------- moving again ----------

  lemma BareLineMoves(port: nat, tail: string)
    requires Blank(tail)
    ensures Moves(KEY + ("=" + (Decimal(port) + tail)))
  {
    var d := Decimal(port);
    var line := KEY + ("=" + (d + tail));
    DecimalEnds(port);
    DigitIsPlain(d[0]);
    if tail != "" { SpaceIsPlain(tail[0]); }
    DigitRunOf(d, tail);
    assert line[..12] == KEY + "=" && line[12..] == d + tail && line[12] == d[0];
    hide Decimal, IsDigit, IsSpace, IsQuote, DigitRun;
    assert tail != "" ==> line[12 + |d|] == tail[0];
    assert line[12 + |d|..] == tail;
  }

  lemma SpaceIsPlain(c: char)
    requires IsSpace(c)
    ensures !IsDigit(c) && !IsQuote(c)
  {}

  /** A file that could be moved can be moved again. */
  lemma MovableAgain(raw: string, port: nat)
    requires Movable(raw)
    ensures Movable(RewriteEnv(Translated(raw), port))
  {
    LastLineAfter(raw, port, KEY);
    var last := LastLine(Lines(raw, ""), KEY);
    hide Lines, RewriteEnv, Translated, LineMatch, ParseLine, Decimal, Blank;
    BlankNothing();
    if last.None? {
      BareLineMoves(port, "");
      assert KEY + ("=" + (Decimal(port) + "")) == PortLine(port);
    } else {
      BareLineMoves(port, last.value[LineMatch(last.value).value..]);
    }
  }

  /** app.env after it has been moved to each of the ports in turn. */
  function MovedAll(raw: string, ports: seq<nat>): string
    decreases |ports|
  {
    if ports == [] then raw else MovedAll(RewriteEnv(Translated(raw), ports[0]), ports[1..])
  }

  /** However often a movable file is moved, it reads as the last port, and its other keys as in the beginning. */
  lemma {:induction false} AnyNumberOfMoves(raw: string, ports: seq<nat>)
    requires Movable(raw) && ports != []
    ensures Movable(MovedAll(raw, ports)) && EnvPort(MovedAll(raw, ports)) == Some(ports[|ports| - 1])
    ensures forall key | key != KEY :: Lookup(Parse(MovedAll(raw, ports)), key) == Lookup(Parse(raw), key)
    decreases |ports|
  {
    hide Movable, EnvPort, RewriteEnv, Translated, Parse, Lookup;
    var next := RewriteEnv(Translated(raw), ports[0]);
    RewriteThenReadEnv(raw, ports[0]);
    MovableAgain(raw, ports[0]);
    if |ports| > 1 {
      AnyNumberOfMoves(next, ports[1..]);
    } else {
      assert ports[1..] == [];
    }
  }

  // ---------- files the program itself writes ----------

  /** The file create_jar writes begins with the bare port; no later line assigns it. */
  lemma CreatedFileIsMovable(port: nat, rest: string)
    requires LastLine(Lines(rest, ""), KEY).None?
    ensures Movable(PortLine(port) + "\n" + rest)
  {
    hide Lines, LineMatch, ParseLine, Decimal, Blank;
    PortLineParses(port);
    LinesOf(PortLine(port), rest, "");
    var lines := Lines(rest, "");
    assert "" + PortLine(port) == PortLine(port);
    assert ([PortLine(port)] + lines)[1..] == lines;
    BlankNothing();
    BareLineMoves(port, "");
    assert KEY + ("=" + (Decimal(port) + "")) == PortLine(port);
  }

  lemma {:induction false} EscapeDigits(s: string)
    ensures AllDigits(Escape(s)) <==> AllDigits(s)
    ensures AllDigits(s) ==> Escape(s) == s
  {
    if s != "" {
      EscapeDigits(s[1..]);
      var e := Escape(s[1..]);
      assert s == [s[0]] + s[1..];
      if s[0] == '\\' || s[0] == '"' {
        assert Escape(s)[0] == '\\' && !IsDigit(s[0]);
      } else {
        assert Escape(s) == [s[0]] + e;
        AllDigitsConcat([s[0]], e);
        AllDigitsConcat([s[0]], s[1..]);
      }
    }
  }

  /** The digits before a closing quote take all of s only if s is all digits. */
  lemma RunEndsEarly(s: string)
    ensures DigitRun(s + "\"") <= |s| && (DigitRun(s + "\"") == |s| ==> AllDigits(s))
  {
    var inner := s + "\"";
    var n := DigitRun(inner);
    assert inner[|s|] == '"' && inner[..|s|] == s;
    assert n > |s| ==> IsDigit(inner[..n][|s|]);
  }

  /** The value a line KEY="value" is cut up into by a match. */
  lemma QuotedLine(value: string)
    ensures var line := KEY + ("=" + Quote(value));
            && (IsPort(value) ==> LineMatch(line) == Some(|line|))
            && (!IsPort(value) && LineMatch(line).Some? ==>
                  LineMatch(line).value < |line| && line[|line| - 1] == '"')
  {
    var line := KEY + ("=" + Quote(value));
    var inner := Escape(value) + "\"";
    EscapeDigits(value);
    hide Escape;
    assert line[..12] == KEY + "=" && line[12] == '"' && line[13..] == inner;
    if IsPort(value) {
      DigitRunOf(value, "\"");
      assert line[13 + |value|] == '"';
    } else if LineMatch(line).Some? {
      assert inner[|inner| - 1] == '"';
      assert line[|line| - 1] == '"';
      RunEndsEarly(Escape(value));
    }
  }

  lemma LineIs(item: Item)
    ensures Line(item) == item.key + ("=" + Quote(Clean(item.value)))
  {}

  lemma {:induction false} FileLinesAt(d: Dict)
    ensures |FileLines(d)| == |d| && forall i | 0 <= i < |d| :: FileLines(d)[i] == Line(d[i])
  {
    if d != [] { FileLinesAt(d[1..]); }
  }

  lemma {:induction false} LookupFinds(d: Dict, key: string)
    ensures Lookup(d, key).Some? <==> exists i :: 0 <= i < |d| && d[i].key == key
  {
    if d != [] {
      LookupFinds(d[1..], key);
      assert d == [d[0]] + d[1..];
      if i :| 0 < i < |d| && d[i].key == key { assert d[1..][i - 1].key == key; }
    }
  }

  lemma {:induction false} LastLineOfFile(d: Dict, key: string)
    requires Writable(d)
    ensures LastLine(FileLines(d), key)
         == match Lookup(d, key) case Some(value) => Some(Line(Item(key, value))) case None => None
  {
    hide Line, ParseLine, IsIdentifier;
    if d != [] {
      var rest := d[1..];
      assert d == [d[0]] + rest;
      LastLineOfFile(rest, key);
      LookupFinds(rest, key);
      ParseOfLine(d[0]);
      assert ([Line(d[0])] + FileLines(rest))[1..] == FileLines(rest);
    }
  }

  lemma LinesOfFile(d: Dict)
    requires Writable(d)
    ensures LastLine(Lines(Render(d), ""), KEY) == LastLine(FileLines(d), KEY)
  {
    if d == [] {
      assert "\n"[1..] == "" && Lines("\n", "") == [""];
      assert [""][1..] == [];
    } else {
      LinesOfRender(d);
    }
  }

  /** A file the writer made moves if and only if its port is absent or decimal; otherwise no port can be read from it. */
  lemma WrittenFileMoves(d: Dict, port: nat)
    requires Writable(d)
    ensures Movable(Render(d)) <==> Lookup(d, KEY).None? || IsPort(Clean(Lookup(d, KEY).value))
    ensures EnvPort(RewriteEnv(Translated(Render(d)), port)) == if Movable(Render(d)) then Some(port) else None
  {
    hide Lines, RewriteEnv, Translated, ParseLine, Parse, Decimal, Render, Clean, Line, LineMatch, FileLines, RStrip, Quote;
    LinesOfFile(d);
    LastLineOfFile(d, KEY);
    RewriteThenReadEnv(Render(d), port);
    PortAfter(Render(d), port);
    if Lookup(d, KEY).Some? {
      WrittenLine(Item(KEY, Lookup(d, KEY).value), port);
      var line := Line(Item(KEY, Lookup(d, KEY).value));
      if !Moves(line) && LineMatch(line).None? {
        LookupOfText(Render(d), KEY);
      }
    }
  }

  lemma WrittenLine(item: Item, port: nat)
    requires item.key == KEY
    ensures Moves(Line(item)) <==> IsPort(Clean(item.value))
    ensures ParseLine(Line(item)) == Some(Item(KEY, Clean(item.value)))
    ensures !Moves(Line(item)) && LineMatch(Line(item)).Some? ==>
              !IsPort(Decimal(port) + RStrip(Line(item)[LineMatch(Line(item)).value..]))
  {
    KeyIsIdentifier();
    ParseOfLine(item);
    LineIs(item);
    QuotedLine(Clean(item.value));
    hide ParseLine, Clean, Line, LineMatch, Quote, Decimal;
    if LineMatch(Line(item)).Some? {
      var tail := Line(item)[LineMatch(Line(item)).value..];
      if tail != "" {
        assert tail[|tail| - 1] == '"' && !IsSpace('"') && !IsDigit('"');
        AllDigitsConcat(Decimal(port), tail);
      }
    }
  }

  // ---------- an instance ----------

  /** `_read_port`: server.xml decides when it names a port. */
  function PortOf(serverXml: Option<string>, appEnv: Option<string>): Option<nat> {
    if serverXml.Some? && XmlPort(Translated(serverXml.value)).Some? then XmlPort(Translated(serverXml.value))
    else if appEnv.Some? then EnvPort(appEnv.value)
    else None
  }

  class Instance {
    var serverXml: Option<string>
    var appEnv: Option<string>

    /** `_rewrite_port`: an absent file stays absent. */
    method RewritePort(jar: bool, port: nat)
      modifies this
      ensures jar ==> serverXml == old(serverXml) && appEnv.Some? == old(appEnv).Some?
      ensures jar && appEnv.Some? ==> appEnv.value == RewriteEnv(Translated(old(appEnv).value), port)
      ensures !jar ==> appEnv == old(appEnv) && serverXml.Some? == old(serverXml).Some?
      ensures !jar && serverXml.Some? ==> serverXml.value == RewriteXml(Translated(old(serverXml).value), port)
      // The new port is read back when the file could be moved.
      ensures !jar && old(serverXml).Some? && XmlPort(Translated(old(serverXml).value)).Some? ==>
        PortOf(serverXml, appEnv) == Some(port)
      ensures jar && appEnv.Some? && LandsOn(old(appEnv).value, port) && PortOf(serverXml, None).None? ==>
        PortOf(serverXml, appEnv) == Some(port)
    {
      if jar {
        if appEnv.Some? {
          RewriteThenReadEnv(appEnv.value, port);
          var body := Translated(appEnv.value);
          if AnyMatch(body) {
            body := RewriteAll(body, port);
          } else {
            body := KEY + "=" + Decimal(port) + "\n" + body;
          }
          appEnv := Some(body);
        }
      } else if serverXml.Some? {
        RewriteFileXml(serverXml.value, port);
        serverXml := Some(RewriteXml(Translated(serverXml.value), port));
      }
    }

    method ReadPort() returns (port: Option<nat>)
      ensures port == PortOf(serverXml, appEnv)
    {
      if serverXml.Some? {
        var body := Translated(serverXml.value);
        var m := Search(body);
        if m.Some? {
          return Some(ValueOf(Match(body[m.value..]).value.digits));
        }
      }
      if appEnv.Some? {
        var env := ReadAppEnv(appEnv.value);
        var raw := match Lookup(env, KEY) case Some(value) => value case None => "";
        if IsPort(raw) {
          return Some(ValueOf(raw));
        }
      }
      return None;
    }
  }

  lemma RewriteFileXml(raw: string, port: nat)
    ensures XmlPort(Translated(RewriteXml(Translated(raw), port))) == XmlPort(RewriteXml(Translated(raw), port))
    ensures XmlPort(RewriteXml(Translated(raw), port)) == Some(port) <==> XmlPort(Translated(raw)).Some?
    ensures XmlPort(Translated(raw)).None? ==> RewriteXml(Translated(raw), port) == Translated(raw)
  {
    hide *;
    var s := Translated(raw);
    TranslatedHasNoCR(raw);
    RewriteThenReadXml(s, port);
    HasPort(s);
    RewriteXmlHasNoCR(s, port);
    TranslatedAgain(RewriteXml(s, port));
  }

  lemma HasPort(s: string)
    ensures XmlPort(s).Some? <==> Search(s).Some?
  {
    hide Search, Match;
  }

  lemma AroundMatch(s: string, port: nat) returns (front: string, m: Found)
    requires Search(s).Some?
    ensures s == front + (m.head + m.digits + m.tail)
    ensures RewriteXml(s, port) == front + (m.head + Decimal(port) + m.tail)
  {
    hide Match, Search, Decimal;
    var i := Search(s).value;
    front, m := s[..i], Match(s[i..]).value;
    JoinHalves(s, i);
  }

  lemma JoinHalves(s: string, i: nat)
    requires i <= |s|
    ensures s == s[..i] + s[i..]
  {}

  lemma RewriteXmlHasNoCR(s: string, port: nat)
    requires NoCR(s)
    ensures NoCR(RewriteXml(s, port))
  {
    hide Match, Search, Decimal, NoCR, NoBreaks;
    if Search(s).Some? {
      var front, m := AroundMatch(s, port);
      DecimalHasNoBreaks(port);
      SwapMiddle(s, front, m.head, m.digits, m.tail, Decimal(port));
    }
  }

  lemma SwapMiddle(s: string, a: string, b: string, x: string, c: string, y: string)
    requires s == a + (b + x + c) && NoCR(s) && NoBreaks(y)
    ensures NoCR(a + (b + y + c))
  {
    forall i | 0 <= i < |a| ensures a[i] != '\r' { assert a[i] == s[i]; }
    forall i | 0 <= i < |b| ensures b[i] != '\r' { assert b[i] == s[|a| + i]; }
    forall i | 0 <= i < |c| ensures c[i] != '\r' { assert c[i] == s[|a| + |b| + |x| + i]; }
  }

  /** A restored jar instance is at the new port exactly when a server.xml says so, or none speaks and app.env lands on it. */
  lemma JarIsMovedExactly(serverXml: Option<string>, appEnv: string, port: nat)
    ensures PortOf(serverXml, Some(RewriteEnv(Translated(appEnv), port))) == Some(port) <==>
            if PortOf(serverXml, None).Some? then PortOf(serverXml, None) == Some(port) else LandsOn(appEnv, port)
  {
    hide EnvPort, LandsOn, RewriteEnv, XmlPort, Translated;
    RewriteThenReadEnv(appEnv, port);
  }

  /** A restored Tomcat instance is at the new port exactly when its server.xml has a connector or app.env already names it. */
  lemma TomcatIsMovedExactly(serverXml: string, appEnv: Option<string>, port: nat)
    ensures PortOf(Some(RewriteXml(Translated(serverXml), port)), appEnv) == Some(port) <==>
            XmlPort(Translated(serverXml)).Some? || (appEnv.Some? && EnvPort(appEnv.value) == Some(port))
  {
    RewriteFileXml(serverXml, port);
  }
}
