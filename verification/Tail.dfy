/**
  The backwards block reader `_tail` of core/jobs.py and core/tomcat/instance.py,
  against its simple specification: the last n elements of bytes.splitlines of
  the whole file.
*/
module Tail {
  import opened Wrappers
  import opened PyText

  type Byte = b: int | 0 <= b < 256

  const LF: Byte := 10
  const CR: Byte := 13
  const BLOCK: nat := 4096

  // ---------- the specification ----------

  /** bytes.splitlines: LF, CR and CRLF end a line, and a final terminator opens no further line. */
  function SplitLines(data: seq<Byte>): (lines: seq<seq<Byte>>)
    ensures data == [] <==> lines == []
  {
    if data == [] then []
    else if data[0] == CR && |data| > 1 && data[1] == LF then [[]] + SplitLines(data[2..])
    else if data[0] == LF || data[0] == CR then [[]] + SplitLines(data[1..])
    else if |data| == 1 then [data]
    else [[data[0]] + SplitLines(data[1..])[0]] + SplitLines(data[1..])[1..]
  }

  /** The last n elements, or all when there are fewer: a Python slice [-n:] with n >= 1. */
  function LastLines(lines: seq<seq<Byte>>, n: nat): seq<seq<Byte>> {
    if |lines| <= n then lines else lines[|lines| - n..]
  }

  /** b"\n".join */
  function JoinLines(lines: seq<seq<Byte>>): seq<Byte> {
    if lines == [] then [] else if |lines| == 1 then lines[0] else lines[0] + [LF] + JoinLines(lines[1..])
  }

  function CountLF(data: seq<Byte>): nat {
    if data == [] then 0 else (if data[0] == LF then 1 else 0) + CountLF(data[1..])
  }

  /** No line end in it. */
  predicate OneLine(line: seq<Byte>) {
    forall i | 0 <= i < |line| :: line[i] != LF && line[i] != CR
  }

  /** How the end of a line is written. */
  datatype Ending = Lf | Cr | CrLf

  function Written(e: Ending): seq<Byte> {
    match e case Lf => [10] case Cr => [13] case CrLf => [13, 10]
  }

  /** Splitting takes a line off at each end of line, LF, CR or CRLF; what is behind the last one is a line unless it is empty. */
  lemma {:induction false} SplitMeans(line: seq<Byte>, e: Ending, rest: seq<Byte>)
    requires OneLine(line) && (e == Cr ==> rest == [] || rest[0] != 10)
    ensures SplitLines(line + Written(e) + rest) == [line] + SplitLines(rest)
    ensures SplitLines(line) == if line == [] then [] else [line]
  {
    var all := line + Written(e) + rest;
    if line == [] {
      assert all == Written(e) + rest;
      assert all[|Written(e)|..] == rest;
    } else {
      assert all[1..] == line[1..] + Written(e) + rest;
      SplitMeans(line[1..], e, rest);
      assert line == [line[0]] + line[1..];
    }
  }

  /** Joining puts LF between lines, so that splitting gives them back. */
  lemma {:induction false} JoinMeans(lines: seq<seq<Byte>>)
    requires forall i | 0 <= i < |lines| :: OneLine(lines[i])
    requires lines != [] ==> lines[|lines| - 1] != []
    ensures SplitLines(JoinLines(lines)) == lines
    ensures |lines| > 1 ==> JoinLines(lines) == lines[0] + [10] + JoinLines(lines[1..])
    ensures |lines| == 1 ==> JoinLines(lines) == lines[0]
  {
    if lines != [] {
      assert lines == [lines[0]] + lines[1..];
      SplitMeans(lines[0], Lf, if |lines| > 1 then JoinLines(lines[1..]) else []);
      if |lines| > 1 { JoinMeans(lines[1..]); }
    }
  }

  // ---------- a suffix of the file tells all lines but its first ----------

  /** The lines of `data` that do not depend on what stands before it. */
  function SureLines(data: seq<Byte>): seq<seq<Byte>> {
    if data == [] then [] else SplitLines(data)[1..]
  }

  predicate IsSuffix(a: seq<seq<Byte>>, b: seq<seq<Byte>>) {
    |a| <= |b| && b[|b| - |a|..] == a
  }

  lemma SuffixOfSuffix(a: seq<seq<Byte>>, b: seq<seq<Byte>>, c: seq<seq<Byte>>)
    requires IsSuffix(a, b) && IsSuffix(b, c)
    ensures IsSuffix(a, c)
  {
    assert c[|c| - |a|..] == c[|c| - |b|..][|b| - |a|..];
  }

  /** How one more byte in front changes the lines. */
  lemma SplitMore(b: Byte, data: seq<Byte>)
    requires data != []
    ensures SplitLines([b] + data)
         == if b == CR && data[0] == LF then [[]] + SplitLines(data[1..])
            else if b == LF || b == CR then [[]] + SplitLines(data)
            else [[b] + SplitLines(data)[0]] + SplitLines(data)[1..]
  {
    var more := [b] + data;
    assert more[1..] == data && more[2..] == data[1..];
  }

  lemma SplitAtLF(data: seq<Byte>)
    requires data != [] && data[0] == LF
    ensures SplitLines(data) == [[]] + SplitLines(data[1..])
  {}

  /** One more byte in front leaves the sure lines sure, even when it cuts a line or completes a CRLF pair. */
  lemma {:induction false} OneByteInFront(b: Byte, data: seq<Byte>)
    ensures IsSuffix(SureLines(data), SureLines([b] + data))
  {
    if data != [] {
      SplitMore(b, data);
      if data[0] == LF { SplitAtLF(data); }
      hide SplitLines;
      assert [b] + data != [];
    }
  }

  lemma {:induction false} AnyPrefix(prefix: seq<Byte>, data: seq<Byte>)
    ensures IsSuffix(SureLines(data), SureLines(prefix + data))
  {
    hide SureLines, SplitLines;
    if prefix == [] {
      assert prefix + data == data;
    } else {
      var shorter := prefix[1..] + data;
      assert prefix + data == [prefix[0]] + shorter;
      AnyPrefix(prefix[1..], data);
      OneByteInFront(prefix[0], shorter);
      SuffixOfSuffix(SureLines(data), SureLines(shorter), SureLines(prefix + data));
    }
  }

  /** Every LF ends a line. */
  lemma {:induction false} LinesCoverLF(data: seq<Byte>)
    ensures |SplitLines(data)| >= CountLF(data)
    decreases |data|
  {
    if data != [] {
      if data[0] == CR && |data| > 1 && data[1] == LF {
        LinesCoverLF(data[2..]);
        assert data[1..][1..] == data[2..];
        assert CountLF(data[1..]) == 1 + CountLF(data[2..]);
      } else {
        LinesCoverLF(data[1..]);
        if |data| == 1 && data[0] != LF { assert CountLF(data) == 0; }
      }
    }
  }

  /** A suffix with more than n LFs has the same last n lines as the whole. */
  lemma SuffixIsEnough(prefix: seq<Byte>, data: seq<Byte>, n: nat)
    requires CountLF(data) > n
    ensures LastLines(SplitLines(data), n) == LastLines(SplitLines(prefix + data), n)
  {
    LinesCoverLF(data);
    AnyPrefix(prefix, data);
    assert data != [] && prefix + data != [];
    SureIsSuffix(data);
    SureIsSuffix(prefix + data);
    hide SplitLines, SureLines, CountLF;
    var whole, part, sure := SplitLines(prefix + data), SplitLines(data), SureLines(data);
    SuffixOfSuffix(sure, SureLines(prefix + data), whole);
    SameLast(sure, part, n);
    SameLast(sure, whole, n);
  }

  lemma SureIsSuffix(data: seq<Byte>)
    requires data != []
    ensures IsSuffix(SureLines(data), SplitLines(data)) && |SureLines(data)| == |SplitLines(data)| - 1
  {
    hide SplitLines;
  }

  lemma SameLast(a: seq<seq<Byte>>, b: seq<seq<Byte>>, n: nat)
    requires IsSuffix(a, b) && n <= |a|
    ensures LastLines(b, n) == a[|a| - n..]
  {
    assert b[|b| - n..] == b[|b| - |a|..][|a| - n..];
  }

  // ---------- the reader ----------

  /** How many lines a caller asks for: `read_log` and `tail_log` clamp to 1..cap with caps 5000 and 2000. */
  function Clamped(lines: int, cap: nat): int {
    var n := if lines < cap then lines else cap;
    if n < 1 then 1 else n
  }

  /** `read_log`: the log of a job, empty when there is none. */
  method ReadLog(output: Option<seq<Byte>>, lines: int) returns (text: seq<Byte>)
    ensures text == LogText(output, lines, JOB_LINES)
  {
    if output.None? {
      return [];
    }
    text := ReadTail(output.value, Clamped(lines, JOB_LINES));
  }

  const JOB_LINES: nat := 5000
  const APP_LINES: nat := 2000

  function LogText(file: Option<seq<Byte>>, lines: int, cap: nat): seq<Byte> {
    if file.None? then [] else JoinLines(LastLines(SplitLines(file.value), Clamped(lines, cap)))
  }

  /** The text shown for a number of lines: as many as asked for, at least one, at most the cap. */
  lemma LogTextMeans(file: seq<Byte>, lines: int)
    ensures 1 <= lines <= 5000 ==> LogText(Some(file), lines, JOB_LINES) == JoinLines(LastLines(SplitLines(file), lines))
    ensures lines < 1 ==> LogText(Some(file), lines, JOB_LINES) == JoinLines(LastLines(SplitLines(file), 1))
    ensures lines > 5000 ==> LogText(Some(file), lines, JOB_LINES) == JoinLines(LastLines(SplitLines(file), 5000))
    ensures 1 <= lines <= 2000 ==> LogText(Some(file), lines, APP_LINES) == JoinLines(LastLines(SplitLines(file), lines))
    ensures lines < 1 ==> LogText(Some(file), lines, APP_LINES) == JoinLines(LastLines(SplitLines(file), 1))
    ensures lines > 2000 ==> LogText(Some(file), lines, APP_LINES) == JoinLines(LastLines(SplitLines(file), 2000))
    ensures LogText(None, lines, JOB_LINES) == LogText(None, lines, APP_LINES) == []
  {}

  /** The last n lines: all of them, or those behind the others. */
  lemma LastLinesMeans(front: seq<seq<Byte>>, back: seq<seq<Byte>>)
    ensures LastLines(front + back, |back|) == back && LastLines(back, |front| + |back|) == back
  {
    assert (front + back)[|front|..] == back;
  }

  /** A log directory: what listdir answers, and the regular files among the entries; catalina.out need not be listed. */
  datatype LogDir = LogDir(listed: seq<string>, files: map<string, seq<Byte>>)

  predicate IsCatalinaLog(name: string) {
    StartsWith(name, "catalina") && |name| >= 4 && name[|name| - 4..] == ".log"
  }

  /** The file whose end is shown: app.out for a jar, else catalina.out, else the first listed catalina log that is a file. */
  ghost predicate Shown(d: LogDir, jar: bool, name: Option<string>) {
    match name
    case Some(n) =>
      && n in d.files
      && if jar then n == "app.out"
         else n == "catalina.out" || ("catalina.out" !in d.files && exists i :: FirstShown(d, i) && d.listed[i] == n)
    case None =>
      if jar then "app.out" !in d.files
      else "catalina.out" !in d.files && forall n | n in d.listed && IsCatalinaLog(n) :: n !in d.files
  }

  ghost predicate FirstShown(d: LogDir, i: int) {
    && 0 <= i < |d.listed| && IsCatalinaLog(d.listed[i]) && d.listed[i] in d.files
    && forall j | 0 <= j < i && IsCatalinaLog(d.listed[j]) :: d.listed[j] !in d.files
  }

  /** `tail_log` picks a file and shows its end. */
  method TailLog(d: LogDir, jar: bool, lines: int) returns (text: seq<Byte>, shown: Option<string>)
    ensures Shown(d, jar, shown)
    ensures text == LogText(if shown.Some? then Some(d.files[shown.value]) else None, lines, APP_LINES)
  {
    var n := Clamped(lines, APP_LINES);
    var first := if jar then "app.out" else "catalina.out";
    if first in d.files {
      text := ReadTail(d.files[first], n);
      return text, Some(first);
    }
    if jar {
      return [], None;
    }
    for i := 0 to |d.listed|
      invariant forall j | 0 <= j < i && IsCatalinaLog(d.listed[j]) :: d.listed[j] !in d.files
    {
      var name := d.listed[i];
      if IsCatalinaLog(name) && name in d.files {
        assert FirstShown(d, i);
        text := ReadTail(d.files[name], n);
        return text, Some(name);
      }
    }
    return [], None;
  }

  /** A catalina log is any file whose name begins with catalina and ends in .log. */
  lemma CatalinaLogMeans(name: string)
    ensures IsCatalinaLog(name) <==> exists middle :: name == "catalina" + middle + ".log"
  {
    if IsCatalinaLog(name) {
      var front, back := name[..8], name[|name| - 4..];
      assert |name| >= 12 by {
        assert forall k | 0 <= k < 8 :: name[k] == front[k] && front[k] != '.';
        assert name[|name| - 4] == back[0] == '.';
      }
      assert name == "catalina" + name[8..|name| - 4] + ".log";
    }
    forall middle | name == "catalina" + middle + ".log" ensures IsCatalinaLog(name) {}
  }

  /** The choice of the file is a function of the directory. */
  lemma AtMostOneShown(d: LogDir, jar: bool, a: Option<string>, b: Option<string>)
    requires Shown(d, jar, a) && Shown(d, jar, b)
    ensures a == b
  {
    if !jar && "catalina.out" !in d.files && a.Some? && b.Some? {
      var i :| FirstShown(d, i) && d.listed[i] == a.value;
      var j :| FirstShown(d, j) && d.listed[j] == b.value;
    }
  }

  /** Reads blocks from the end until the data holds more than `lines` LFs or is the whole file. */
  method ReadTail(file: seq<Byte>, lines: nat) returns (text: seq<Byte>)
    requires lines >= 1
    ensures text == JoinLines(LastLines(SplitLines(file), lines))
  {
    var data: seq<Byte>, found, pos := [], 0, |file|;
    while pos > 0 && found <= lines
      invariant 0 <= pos <= |file|
      invariant data == file[pos..] && found == CountLF(data)
      decreases pos
    {
      var step := if BLOCK < pos then BLOCK else pos;
      pos := pos - step;
      data := file[pos..pos + step] + data;
      found := CountLF(data);
    }
    assert file[..pos] + data == file;
    if pos > 0 {
      SuffixIsEnough(file[..pos], data, lines);
    }
    text := JoinLines(LastLines(SplitLines(data), lines));
  }
}
