/**
  The app.env codec of core/db/_base.py at character level: the writer's
  escaping, the reader's line splitting, matching and unescaping, and the proof
  that reading what was written gives the mapping back.
*/
module AppEnvCodec {
  import opened Wrappers
  import opened PyText

  // ---------- an insertion-ordered dict ----------

  datatype Item = Item(key: string, value: string)

  /** A Python dict in insertion order; well-formed when its keys are distinct. */
  type Dict = seq<Item>

  predicate DistinctKeys(d: Dict) {
    forall i, j | 0 <= i < j < |d| :: d[i].key != d[j].key
  }

  function Lookup(d: Dict, key: string): Option<string> {
    if d == [] then None else if d[0].key == key then Some(d[0].value) else Lookup(d[1..], key)
  }

  /** d[key] = value: in place when the key is there, at the end otherwise. */
  function Put(d: Dict, key: string, value: string): Dict {
    if d == [] then [Item(key, value)]
    else if d[0].key == key then [Item(key, value)] + d[1..]
    else [d[0]] + Put(d[1..], key, value)
  }

  // ---------- characters ----------

  predicate IsKeyStart(c: char) {
    'A' <= c <= 'Z' || 'a' <= c <= 'z' || c == '_'
  }

  predicate IsKeyChar(c: char) {
    IsKeyStart(c) || '0' <= c <= '9'
  }

  predicate IsIdentifier(s: string) {
    s != "" && IsKeyStart(s[0]) && forall i | 0 <= i < |s| :: IsKeyChar(s[i])
  }

  predicate IsBreak(c: char) {
    c == '\r' || c == '\n'
  }

  // ---------- the writer ----------

  /** value.replace("\r", "").replace("\n", "") */
  function Clean(s: string): string {
    if s == "" then "" else if IsBreak(s[0]) then Clean(s[1..]) else [s[0]] + Clean(s[1..])
  }

  /** Backslashes doubled, then quotes backslashed. */
  function Escape(s: string): string {
    if s == "" then ""
    else if s[0] == '\\' then "\\\\" + Escape(s[1..])
    else if s[0] == '"' then "\\\"" + Escape(s[1..])
    else [s[0]] + Escape(s[1..])
  }

  function Quote(s: string): string {
    "\"" + Escape(s) + "\""
  }

  function Line(item: Item): string {
    item.key + ("=" + Quote(Clean(item.value)))
  }

  /** The file body; a mapping without items still gives one newline. */
  function Render(d: Dict): string {
    if d == [] then "\n" else RenderLines(d)
  }

  function RenderLines(d: Dict): string {
    if d == [] then "" else Line(d[0]) + "\n" + RenderLines(d[1..])
  }

  lemma RenderFrom(d: Dict, i: nat)
    requires i < |d|
    ensures RenderLines(d[i..]) == Line(d[i]) + "\n" + RenderLines(d[i + 1..])
  {
    assert d[i..][0] == d[i] && d[i..][1..] == d[i + 1..];
  }

  /** The writer's loop, which collects lines and joins them. */
  method RenderAppEnv(d: Dict) returns (body: string)
    ensures body == Render(d)
  {
    hide Line;
    body := "";
    for i := 0 to |d|
      invariant body + RenderLines(d[i..]) == RenderLines(d)
    {
      RenderFrom(d, i);
      body := body + (Line(d[i]) + "\n");
    }
    assert d[|d|..] == [];
    if d == [] {
      body := "\n";
    }
  }

  // ---------- the reader ----------

  /** The lines of a text file read with universal newlines; `cur` is the part of the current line seen so far. */
  function Lines(text: string, cur: string): seq<string>
    decreases |text|
  {
    if text == "" then (if cur == "" then [] else [cur])
    else if text[0] == '\n' then [cur] + Lines(text[1..], "")
    else if text[0] == '\r' then
      [cur] + Lines(if |text| > 1 && text[1] == '\n' then text[2..] else text[1..], "")
    else Lines(text[1..], cur + [text[0]])
  }

  /** How many key characters `s` begins with. */
  function KeyLength(s: string): (n: nat)
    ensures n <= |s|
  {
    if s != "" && IsKeyChar(s[0]) then 1 + KeyLength(s[1..]) else 0
  }

  /** What one line assigns: blank lines, comments and lines that do not match assign nothing. */
  function ParseLine(line: string): Option<Item> {
    ParseStripped(LStrip(line))
  }

  function ParseStripped(s: string): Option<Item> {
    if s == "" || s[0] == '#' || !IsKeyStart(s[0]) then None
    else
      var n := KeyLength(s);
      if n < |s| && s[n] == '=' then Some(Item(s[..n], Unquote(RStrip(LStrip(s[n + 1..])))))
      else None
  }

  function Unquote(raw: string): string {
    if |raw| >= 2 && raw[0] == '"' && raw[|raw| - 1] == '"' then Decode(raw[1..|raw| - 1])
    else if |raw| >= 2 && raw[0] == '\'' && raw[|raw| - 1] == '\'' then raw[1..|raw| - 1]
    else raw
  }

  function Decode(s: string): string {
    if s == "" then ""
    else if s[0] == '\\' && |s| > 1 && (s[1] == '\\' || s[1] == '"') then [s[1]] + Decode(s[2..])
    else [s[0]] + Decode(s[1..])
  }

  function ParseLines(lines: seq<string>, env: Dict): Dict {
    if lines == [] then env
    else
      match ParseLine(lines[0])
      case None => ParseLines(lines[1..], env)
      case Some(item) => ParseLines(lines[1..], Put(env, item.key, item.value))
  }

  function Parse(text: string): Dict {
    ParseLines(Lines(text, ""), [])
  }

  /** One turn of the unescape loop: from index i it goes on at the returned index with one more character. */
  lemma DecodeFrom(inner: string, i: nat) returns (next: nat, c: char)
    requires i < |inner|
    ensures i < next <= |inner| && Decode(inner[i..]) == [c] + Decode(inner[next..])
    ensures if inner[i] == '\\' && i + 1 < |inner| && (inner[i + 1] == '\\' || inner[i + 1] == '"')
            then next == i + 2 && c == inner[i + 1] else next == i + 1 && c == inner[i]
  {
    var rest := inner[i..];
    if inner[i] == '\\' && i + 1 < |inner| && (inner[i + 1] == '\\' || inner[i + 1] == '"') {
      assert rest[0] == inner[i] && rest[1] == inner[i + 1] && rest[2..] == inner[i + 2..];
      next, c := i + 2, inner[i + 1];
    } else {
      assert rest[0] == inner[i] && rest[1..] == inner[i + 1..] && (|rest| > 1 ==> rest[1] == inner[i + 1]);
      next, c := i + 1, inner[i];
    }
  }

  /** The index-driven unescape loop of the reader. */
  method DecodeLoop(inner: string) returns (decoded: string)
    ensures decoded == Decode(inner)
  {
    hide Decode;
    decoded := "";
    var index := 0;
    while index < |inner|
      invariant 0 <= index <= |inner|
      invariant decoded + Decode(inner[index..]) == Decode(inner)
    {
      ghost var next, c := DecodeFrom(inner, index);
      assert decoded + ([c] + Decode(inner[next..])) == (decoded + [c]) + Decode(inner[next..]);
      if inner[index] == '\\' && index + 1 < |inner| && (inner[index + 1] == '\\' || inner[index + 1] == '"') {
        decoded := decoded + [inner[index + 1]];
        index := index + 2;
      } else {
        decoded := decoded + [inner[index]];
        index := index + 1;
      }
    }
    DecodeNothing();
    assert inner[index..] == "";
  }

  lemma DecodeNothing()
    ensures Decode("") == ""
  {}

  /** The reader: every line that assigns updates the dict. */
  method ReadAppEnv(text: string) returns (env: Dict)
    ensures env == Parse(text)
  {
    env := [];
    var lines := Lines(text, "");
    for i := 0 to |lines|
      invariant ParseLines(lines[i..], env) == Parse(text)
    {
      assert lines[i..][1..] == lines[i + 1..];
      var line := lines[i];
      var s := LStrip(line);
      if s == "" || s[0] == '#' || !IsKeyStart(s[0]) {
        continue;
      }
      var n := KeyLength(s);
      if n == |s| || s[n] != '=' {
        continue;
      }
      var raw := RStrip(LStrip(s[n + 1..]));
      var value := raw;
      if |raw| >= 2 && raw[0] == '"' && raw[|raw| - 1] == '"' {
        value := DecodeLoop(raw[1..|raw| - 1]);
      } else if |raw| >= 2 && raw[0] == '\'' && raw[|raw| - 1] == '\'' {
        value := raw[1..|raw| - 1];
      }
      env := Put(env, s[..n], value);
    }
  }

  // ---------- round trip ----------

  function Cleaned(d: Dict): Dict {
    seq(|d|, i requires 0 <= i < |d| => Item(d[i].key, Clean(d[i].value)))
  }

  /** What the writer promises for: distinct identifier keys. */
  predicate Writable(d: Dict) {
    DistinctKeys(d) && forall i | 0 <= i < |d| :: IsIdentifier(d[i].key)
  }

  predicate NoBreaks(s: string) {
    forall i | 0 <= i < |s| :: !IsBreak(s[i])
  }

  lemma {:induction false} DecodeEscape(s: string)
    ensures Decode(Escape(s)) == s
  {
    if s != "" {
      DecodeEscape(s[1..]);
      if s[0] == '\\' {
        assert Escape(s)[2..] == Escape(s[1..]);
      } else if s[0] == '"' {
        assert Escape(s)[2..] == Escape(s[1..]);
      } else {
        assert Escape(s)[1..] == Escape(s[1..]);
      }
    }
  }

  lemma {:induction false} CleanHasNoBreaks(s: string)
    ensures NoBreaks(Clean(s)) && (NoBreaks(s) ==> Clean(s) == s)
  {
    if s != "" {
      CleanHasNoBreaks(s[1..]);
    }
  }

  lemma {:induction false} EscapeHasNoBreaks(s: string)
    requires NoBreaks(s)
    ensures NoBreaks(Escape(s))
  {
    if s != "" {
      EscapeHasNoBreaks(s[1..]);
    }
  }

  lemma {:induction false} KeyLengthOf(key: string, rest: string)
    requires forall i | 0 <= i < |key| :: IsKeyChar(key[i])
    requires rest != "" && !IsKeyChar(rest[0])
    ensures KeyLength(key + rest) == |key|
  {
    if key == "" {
      assert key + rest == rest;
    } else {
      assert (key + rest)[1..] == key[1..] + rest;
      KeyLengthOf(key[1..], rest);
    }
  }

  lemma UnquoteQuoted(s: string)
    ensures Unquote(RStrip(LStrip(Quote(s)))) == s
  {
    var quoted := Quote(s);
    assert quoted[0] == '"' && quoted[|quoted| - 1] == '"' && !IsSpace('"');
    assert LStrip(quoted) == quoted && RStrip(quoted) == quoted;
    assert quoted[1..|quoted| - 1] == Escape(s);
    DecodeEscape(s);
  }

  lemma StartOfLine(key: string, rest: string)
    requires IsIdentifier(key)
    ensures LStrip(key + rest) == key + rest
  {
    assert (key + rest)[0] == key[0] && IsKeyStart(key[0]) && !IsSpace(key[0]);
  }

  /** The line key=rest assigns what rest unquotes to. */
  lemma ParseAssignment(key: string, rest: string)
    requires IsIdentifier(key)
    ensures ParseLine(key + ("=" + rest)) == Some(Item(key, Unquote(RStrip(LStrip(rest)))))
  {
    var line := key + ("=" + rest);
    StartOfLine(key, "=" + rest);
    KeyLengthOf(key, "=" + rest);
    assert line[0] == key[0];
    assert line[|key|] == '=' && line[..|key|] == key && line[|key| + 1..] == rest;
  }

  lemma ParseOfLine(item: Item)
    requires IsIdentifier(item.key)
    ensures ParseLine(Line(item)) == Some(Item(item.key, Clean(item.value)))
  {
    UnquoteQuoted(Clean(item.value));
    ParseAssignment(item.key, Quote(Clean(item.value)));
  }

  lemma LineHasNoBreaks(item: Item)
    requires IsIdentifier(item.key)
    ensures NoBreaks(Line(item))
  {
    CleanHasNoBreaks(item.value);
    EscapeHasNoBreaks(Clean(item.value));
    var quoted := Quote(Clean(item.value));
    assert NoBreaks(quoted);
    assert NoBreaks("=" + quoted);
    assert NoBreaks(item.key);
  }

  lemma {:induction false} LinesOf(line: string, rest: string, cur: string)
    requires NoBreaks(line)
    ensures Lines(line + "\n" + rest, cur) == [cur + line] + Lines(rest, "")
  {
    if line == "" {
      assert line + "\n" + rest == "\n" + rest && cur + line == cur;
    } else {
      assert (line + "\n" + rest)[1..] == line[1..] + "\n" + rest;
      assert cur + line == (cur + [line[0]]) + line[1..];
      LinesOf(line[1..], rest, cur + [line[0]]);
    }
  }

  /** The lines of a written file, without their newlines. */
  function FileLines(d: Dict): seq<string> {
    if d == [] then [] else [Line(d[0])] + FileLines(d[1..])
  }

  lemma {:induction false} LinesOfRender(d: Dict)
    requires forall i | 0 <= i < |d| :: IsIdentifier(d[i].key)
    ensures Lines(RenderLines(d), "") == FileLines(d)
  {
    if d != [] {
      var line, rest := Line(d[0]), RenderLines(d[1..]);
      LineHasNoBreaks(d[0]);
      LinesOf(line, rest, "");
      LinesOfRender(d[1..]);
      assert "" + line == line;
    }
  }

  lemma {:induction false} PutNew(d: Dict, key: string, value: string)
    requires forall i | 0 <= i < |d| :: d[i].key != key
    ensures Put(d, key, value) == d + [Item(key, value)]
  {
    if d != [] {
      PutNew(d[1..], key, value);
    }
  }

  lemma {:induction false} ParseOfRender(d: Dict, done: Dict)
    requires Writable(done + d)
    ensures ParseLines(FileLines(d), Cleaned(done)) == Cleaned(done + d)
    decreases |d|
  {
    if d == [] {
      assert done + d == done;
    } else {
      var item := d[0];
      assert (done + d)[|done|] == item;
      ParseOfLine(item);
      forall i | 0 <= i < |done| ensures Cleaned(done)[i].key != item.key {
        assert (done + d)[i].key != (done + d)[|done|].key;
      }
      PutNew(Cleaned(done), item.key, Clean(item.value));
      assert Cleaned(done) + [Item(item.key, Clean(item.value))] == Cleaned(done + [item]);
      assert (done + [item]) + d[1..] == done + d;
      ParseOfRender(d[1..], done + [item]);
      assert FileLines(d)[0] == Line(item) && FileLines(d)[1..] == FileLines(d[1..]);
    }
  }

  /** Reading a written file gives the mapping back, order included, with CR and LF deleted from the values. */
  lemma RoundTrip(d: Dict)
    requires Writable(d)
    ensures Parse(Render(d)) == Cleaned(d)
  {
    if d == [] {
      assert Lines("\n", "") == [""] by { assert "\n"[1..] == ""; }
      assert [""][1..] == [];
    } else {
      LinesOfRender(d);
      assert [] + d == d;
      ParseOfRender(d, []);
      assert Cleaned([]) == [];
    }
  }

  /** The round trip is exact if and only if no value holds a CR or LF. */
  lemma RoundTripExactly(d: Dict)
    requires Writable(d)
    ensures Parse(Render(d)) == d <==> forall i | 0 <= i < |d| :: NoBreaks(d[i].value)
  {
    RoundTrip(d);
    forall i | 0 <= i < |d| ensures Clean(d[i].value) == d[i].value <==> NoBreaks(d[i].value) {
      CleanHasNoBreaks(d[i].value);
    }
    if forall i | 0 <= i < |d| :: NoBreaks(d[i].value) {
      assert Cleaned(d) == d;
    } else {
      var i :| 0 <= i < |d| && !NoBreaks(d[i].value);
      assert Cleaned(d)[i] != d[i];
    }
  }

  // ---------- what a read mapping is like ----------

  lemma {:induction false} LinesHaveNoBreaks(text: string, cur: string)
    requires NoBreaks(cur)
    ensures forall i | 0 <= i < |Lines(text, cur)| :: NoBreaks(Lines(text, cur)[i])
    decreases |text|
  {
    if text != "" {
      if text[0] == '\n' {
        LinesHaveNoBreaks(text[1..], "");
      } else if text[0] == '\r' {
        LinesHaveNoBreaks(if |text| > 1 && text[1] == '\n' then text[2..] else text[1..], "");
      } else {
        LinesHaveNoBreaks(text[1..], cur + [text[0]]);
      }
    }
  }

  lemma {:induction false} LStripNoBreaks(s: string)
    requires NoBreaks(s)
    ensures NoBreaks(LStrip(s))
  {
    if s != "" && IsSpace(s[0]) { LStripNoBreaks(s[1..]); }
  }

  lemma {:induction false} RStripNoBreaks(s: string)
    requires NoBreaks(s)
    ensures NoBreaks(RStrip(s))
  {
    if s != "" && IsSpace(s[|s| - 1]) { RStripNoBreaks(s[..|s| - 1]); }
  }

  lemma {:induction false} DecodeNoBreaks(s: string)
    requires NoBreaks(s)
    ensures NoBreaks(Decode(s))
    decreases |s|
  {
    if s != "" {
      if s[0] == '\\' && |s| > 1 && (s[1] == '\\' || s[1] == '"') {
        DecodeNoBreaks(s[2..]);
      } else {
        DecodeNoBreaks(s[1..]);
      }
    }
  }

  lemma {:induction false} KeyLengthKeys(s: string)
    ensures forall i | 0 <= i < KeyLength(s) :: IsKeyChar(s[i])
  {
    if s != "" && IsKeyChar(s[0]) { KeyLengthKeys(s[1..]); }
  }

  lemma ParsedItem(line: string)
    requires NoBreaks(line) && ParseLine(line).Some?
    ensures IsIdentifier(ParseLine(line).value.key) && NoBreaks(ParseLine(line).value.value)
  {
    LStripNoBreaks(line);
    var s := LStrip(line);
    var n := KeyLength(s);
    KeyLengthKeys(s);
    assert IsKeyChar(s[0]) && n > 0;
    LStripNoBreaks(s[n + 1..]);
    RStripNoBreaks(LStrip(s[n + 1..]));
    var raw := RStrip(LStrip(s[n + 1..]));
    if |raw| >= 2 {
      DecodeNoBreaks(raw[1..|raw| - 1]);
    }
  }

  /** Distinct identifier keys and values without CR or LF: what every read gives and every write keeps. */
  predicate Clear(d: Dict) {
    Writable(d) && forall i | 0 <= i < |d| :: NoBreaks(d[i].value)
  }

  lemma {:induction false} PutKeys(d: Dict, key: string, value: string)
    ensures forall i | 0 <= i < |Put(d, key, value)| ::
      Put(d, key, value)[i] == Item(key, value) || Put(d, key, value)[i] in d
    ensures DistinctKeys(d) ==> DistinctKeys(Put(d, key, value))
    ensures forall k :: Lookup(Put(d, key, value), k) == if k == key then Some(value) else Lookup(d, k)
  {
    if d != [] && d[0].key != key {
      PutKeys(d[1..], key, value);
      if DistinctKeys(d) {
        var p := Put(d, key, value);
        assert DistinctKeys(d[1..]);
        forall j | 0 < j < |p| ensures p[0].key != p[j].key {
          assert p[j] == Put(d[1..], key, value)[j - 1];
        }
        forall i, j | 0 < i < j < |p| ensures p[i].key != p[j].key {
          assert p[i] == Put(d[1..], key, value)[i - 1] && p[j] == Put(d[1..], key, value)[j - 1];
        }
      }
    }
  }

  lemma PutWritable(d: Dict, key: string, value: string)
    requires Writable(d) && IsIdentifier(key)
    ensures Writable(Put(d, key, value))
    ensures Clear(d) && NoBreaks(value) ==> Clear(Put(d, key, value))
  {
    PutKeys(d, key, value);
  }

  lemma {:induction false} ParseLinesClear(lines: seq<string>, env: Dict)
    requires Clear(env) && forall i | 0 <= i < |lines| :: NoBreaks(lines[i])
    ensures Clear(ParseLines(lines, env))
    decreases |lines|
  {
    if lines != [] {
      if ParseLine(lines[0]).Some? {
        var item := ParseLine(lines[0]).value;
        ParsedItem(lines[0]);
        PutWritable(env, item.key, item.value);
        ParseLinesClear(lines[1..], Put(env, item.key, item.value));
      } else {
        ParseLinesClear(lines[1..], env);
      }
    }
  }

  /** Whatever the file holds, what is read from it survives being written and read again unchanged. */
  lemma ReadIsStable(text: string)
    ensures Clear(Parse(text)) && Parse(Render(Parse(text))) == Parse(text)
  {
    LinesHaveNoBreaks(text, "");
    ParseLinesClear(Lines(text, ""), []);
    RoundTripExactly(Parse(text));
  }

  // ---------- the format, in its own terms ----------

  /** A key is a letter or underscore and then letters, digits and underscores, by their code points. */
  lemma KeysAre(c: char)
    ensures IsKeyStart(c) <==> 65 <= c as int <= 90 || c as int == 95 || 97 <= c as int <= 122
    ensures IsKeyChar(c) <==> IsKeyStart(c) || 48 <= c as int <= 57
    ensures IsIdentifier([c]) <==> IsKeyStart(c)
    ensures forall key, d :: IsIdentifier(key + [d]) <==> (key == "" && IsKeyStart(d)) || (IsIdentifier(key) && IsKeyChar(d))
  {
    forall key, d ensures IsIdentifier(key + [d]) <==> (key == "" && IsKeyStart(d)) || (IsIdentifier(key) && IsKeyChar(d)) {
      KeyGrows(key, d);
    }
  }

  lemma KeyGrows(key: string, d: char)
    ensures IsIdentifier(key + [d]) <==> (key == "" && IsKeyStart(d)) || (IsIdentifier(key) && IsKeyChar(d))
  {
    var more := key + [d];
    assert more[|key|] == d && forall i | 0 <= i < |key| :: more[i] == key[i];
  }

  /** Escaping goes character by character: a backslash before each backslash and quote. */
  lemma {:induction false} EscapeMeans(a: string, c: char, b: string)
    ensures Escape(a + [c] + b) == Escape(a) + (if c == '\\' || c == '"' then ['\\', c] else [c]) + Escape(b)
  {
    var all := a + [c] + b;
    if a == "" {
      assert all[1..] == b && all[0] == c;
    } else {
      assert all[1..] == a[1..] + [c] + b;
      EscapeMeans(a[1..], c, b);
    }
  }

  lemma {:induction false} CleanMeans(a: string, c: char, b: string)
    ensures Clean(a + [c] + b) == Clean(a) + (if c == '\r' || c == '\n' then "" else [c]) + Clean(b)
  {
    var all := a + [c] + b;
    if a == "" {
      assert all[1..] == b && all[0] == c;
    } else {
      assert all[1..] == a[1..] + [c] + b;
      CleanMeans(a[1..], c, b);
    }
  }

  /** A written line is the key, an equals sign, and the escaped value in double quotes. */
  lemma LineMeans(item: Item)
    ensures Line(item) == item.key + "=" + "\"" + Escape(Clean(item.value)) + "\""
  {}

  /** A bare value is read as it stands, without the blanks around the line and around the value. */
  lemma BareReads(a: string, key: string, b: string, value: string, c: string)
    requires Blank(a) && Blank(b) && Blank(c) && IsIdentifier(key) && Trimmed(value)
    requires |value| < 2 || value[0] != value[|value| - 1] || (value[0] != '"' && value[0] != '\'')
    ensures ParseLine(a + (key + ("=" + (b + value + c)))) == Some(Item(key, value))
  {
    var rest := b + value + c;
    var line := key + ("=" + rest);
    KeyStartIsPlain(key[0]);
    assert line[0] == key[0];
    LStripBlank(a, line);
    LStripBlank("", line);
    assert "" + line == line;
    StripAround(b, value, c);
    hide LStrip, RStrip, Unquote, ParseStripped;
    ParseAssignment(key, rest);
    assert ParseLine(a + line) == ParseLine(line);
    assert Unquote(value) == value by { NotQuoted(value); }
  }

  lemma NotQuoted(value: string)
    requires |value| < 2 || value[0] != value[|value| - 1] || (value[0] != '"' && value[0] != '\'')
    ensures Unquote(value) == value
  {}

  lemma KeyStartIsPlain(c: char)
    requires IsKeyStart(c)
    ensures !IsSpace(c)
  {}

  /** A value in single quotes is read literally, one in double quotes is unescaped. */
  lemma QuotedReads(key: string, inner: string)
    requires IsIdentifier(key)
    ensures ParseLine(key + ("=" + ("'" + inner + "'"))) == Some(Item(key, inner))
    ensures ParseLine(key + ("=" + ("\"" + inner + "\""))) == Some(Item(key, Decode(inner)))
  {
    var s, d := "'" + inner + "'", "\"" + inner + "\"";
    ParseAssignment(key, s);
    ParseAssignment(key, d);
    assert Trimmed(s) && Trimmed(d);
    StripAround("", s, "");
    StripAround("", d, "");
    assert "" + s + "" == s && "" + d + "" == d;
    assert s[1..|s| - 1] == inner && d[1..|d| - 1] == inner;
  }

  /** Unescaping takes the backslash before a backslash or a quote, and leaves every other one. */
  lemma DecodeMeans(c: char, rest: string)
    ensures c == '\\' || c == '"' ==> Decode("\\" + [c] + rest) == [c] + Decode(rest)
    ensures c != '\\' && c != '"' ==> Decode("\\" + [c] + rest) == "\\" + [c] + Decode(rest)
    ensures c != '\\' ==> Decode([c] + rest) == [c] + Decode(rest)
  {
    var all := "\\" + [c] + rest;
    assert all[2..] == rest && all[1..] == [c] + rest && ([c] + rest)[1..] == rest;
  }

  /** Blank lines, comments, lines that begin with no key, and keys without an equals sign behind them assign nothing. */
  lemma NothingAssigned(a: string, key: string, rest: string)
    requires Blank(a)
    ensures ParseLine(a).None? && ParseLine(a + ("#" + rest)).None?
    ensures rest != "" && !IsSpace(rest[0]) && !IsKeyStart(rest[0]) ==> ParseLine(a + rest).None?
    ensures IsIdentifier(key) && (rest == "" || (rest[0] != '=' && !IsKeyChar(rest[0]))) ==> ParseLine(a + (key + rest)).None?
  {
    LStripBlank(a, "");
    assert a + "" == a;
    LStripBlank(a, "#" + rest);
    if rest != "" && !IsSpace(rest[0]) { LStripBlank(a, rest); }
    if IsIdentifier(key) {
      KeyStartIsPlain(key[0]);
      assert (key + rest)[0] == key[0];
      LStripBlank(a, key + rest);
      if rest == "" {
        assert key + rest == key;
        WholeKey(key);
      } else if !IsKeyChar(rest[0]) {
        KeyLengthOf(key, rest);
      }
    }
  }

  lemma {:induction false} WholeKey(key: string)
    requires forall i | 0 <= i < |key| :: IsKeyChar(key[i])
    ensures KeyLength(key) == |key|
  {
    if key != "" { WholeKey(key[1..]); }
  }
}
