/** The Python string operations several modules use. */
module PyText {
  /** str.isspace, which is also what \s matches. */
  predicate IsSpace(c: char) {
    '\t' <= c <= '\r' || '\U{1C}' <= c <= ' ' || c == '\U{85}' || c == '\U{A0}' || c == '\U{1680}'
    || '\U{2000}' <= c <= '\U{200A}' || c == '\U{2028}' || c == '\U{2029}' || c == '\U{202F}'
    || c == '\U{205F}' || c == '\U{3000}'
  }

  function LStrip(s: string): string {
    if s != "" && IsSpace(s[0]) then LStrip(s[1..]) else s
  }

  function RStrip(s: string): string {
    if s != "" && IsSpace(s[|s| - 1]) then RStrip(s[..|s| - 1]) else s
  }

  /** str.strip */
  function Strip(s: string): string {
    RStrip(LStrip(s))
  }

  /** str.lower, on ASCII letters. */
  function Lower(s: string): string {
    if s == "" then "" else [if 'A' <= s[0] <= 'Z' then s[0] - 'A' + 'a' else s[0]] + Lower(s[1..])
  }

  /** s.startswith(p) */
  predicate StartsWith(s: string, p: string) {
    |p| <= |s| && s[..|p|] == p
  }

  predicate IsDigit(c: char) {
    '0' <= c <= '9'
  }

  predicate AllDigits(s: string) {
    forall i | 0 <= i < |s| :: IsDigit(s[i])
  }

  /** int(s), on ASCII digits. */
  function ValueOf(s: string): nat
    requires AllDigits(s)
  {
    if s == "" then 0
    else ValueOf(s[..|s| - 1]) * 10 + (s[|s| - 1] - '0') as nat
  }

  /** "%d" % n */
  function Decimal(n: nat): (s: string)
    ensures s != "" && AllDigits(s)
  {
    if n < 10 then ['0' + n as char] else Decimal(n / 10) + ['0' + (n % 10) as char]
  }

  /** Printing a number and reading it back. */
  lemma {:induction false} ValueOfDecimal(n: nat)
    ensures ValueOf(Decimal(n)) == n
  {
    if n >= 10 {
      ValueOfDecimal(n / 10);
      assert Decimal(n)[..|Decimal(n)| - 1] == Decimal(n / 10);
    } else {
      assert Decimal(n)[..0] == "";
    }
  }

  // ---------- what the operations mean ----------

  /** The blanks and the digits, by their code points. */
  lemma CharactersAre(c: char)
    ensures IsSpace(c) <==> c as int in {
      9, 10, 11, 12, 13, 28, 29, 30, 31, 32, 133, 160, 5760,
      8192, 8193, 8194, 8195, 8196, 8197, 8198, 8199, 8200, 8201, 8202, 8232, 8233, 8239, 8287, 12288}
    ensures IsDigit(c) <==> 48 <= c as int <= 57
  {}

  /** A text starts with another exactly when it is that one and something, or nothing, behind it. */
  lemma StartsWithMeans(s: string, p: string)
    ensures StartsWith(s, p) <==> exists rest :: s == p + rest
  {
    if StartsWith(s, p) { assert s == p + s[|p|..]; }
    forall rest | s == p + rest ensures StartsWith(s, p) {}
  }

  predicate Blank(s: string) {
    forall i | 0 <= i < |s| :: IsSpace(s[i])
  }

  /** No blank at either end. */
  predicate Trimmed(s: string) {
    s == "" || (!IsSpace(s[0]) && !IsSpace(s[|s| - 1]))
  }

  predicate IsUpper(c: char) {
    'A' <= c <= 'Z'
  }

  /** s spells the lower-case word t in any case. */
  predicate Spells(s: string, t: string) {
    |s| == |t| && forall i | 0 <= i < |s| :: s[i] == t[i] || (IsUpper(s[i]) && s[i] as int + 32 == t[i] as int)
  }

  lemma {:induction false} LStripBlank(a: string, s: string)
    requires Blank(a) && (s == "" || !IsSpace(s[0]))
    ensures LStrip(a + s) == s
  {
    if a == "" {
      assert a + s == s;
    } else {
      assert (a + s)[1..] == a[1..] + s;
      LStripBlank(a[1..], s);
    }
  }

  lemma {:induction false} RStripBlank(s: string, b: string)
    requires Blank(b) && (s == "" || !IsSpace(s[|s| - 1]))
    ensures RStrip(s + b) == s
  {
    if b == "" {
      assert s + b == s;
    } else {
      assert (s + b)[..|s + b| - 1] == s + b[..|b| - 1];
      RStripBlank(s, b[..|b| - 1]);
    }
  }

  /** Stripping takes the blanks around a trimmed text, and nothing else. */
  lemma StripAround(a: string, s: string, b: string)
    requires Blank(a) && Blank(b) && Trimmed(s)
    ensures Strip(a + s + b) == s
  {
    if s == "" {
      assert a + s + b == a + b + "" && a + b + "" == (a + b) + "";
      LStripBlank(a + b, "");
    } else {
      assert a + s + b == a + (s + b) && (s + b)[0] == s[0];
      LStripBlank(a, s + b);
      RStripBlank(s, b);
    }
  }

  lemma {:induction false} LStripParts(s: string) returns (a: string)
    ensures s == a + LStrip(s) && Blank(a) && (LStrip(s) == "" || !IsSpace(LStrip(s)[0]))
  {
    if s != "" && IsSpace(s[0]) {
      a := LStripParts(s[1..]);
      a := [s[0]] + a;
      assert s == [s[0]] + s[1..];
    } else {
      a := "";
    }
  }

  lemma {:induction false} RStripParts(s: string) returns (b: string)
    ensures s == RStrip(s) + b && Blank(b) && (RStrip(s) == "" || !IsSpace(RStrip(s)[|RStrip(s)| - 1]))
  {
    if s != "" && IsSpace(s[|s| - 1]) {
      b := RStripParts(s[..|s| - 1]);
      b := b + [s[|s| - 1]];
      assert s == s[..|s| - 1] + [s[|s| - 1]];
    } else {
      b := "";
    }
  }

  /** Every text is its stripped form with blanks around it. */
  lemma StripParts(s: string) returns (a: string, b: string)
    ensures s == a + Strip(s) + b && Blank(a) && Blank(b) && Trimmed(Strip(s))
  {
    a := LStripParts(s);
    b := RStripParts(LStrip(s));
    var core := RStrip(LStrip(s));
    assert s == a + (core + b);
    assert core != "" ==> core[0] == LStrip(s)[0];
  }

  /** Lowering a text gives a lower-case word exactly when the text spells it. */
  lemma {:induction false} LowerExactly(s: string, t: string)
    requires forall i | 0 <= i < |t| :: !IsUpper(t[i])
    ensures Lower(s) == t <==> Spells(s, t)
  {
    if s != "" {
      var low := Lower(s[1..]);
      assert Lower(s)[1..] == low && |Lower(s)| == 1 + |low|;
      if t != "" {
        LowerExactly(s[1..], t[1..]);
        assert t == [t[0]] + t[1..] && s == [s[0]] + s[1..] && Lower(s) == [Lower(s)[0]] + low;
      }
    }
  }

  /** A word in any case with blanks around it. */
  ghost predicate Says(text: string, word: string) {
    exists a, s, b :: Blank(a) && Blank(b) && Spells(s, word) && text == a + s + b
  }

  lemma SpelledIsTrimmed(s: string, word: string)
    requires Spells(s, word) && forall i | 0 <= i < |word| :: 'a' <= word[i] <= 'z'
    ensures Trimmed(s)
  {
    forall i | 0 <= i < |s| ensures !IsSpace(s[i]) { assert 'a' <= word[i] <= 'z'; }
  }

  /** Stripping and lowering find a word exactly where it is said. */
  lemma SaysExactly(text: string, word: string)
    requires word != "" && forall i | 0 <= i < |word| :: 'a' <= word[i] <= 'z'
    ensures Lower(Strip(text)) == word <==> Says(text, word)
  {
    var a, b := StripParts(text);
    LowerExactly(Strip(text), word);
    if exists a, s, b :: Blank(a) && Blank(b) && Spells(s, word) && text == a + s + b {
      var a, s, b :| Blank(a) && Blank(b) && Spells(s, word) && text == a + s + b;
      SpelledIsTrimmed(s, word);
      StripAround(a, s, b);
    }
  }
}
