/**
  The names of backup archives in core/backup/store.py: the format that embeds a
  UTC stamp, the parser that recovers the app, and why sorting names sorts times.
*/
module BackupNames {
  import opened Wrappers
  import opened PyText

  // ---------- string order ----------

  /** Python's < on strings. */
  predicate Less(a: string, b: string) {
    b != "" && (a == "" || a[0] < b[0] || (a[0] == b[0] && Less(a[1..], b[1..])))
  }

  lemma {:induction false} LessTotal(a: string, b: string)
    ensures !(Less(a, b) && Less(b, a)) && (!Less(a, b) && !Less(b, a) <==> a == b)
  {
    if a != "" && b != "" && a[0] == b[0] {
      LessTotal(a[1..], b[1..]);
      assert a == [a[0]] + a[1..] && b == [b[0]] + b[1..];
    }
  }

  lemma {:induction false} LessTransitive(a: string, b: string, c: string)
    requires Less(a, b) && Less(b, c)
    ensures Less(a, c)
  {
    if a != "" && a[0] == b[0] && b[0] == c[0] {
      LessTransitive(a[1..], b[1..], c[1..]);
    }
  }

  lemma {:induction false} LessSamePrefix(p: string, a: string, b: string)
    ensures Less(p + a, p + b) == Less(a, b)
  {
    if p == "" {
      assert p + a == a && p + b == b;
    } else {
      assert (p + a)[1..] == p[1..] + a && (p + b)[1..] == p[1..] + b;
      LessSamePrefix(p[1..], a, b);
    }
  }

  /** Different strings of one length decide, whatever follows them. */
  lemma {:induction false} LessFixedWidth(a: string, b: string, u: string, v: string)
    requires |a| == |b| && a != b
    ensures Less(a + u, b + v) == Less(a, b)
  {
    assert a == [a[0]] + a[1..] && b == [b[0]] + b[1..];
    assert (a + u)[1..] == a[1..] + u && (b + v)[1..] == b[1..] + v;
    if a[0] == b[0] {
      LessFixedWidth(a[1..], b[1..], u, v);
    }
  }

  // ---------- stamps ----------

  /** A UTC second: date is YYYYmmdd and time is HHMMSS, read as numbers. */
  datatype Moment = Moment(date: nat, time: nat)

  predicate InRange(t: Moment) {
    t.date < 100_000_000 && t.time < 1_000_000
  }

  predicate Before(t: Moment, u: Moment) {
    t.date < u.date || (t.date == u.date && t.time < u.time)
  }

  /** The last `width` decimal digits of n. */
  function Digits(n: nat, width: nat): (s: string)
    ensures |s| == width && AllDigits(s)
  {
    if width == 0 then "" else Digits(n / 10, width - 1) + ['0' + (n % 10) as char]
  }

  function Pow10(width: nat): nat {
    if width == 0 then 1 else 10 * Pow10(width - 1)
  }

  lemma {:induction false} ValueOfDigits(n: nat, width: nat)
    requires n < Pow10(width)
    ensures ValueOf(Digits(n, width)) == n
  {
    if width > 0 {
      ValueOfDigits(n / 10, width - 1);
      assert Digits(n, width)[..width - 1] == Digits(n / 10, width - 1);
    }
  }

  lemma {:induction false} DigitsOfValue(s: string)
    requires AllDigits(s)
    ensures Digits(ValueOf(s), |s|) == s && ValueOf(s) < Pow10(|s|)
  {
    if s != "" {
      var front, last := s[..|s| - 1], s[|s| - 1];
      DigitsOfValue(front);
      assert ValueOf(s) / 10 == ValueOf(front) && ValueOf(s) % 10 == (last - '0') as nat;
      assert s == front + [last];
    }
  }

  /** Numbers of one width are ordered as their digits are. */
  lemma {:induction false} DigitsOrder(m: nat, n: nat, width: nat)
    requires m < Pow10(width) && n < Pow10(width)
    ensures Less(Digits(m, width), Digits(n, width)) <==> m < n
  {
    if width > 0 {
      var a, b := Digits(m / 10, width - 1), Digits(n / 10, width - 1);
      var x, y := ['0' + (m % 10) as char], ['0' + (n % 10) as char];
      DigitsOrder(m / 10, n / 10, width - 1);
      if a == b {
        ValueOfDigits(m / 10, width - 1);
        ValueOfDigits(n / 10, width - 1);
        LessSamePrefix(a, x, y);
      } else {
        LessFixedWidth(a, b, x, y);
        LessTotal(a, b);
      }
    }
  }

  function Stamp(t: Moment): (s: string)
    ensures |s| == 16
  {
    Digits(t.date, 8) + "T" + Digits(t.time, 6) + "Z"
  }

  // ---------- names ----------

  predicate IsNameChar(c: char) {
    IsDigit(c) || 'A' <= c <= 'Z' || 'a' <= c <= 'z' || c == '.' || c == '_' || c == '-'
  }

  predicate IsAppPart(app: string) {
    app != "" && forall i | 0 <= i < |app| :: IsNameChar(app[i])
  }

  /** "backup-%s-%s.tar.gz" */
  function Name(app: string, t: Moment): string {
    "backup-" + app + "-" + Stamp(t) + ".tar.gz"
  }

  /** The text $ lets the pattern end at: before one final newline, if there is one. */
  function Body(name: string): string {
    if name != "" && name[|name| - 1] == '\n' then name[..|name| - 1] else name
  }

  /** A dash, eight digits, T, six digits, Z, .tar.gz */
  predicate IsStampPart(s: string) {
    |s| == 24 && s[0] == '-' && AllDigits(s[1..9]) && s[9] == 'T' && AllDigits(s[10..16])
    && s[16] == 'Z' && s[17..] == ".tar.gz"
  }

  /** `_app_from_name`: the stamp has one width, so the app is what is left in the middle. */
  function AppFromName(name: string): Option<string> {
    var s := Body(name);
    if |s| > 31 && s[..7] == "backup-" && IsStampPart(s[|s| - 24..]) && IsAppPart(s[7..|s| - 24])
    then Some(s[7..|s| - 24])
    else None
  }

  /** The second a name was stamped with. */
  function MomentOf(name: string): Moment
    requires AppFromName(name).Some?
  {
    var s := Body(name);
    var stamp := s[|s| - 24..];
    Moment(ValueOf(stamp[1..9]), ValueOf(stamp[10..16]))
  }

  lemma Widths()
    ensures Pow10(8) == 100_000_000 && Pow10(6) == 1_000_000
  {
    assert Pow10(2) == 100 && Pow10(4) == 100 * Pow10(2) && Pow10(6) == 100 * Pow10(4);
    assert Pow10(8) == 100 * Pow10(6);
  }

  lemma StampPart(t: Moment) returns (s: string)
    ensures s == "-" + Stamp(t) + ".tar.gz" && IsStampPart(s)
    ensures s[1..9] == Digits(t.date, 8) && s[10..16] == Digits(t.time, 6)
  {
    s := "-" + Stamp(t) + ".tar.gz";
    assert s[1..9] == Digits(t.date, 8);
    assert s[10..16] == Digits(t.time, 6);
    assert s[17..] == ".tar.gz";
  }

  /** The parser inverts the format: it finds the app and the second the name was made from. */
  lemma NameParses(app: string, t: Moment)
    requires IsAppPart(app) && InRange(t)
    ensures AppFromName(Name(app, t)) == Some(app) && MomentOf(Name(app, t)) == t
  {
    var name := Name(app, t);
    Widths();
    ValueOfDigits(t.date, 8);
    ValueOfDigits(t.time, 6);
    hide IsStampPart, Digits, ValueOf, Pow10, Stamp;
    var part := StampPart(t);
    assert name == "backup-" + app + part;
    assert name[|name| - 1] == 'z';
    assert name[..7] == "backup-" && name[7..|name| - 24] == app && name[|name| - 24..] == part;
  }

  /** A name, letter by letter. */
  lemma NameLooks()
    ensures Name("shop", Moment(20240102, 30405)) == "backup-shop-20240102T030405Z.tar.gz"
  {
    DateLooks();
    TimeLooks();
    hide Digits;
  }

  lemma DigitsMore(n: nat, width: nat, front: nat, last: char)
    requires width > 0 && front == n / 10 && last as int == '0' as int + n % 10
    ensures Digits(n, width) == Digits(front, width - 1) + [last]
    ensures Digits(0, 0) == ""
  {}

  lemma DateLooks()
    ensures Digits(20240102, 8) == "20240102"
  {
    hide Digits;
    DigitsMore(2, 1, 0, '2');
    assert Digits(2, 1) == "2";
    DigitsMore(20, 2, 2, '0');
    assert Digits(20, 2) == "20";
    DigitsMore(202, 3, 20, '2');
    assert Digits(202, 3) == "202";
    DigitsMore(2024, 4, 202, '4');
    assert Digits(2024, 4) == "2024";
    DigitsMore(20240, 5, 2024, '0');
    assert Digits(20240, 5) == "20240";
    DigitsMore(202401, 6, 20240, '1');
    assert Digits(202401, 6) == "202401";
    DigitsMore(2024010, 7, 202401, '0');
    assert Digits(2024010, 7) == "2024010";
    DigitsMore(20240102, 8, 2024010, '2');
    assert Digits(20240102, 8) == "20240102";
  }

  lemma TimeLooks()
    ensures Digits(30405, 6) == "030405"
  {
    hide Digits;
    DigitsMore(0, 1, 0, '0');
    assert Digits(0, 1) == "0";
    DigitsMore(3, 2, 0, '3');
    assert Digits(3, 2) == "03";
    DigitsMore(30, 3, 3, '0');
    assert Digits(30, 3) == "030";
    DigitsMore(304, 4, 30, '4');
    assert Digits(304, 4) == "0304";
    DigitsMore(3040, 5, 304, '0');
    assert Digits(3040, 5) == "03040";
    DigitsMore(30405, 6, 3040, '5');
    assert Digits(30405, 6) == "030405";
  }

  /** The characters an app may have, and the one final newline the pattern lets pass. */
  lemma NamesAre(c: char, app: string, t: Moment)
    requires IsAppPart(app) && InRange(t)
    ensures IsNameChar(c) <==>
      var n := c as int; 48 <= n <= 57 || 65 <= n <= 90 || 97 <= n <= 122 || n == 45 || n == 46 || n == 95
    ensures AppFromName(Name(app, t) + [c]) == if c == '\n' then Some(app) else None
  {
    var name := Name(app, t);
    NameParses(app, t);
    NameEnds(app, t);
    hide Name, IsAppPart, IsNameChar;
    var s := name + [c];
    if c == '\n' {
      assert Body(s) == name == Body(name);
    } else {
      hide IsStampPart;
      WrongEnd(s);
    }
  }

  lemma WrongEnd(s: string)
    requires |s| > 7 && s[|s| - 1] != '\n' && s[|s| - 7] != '.'
    ensures AppFromName(s).None?
  {
    hide IsAppPart;
    if |s| > 31 {
      var part := s[|s| - 24..];
      assert part[17..][0] == part[17] == s[|s| - 7];
      assert ".tar.gz"[0] == '.';
    }
  }

  lemma NameEnds(app: string, t: Moment)
    ensures var name := Name(app, t); |name| > 30 && name[|name| - 7..] == ".tar.gz" && name[|name| - 6] == 't'
  {
    hide Stamp;
    var name, front := Name(app, t), "backup-" + app + "-" + Stamp(t);
    assert name == front + ".tar.gz" && name[|front|..] == ".tar.gz";
    assert name[|name| - 6] == name[|front|..][1];
  }

  /** The format inverts the parser: every accepted name is a formatted one, but for a final newline. */
  lemma ParsedIsFormatted(name: string)
    requires AppFromName(name).Some?
    ensures InRange(MomentOf(name))
    ensures Body(name) == Name(AppFromName(name).value, MomentOf(name))
  {
    var s := Body(name);
    var part := s[|s| - 24..];
    DigitsOfValue(part[1..9]);
    DigitsOfValue(part[10..16]);
    Widths();
    assert s == s[..7] + s[7..|s| - 24] + part;
    assert part == "-" + part[1..9] + "T" + part[10..16] + "Z" + part[17..];
  }

  lemma TwoFields(a: string, b: string, x: string, y: string)
    requires |a| == |b| && |x| == |y|
    ensures Less(a + ("T" + (x + "Z")), b + ("T" + (y + "Z"))) <==> Less(a, b) || (a == b && Less(x, y))
  {
    LessTotal(a, b);
    LessTotal(x, y);
    if a != b {
      LessFixedWidth(a, b, "T" + (x + "Z"), "T" + (y + "Z"));
    } else {
      LessSamePrefix(a, "T" + (x + "Z"), "T" + (y + "Z"));
      LessSamePrefix("T", x + "Z", y + "Z");
      if x != y {
        LessFixedWidth(x, y, "Z", "Z");
      } else {
        LessTotal(x + "Z", x + "Z");
      }
    }
  }

  lemma StampOrder(t: Moment, u: Moment)
    requires InRange(t) && InRange(u)
    ensures Less(Stamp(t), Stamp(u)) <==> Before(t, u)
  {
    Widths();
    hide Less, Digits, Pow10;
    var a, b := Digits(t.date, 8), Digits(u.date, 8);
    var x, y := Digits(t.time, 6), Digits(u.time, 6);
    assert (Less(a, b) <==> t.date < u.date) && (a == b <==> t.date == u.date) by {
      DigitsOrder(t.date, u.date, 8);
      DigitsOrder(u.date, t.date, 8);
      LessTotal(a, b);
    }
    assert Less(x, y) <==> t.time < u.time by {
      DigitsOrder(t.time, u.time, 6);
    }
    assert Stamp(t) == a + ("T" + (x + "Z")) && Stamp(u) == b + ("T" + (y + "Z"));
    TwoFields(a, b, x, y);
  }

  lemma StampsDiffer(t: Moment, u: Moment)
    requires InRange(t) && InRange(u) && t != u
    ensures Stamp(t) != Stamp(u)
  {
    hide Less, Stamp;
    StampOrder(t, u);
    StampOrder(u, t);
    LessTotal(Stamp(t), Stamp(u));
  }

  lemma SameAppOrder(app: string, t: Moment, u: Moment, x: string, y: string)
    requires InRange(t) && InRange(u) && t != u
    ensures Less(Name(app, t) + x, Name(app, u) + y) <==> Before(t, u)
  {
    StampOrder(t, u);
    StampsDiffer(t, u);
    hide Less, Stamp;
    var p := "backup-" + app + "-";
    assert Name(app, t) + x == p + (Stamp(t) + (".tar.gz" + x));
    assert Name(app, u) + y == p + (Stamp(u) + (".tar.gz" + y));
    LessSamePrefix(p, Stamp(t) + (".tar.gz" + x), Stamp(u) + (".tar.gz" + y));
    LessFixedWidth(Stamp(t), Stamp(u), ".tar.gz" + x, ".tar.gz" + y);
  }

  /** An accepted name is a formatted one and at most a newline. */
  lemma NameAndTail(name: string) returns (tail: string)
    requires AppFromName(name).Some?
    ensures InRange(MomentOf(name))
    ensures name == Name(AppFromName(name).value, MomentOf(name)) + tail
  {
    ParsedIsFormatted(name);
    hide *;
    tail := TailOf(name);
  }

  lemma TailOf(name: string) returns (tail: string)
    ensures name == Body(name) + tail
  {
    tail := name[|Body(name)|..];
  }

  /** Among accepted names of one app, a later second means a greater name. */
  lemma LaterIsGreater(x: string, y: string)
    requires AppFromName(x).Some? && AppFromName(x) == AppFromName(y)
    requires Before(MomentOf(x), MomentOf(y))
    ensures Less(x, y)
  {
    hide AppFromName, Name, Less, MomentOf;
    var p := NameAndTail(x);
    var q := NameAndTail(y);
    SameAppOrder(AppFromName(x).value, MomentOf(x), MomentOf(y), p, q);
  }

  // ---------- names of different apps ----------

  /** What stands behind the app in a name. */
  function Tail(t: Moment): (s: string)
    ensures |s| == 24 && s[0] == '-' && s[1] == Stamp(t)[0]
  {
    "-" + Stamp(t) + ".tar.gz"
  }

  lemma {:induction false} LeadingZero(n: nat, width: nat)
    requires width > 0 && n < Pow10(width - 1)
    ensures Digits(n, width)[0] == '0'
  {
    if width > 1 { LeadingZero(n / 10, width - 1); }
  }

  lemma {:induction false} LeadingNine(n: nat, width: nat)
    requires width > 0 && 9 * Pow10(width - 1) <= n < Pow10(width)
    ensures Digits(n, width)[0] == '9'
  {
    if width > 1 { LeadingNine(n / 10, width - 1); }
  }

  /** An early and a late pair of seconds; the stamps of the one begin with 0, those of the other with 9. */
  const EARLY := Moment(0, 0)
  const EARLIER_DAYS := Moment(1, 0)
  const LATE := Moment(90_000_000, 0)
  const LATER_DAYS := Moment(90_000_001, 0)

  lemma LeadingDigits()
    ensures Tail(EARLY)[1] == '0' && Tail(EARLIER_DAYS)[1] == '0' && Tail(LATE)[1] == '9' && Tail(LATER_DAYS)[1] == '9'
  {
    Widths();
    assert Pow10(8) == 10 * Pow10(7);
    LeadingZero(0, 8);
    LeadingZero(1, 8);
    LeadingNine(90_000_000, 8);
    LeadingNine(90_000_001, 8);
  }

  lemma FirstDecides(a: string, b: string)
    requires a != "" && b != "" && a[0] != b[0]
    ensures Less(a, b) == (a[0] < b[0])
  {}

  /** Two different strings part after their common prefix. */
  lemma {:induction false} Part(a: string, b: string) returns (p: string, x: string, y: string)
    requires a != b
    ensures a == p + x && b == p + y && x != y && (x == "" || y == "" || x[0] != y[0])
  {
    if a == "" || b == "" || a[0] != b[0] {
      return "", a, b;
    }
    assert a == [a[0]] + a[1..] && b == [a[0]] + b[1..];
    var q;
    q, x, y := Part(a[1..], b[1..]);
    p := [a[0]] + q;
  }

  lemma CommonPrefix(p: string, x: string, y: string, t: Moment, u: Moment)
    ensures Less(Name(p + x, t), Name(p + y, u)) == Less(x + Tail(t), y + Tail(u))
  {
    hide Less, Stamp;
    var front := "backup-" + p;
    assert Name(p + x, t) == front + (x + Tail(t)) && Name(p + y, u) == front + (y + Tail(u));
    LessSamePrefix(front, x + Tail(t), y + Tail(u));
  }

  /** The archive stamped earlier, of app a, has the greater name. */
  ghost predicate Inverted(a: string, t: Moment, b: string, u: Moment) {
    InRange(t) && InRange(u) && Before(t, u) && Less(Name(b, u), Name(a, t))
  }

  lemma PartedInvert(p: string, x: string, y: string)
    requires x != "" && y != "" && x[0] < y[0]
    ensures Inverted(p + y, EARLY, p + x, EARLIER_DAYS)
  {
    CommonPrefix(p, x, y, EARLIER_DAYS, EARLY);
    var s, t := x + Tail(EARLIER_DAYS), y + Tail(EARLY);
    assert s[0] == x[0] && t[0] == y[0];
    FirstDecides(s, t);
  }

  /** One app continues the other with y: its next character, or the one behind a dash, meets a stamp that can be early or late. */
  lemma ContinuedInverts(p: string, y: string) returns (t: Moment, u: Moment)
    requires y != ""
    ensures Inverted(p, t, p + y, u) || Inverted(p + y, u, p, t)
  {
    LeadingDigits();
    assert p + "" == p;
    var c := (y + Tail(EARLY))[1];
    if y[0] < '-' || (y[0] == '-' && c <= '0') {
      t, u := LATE, LATER_DAYS;
    } else {
      t, u := EARLIER_DAYS, EARLY;
    }
    CommonPrefix(p, "", y, t, u);
    CommonPrefix(p, y, "", u, t);
    hide Name, Stamp, Less, Tail;
    DashDecides(y, t, u);
  }

  lemma DashDecides(y: string, t: Moment, u: Moment)
    requires y != ""
    ensures var s, r := "" + Tail(t), y + Tail(u);
            && |s| > 1 && |r| > 1 && r[0] == y[0] && s == Tail(t)
            && (y[0] < '-' || (y[0] == '-' && r[1] < s[1]) ==> Less(r, s))
            && (y[0] > '-' || (y[0] == '-' && r[1] > s[1]) ==> Less(s, r))
  {
    var s, r := Tail(t), y + Tail(u);
    assert "" + s == s && r[0] == y[0];
    if y[0] == '-' {
      assert s == "-" + s[1..] && r == "-" + r[1..];
      LessSamePrefix("-", r[1..], s[1..]);
      LessSamePrefix("-", s[1..], r[1..]);
      if r[1] != s[1] {
        FirstDecides(r[1..], s[1..]);
        FirstDecides(s[1..], r[1..]);
      }
    } else {
      FirstDecides(r, s);
      FirstDecides(s, r);
    }
  }

  /** Whatever two apps, some archive of the one is earlier than some archive of the other and has the greater name. */
  lemma DifferentAppsInvert(a: string, b: string) returns (t: Moment, u: Moment)
    requires a != b
    ensures Inverted(a, t, b, u) || Inverted(b, u, a, t)
  {
    hide Name, Less, Inverted;
    var p, x, y := Part(a, b);
    assert p + "" == p;
    if x == "" {
      t, u := ContinuedInverts(p, y);
    } else if y == "" {
      u, t := ContinuedInverts(p, x);
    } else if x[0] < y[0] {
      PartedInvert(p, x, y);
      t, u := EARLIER_DAYS, EARLY;
    } else {
      PartedInvert(p, y, x);
      t, u := EARLY, EARLIER_DAYS;
    }
  }

  /** Archives of a and of b made in different seconds compare by name, either way round, as by time. */
  ghost predicate OrderedByTime(a: string, b: string) {
    forall t, u | InRange(t) && InRange(u) && t != u ::
      (Less(Name(a, t), Name(b, u)) <==> Before(t, u)) && (Less(Name(b, u), Name(a, t)) <==> Before(u, t))
  }

  /** Sorting names sorts archives of different seconds by time if and only if they are of one app. */
  lemma NameOrderIsTimeOrderExactly(a: string, b: string)
    ensures OrderedByTime(a, b) <==> a == b
  {
    if a == b {
      forall t, u | InRange(t) && InRange(u) && t != u
        ensures (Less(Name(a, t), Name(a, u)) <==> Before(t, u)) && (Less(Name(a, u), Name(a, t)) <==> Before(u, t))
      {
        SameAppOrder(a, t, u, "", "");
        SameAppOrder(a, u, t, "", "");
        assert Name(a, t) + "" == Name(a, t) && Name(a, u) + "" == Name(a, u);
      }
    } else {
      hide Name, Less;
      var t, u := DifferentAppsInvert(a, b);
      assert t != u;
    }
  }
}
