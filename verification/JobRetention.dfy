/**
  Listing and retention of job records in core/jobs.py: `list_jobs`, `prune`,
  `clear`, and the prune that `start` does first.
*/
module JobRetention {
  import opened Wrappers
  import opened PyText
  import opened Sorting
  import JobProtocol

  const DEFAULT_TERMINAL_RETENTION: int := 500
  const NO_LIMIT: int := 1_000_000_000

  // ---------- what is on disk ----------

  /** A JSON value as `_normalise_state` sees it. */
  datatype RawState = Text(text: string) | NotText

  /** A JSON value as `_normalise_started` sees it; a text may parse as a number. */
  datatype RawStarted = Number(x: real) | Numeral(parsed: Option<real>) | NotFinite | NotNumber

  datatype RawMeta = RawMeta(id: string, state: RawState, started: RawStarted)

  /** An entry of the jobs directory: a job whose metadata may be unreadable, or something list_jobs skips. */
  datatype DirEntry = JobDir(meta: Option<RawMeta>) | SymLink | PlainFile

  type Store = map<string, DirEntry>

  predicate ValidName(name: string) {
    && name != "" && name != "." && name != ".."
    && forall i | 0 <= i < |name| ::
         IsDigit(name[i]) || 'A' <= name[i] <= 'Z' || 'a' <= name[i] <= 'z' || name[i] in "_.-"
  }

  /** A recorded state; None stands for `unknown`. */
  type State = Option<JobProtocol.JobState>

  function NormaliseState(raw: RawState): State {
    if raw.NotText? then None
    else
      var s := Lower(Strip(raw.text));
      if s == "running" then Some(JobProtocol.Running)
      else if s == "done" then Some(JobProtocol.Done)
      else if s == "failed" then Some(JobProtocol.Failed)
      else if s == "cancelled" then Some(JobProtocol.Cancelled)
      else None
  }

  function NormaliseStarted(raw: RawStarted): (r: real)
    ensures r >= 0.0
  {
    match raw
    case Number(x) => if x >= 0.0 then x else 0.0
    case Numeral(Some(x)) => if x >= 0.0 then x else 0.0
    case _ => 0.0
  }

  predicate Terminal(st: State) {
    st.Some? && JobProtocol.Terminal(st.value)
  }

  /** A listed job; its identity is the directory name. */
  datatype Record = Record(name: string, state: State, started: real)

  /** The record an entry gives, if it is a readable job under a valid name. */
  function RecordOf(dirs: Store, name: string): Option<Record> {
    if name in dirs && ValidName(name) && dirs[name].JobDir? && dirs[name].meta.Some? then
      var m := dirs[name].meta.value;
      Some(Record(name, NormaliseState(m.state), NormaliseStarted(m.started)))
    else None
  }

  // ---------- listing ----------

  function Collect(dirs: Store, names: seq<string>): seq<Record> {
    if names == [] then []
    else
      var before := Collect(dirs, names[..|names| - 1]);
      match RecordOf(dirs, names[|names| - 1])
      case None => before
      case Some(r) => before + [r]
  }

  predicate NotOlder(a: Record, b: Record) {
    a.started >= b.started
  }

  /** list.sort by the start time with reverse=True, which keeps equals in their order. */
  function NewestFirst(records: seq<Record>): seq<Record> {
    Sorted(NotOlder, records)
  }

  function Take(records: seq<Record>, limit: int): seq<Record> {
    if limit <= 0 then [] else if limit < |records| then records[..limit] else records
  }

  function Listed(dirs: Store, names: seq<string>, limit: int): seq<Record> {
    Take(NewestFirst(Collect(dirs, names)), limit)
  }

  function TerminalOnly(records: seq<Record>): seq<Record> {
    if records == [] then []
    else
      var last := records[|records| - 1];
      TerminalOnly(records[..|records| - 1]) + (if Terminal(last.state) then [last] else [])
  }

  /** The terminal records, newest first. */
  function Ranked(dirs: Store, names: seq<string>): seq<Record> {
    TerminalOnly(Listed(dirs, names, NO_LIMIT))
  }

  /** The names of a list of records. */
  function NamesOf(records: seq<Record>): set<string> {
    set r | r in records :: r.name
  }

  /** What prune(keep) sets out to remove. */
  function Outranked(dirs: Store, names: seq<string>, keep: int): seq<Record> {
    var ranked := Ranked(dirs, names);
    var k := if keep < 0 then 0 else keep;
    if k >= |ranked| then [] else ranked[k..]
  }

  // ---------- the operations ----------

  /** What listdir answers: every entry once, in any order. */
  ghost predicate IsListing(dirs: Store, names: seq<string>) {
    && (forall i, j | 0 <= i < j < |names| :: names[i] != names[j])
    && (forall n :: n in names <==> n in dirs)
  }

  function Remaining(dirs: Store, gone: set<string>): Store {
    map n | n in dirs && n !in gone :: dirs[n]
  }

  /** The positions whose removal succeeds. */
  function Removable(doomed: seq<Record>, stuck: set<string>): set<int> {
    set i | 0 <= i < |doomed| && doomed[i].name !in stuck
  }

  lemma NothingDoomed(dirs: Store, stuck: set<string>)
    ensures Remaining(dirs, NamesOf([]) - stuck) == dirs && Removable([], stuck) == {}
  {}

  lemma OneMoreDoomed(dirs: Store, doomed: seq<Record>, i: nat, stuck: set<string>)
    requires i < |doomed|
    ensures var n := doomed[i].name;
            var before, after := Remaining(dirs, NamesOf(doomed[..i]) - stuck), Remaining(dirs, NamesOf(doomed[..i + 1]) - stuck);
            && after == (if n in stuck then before else Remaining(before, {n}))
            && |Removable(doomed[..i + 1], stuck)| == |Removable(doomed[..i], stuck)| + (if n in stuck then 0 else 1)
  {
    var n := doomed[i].name;
    assert doomed[..i + 1] == doomed[..i] + [doomed[i]];
    assert NamesOf(doomed[..i + 1]) == NamesOf(doomed[..i]) + {n};
    assert Removable(doomed[..i + 1], stuck) == Removable(doomed[..i], stuck) + (if n in stuck then {} else {i});
  }

  class JobStore {
    var dirs: Store

    /** The loop of `list_jobs` before sorting. */
    method ReadAll(names: seq<string>) returns (metas: seq<Record>)
      ensures metas == Collect(dirs, names)
    {
      metas := [];
      for i := 0 to |names|
        invariant metas == Collect(dirs, names[..i])
      {
        assert names[..i + 1][..i] == names[..i];
        var r := RecordOf(dirs, names[i]);
        if r.Some? {
          metas := metas + [r.value];
        }
      }
      assert names[..|names|] == names;
    }

    /** Removes the directories named by the records; a removal in `stuck` fails and is passed over. */
    method RemoveAll(doomed: seq<Record>, stuck: set<string>) returns (removed: nat)
      modifies this
      ensures dirs == Remaining(old(dirs), NamesOf(doomed) - stuck)
      ensures removed == |Removable(doomed, stuck)|
    {
      hide Remaining, NamesOf, Removable;
      NothingDoomed(dirs, stuck);
      removed := 0;
      for i := 0 to |doomed|
        invariant dirs == Remaining(old(dirs), NamesOf(doomed[..i]) - stuck)
        invariant removed == |Removable(doomed[..i], stuck)|
      {
        OneMoreDoomed(old(dirs), doomed, i, stuck);
        if doomed[i].name !in stuck {
          dirs := Remaining(dirs, {doomed[i].name});
          removed := removed + 1;
        }
      }
      assert doomed[..|doomed|] == doomed;
    }

    method Prune(names: seq<string>, keep: int, stuck: set<string>) returns (removed: nat)
      requires IsListing(dirs, names)
      modifies this
      ensures dirs == Remaining(old(dirs), NamesOf(Outranked(old(dirs), names, keep)) - stuck)
      ensures |names| <= NO_LIMIT ==> removed == |old(dirs).Keys - dirs.Keys|
    {
      var metas := ReadAll(names);
      var ranked := TerminalOnly(Take(NewestFirst(metas), NO_LIMIT));
      var k := if keep < 0 then 0 else keep;
      removed := RemoveAll(if k >= |ranked| then [] else ranked[k..], stuck);
      if |names| <= NO_LIMIT {
        OutrankedIsTail(old(dirs), names, keep);
        TailOfRanked(old(dirs), names, Kept(old(dirs), keep), stuck);
      }
    }

    method Clear(names: seq<string>, stuck: set<string>) returns (removed: nat)
      requires IsListing(dirs, names)
      modifies this
      ensures dirs == Remaining(old(dirs), NamesOf(Ranked(old(dirs), names)) - stuck)
      ensures |names| <= NO_LIMIT ==> removed == |old(dirs).Keys - dirs.Keys|
    {
      var metas := ReadAll(names);
      removed := RemoveAll(TerminalOnly(Take(NewestFirst(metas), NO_LIMIT)), stuck);
      if |names| <= NO_LIMIT {
        TailOfRanked(old(dirs), names, 0, stuck);
        assert Ranked(old(dirs), names)[0..] == Ranked(old(dirs), names);
      }
    }

    /**
      The store as `start` leaves it: pruned, with the new running job.  A record
      already under the new id is overwritten; anything else there makes it raise.
    */
    method Start(names: seq<string>, id: string, started: real, stuck: set<string>) returns (ok: bool)
      requires IsListing(dirs, names) && |names| <= NO_LIMIT
      modifies this
      ensures var doomed := NamesOf(Outranked(old(dirs), names, DEFAULT_TERMINAL_RETENTION));
              var pruned := Remaining(old(dirs), doomed - stuck);
              && (ok <==> ValidName(id) && (id in pruned ==> pruned[id].JobDir?))
              && dirs == (if ok then pruned[id := RunningDir(id, started)] else pruned)
              && |TerminalNames(dirs)| <= DEFAULT_TERMINAL_RETENTION + |doomed * stuck|
      ensures ok ==> RecordOf(dirs, id).Some? && RecordOf(dirs, id).value.state == Some(JobProtocol.Running)
      ensures forall n | n in old(dirs) && n !in TerminalNames(old(dirs)) && n != id :: n in dirs && dirs[n] == old(dirs)[n]
    {
      var _ := Prune(names, DEFAULT_TERMINAL_RETENTION, stuck);
      PruneKeepsNewest(old(dirs), names, DEFAULT_TERMINAL_RETENTION);
      ghost var doomed := NamesOf(Outranked(old(dirs), names, DEFAULT_TERMINAL_RETENTION));
      StuckStay(old(dirs), doomed, stuck);
      hide Outranked, NamesOf, RecordOf, TerminalNames, ValidName;
      ok := ValidName(id) && (id in dirs ==> dirs[id].JobDir?);
      if ok {
        AddRunning(dirs, id, started);
        dirs := dirs[id := RunningDir(id, started)];
      }
    }
  }

  function RunningDir(id: string, started: real): DirEntry {
    JobDir(Some(RawMeta(id, Text("running"), Number(started))))
  }

  /** Terminal records whose removal fails are what a prune leaves beyond those it keeps. */
  lemma StuckStay(dirs: Store, doomed: set<string>, stuck: set<string>)
    ensures |TerminalNames(Remaining(dirs, doomed - stuck))| <= |TerminalNames(Remaining(dirs, doomed))| + |doomed * stuck|
  {
    var all, few := Remaining(dirs, doomed - stuck), Remaining(dirs, doomed);
    forall n | n in few ensures RecordOf(few, n) == RecordOf(all, n) {}
    hide RecordOf;
    assert TerminalNames(all) <= TerminalNames(few) + doomed * stuck;
    SubsetSize(TerminalNames(all), TerminalNames(few) + doomed * stuck);
  }

  lemma {:induction false} SubsetSize(a: set<string>, b: set<string>)
    requires a <= b
    ensures |a| <= |b|
  {
    if a != {} {
      var x :| x in a;
      SubsetSize(a - {x}, b - {x});
    }
  }

  lemma AddRunning(dirs: Store, id: string, started: real)
    requires ValidName(id)
    ensures var more := dirs[id := RunningDir(id, started)];
            && RecordOf(more, id).Some? && RecordOf(more, id).value.state == Some(JobProtocol.Running)
            && |TerminalNames(more)| <= |TerminalNames(dirs)|
  {
    RunningIsRunning();
    hide NormaliseState, NormaliseStarted, ValidName;
    var more := dirs[id := RunningDir(id, started)];
    forall n | n in dirs && n != id ensures RecordOf(more, n) == RecordOf(dirs, n) {}
    assert TerminalNames(more) <= TerminalNames(dirs);
    SubsetSize(TerminalNames(more), TerminalNames(dirs));
  }

  lemma RunningIsRunning()
    ensures NormaliseState(Text("running")) == Some(JobProtocol.Running)
  {
    var s := "running";
    assert "" + s + "" == s && Spells(s, s);
    assert Says(s, s);
    StateMeans(s);
  }

  /** A listing of at most n records is the first n, and all when there are fewer. */
  lemma TakeMeans(front: seq<Record>, back: seq<Record>)
    ensures Take(front + back, |front|) == front && Take(front, |front| + |back|) == front
    ensures forall limit | limit <= 0 :: Take(front, limit) == []
  {
    assert (front + back)[..|front|] == front;
  }

  // ---------- what a record says ----------

  /** A text names a state exactly when it is that word, in any case, with blanks around it. */
  lemma StateMeans(text: string)
    ensures NormaliseState(Text(text)) == Some(JobProtocol.Running) <==> Says(text, "running")
    ensures NormaliseState(Text(text)) == Some(JobProtocol.Done) <==> Says(text, "done")
    ensures NormaliseState(Text(text)) == Some(JobProtocol.Failed) <==> Says(text, "failed")
    ensures NormaliseState(Text(text)) == Some(JobProtocol.Cancelled) <==> Says(text, "cancelled")
  {
    SaysExactly(text, "running");
    SaysExactly(text, "done");
    SaysExactly(text, "failed");
    SaysExactly(text, "cancelled");
  }

  predicate IsIdChar(c: char) {
    '0' <= c <= '9' || 'A' <= c <= 'Z' || 'a' <= c <= 'z' || c == '_' || c == '-'
  }

  /** Every id that `_new_job_id` can make names a job; no name with a slash, a blank or the like in it, nor a dot or two alone, does. */
  lemma FreshIdsAreValid(kind: string, stamp: string, rand: string, name: string)
    requires forall i | 0 <= i < |kind| :: IsIdChar(kind[i])
    requires forall i | 0 <= i < |stamp| :: IsIdChar(stamp[i])
    requires forall i | 0 <= i < |rand| :: IsIdChar(rand[i])
    ensures ValidName(kind + "-" + stamp + "-" + rand)
    ensures (exists c :: c in name && c in "/\\ \t\r\n:;*?[]^`{|}~@%$") || name in {"", ".", ".."} ==> !ValidName(name)
  {
    var id := kind + "-" + stamp + "-" + rand;
    assert id[|kind|] == '-';
    forall i | 0 <= i < |id| ensures IsIdChar(id[i]) {}
  }

  /** The stored start time is this number, given as a number or as a text. */
  predicate Begun(raw: RawStarted, x: real) {
    raw == Number(x) || raw == Numeral(Some(x))
  }

  /** The stored state names an end of the job. */
  ghost predicate SaysEnded(raw: RawState) {
    raw.Text? && (Says(raw.text, "done") || Says(raw.text, "failed") || Says(raw.text, "cancelled"))
  }

  /** A real directory under a name of letters, digits, dots, dashes and underscores, whose metadata says the job ended. */
  ghost predicate Ended(dirs: Store, n: string) {
    && n in dirs && ValidName(n) && dirs[n].JobDir? && dirs[n].meta.Some?
    && SaysEnded(dirs[n].meta.value.state)
  }

  lemma EndedIsTerminal(dirs: Store)
    ensures forall n :: n in TerminalNames(dirs) <==> Ended(dirs, n)
  {
    hide ValidName, Says, NormaliseState;
    forall n ensures n in TerminalNames(dirs) <==> Ended(dirs, n) {
      if n in dirs && dirs[n].JobDir? && dirs[n].meta.Some? {
        var raw := dirs[n].meta.value.state;
        if raw.Text? { StateMeans(raw.text); } else { NotTextIsUnknown(raw); }
      }
    }
  }

  lemma NotTextIsUnknown(raw: RawState)
    requires raw.NotText?
    ensures NormaliseState(raw).None?
  {}

  /**
    In the words of the metadata: prune removes ended jobs only, keeps min(keep, T)
    of the T ended ones, and none that goes began later than one that stays; a
    start time that is no number, or negative, counts as the oldest.
  */
  lemma PruneKeepsLastBegun(dirs: Store, names: seq<string>, keep: int, a: string, b: string)
    requires IsListing(dirs, names) && |names| <= NO_LIMIT
    ensures var gone := NamesOf(Outranked(dirs, names, keep));
            var after := Remaining(dirs, gone);
            && |set n | n in after && Ended(after, n)| == Kept(dirs, keep)
            && (b in gone ==> Ended(dirs, b))
            && (a in after && Ended(after, a) && b in gone ==>
                  var x, y := dirs[a].meta.value.started, dirs[b].meta.value.started;
                  forall t | Begun(y, t) && t > 0.0 :: exists s :: Begun(x, s) && s >= t)
  {
    var gone := NamesOf(Outranked(dirs, names, keep));
    var after := Remaining(dirs, gone);
    PruneKeepsNewest(dirs, names, keep);
    EndedIsTerminal(dirs);
    EndedIsTerminal(after);
    EndedSet(after);
    hide Outranked, TerminalNames, Ended;
    if b in gone {
      GoneIsTerminal(dirs, names, keep, b);
    }
    if a in after && Ended(after, a) && b in gone {
      assert a in TerminalNames(after);
      RecordsCompare(dirs, a, b);
      TerminalHasMeta(after, a);
    }
  }

  lemma EndedSet(dirs: Store)
    ensures (set n | n in dirs && Ended(dirs, n)) == TerminalNames(dirs)
  {
    EndedIsTerminal(dirs);
    hide Ended;
  }

  lemma GoneIsTerminal(dirs: Store, names: seq<string>, keep: int, b: string)
    requires IsListing(dirs, names) && |names| <= NO_LIMIT && b in NamesOf(Outranked(dirs, names, keep))
    ensures b in TerminalNames(dirs)
  {
    RankedIsExact(dirs, names);
    hide Ranked, RecordOf;
    assert b in NamesOf(Ranked(dirs, names));
  }

  lemma TerminalHasMeta(dirs: Store, n: string)
    requires n in TerminalNames(dirs)
    ensures n in dirs && dirs[n].JobDir? && dirs[n].meta.Some?
  {}

  lemma RecordsCompare(dirs: Store, a: string, b: string)
    requires a in dirs && b in dirs
    ensures RecordOf(dirs, a).Some? && RecordOf(dirs, b).Some? && RecordOf(dirs, a).value.started >= RecordOf(dirs, b).value.started ==>
      forall t | Begun(dirs[b].meta.value.started, t) && t > 0.0 ::
        exists s :: Begun(dirs[a].meta.value.started, s) && s >= t
  {
    if RecordOf(dirs, a).Some? && RecordOf(dirs, b).Some? && RecordOf(dirs, a).value.started >= RecordOf(dirs, b).value.started {
      var x := dirs[a].meta.value.started;
      forall t | Begun(dirs[b].meta.value.started, t) && t > 0.0 ensures exists s :: Begun(x, s) && s >= t {
        var s := RecordOf(dirs, a).value.started;
        assert Begun(x, s);
      }
    }
  }

  // ---------- what retention promises ----------

  /** The names of the terminal records on disk. */
  function TerminalNames(dirs: Store): set<string> {
    set n | n in dirs && RecordOf(dirs, n).Some? && Terminal(RecordOf(dirs, n).value.state)
  }

  ghost predicate Descending(s: seq<Record>) {
    forall i, j | 0 <= i < j < |s| :: s[i].started >= s[j].started
  }

  ghost predicate DistinctNames(s: seq<Record>) {
    forall i, j | 0 <= i < j < |s| :: s[i].name != s[j].name
  }

  lemma {:induction false} CollectIsExact(dirs: Store, names: seq<string>)
    requires forall i, j | 0 <= i < j < |names| :: names[i] != names[j]
    ensures DistinctNames(Collect(dirs, names)) && |Collect(dirs, names)| <= |names|
    ensures forall r :: r in Collect(dirs, names) <==> r.name in names && RecordOf(dirs, r.name) == Some(r)
  {
    if names != [] {
      var shorter, last := names[..|names| - 1], names[|names| - 1];
      CollectIsExact(dirs, shorter);
      assert names == shorter + [last];
    }
  }

  lemma NewestFirstSorts(records: seq<Record>)
    ensures Descending(NewestFirst(records)) && multiset(NewestFirst(records)) == multiset(records)
  {
    SortedSorts(NotOlder, records);
    hide Sorted;
    var s := NewestFirst(records);
    forall i, j | 0 <= i < j < |s| ensures s[i].started >= s[j].started {
      assert NotOlder(s[i], s[j]);
    }
  }

  lemma {:induction false} DistinctByMultiset(a: seq<Record>, b: seq<Record>)
    requires multiset(a) == multiset(b) && DistinctNames(a)
    ensures DistinctNames(b)
  {
    forall i, j | 0 <= i < j < |b| ensures b[i].name != b[j].name {
      if b[i].name == b[j].name {
        assert b[i] in multiset(a) && b[j] in multiset(a);
        assert b[i] == b[j];
        TwiceInMultiset(b, i, j);
        OnceInMultiset(a, b[i]);
      }
    }
  }

  lemma TwiceInMultiset(s: seq<Record>, i: nat, j: nat)
    requires i < j < |s| && s[i] == s[j]
    ensures multiset(s)[s[i]] >= 2
  {
    assert s == s[..i] + [s[i]] + s[i + 1..j] + [s[j]] + s[j + 1..];
  }

  lemma {:induction false} OnceInMultiset(s: seq<Record>, r: Record)
    requires DistinctNames(s)
    ensures multiset(s)[r] <= 1
  {
    if s != [] {
      var shorter, last := s[..|s| - 1], s[|s| - 1];
      assert s == shorter + [last];
      OnceInMultiset(shorter, r);
    }
  }

  lemma {:induction false} TerminalOnlyKeeps(s: seq<Record>)
    requires Descending(s) && DistinctNames(s)
    ensures Descending(TerminalOnly(s)) && DistinctNames(TerminalOnly(s))
    ensures forall r :: r in TerminalOnly(s) <==> r in s && Terminal(r.state)
  {
    if s != [] {
      var shorter, last := s[..|s| - 1], s[|s| - 1];
      TerminalOnlyKeeps(shorter);
      assert s == shorter + [last];
      var t := TerminalOnly(shorter);
      forall i | 0 <= i < |t| ensures t[i].started >= last.started && t[i].name != last.name {
        assert t[i] in shorter;
      }
    }
  }

  /** The ranking: every terminal record once, newest first. */
  lemma RankedIsExact(dirs: Store, names: seq<string>)
    requires IsListing(dirs, names) && |names| <= NO_LIMIT
    ensures Descending(Ranked(dirs, names)) && DistinctNames(Ranked(dirs, names))
    ensures NamesOf(Ranked(dirs, names)) == TerminalNames(dirs)
    ensures forall r | r in Ranked(dirs, names) :: RecordOf(dirs, r.name) == Some(r)
  {
    var all := Collect(dirs, names);
    CollectIsExact(dirs, names);
    NewestFirstSorts(all);
    var sorted := NewestFirst(all);
    assert |sorted| == |multiset(sorted)| == |multiset(all)| == |all|;
    assert Take(sorted, NO_LIMIT) == sorted;
    DistinctByMultiset(all, sorted);
    TerminalOnlyKeeps(sorted);
    forall r ensures r in sorted <==> r in all {
      assert r in multiset(sorted) <==> r in multiset(all);
    }
    forall n | n in TerminalNames(dirs) ensures n in NamesOf(Ranked(dirs, names)) {
      assert RecordOf(dirs, n).value in all;
    }
  }

  lemma {:induction false} CountNames(s: seq<Record>)
    requires DistinctNames(s)
    ensures |NamesOf(s)| == |s|
  {
    if s != [] {
      var shorter, last := s[..|s| - 1], s[|s| - 1];
      CountNames(shorter);
      assert s == shorter + [last];
      assert NamesOf(s) == NamesOf(shorter) + {last.name};
    }
  }

  /** After the tail of the ranking is gone, its head is what is left of the terminal records. */
  lemma HeadRemains(dirs: Store, ranked: seq<Record>, k: nat)
    requires k <= |ranked| && DistinctNames(ranked) && NamesOf(ranked) == TerminalNames(dirs)
    ensures TerminalNames(Remaining(dirs, NamesOf(ranked[k..]))) == NamesOf(ranked[..k])
  {
    var after := Remaining(dirs, NamesOf(ranked[k..]));
    forall n | n in after ensures RecordOf(after, n) == RecordOf(dirs, n) {}
    hide RecordOf;
    forall n | n in NamesOf(ranked[..k]) ensures n in TerminalNames(after) {
      var i :| 0 <= i < k && ranked[i].name == n;
      assert ranked[i] in ranked && n in NamesOf(ranked);
      assert n !in NamesOf(ranked[k..]);
    }
    forall n | n in TerminalNames(after) ensures n in NamesOf(ranked[..k]) {
      assert n in NamesOf(ranked) && n !in NamesOf(ranked[k..]);
      assert ranked == ranked[..k] + ranked[k..];
    }
  }

  /** Whatever is in the head is at least as new as whatever is in the tail. */
  lemma HeadIsNewer(ranked: seq<Record>, k: nat, a: Record, b: Record)
    requires k <= |ranked| && Descending(ranked) && a in ranked[..k] && b in ranked[k..]
    ensures a.started >= b.started
  {
    var i :| 0 <= i < k && ranked[i] == a;
    var j :| 0 <= j < |ranked| - k && ranked[k..][j] == b;
    assert ranked[k + j] == b;
  }

  lemma NamesMore(s: seq<Record>)
    requires s != [] && DistinctNames(s)
    ensures var shorter, n := s[..|s| - 1], s[|s| - 1].name;
            DistinctNames(shorter) && n !in NamesOf(shorter) && NamesOf(s) == NamesOf(shorter) + {n}
  {
    assert s == s[..|s| - 1] + [s[|s| - 1]];
  }

  lemma LastName(s: seq<Record>, stuck: set<string>)
    requires s != [] && DistinctNames(s)
    ensures var shorter, n := s[..|s| - 1], s[|s| - 1].name;
            DistinctNames(shorter)
            && |NamesOf(s) - stuck| == |NamesOf(shorter) - stuck| + (if n in stuck then 0 else 1)
  {
    var shorter, last := s[..|s| - 1], s[|s| - 1];
    NamesMore(s);
    hide NamesOf, DistinctNames;
    assert NamesOf(s) - stuck == (NamesOf(shorter) - stuck) + (if last.name in stuck then {} else {last.name});
  }

  lemma {:induction false} CountRemovable(s: seq<Record>, stuck: set<string>)
    requires DistinctNames(s)
    ensures |Removable(s, stuck)| == |NamesOf(s) - stuck|
  {
    hide DistinctNames;
    if s != [] {
      LastName(s, stuck);
      CountRemovable(s[..|s| - 1], stuck);
      OneMoreDoomed(map[], s, |s| - 1, stuck);
      assert s[..|s|] == s;
    } else {
      NothingDoomed(map[], stuck);
    }
  }

  /** Removing from the ranking takes as many directories as it has removable positions. */
  lemma TailOfRanked(dirs: Store, names: seq<string>, k: nat, stuck: set<string>)
    requires IsListing(dirs, names) && |names| <= NO_LIMIT && k <= |Ranked(dirs, names)|
    ensures var tail := Ranked(dirs, names)[k..];
            |Removable(tail, stuck)| == |dirs.Keys - Remaining(dirs, NamesOf(tail) - stuck).Keys|
  {
    RankedIsExact(dirs, names);
    hide Ranked, Removable, RecordOf;
    var tail := Ranked(dirs, names)[k..];
    forall r | r in tail ensures r.name in dirs {
      assert r in Ranked(dirs, names) && r.name in NamesOf(Ranked(dirs, names));
    }
    CountRemovable(tail, stuck);
    assert dirs.Keys - Remaining(dirs, NamesOf(tail) - stuck).Keys == NamesOf(tail) - stuck;
  }

  /** How many of the terminal records stay. */
  function Kept(dirs: Store, keep: int): nat {
    if keep < 0 then 0 else if keep < |TerminalNames(dirs)| then keep else |TerminalNames(dirs)|
  }

  lemma OutrankedIsTail(dirs: Store, names: seq<string>, keep: int)
    requires IsListing(dirs, names) && |names| <= NO_LIMIT
    ensures |Ranked(dirs, names)| == |TerminalNames(dirs)|
    ensures Outranked(dirs, names, keep) == Ranked(dirs, names)[Kept(dirs, keep)..]
  {
    RankedIsExact(dirs, names);
    CountNames(Ranked(dirs, names));
  }

  /**
    prune(keep), when removals succeed: exactly min(keep, T) of the T terminal
    records stay, each at least as new as each removed one, and nothing that is
    running, unknown, unreadable or no job at all is touched.
  */
  lemma PruneKeepsNewest(dirs: Store, names: seq<string>, keep: int)
    requires IsListing(dirs, names) && |names| <= NO_LIMIT
    ensures var gone := NamesOf(Outranked(dirs, names, keep));
            var after := Remaining(dirs, gone);
            && |TerminalNames(after)| == Kept(dirs, keep)
            && (forall n | n in dirs && n !in TerminalNames(dirs) :: n in after && after[n] == dirs[n])
            && (forall a, b | a in TerminalNames(after) && b in gone ::
                  b in TerminalNames(dirs) && RecordOf(dirs, a).value.started >= RecordOf(dirs, b).value.started)
  {
    OutrankedIsTail(dirs, names, keep);
    RankedIsExact(dirs, names);
    hide Ranked, Outranked, RecordOf, TerminalNames;
    var ranked, k := Ranked(dirs, names), Kept(dirs, keep);
    HeadRemains(dirs, ranked, k);
    CountNames(ranked[..k]);
    var after := Remaining(dirs, NamesOf(ranked[k..]));
    forall n | n in NamesOf(ranked[k..]) ensures n in NamesOf(ranked) {}
    forall a, b | a in TerminalNames(after) && b in NamesOf(ranked[k..])
      ensures b in TerminalNames(dirs) && RecordOf(dirs, a).Some? && RecordOf(dirs, b).Some?
      ensures RecordOf(dirs, a).value.started >= RecordOf(dirs, b).value.started
    {
      var x :| x in ranked[..k] && x.name == a;
      var y :| y in ranked[k..] && y.name == b;
      assert x in ranked && y in ranked;
      HeadIsNewer(ranked, k, x, y);
    }
  }

  /** `clear`, when removals succeed, removes exactly the terminal records. */
  lemma ClearRemovesTerminalOnly(dirs: Store, names: seq<string>)
    requires IsListing(dirs, names) && |names| <= NO_LIMIT
    ensures Remaining(dirs, NamesOf(Ranked(dirs, names))) == Remaining(dirs, TerminalNames(dirs))
    ensures TerminalNames(Remaining(dirs, NamesOf(Ranked(dirs, names)))) == {}
  {
    RankedIsExact(dirs, names);
  }

  /** Two stores that differ at most in the ids stored inside the records. */
  ghost predicate SameButIds(a: Store, b: Store) {
    && a.Keys == b.Keys
    && forall n | n in a :: a[n] == b[n]
         || (a[n].JobDir? && b[n].JobDir? && a[n].meta.Some? && b[n].meta.Some?
             && a[n].meta.value.(id := b[n].meta.value.id) == b[n].meta.value)
  }

  /** A forged id inside the metadata changes nothing about what is removed. */
  lemma ForgedIdsDoNotMatter(a: Store, b: Store, names: seq<string>, keep: int)
    requires SameButIds(a, b)
    ensures Outranked(a, names, keep) == Outranked(b, names, keep)
    ensures Ranked(a, names) == Ranked(b, names)
  {
    CollectIgnoresIds(a, b, names);
  }

  lemma {:induction false} CollectIgnoresIds(a: Store, b: Store, names: seq<string>)
    requires SameButIds(a, b)
    ensures Collect(a, names) == Collect(b, names)
  {
    if names != [] {
      CollectIgnoresIds(a, b, names[..|names| - 1]);
      var n := names[|names| - 1];
      assert RecordOf(a, n) == RecordOf(b, n);
    }
  }
}
