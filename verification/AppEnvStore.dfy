/**
  The shared app.env of core/db/_base.py: the two merges, and their
  interleaving under the advisory lock with readers that take no lock.
*/
module AppEnvStore {
  import opened Wrappers
  import opened AppEnvCodec

  // ---------- the merges ----------

  predicate IsDbKey(key: string) {
    "DB_" <= key
  }

  function DropDb(d: Dict): Dict {
    if d == [] then [] else (if IsDbKey(d[0].key) then [] else [d[0]]) + DropDb(d[1..])
  }

  /** dict.update */
  function Update(d: Dict, updates: Dict): Dict
    decreases |updates|
  {
    if updates == [] then d else Update(Put(d, updates[0].key, updates[0].value), updates[1..])
  }

  /** `write_app_env` drops the old DB_* keys; `update_app_env` keeps everything. */
  datatype Operation = Write(mapping: Dict) | Patch(updates: Dict)

  function Merge(op: Operation, existing: Dict): Dict {
    match op
    case Write(mapping) => Update(DropDb(existing), mapping)
    case Patch(updates) => Update(existing, updates)
  }

  /** A missing file reads as no settings. */
  function ParseFile(file: Option<string>): Dict {
    if file.None? then [] else Parse(file.value)
  }

  /** The file after one operation that nothing disturbs. */
  function Effect(op: Operation, file: Option<string>): string {
    Render(Merge(op, ParseFile(file)))
  }

  predicate Permitted(op: Operation) {
    match op case Write(mapping) => Writable(mapping) case Patch(updates) => Writable(updates)
  }

  /** The file as the object both operations rewrite. */
  class AppEnvFile {
    var file: Option<string>

    method WriteAppEnv(mapping: Dict)
      modifies this
      ensures file == Some(Effect(Write(mapping), old(file)))
    {
      var existing := [];
      if file.Some? {
        existing := ReadAppEnv(file.value);
      }
      var merged: Dict := [];
      for i := 0 to |existing|
        invariant merged + DropDb(existing[i..]) == DropDb(existing)
      {
        assert existing[i..][1..] == existing[i + 1..];
        if !IsDbKey(existing[i].key) {
          merged := merged + [existing[i]];
        }
      }
      assert existing[|existing|..] == [] && merged == DropDb(existing);
      merged := UpdateLoop(merged, mapping);
      var body := RenderAppEnv(merged);
      file := Some(body);
    }

    method UpdateAppEnv(updates: Dict)
      modifies this
      ensures file == Some(Effect(Patch(updates), old(file)))
    {
      var merged := [];
      if file.Some? {
        merged := ReadAppEnv(file.value);
      }
      merged := UpdateLoop(merged, updates);
      var body := RenderAppEnv(merged);
      file := Some(body);
    }
  }

  method UpdateLoop(d: Dict, updates: Dict) returns (merged: Dict)
    ensures merged == Update(d, updates)
  {
    merged := d;
    for i := 0 to |updates|
      invariant Update(merged, updates[i..]) == Update(d, updates)
    {
      assert updates[i..][1..] == updates[i + 1..];
      merged := Put(merged, updates[i].key, updates[i].value);
    }
    assert updates[|updates|..] == [];
  }

  // ---------- what one operation does to the settings ----------

  lemma {:induction false} UpdateLooksUp(d: Dict, updates: Dict)
    requires Writable(d) && Writable(updates)
    ensures Writable(Update(d, updates))
    ensures forall k ::
      Lookup(Update(d, updates), k) == (if Lookup(updates, k).Some? then Lookup(updates, k) else Lookup(d, k))
    decreases |updates|
  {
    if updates != [] {
      var item := updates[0];
      PutWritable(d, item.key, item.value);
      PutKeys(d, item.key, item.value);
      UpdateLooksUp(Put(d, item.key, item.value), updates[1..]);
      AbsentKey(updates[1..], item.key);
    }
  }

  lemma {:induction false} AbsentKey(d: Dict, key: string)
    requires forall i | 0 <= i < |d| :: d[i].key != key
    ensures Lookup(d, key) == None
  {
    if d != [] { AbsentKey(d[1..], key); }
  }

  lemma {:induction false} DropDbWritable(d: Dict)
    requires Writable(d)
    ensures Writable(DropDb(d)) && (forall i | 0 <= i < |DropDb(d)| :: DropDb(d)[i] in d)
  {
    if d != [] {
      DropDbWritable(d[1..]);
      var rest := DropDb(d[1..]);
      forall i | 0 <= i < |rest| ensures rest[i].key != d[0].key && rest[i] in d {
        var j :| 0 <= j < |d[1..]| && d[1..][j] == rest[i];
        assert d[j + 1] == rest[i];
      }
    }
  }

  lemma {:induction false} DropDbLooksUp(d: Dict, k: string)
    requires Writable(d)
    ensures Lookup(DropDb(d), k) == if IsDbKey(k) then None else Lookup(d, k)
  {
    if d != [] {
      DropDbLooksUp(d[1..], k);
      AbsentKey(d[1..], d[0].key);
      if !IsDbKey(d[0].key) {
        assert DropDb(d)[1..] == DropDb(d[1..]);
      } else {
        assert DropDb(d) == DropDb(d[1..]);
      }
    }
  }

  lemma {:induction false} CleanedLooksUp(d: Dict, k: string)
    ensures Lookup(Cleaned(d), k) == match Lookup(d, k) case None => None case Some(v) => Some(Clean(v))
  {
    if d != [] {
      assert Cleaned(d)[1..] == Cleaned(d[1..]);
      CleanedLooksUp(d[1..], k);
    }
  }

  lemma {:induction false} ClearLookup(d: Dict, k: string)
    requires Clear(d) && Lookup(d, k).Some?
    ensures Clean(Lookup(d, k).value) == Lookup(d, k).value
  {
    if d[0].key == k {
      CleanHasNoBreaks(d[0].value);
    } else {
      ClearLookup(d[1..], k);
    }
  }

  /** What a reader finds under `k` after `op`. */
  function After(op: Operation, existing: Dict, k: string): Option<string> {
    var supplied := Lookup(if op.Write? then op.mapping else op.updates, k);
    if supplied.Some? then Some(Clean(supplied.value))
    else if op.Write? && IsDbKey(k) then None
    else Lookup(existing, k)
  }

  /**
    Whatever the file held: afterwards a supplied key has the supplied value
    without CR and LF, after `write_app_env` the DB_* keys are exactly those
    supplied, and every other key keeps its parsed value.
  */
  lemma OperationSetsExactly(op: Operation, file: Option<string>, k: string)
    requires Permitted(op)
    ensures Lookup(Parse(Effect(op, file)), k) == After(op, ParseFile(file), k)
  {
    var existing := ParseFile(file);
    if file.Some? { ReadIsStable(file.value); }
    DropDbWritable(existing);
    DropDbLooksUp(existing, k);
    var base := if op.Write? then DropDb(existing) else existing;
    var supplied := if op.Write? then op.mapping else op.updates;
    UpdateLooksUp(base, supplied);
    RoundTrip(Merge(op, existing));
    CleanedLooksUp(Merge(op, existing), k);
    if Lookup(supplied, k).None? && Lookup(existing, k).Some? {
      ClearLookup(existing, k);
    }
  }

  /** After `write_app_env` no old key that begins with DB_ is left, and every key that does not begin so keeps its value. */
  lemma StaleDbKeysGo(mapping: Dict, file: Option<string>, key: string)
    requires Writable(mapping) && Lookup(mapping, key) == None
    ensures var after := Lookup(Parse(Effect(Write(mapping), file)), key);
            if |key| >= 3 && key[0] == 'D' && key[1] == 'B' && key[2] == '_' then after == None
            else after == Lookup(ParseFile(file), key)
  {
    hide Parse, Effect, ParseFile;
    OperationSetsExactly(Write(mapping), file, key);
    if |key| >= 3 { assert key[..3] == [key[0], key[1], key[2]]; }
  }

  // ---------- many writers and readers at once ----------

  type Inode = nat
  type Client = nat

  datatype WriterPc =
    | Waiting
    | Locked
    | Opened(inode: Option<Inode>)
    | Merging(existing: Dict)
    | Writing(temp: Inode, body: string, done: nat)
    | Replaced
    | Released
    | Stopped                    // raised or crashed; the kernel dropped its lock

  datatype ReaderPc =
    | Ready
    | Reading(inode: Option<Inode>, at: nat, got: string)
    | Finished(at: nat, result: Dict)

  /** `begun` is how many operations had been committed when the call began. */
  datatype Writer = Writer(op: Operation, begun: nat, pc: WriterPc)
  datatype Reader = Reader(begun: nat, pc: ReaderPc)

  /** The directory entry, the inodes it has pointed or may point to, the lock, and who committed in which order. */
  datatype State = State(
    inodes: map<Inode, string>, entry: Option<Inode>, holder: Option<Client>,
    writers: map<Client, Writer>, readers: map<Client, Reader>, log: seq<(Client, Operation)>)

  datatype Action =
    | NewWriter(client: Client, op: Operation)
    | NewReader(client: Client)
    | WriterStep(client: Client, inode: Inode, bytes: nat)
    | WriterStops(client: Client)
    | ReaderStep(client: Client, bytes: nat)

  function FileOf(s: State): Option<string> {
    if s.entry.Some? && s.entry.value in s.inodes then Some(s.inodes[s.entry.value]) else None
  }

  function MoveWriter(s: State, c: Client, pc: WriterPc): State
    requires c in s.writers
  {
    s.(writers := s.writers[c := s.writers[c].(pc := pc)])
  }

  function MoveReader(s: State, c: Client, pc: ReaderPc): State
    requires c in s.readers
  {
    s.(readers := s.readers[c := s.readers[c].(pc := pc)])
  }

  function Step(s: State, a: Action): Option<State> {
    match a
    case NewWriter(c, op) =>
      if c in s.writers || !Permitted(op) then None
      else Some(s.(writers := s.writers[c := Writer(op, |s.log|, Waiting)]))
    case NewReader(c) =>
      if c in s.readers then None else Some(s.(readers := s.readers[c := Reader(|s.log|, Ready)]))
    case WriterStep(c, inode, bytes) => if c in s.writers then StepWriter(s, c, inode, bytes) else None
    case WriterStops(c) =>
      if c !in s.writers || s.writers[c].pc == Released then None
      else Some(MoveWriter(s, c, Stopped).(holder := if s.holder == Some(c) then None else s.holder))
    case ReaderStep(c, bytes) => if c in s.readers then StepReader(s, c, bytes) else None
  }

  /** Lock, open, read, create the temporary file, write it piece by piece, rename it over app.env, unlock. */
  function StepWriter(s: State, c: Client, inode: Inode, bytes: nat): Option<State>
    requires c in s.writers
  {
    match s.writers[c].pc
    case Waiting => if s.holder.None? then Some(MoveWriter(s, c, Locked).(holder := Some(c))) else None
    case Locked => Some(MoveWriter(s, c, Opened(s.entry)))
    case Opened(i) =>
      Some(MoveWriter(s, c, Merging(if i.Some? && i.value in s.inodes then Parse(s.inodes[i.value]) else [])))
    case Merging(existing) =>
      if inode in s.inodes then None
      else Some(MoveWriter(s, c, Writing(inode, Render(Merge(s.writers[c].op, existing)), 0))
                .(inodes := s.inodes[inode := ""]))
    case Writing(i, body, done) =>
      if bytes == 0 then
        if done != |body| then None
        else Some(MoveWriter(s, c, Replaced).(entry := Some(i), log := s.log + [(c, s.writers[c].op)]))
      else if done + bytes > |body| then None
      else Some(MoveWriter(s, c, Writing(i, body, done + bytes)).(inodes := s.inodes[i := body[..done + bytes]]))
    case Replaced => Some(MoveWriter(s, c, Released).(holder := None))
    case Released => None
    case Stopped => None
  }

  /** Open, read piece by piece to the end of that inode, parse. */
  function StepReader(s: State, c: Client, bytes: nat): Option<State>
    requires c in s.readers
  {
    match s.readers[c].pc
    case Ready => Some(MoveReader(s, c, Reading(s.entry, |s.log|, "")))
    case Reading(i, at, got) =>
      if i.None? || i.value !in s.inodes then Some(MoveReader(s, c, Finished(at, [])))
      else
        var text := s.inodes[i.value];
        if |got| + bytes > |text| then None
        else if bytes == 0 then
          if |got| == |text| then Some(MoveReader(s, c, Finished(at, Parse(got)))) else None
        else Some(MoveReader(s, c, Reading(i, at, got + text[|got|..|got| + bytes])))
    case Finished(_, _) => None
  }

  // ---------- serial equivalence ----------

  /** The file after running the logged operations one after the other. */
  function Serial(init: Option<string>, log: seq<(Client, Operation)>): Option<string> {
    if log == [] then init
    else Some(Effect(log[|log| - 1].1, Serial(init, log[..|log| - 1])))
  }

  /** The client has committed, as entry i of the log. */
  predicate CommittedAt(s: State, c: Client, i: nat) {
    i < |s.log| && s.log[i].0 == c
  }

  ghost predicate Holds(pc: WriterPc) {
    pc.Locked? || pc.Opened? || pc.Merging? || pc.Writing? || pc.Replaced?
  }

  ghost predicate WriterInv(s: State, c: Client)
    requires c in s.writers
  {
    var w := s.writers[c];
    && Permitted(w.op)
    && w.begun <= |s.log|
    && (Holds(w.pc) ==> s.holder == Some(c))
    && (w.pc.Opened? ==> w.pc.inode == s.entry)
    && (w.pc.Merging? ==> w.pc.existing == ParseFile(FileOf(s)))
    && (w.pc.Writing? ==>
          && w.pc.temp in s.inodes && s.entry != Some(w.pc.temp)
          && w.pc.done <= |w.pc.body| && s.inodes[w.pc.temp] == w.pc.body[..w.pc.done]
          && w.pc.body == Effect(w.op, FileOf(s)))
    // Committed exactly once, within the call, with its own operation; or not at all.
    && (forall i: nat | CommittedAt(s, c, i) :: w.begun <= i && s.log[i].1 == w.op)
    && (forall i: nat, j: nat | CommittedAt(s, c, i) && CommittedAt(s, c, j) :: i == j)
    && (w.pc.Replaced? || w.pc.Released? ==> exists i: nat :: CommittedAt(s, c, i))
    && (!w.pc.Replaced? && !w.pc.Released? && !w.pc.Stopped? ==> forall i: nat :: !CommittedAt(s, c, i))
  }

  /** The inode is nobody's unfinished temporary file. */
  ghost predicate Settled(s: State, inode: Inode) {
    forall c | c in s.writers && s.writers[c].pc.Writing? :: s.writers[c].pc.temp != inode
  }

  ghost predicate ReaderInv(init: Option<string>, s: State, c: Client)
    requires c in s.readers
  {
    var r := s.readers[c];
    && r.begun <= |s.log|
    && (r.pc.Reading? ==>
          && r.begun <= r.pc.at <= |s.log|
          && (if r.pc.inode.None? then Serial(init, s.log[..r.pc.at]) == None
              else
                && r.pc.inode.value in s.inodes && Settled(s, r.pc.inode.value)
                && Serial(init, s.log[..r.pc.at]) == Some(s.inodes[r.pc.inode.value])
                && r.pc.got <= s.inodes[r.pc.inode.value]))
    && (r.pc.Finished? ==>
          r.begun <= r.pc.at <= |s.log| && r.pc.result == ParseFile(Serial(init, s.log[..r.pc.at])))
  }

  ghost predicate Inv(init: Option<string>, s: State) {
    && (s.entry.Some? ==> s.entry.value in s.inodes && Settled(s, s.entry.value))
    && FileOf(s) == Serial(init, s.log)
    && (forall i | 0 <= i < |s.log| :: s.log[i].0 in s.writers)
    && (forall c | c in s.writers :: WriterInv(s, c))
    && (forall c | c in s.readers :: ReaderInv(init, s, c))
  }

  predicate Init(s: State) {
    s.writers == map[] && s.readers == map[] && s.log == [] && s.holder == None
    && (s.entry.Some? ==> s.entry.value in s.inodes)
  }

  function Run(s: State, acts: seq<Action>): Option<State>
    decreases |acts|
  {
    if acts == [] then Some(s)
    else match Step(s, acts[0]) case None => None case Some(t) => Run(t, acts[1..])
  }

  lemma InitInv(s: State)
    requires Init(s)
    ensures Inv(FileOf(s), s)
  {}

  /** A step of somebody else leaves a writer's knowledge valid: only the lock holder changes what the file is. */
  lemma OtherWriterKeeps(s: State, t: State, d: Client)
    requires d in s.writers && d in t.writers && t.writers[d] == s.writers[d] && WriterInv(s, d)
    requires s.log <= t.log && forall i | |s.log| <= i < |t.log| :: t.log[i].0 != d
    requires Holds(s.writers[d].pc) ==> t.holder == s.holder && t.entry == s.entry && FileOf(t) == FileOf(s)
    requires s.writers[d].pc.Writing? ==>
      var temp := s.writers[d].pc.temp; temp in t.inodes && t.inodes[temp] == s.inodes[temp]
    ensures WriterInv(t, d)
  {
    forall i: nat ensures CommittedAt(t, d, i) <==> CommittedAt(s, d, i) {}
  }

  lemma OtherReaderKeeps(init: Option<string>, s: State, t: State, d: Client)
    requires d in s.readers && d in t.readers && t.readers[d] == s.readers[d] && ReaderInv(init, s, d)
    requires s.log <= t.log
    requires s.readers[d].pc.Reading? && s.readers[d].pc.inode.Some? ==>
      var i := s.readers[d].pc.inode.value; i in t.inodes && t.inodes[i] == s.inodes[i] && Settled(t, i)
    ensures ReaderInv(init, t, d)
  {
    var pc := s.readers[d].pc;
    if pc.Reading? || pc.Finished? {
      assert s.log[..pc.at] == t.log[..pc.at];
    }
  }

  /** What a step of writer c can touch: itself, its temporary file, the lock; by the rename also the entry and the log. */
  ghost predicate OnlyTouches(s: State, t: State, c: Client)
    requires c in s.writers
  {
    && t.readers == s.readers && t.writers.Keys == s.writers.Keys
    && (forall d | d in s.writers && d != c :: t.writers[d] == s.writers[d])
    && (forall i | i in s.inodes ::
          && i in t.inodes
          && (t.inodes[i] == s.inodes[i] || (s.writers[c].pc.Writing? && i == s.writers[c].pc.temp)))
    && (t.writers[c].pc.Writing? ==>
          t.writers[c].pc.temp !in s.inodes || (s.writers[c].pc.Writing? && t.writers[c].pc.temp == s.writers[c].pc.temp))
  }

  /** The other clients after a step of writer c. */
  lemma OthersKeep(init: Option<string>, s: State, t: State, c: Client)
    requires Inv(init, s) && c in s.writers && OnlyTouches(s, t, c)
    requires s.log <= t.log && forall i | |s.log| <= i < |t.log| :: t.log[i].0 == c
    requires (t.holder == s.holder && t.entry == s.entry && FileOf(t) == FileOf(s)) || s.holder == None || s.holder == Some(c)
    ensures forall d | d in t.writers && d != c :: WriterInv(t, d)
    ensures forall d | d in t.readers :: ReaderInv(init, t, d)
  {
    forall d | d in t.writers && d != c ensures WriterInv(t, d) {
      assert WriterInv(s, d) && WriterInv(s, c);
      OtherWriterKeeps(s, t, d);
    }
    forall d | d in t.readers ensures ReaderInv(init, t, d) {
      assert ReaderInv(init, s, d);
      var pc := s.readers[d].pc;
      if pc.Reading? && pc.inode.Some? {
        forall e | e in t.writers && t.writers[e].pc.Writing? ensures t.writers[e].pc.temp != pc.inode.value {
          assert e in s.writers;
        }
      }
      OtherReaderKeeps(init, s, t, d);
    }
  }

  lemma EffectIsMergeOfRead(op: Operation, file: Option<string>)
    ensures Effect(op, file) == Render(Merge(op, ParseFile(file)))
    ensures file.Some? ==> ParseFile(file) == Parse(file.value)
    ensures file.None? ==> ParseFile(file) == []
  {}

  /** The writer's own knowledge after a step other than the rename. */
  lemma OwnWriterKeeps(s: State, c: Client, inode: Inode, bytes: nat)
    requires c in s.writers && WriterInv(s, c) && StepWriter(s, c, inode, bytes).Some?
    requires s.entry.Some? ==> s.entry.value in s.inodes
    requires !(s.writers[c].pc.Writing? && bytes == 0)
    ensures WriterInv(StepWriter(s, c, inode, bytes).value, c)
    ensures FileOf(StepWriter(s, c, inode, bytes).value) == FileOf(s)
  {
    hide Effect, ParseFile, Parse;
    var t := StepWriter(s, c, inode, bytes).value;
    EffectIsMergeOfRead(s.writers[c].op, FileOf(s));
    forall i: nat ensures CommittedAt(t, c, i) <==> CommittedAt(s, c, i) {}
    assert FileOf(t) == FileOf(s);
  }

  lemma EntryStaysSettled(s: State, t: State, c: Client)
    requires s.entry.Some? ==> s.entry.value in s.inodes && Settled(s, s.entry.value)
    requires c in s.writers && OnlyTouches(s, t, c) && t.entry == s.entry
    ensures t.entry.Some? ==> t.entry.value in t.inodes && Settled(t, t.entry.value)
  {}

  lemma StepTouches(s: State, c: Client, inode: Inode, bytes: nat)
    requires c in s.writers && StepWriter(s, c, inode, bytes).Some?
    ensures var t := StepWriter(s, c, inode, bytes).value;
            && OnlyTouches(s, t, c)
            && (if s.writers[c].pc.Writing? && bytes == 0 then
                  t.log == s.log + [(c, s.writers[c].op)] && t.holder == s.holder
                else
                  && t.entry == s.entry && t.log == s.log
                  && (t.holder == s.holder || s.holder == None || s.writers[c].pc == Replaced))
  {
    hide Effect, Parse, Render, Merge;
  }

  /** A step of writer c other than the rename keeps everything. */
  lemma QuietWriterKeeps(init: Option<string>, s: State, c: Client, inode: Inode, bytes: nat)
    requires Inv(init, s) && c in s.writers && StepWriter(s, c, inode, bytes).Some?
    requires !(s.writers[c].pc.Writing? && bytes == 0)
    ensures Inv(init, StepWriter(s, c, inode, bytes).value)
  {
    hide StepWriter, Effect, ParseFile, Parse;
    var t := StepWriter(s, c, inode, bytes).value;
    assert WriterInv(s, c);
    StepTouches(s, c, inode, bytes);
    OwnWriterKeeps(s, c, inode, bytes);
    OthersKeep(init, s, t, c);
    EntryStaysSettled(s, t, c);
  }

  lemma WriterKeeps(init: Option<string>, s: State, c: Client, inode: Inode, bytes: nat)
    requires Inv(init, s) && c in s.writers && StepWriter(s, c, inode, bytes).Some?
    ensures Inv(init, StepWriter(s, c, inode, bytes).value)
  {
    hide Inv, WriterInv, ReaderInv, Serial, Effect, ParseFile, Parse;
    if s.writers[c].pc.Writing? && bytes == 0 {
      Commit(init, s, c);
    } else {
      QuietWriterKeeps(init, s, c, inode, bytes);
    }
  }

  /** What the rename does for the renaming writer: its operation is now the last of the log. */
  lemma OwnCommit(init: Option<string>, s: State, c: Client)
    requires c in s.writers && WriterInv(s, c) && s.writers[c].pc.Writing? && StepWriter(s, c, 0, 0).Some?
    requires FileOf(s) == Serial(init, s.log)
    ensures var t := StepWriter(s, c, 0, 0).value;
            && WriterInv(t, c) && t.entry.Some? && t.entry.value in t.inodes
            && FileOf(t) == Serial(init, t.log)
  {
    hide Effect, ParseFile, Parse;
    var t := StepWriter(s, c, 0, 0).value;
    var w := s.writers[c];
    assert t.log[..|t.log| - 1] == s.log;
    assert w.pc.body[..w.pc.done] == w.pc.body;
    assert CommittedAt(t, c, |s.log|);
    forall i: nat ensures i < |s.log| ==> (CommittedAt(t, c, i) <==> CommittedAt(s, c, i)) {}
  }

  /** Whoever writes holds the lock, so nobody else writes. */
  lemma OneHolder(s: State, c: Client)
    requires c in s.writers && s.writers[c].pc.Writing? && forall e | e in s.writers :: WriterInv(s, e)
    ensures s.holder == Some(c) && forall e | e in s.writers && e != c :: !s.writers[e].pc.Writing?
  {
    assert WriterInv(s, c);
  }

  /** After the rename nobody writes the file that is now app.env. */
  lemma RenameSettles(s: State, c: Client)
    requires c in s.writers && s.writers[c].pc.Writing? && StepWriter(s, c, 0, 0).Some?
    requires forall e | e in s.writers && e != c :: !s.writers[e].pc.Writing?
    ensures var t := StepWriter(s, c, 0, 0).value; t.entry.Some? && Settled(t, t.entry.value)
  {
    hide Effect, Parse, Render, Merge;
  }

  /** The rename: the one step that changes what readers see. */
  lemma Commit(init: Option<string>, s: State, c: Client)
    requires Inv(init, s) && c in s.writers && s.writers[c].pc.Writing? && StepWriter(s, c, 0, 0).Some?
    ensures Inv(init, StepWriter(s, c, 0, 0).value)
  {
    hide StepWriter, Serial, ReaderInv, WriterInv, FileOf, Settled, Holds, CommittedAt;
    OneHolder(s, c);
    StepTouches(s, c, 0, 0);
    OthersKeep(init, s, StepWriter(s, c, 0, 0).value, c);
    OwnCommit(init, s, c);
    RenameSettles(s, c);
  }

  /** The reader's own knowledge after its step: it has a prefix of one complete, settled file. */
  lemma OwnReaderKeeps(init: Option<string>, s: State, c: Client, bytes: nat)
    requires c in s.readers && ReaderInv(init, s, c) && StepReader(s, c, bytes).Some?
    requires s.entry.Some? ==> s.entry.value in s.inodes && Settled(s, s.entry.value)
    requires FileOf(s) == Serial(init, s.log)
    ensures ReaderInv(init, StepReader(s, c, bytes).value, c)
  {
    hide Effect, Parse;
    var t := StepReader(s, c, bytes).value;
    var pc := s.readers[c].pc;
    if pc.Ready? {
      assert s.log[..|s.log|] == s.log;
      if s.entry.Some? { assert Settled(t, s.entry.value); }
    } else if pc.Reading? && pc.inode.Some? {
      var text := s.inodes[pc.inode.value];
      assert Settled(t, pc.inode.value);
      assert pc.got == text[..|pc.got|];
      if bytes > 0 {
        assert pc.got + text[|pc.got|..|pc.got| + bytes] == text[..|pc.got| + bytes];
      } else {
        assert pc.got == text;
      }
    }
  }

  lemma ReaderKeeps(init: Option<string>, s: State, c: Client, bytes: nat)
    requires Inv(init, s) && c in s.readers && StepReader(s, c, bytes).Some?
    ensures Inv(init, StepReader(s, c, bytes).value)
  {
    hide Effect, ParseFile, Parse;
    var t := StepReader(s, c, bytes).value;
    assert ReaderInv(init, s, c);
    OwnReaderKeeps(init, s, c, bytes);
    forall d | d in t.writers ensures WriterInv(t, d) {
      assert WriterInv(s, d);
      OtherWriterKeeps(s, t, d);
    }
    forall i | i in s.inodes && Settled(s, i) ensures Settled(t, i) {}
    forall d | d in t.readers && d != c ensures ReaderInv(init, t, d) {
      assert ReaderInv(init, s, d);
      OtherReaderKeeps(init, s, t, d);
    }
  }

  lemma OwnStopKeeps(s: State, c: Client)
    requires c in s.writers && WriterInv(s, c) && Step(s, WriterStops(c)).Some?
    ensures WriterInv(Step(s, WriterStops(c)).value, c)
  {
    hide Effect, ParseFile, Parse;
    var t := Step(s, WriterStops(c)).value;
    forall i: nat ensures CommittedAt(t, c, i) <==> CommittedAt(s, c, i) {}
  }

  lemma StopKeeps(init: Option<string>, s: State, c: Client)
    requires Inv(init, s) && Step(s, WriterStops(c)).Some?
    ensures Inv(init, Step(s, WriterStops(c)).value)
  {
    hide Effect, ParseFile, Parse;
    var t := Step(s, WriterStops(c)).value;
    assert WriterInv(s, c);
    OwnStopKeeps(s, c);
    OthersKeep(init, s, t, c);
    EntryStaysSettled(s, t, c);
  }

  lemma NewWriterInv(s: State, a: Action)
    requires a.NewWriter? && Step(s, a).Some? && forall i | 0 <= i < |s.log| :: s.log[i].0 in s.writers
    ensures WriterInv(Step(s, a).value, a.client)
  {
    var t := Step(s, a).value;
    forall i: nat ensures !CommittedAt(t, a.client, i) {}
  }

  lemma NewReaderInv(init: Option<string>, s: State, a: Action)
    requires a.NewReader? && Step(s, a).Some?
    ensures ReaderInv(init, Step(s, a).value, a.client)
  {}

  lemma NewcomerKeeps(init: Option<string>, s: State, a: Action)
    requires Inv(init, s) && (a.NewWriter? || a.NewReader?) && Step(s, a).Some?
    ensures Inv(init, Step(s, a).value)
  {
    hide Effect, ParseFile, Parse, StepWriter, StepReader, Serial;
    var t := Step(s, a).value;
    forall d | d in s.writers ensures WriterInv(t, d) {
      assert WriterInv(s, d);
      OtherWriterKeeps(s, t, d);
    }
    forall i | i in s.inodes && Settled(s, i) ensures Settled(t, i) {}
    forall d | d in s.readers ensures ReaderInv(init, t, d) {
      assert ReaderInv(init, s, d);
      OtherReaderKeeps(init, s, t, d);
    }
    if a.NewWriter? {
      NewWriterInv(s, a);
    } else {
      NewReaderInv(init, s, a);
    }
    hide WriterInv, ReaderInv;
  }

  lemma StepKeeps(init: Option<string>, s: State, a: Action)
    requires Inv(init, s) && Step(s, a).Some?
    ensures Inv(init, Step(s, a).value)
  {
    match a
    case NewWriter(_, _) => NewcomerKeeps(init, s, a);
    case NewReader(_) => NewcomerKeeps(init, s, a);
    case WriterStep(c, inode, bytes) => WriterKeeps(init, s, c, inode, bytes);
    case WriterStops(c) => StopKeeps(init, s, c);
    case ReaderStep(c, bytes) => ReaderKeeps(init, s, c, bytes);
  }

  lemma {:induction false} RunKeeps(init: Option<string>, s: State, acts: seq<Action>)
    requires Inv(init, s) && Run(s, acts).Some?
    ensures Inv(init, Run(s, acts).value)
    decreases |acts|
  {
    if acts != [] {
      StepKeeps(init, s, acts[0]);
      RunKeeps(init, Step(s, acts[0]).value, acts[1..]);
    }
  }

  /**
    Every interleaving is equivalent to the serial order of its renames: the
    file is what that order gives, so no update is lost; a call that finished
    took effect exactly once, after it began; and a reader got the complete
    mapping after some prefix of that order, no older than its own beginning.
  */
  lemma InterleavingIsSerial(s0: State, acts: seq<Action>, w: Client, r: Client)
    requires Init(s0) && Run(s0, acts).Some?
    ensures var s := Run(s0, acts).value;
            && FileOf(s) == Serial(FileOf(s0), s.log)
            && (w in s.writers && s.writers[w].pc == Released ==>
                  exists i: nat :: CommittedAt(s, w, i) && s.log[i].1 == s.writers[w].op && s.writers[w].begun <= i
                    && forall j: nat :: CommittedAt(s, w, j) ==> j == i)
            && (r in s.readers && s.readers[r].pc.Finished? ==>
                  exists at: nat :: s.readers[r].begun <= at <= |s.log|
                    && s.readers[r].pc.result == ParseFile(Serial(FileOf(s0), s.log[..at])))
  {
    var s := Run(s0, acts).value;
    InitInv(s0);
    RunKeeps(FileOf(s0), s0, acts);
    if w in s.writers && s.writers[w].pc == Released {
      assert WriterInv(s, w);
      var i: nat :| CommittedAt(s, w, i);
    }
    if r in s.readers && s.readers[r].pc.Finished? {
      assert ReaderInv(FileOf(s0), s, r);
    }
  }

  /** What the next reader finds under a key is what the last committed operation left there. */
  lemma LastCommitDecides(s0: State, acts: seq<Action>, k: string)
    requires Init(s0) && Run(s0, acts).Some? && Run(s0, acts).value.log != []
    ensures var s := Run(s0, acts).value;
            var n := |s.log| - 1;
            Lookup(ParseFile(FileOf(s)), k) == After(s.log[n].1, ParseFile(Serial(FileOf(s0), s.log[..n])), k)
  {
    var s := Run(s0, acts).value;
    InitInv(s0);
    RunKeeps(FileOf(s0), s0, acts);
    var n := |s.log| - 1;
    assert WriterInv(s, s.log[n].0) && CommittedAt(s, s.log[n].0, n);
    OperationSetsExactly(s.log[n].1, Serial(FileOf(s0), s.log[..n]), k);
  }

  // ---------- calls that get done ----------

  lemma OneMore(s0: State, acts: seq<Action>, s: State, a: Action) returns (more: seq<Action>, t: State)
    requires Run(s0, acts) == Some(s) && Step(s, a).Some?
    ensures t == Step(s, a).value && Run(s0, more) == Some(t)
  {
    t, more := Step(s, a).value, acts + [a];
    RunAppend(s0, acts, [a]);
    assert Run(t, [a][1..]) == Some(t);
  }

  lemma {:induction false} RunAppend(s: State, a: seq<Action>, b: seq<Action>)
    requires Run(s, a).Some?
    ensures Run(s, a + b) == Run(Run(s, a).value, b)
    decreases |a|
  {
    if a == [] {
      assert a + b == b;
    } else {
      RunAppend(Step(s, a[0]).value, a[1..], b);
      assert (a + b)[1..] == a[1..] + b;
    }
  }

  /** A merge is planned: the lock is held, the file was read, and its new body is known. */
  lemma WriteIsPlanned(s: State, c: Client, op: Operation) returns (acts: seq<Action>, t: State)
    requires s.holder == None && c !in s.writers && Permitted(op)
    ensures Run(s, acts) == Some(t) && c in t.writers
    ensures t == s.(holder := Some(c), writers := s.writers[c := t.writers[c]])
    ensures t.writers[c] == Writer(op, |s.log|, Merging(ParseFile(FileOf(s))))
  {
    assert Run(s, []) == Some(s);
    hide Run, Parse, Render, Merge, Permitted;
    acts, t := OneMore(s, [], s, NewWriter(c, op));
    acts, t := OneMore(s, acts, t, WriterStep(c, 0, 0));
    acts, t := OneMore(s, acts, t, WriterStep(c, 0, 0));
    acts, t := OneMore(s, acts, t, WriterStep(c, 0, 0));
  }

  /** The body is written to a new file, renamed over app.env, and the lock released. */
  lemma PlanIsWritten(s0: State, acts: seq<Action>, s: State, c: Client, temp: Inode) returns (more: seq<Action>, t: State)
    requires Run(s0, acts) == Some(s) && c in s.writers && s.writers[c].pc.Merging? && temp !in s.inodes
    ensures Run(s0, more) == Some(t) && c in t.writers && t.writers[c].pc == Released && t.holder == None
    ensures t.log == s.log + [(c, s.writers[c].op)]
    ensures FileOf(t) == Some(Render(Merge(s.writers[c].op, s.writers[c].pc.existing)))
  {
    hide Run, Parse, Render, Merge, Permitted;
    var body := Render(Merge(s.writers[c].op, s.writers[c].pc.existing));
    more, t := OneMore(s0, acts, s, WriterStep(c, temp, 0));
    if body != "" {
      more, t := OneMore(s0, more, t, WriterStep(c, 0, |body|));
      assert body[..|body|] == body;
    }
    more, t := OneMore(s0, more, t, WriterStep(c, 0, 0));
    more, t := OneMore(s0, more, t, WriterStep(c, 0, 0));
  }

  /** Whenever the lock is free a new call can run to its end, and leaves its effect on the file as it was. */
  lemma WriteCompletes(s: State, c: Client, op: Operation, temp: Inode) returns (acts: seq<Action>, t: State)
    requires s.holder == None && c !in s.writers && Permitted(op) && temp !in s.inodes
    ensures Run(s, acts) == Some(t) && FileOf(t) == Some(Effect(op, FileOf(s)))
    ensures c in t.writers && t.writers[c].pc == Released && t.holder == None
  {
    acts, t := WriteIsPlanned(s, c, op);
    hide Run, Permitted, Parse, Render, Merge, FileOf, ParseFile;
    acts, t := PlanIsWritten(s, acts, t, c, temp);
  }

  /** A reader that nobody disturbs gets the file as it is. */
  lemma ReadCompletes(s: State, r: Client) returns (acts: seq<Action>, t: State)
    requires r !in s.readers
    ensures Run(s, acts) == Some(t) && r in t.readers
    ensures t.readers[r].pc == Finished(|s.log|, ParseFile(FileOf(s)))
  {
    assert Run(s, []) == Some(s);
    hide Run, Parse;
    acts, t := OneMore(s, [], s, NewReader(r));
    acts, t := OneMore(s, acts, t, ReaderStep(r, 0));
    if FileOf(s).Some? {
      var text := FileOf(s).value;
      if text != "" {
        acts, t := OneMore(s, acts, t, ReaderStep(r, |text|));
        assert "" + text[0..|text|] == text;
      }
    }
    acts, t := OneMore(s, acts, t, ReaderStep(r, 0));
  }

  /** A writer can raise or crash at any point before it is done; the file stays as it is then, and the lock is free if it held it. */
  lemma WriterMayStop(s: State, c: Client)
    requires c in s.writers && s.writers[c].pc != Released
    ensures var next := Step(s, WriterStops(c));
            && next.Some? && c in next.value.writers && next.value.writers[c].pc == Stopped
            && FileOf(next.value) == FileOf(s) && next.value.log == s.log
            && next.value.holder == (if s.holder == Some(c) then None else s.holder)
  {}
}
