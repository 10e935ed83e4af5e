/**
  The job-cancellation protocol of core/jobs.py as a state machine.

  One detached supervisor, its worker, the operating system and any number of
  cancellers run interleaved.  They share one meta.json, replaced atomically,
  and no lock.  Every /proc read, every signal and every metadata access is a
  step of its own, so torn captures, pid reuse and non-atomic scans are all
  behaviours of this machine.  An action is an event of the world; `Step` says
  what it does, and a run is a sequence of actions.
*/
module JobProtocol {
  import opened Wrappers

  type Pid = nat
  type Birth = nat
  type CancellerId = nat

  // ---------- the operating system ----------

  /** Either the supervisor's exact command line, or anything else. */
  datatype Argv = SupervisorArgv | OtherArgv

  /** One /proc entry; a zombie keeps its pid, its birth and its group, and has an empty command line. */
  datatype Proc = Proc(birth: Birth, argv: Argv, pgid: Pid, zombie: bool)

  type Table = map<Pid, Proc>

  /** kill(-g, 0) fails with ESRCH exactly when no entry, zombie or not, is in the group. */
  predicate GroupEmpty(t: Table, g: Pid) {
    forall p | p in t :: t[p].pgid != g
  }

  /** What reading /proc/<pid>/stat during a group scan tells the reader. */
  datatype Seen = Gone | Elsewhere | Zombie | Alive

  function ReadEntry(t: Table, g: Pid, p: Pid): Seen {
    if p !in t then Gone
    else if t[p].pgid != g then Elsewhere
    else if t[p].zombie then Zombie
    else Alive
  }

  // ---------- the job ----------

  datatype JobState = Running | Done | Failed | Cancelled

  predicate Terminal(st: JobState) {
    st != Running
  }

  /** The states only the supervisor side writes. */
  predicate OwnResult(st: JobState) {
    st == Done || st == Failed
  }

  datatype Meta = Meta(state: JobState, pid: Option<Pid>)

  /** Where the supervisor is; `Finishing(r)` is about to write `r`, `Leaving` writes nothing more. */
  datatype SupervisorPc =
    | Launching
    | LaunchFailed
    | Execed
    | Loaded
    | Armed
    | Forked
    | Published
    | Finishing(result: JobState)
    | Leaving
    | Dead

  /**
    The supervisor process.  pid, birth and pgid never change: it never leaves
    its group.  `pidNoted` is meta["pid"] in its private copy of the metadata.
  */
  datatype Supervisor = Supervisor(
    pid: Pid, birth: Birth, pgid: Pid, pc: SupervisorPc,
    handler: bool, pidNoted: bool, termPending: bool, cancelRequested: bool)

  /** All that the parties share.  `born` remembers every (pid, birth) ever used. */
  datatype Shared = Shared(table: Table, born: set<(Pid, Birth)>, meta: Meta, sup: Supervisor)

  // ---------- cancellers ----------

  /** Which of the three identity captures is under way, with what the earlier ones found. */
  datatype Probe =
    | First
    | Second(birth: Birth, pgid: Pid)
    | Third(birth: Birth, pgid: Pid)

  /** The wait after SIGTERM, or the wait after SIGKILL. */
  datatype Round = AfterTerm | AfterKill

  /** The next thing a call of `cancel` does, with its local variables. */
  datatype CancelPc =
    | ReadMeta
    | ReadCmdline(probe: Probe, pid: Pid)
    | ReadStat(probe: Probe, pid: Pid, argvMatched: bool)
    | GetPgid(pid: Pid, birth: Birth)
    | SendTerm(pid: Pid, birth: Birth, pgid: Pid)
    | Probing(round: Round, pid: Pid, birth: Birth, pgid: Pid)
    | Listing(round: Round, pid: Pid, birth: Birth, pgid: Pid)
    | Scanning(round: Round, pid: Pid, birth: Birth, pgid: Pid, todo: seq<Pid>, matched: bool)
    | Present(round: Round, pid: Pid, birth: Birth, pgid: Pid)
    | SendKill(pid: Pid, birth: Birth, pgid: Pid)
    | Reread(pid: Pid)
    | WriteCancelled(pid: Pid, blind: bool)
    | Raced
    | Returned(state: JobState)
    | Raised

  /** The events of one canceller that matter for signal safety, in order. */
  datatype Event = Matched | TermSent | KillSent

  datatype Canceller = Canceller(pc: CancelPc, events: seq<Event>)

  /** What a canceller's next step is resolved to when the code or the system leaves it open. */
  datatype Choice =
    | Go                       // the operation succeeds
    | Fail                     // it raises: permission, malformed record, unreadable file
    | List(pids: seq<Pid>)     // what listdir("/proc") answered
    | Again                    // the deadline has not passed: poll once more
    | GiveUp                   // it has

  datatype Outcome = Outcome(sh: Shared, pc: CancelPc, event: Option<Event>)

  function Local(sh: Shared, pc: CancelPc): Option<Outcome> {
    Some(Outcome(sh, pc, None))
  }

  /** The next step of a canceller at `pc`, or None when `ch` does not apply there. */
  function CancelStep(sh: Shared, pc: CancelPc, ch: Choice): Option<Outcome> {
    match pc
    case ReadMeta =>
      if ch == Fail || sh.meta.state != Running || sh.meta.pid == None then Local(sh, Raised)
      else Local(sh, ReadCmdline(First, sh.meta.pid.value))
    case ReadCmdline(probe, pid) =>
      if ch == Fail || pid !in sh.table then Local(sh, Raced)
      else
        var e := sh.table[pid];
        Local(sh, ReadStat(probe, pid, !e.zombie && e.argv == SupervisorArgv))
    case ReadStat(probe, pid, argvMatched) =>
      if ch == Fail || pid !in sh.table || !argvMatched then Local(sh, Raced)
      else CaptureDone(sh, probe, pid, sh.table[pid].birth)
    case GetPgid(pid, birth) =>
      if ch == Fail then Local(sh, Raised)
      else if pid !in sh.table then Local(sh, Raced)
      else Local(sh, ReadCmdline(Second(birth, sh.table[pid].pgid), pid))
    case SendTerm(pid, birth, pgid) =>
      if ch == Fail then Local(sh, Raced)
      else if GroupEmpty(sh.table, pgid) then Some(Outcome(sh, Reread(pid), Some(TermSent)))
      else Some(Outcome(DeliverTerm(sh, pgid), Probing(AfterTerm, pid, birth, pgid), Some(TermSent)))
    case Probing(round, pid, birth, pgid) =>
      if ch == Fail then Local(sh, Raced)
      else if GroupEmpty(sh.table, pgid) then Local(sh, Reread(pid))
      else Local(sh, Listing(round, pid, birth, pgid))
    case Listing(round, pid, birth, pgid) =>
      if ch == Fail then Local(sh, Raced)
      else if ch.List? && ShowsGroup(sh.table, pgid, ch.pids) then
        Local(sh, Scanning(round, pid, birth, pgid, ch.pids, false))
      else None
    case Scanning(round, pid, birth, pgid, todo, matched) =>
      // No entry was live.  With a zombie seen the group is over, without a call; otherwise only ESRCH proves it.
      if todo == [] && matched then if ch == Fail then None else Local(sh, Reread(pid))
      else if ch == Fail then Local(sh, Raced)
      else if todo == [] then (if GroupEmpty(sh.table, pgid) then Local(sh, Reread(pid)) else Local(sh, Raced))
      else (
        match ReadEntry(sh.table, pgid, todo[0])
        case Alive => Local(sh, Present(round, pid, birth, pgid))
        case Zombie => Local(sh, Scanning(round, pid, birth, pgid, todo[1..], true))
        case _ => Local(sh, Scanning(round, pid, birth, pgid, todo[1..], matched))
      )
    case Present(round, pid, birth, pgid) =>
      if ch == Again then Local(sh, Probing(round, pid, birth, pgid))
      else if ch == GiveUp then
        if round == AfterTerm then Local(sh, ReadCmdline(Third(birth, pgid), pid)) else Local(sh, Raised)
      else None
    case SendKill(pid, birth, pgid) =>
      if ch == Fail then Local(sh, Raced)
      else if GroupEmpty(sh.table, pgid) then Some(Outcome(sh, Reread(pid), Some(KillSent)))
      else Some(Outcome(sh, Probing(AfterKill, pid, birth, pgid), Some(KillSent)))
    case Reread(pid) =>
      // A failing re-read is swallowed: the copy read when the call began stays in use.
      if ch == Fail then Local(sh, WriteCancelled(pid, true))
      else if Terminal(sh.meta.state) then Local(sh, Returned(sh.meta.state))
      else Local(sh, WriteCancelled(pid, false))
    case WriteCancelled(pid, blind) =>
      if ch == Fail then Local(sh, Raised)
      else Local(sh.(meta := Meta(Cancelled, Some(pid))), Returned(Cancelled))
    case Raced =>
      if ch != Fail && Terminal(sh.meta.state) then Local(sh, Returned(sh.meta.state))
      else Local(sh, Raised)
    case Returned(_) => None
    case Raised => None
  }

  /** procfs shows every member of the group; the answer may hold other pids, even stale ones. */
  predicate ShowsGroup(t: Table, g: Pid, pids: seq<Pid>) {
    forall p | p in t && t[p].pgid == g :: p in pids
  }

  /** A capture has read argv and birth.  Later captures must agree with the first. */
  function CaptureDone(sh: Shared, probe: Probe, pid: Pid, birth: Birth): Option<Outcome> {
    match probe
    case First => Local(sh, GetPgid(pid, birth))
    case Second(b, g) =>
      if birth != b then Local(sh, Raced) else Some(Outcome(sh, SendTerm(pid, b, g), Some(Matched)))
    case Third(b, g) =>
      if birth != b then Local(sh, Raced) else Some(Outcome(sh, SendKill(pid, b, g), Some(Matched)))
  }

  /** SIGTERM becomes pending for a live supervisor in the group.  Other members may exit at any time anyway. */
  function DeliverTerm(sh: Shared, g: Pid): Shared {
    if sh.sup.pc != Dead && sh.sup.pgid == g then sh.(sup := sh.sup.(termPending := true)) else sh
  }

  // ---------- the supervisor ----------

  datatype SupervisorAct =
    | ExecOk
    | ExecFails
    | MarkLaunchFailed(written: bool)
    | Load
    | Install
    | Popen
    | Publish
    | Trouble                   // an exception inside the try block
    | WorkerEnds(success: bool)
    | Finish(written: bool)
    | Exit
    | TakeTerm                  // a pending SIGTERM is acted on
    | Die                       // killed by SIGKILL, or by the machine

  function SupervisorStep(sh: Shared, a: SupervisorAct): Option<Shared> {
    var s := sh.sup;
    match a
    case ExecOk =>
      if s.pc == Launching && s.pid in sh.table then
        Some(sh.(sup := s.(pc := Execed),
                 table := sh.table[s.pid := sh.table[s.pid].(argv := SupervisorArgv)]))
      else None
    case ExecFails => if s.pc == Launching then Some(sh.(sup := s.(pc := LaunchFailed))) else None
    case MarkLaunchFailed(written) =>
      if s.pc != LaunchFailed then None
      else Some(sh.(sup := s.(pc := Leaving),
                    meta := if written then sh.meta.(state := Failed) else sh.meta))
    case Load => if s.pc == Execed then Some(sh.(sup := s.(pc := Loaded))) else None
    case Install => if s.pc == Loaded then Some(sh.(sup := s.(pc := Armed, handler := true))) else None
    case Popen => if s.pc == Armed then Some(sh.(sup := s.(pc := Forked))) else None
    case Publish =>
      if s.pc != Forked then None
      else Some(sh.(sup := s.(pc := Published, pidNoted := true), meta := Meta(Running, Some(s.pid))))
    case Trouble =>
      if s.pc == Loaded || s.pc == Armed || s.pc == Published then Some(sh.(sup := s.(pc := Finishing(Failed))))
      else if s.pc == Forked then Some(sh.(sup := s.(pc := Finishing(Failed), pidNoted := true)))
      else None
    case WorkerEnds(success) =>
      if s.pc != Published then None
      else if s.cancelRequested then Some(sh.(sup := s.(pc := Leaving)))
      else Some(sh.(sup := s.(pc := Finishing(if success then Done else Failed))))
    case Finish(written) =>
      if !s.pc.Finishing? then None
      else
        var m := Meta(s.pc.result, if s.pidNoted then Some(s.pid) else None);
        Some(sh.(sup := s.(pc := Leaving), meta := if written then m else sh.meta))
    case Exit => if s.pc == Leaving then Some(Bury(sh)) else None
    case TakeTerm =>
      if s.pc == Dead || !s.termPending then None
      else if s.handler then Some(sh.(sup := s.(termPending := false, cancelRequested := true)))
      else Some(Bury(sh))
    case Die => if s.pc == Dead then None else Some(Bury(sh))
  }

  /** The supervisor's entry turns into a zombie; nothing it could still do remains. */
  function Bury(sh: Shared): Shared {
    var s := sh.sup;
    sh.(sup := s.(pc := Dead),
        table := if s.pid in sh.table then sh.table[s.pid := sh.table[s.pid].(zombie := true)] else sh.table)
  }

  // ---------- everybody else ----------

  datatype SystemAct =
    | Spawn(pid: Pid, proc: Proc)
    | ExecOther(pid: Pid)
    | ExitOther(pid: Pid)
    | Reap(pid: Pid)
    | SetPgid(pid: Pid, pgid: Pid)

  /** pid is held by a process that is not the living supervisor. */
  predicate Foreign(sh: Shared, pid: Pid) {
    pid in sh.table && !(sh.sup.pc != Dead && pid == sh.sup.pid)
  }

  /**
    Processes appear under free pids with a birth that pid never had.  The
    supervisor's command line is seen only on itself and, between fork and
    exec, on a child it forks while it lives: one supervisor per job directory.
  */
  function SystemStep(sh: Shared, a: SystemAct): Option<Shared> {
    match a
    case Spawn(p, e) =>
      if p !in sh.table && (p, e.birth) !in sh.born && !e.zombie
         && (e.argv == SupervisorArgv ==> sh.sup.pc != Dead)
      then Some(sh.(table := sh.table[p := e], born := sh.born + {(p, e.birth)}))
      else None
    case ExecOther(p) =>
      if Foreign(sh, p) then Some(sh.(table := sh.table[p := sh.table[p].(argv := OtherArgv)])) else None
    case ExitOther(p) =>
      if Foreign(sh, p) then Some(sh.(table := sh.table[p := sh.table[p].(zombie := true)])) else None
    case Reap(p) =>
      if p in sh.table && sh.table[p].zombie then Some(sh.(table := sh.table - {p})) else None
    case SetPgid(p, g) =>
      if Foreign(sh, p) then Some(sh.(table := sh.table[p := sh.table[p].(pgid := g)])) else None
  }

  // ---------- the whole machine ----------

  datatype State = State(sh: Shared, cancellers: map<CancellerId, Canceller>)

  datatype Action =
    | System(sys: SystemAct)
    | Super(act: SupervisorAct)
    | Call(id: CancellerId)
    | Cancel(id: CancellerId, choice: Choice)

  function Step(s: State, a: Action): Option<State> {
    match a
    case System(sys) =>
      (match SystemStep(s.sh, sys) case None => None case Some(sh) => Some(s.(sh := sh)))
    case Super(act) =>
      (match SupervisorStep(s.sh, act) case None => None case Some(sh) => Some(s.(sh := sh)))
    case Call(id) =>
      if id in s.cancellers then None
      else Some(s.(cancellers := s.cancellers[id := Canceller(ReadMeta, [])]))
    case Cancel(id, ch) =>
      if id !in s.cancellers then None
      else (
        var c := s.cancellers[id];
        match CancelStep(s.sh, c.pc, ch)
        case None => None
        case Some(o) =>
          var events := if o.event.Some? then c.events + [o.event.value] else c.events;
          Some(State(o.sh, s.cancellers[id := Canceller(o.pc, events)])))
  }

  /** The state after a run, or None when some action was not possible where it stands. */
  function Run(s: State, acts: seq<Action>): Option<State>
    decreases |acts|
  {
    if acts == [] then Some(s)
    else
      match Step(s, acts[0])
      case None => None
      case Some(next) => Run(next, acts[1..])
  }

  /** `start` has written running metadata without a pid and forked the process that will exec the supervisor. */
  predicate Init(s: State) {
    && s.cancellers == map[]
    && s.sh.meta == Meta(Running, None)
    && s.sh.sup.pc == Launching
    && !s.sh.sup.handler && !s.sh.sup.pidNoted && !s.sh.sup.termPending && !s.sh.sup.cancelRequested
    && s.sh.sup.pid in s.sh.table
    && s.sh.table[s.sh.sup.pid] == Proc(s.sh.sup.birth, OtherArgv, s.sh.sup.pgid, false)
    && forall p | p in s.sh.table :: s.sh.table[p].argv == OtherArgv && (p, s.sh.table[p].birth) in s.sh.born
  }
}
