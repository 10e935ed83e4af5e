/**
  What holds in every interleaving of the job-cancellation protocol.

  The proof is rely/guarantee: `SharedInv` constrains the shared state, `Rely`
  is what every step of anybody guarantees to the others, and `Knows` is what
  a canceller may conclude at each point of its code.  `Knows` is stable under
  `Rely`, so no argument ever mentions two cancellers at once.
*/
module JobProtocolProofs {
  import opened Wrappers
  import opened JobProtocol

  // ---------- invariants ----------

  ghost predicate SupervisorAlive(sh: Shared) {
    var s := sh.sup;
    s.pid in sh.table && sh.table[s.pid].birth == s.birth && !sh.table[s.pid].zombie
  }

  ghost predicate SharedInv(sh: Shared) {
    var s := sh.sup;
    && (s.pc != Dead ==> SupervisorAlive(sh) && sh.table[s.pid].pgid == s.pgid)
    && (s.pc == Dead ==> !SupervisorAlive(sh))
    && (s.pid, s.birth) in sh.born
    && (forall p | p in sh.table :: (p, sh.table[p].birth) in sh.born)
    && (s.pid in sh.table && !sh.table[s.pid].zombie && sh.table[s.pid].argv == SupervisorArgv ==> s.pc != Dead)
    && (sh.meta.pid.Some? ==> sh.meta.pid.value == s.pid && s.handler && s.pidNoted)
    && (s.pidNoted ==> s.handler)
    && (s.pc == Published ==> sh.meta.pid.Some?)
    && (s.pc in {Execed, Loaded, Armed, Forked, Published} ==> s.pid in sh.table && sh.table[s.pid].argv == SupervisorArgv)
    && (s.termPending ==> s.handler)
    && (s.pc in {Armed, Forked, Published} ==> s.handler)
    && (s.pc.Finishing? ==> OwnResult(s.pc.result))
    && (OwnResult(sh.meta.state) ==> s.pc == Leaving || s.pc == Dead)
    && (sh.meta.state == Cancelled ==> s.pc == Dead)
  }

  /** What every step by anybody preserves for everybody else. */
  ghost predicate Rely(x: Shared, y: Shared) {
    && y.sup.pid == x.sup.pid && y.sup.birth == x.sup.birth && y.sup.pgid == x.sup.pgid
    && (x.sup.pc == Dead ==> y.sup.pc == Dead)
    && (x.meta.pid.Some? ==> y.meta.pid == x.meta.pid)
    && (x.sup.pc == Dead && !OwnResult(x.meta.state) ==> !OwnResult(y.meta.state))
  }

  /** birth and group are the supervisor's own. */
  ghost predicate Own(sh: Shared, birth: Birth, pgid: Pid) {
    birth == sh.sup.birth && pgid == sh.sup.pgid
  }

  /** What a canceller at `pc` knows about the shared state. */
  ghost predicate Knows(sh: Shared, pc: CancelPc) {
    match pc
    case ReadMeta => true
    case ReadCmdline(probe, p) => sh.meta.pid == Some(p) && KnowsProbe(sh, probe, sh.sup.pc != Dead)
    case ReadStat(probe, p, argvMatched) => sh.meta.pid == Some(p) && KnowsProbe(sh, probe, argvMatched || sh.sup.pc != Dead)
    case GetPgid(p, b) => sh.meta.pid == Some(p) && (sh.sup.pc != Dead ==> b == sh.sup.birth)
    case SendTerm(p, b, g) => sh.meta.pid == Some(p) && Own(sh, b, g)
    case Probing(_, p, b, g) => sh.meta.pid == Some(p) && Own(sh, b, g)
    case Listing(_, p, b, g) => sh.meta.pid == Some(p) && Own(sh, b, g)
    case Scanning(_, p, b, g, todo, _) =>
      sh.meta.pid == Some(p) && Own(sh, b, g) && (sh.sup.pc != Dead ==> sh.sup.pid in todo)
    case Present(_, p, b, g) => sh.meta.pid == Some(p) && Own(sh, b, g)
    case SendKill(p, b, g) => sh.meta.pid == Some(p) && Own(sh, b, g)
    case Reread(p) => sh.meta.pid == Some(p) && sh.sup.pc == Dead
    case WriteCancelled(p, blind) =>
      sh.meta.pid == Some(p) && sh.sup.pc == Dead && (!blind ==> !OwnResult(sh.meta.state))
    case Raced => true
    case Returned(st) => Terminal(st)
    case Raised => true
  }

  /** The first capture proves nothing that lasts; the second is the sandwich; the third keeps what the second proved. */
  ghost predicate KnowsProbe(sh: Shared, probe: Probe, binding: bool) {
    match probe
    case First => true
    case Second(b, g) => binding ==> Own(sh, b, g)
    case Third(b, g) => Own(sh, b, g)
  }

  /** Signals are sent in this order, each destructive one straight after a matching capture. */
  const SIGNAL_ORDER: seq<Event> := [Matched, TermSent, Matched, KillSent]

  /** How much of SIGNAL_ORDER has happened when a canceller stands at `pc`. */
  ghost predicate EventsFit(pc: CancelPc, events: seq<Event>) {
    && events <= SIGNAL_ORDER
    && (pc == ReadMeta || pc.GetPgid? ==> events == [])
    && (pc.ReadCmdline? ==> |events| == if pc.probe.Third? then 2 else 0)
    && (pc.ReadStat? ==> |events| == if pc.probe.Third? then 2 else 0)
    && (pc.SendTerm? ==> |events| == 1)
    && (pc.SendKill? ==> |events| == 3)
    && (pc.Probing? || pc.Listing? || pc.Scanning? || pc.Present? ==>
          |events| == if pc.round == AfterTerm then 2 else 4)
  }

  ghost predicate Inv(s: State) {
    && SharedInv(s.sh)
    && (forall c | c in s.cancellers :: Knows(s.sh, s.cancellers[c].pc))
    && (forall c | c in s.cancellers :: EventsFit(s.cancellers[c].pc, s.cancellers[c].events))
  }

  // ---------- every step keeps the invariants ----------

  lemma InitInv(s: State)
    requires Init(s)
    ensures Inv(s)
  {}

  lemma KnowsIsStable(x: Shared, y: Shared, pc: CancelPc)
    requires Rely(x, y) && Knows(x, pc)
    ensures Knows(y, pc)
  {}

  lemma SystemKeeps(x: Shared, a: SystemAct)
    requires SharedInv(x) && SystemStep(x, a).Some?
    ensures SharedInv(SystemStep(x, a).value) && Rely(x, SystemStep(x, a).value)
  {}

  lemma BuryKeeps(x: Shared)
    requires SharedInv(x) && x.sup.pc != Dead
    ensures SharedInv(Bury(x)) && Rely(x, Bury(x))
  {}

  lemma SupervisorKeepsInv(x: Shared, a: SupervisorAct)
    requires SharedInv(x) && SupervisorStep(x, a).Some?
    ensures SharedInv(SupervisorStep(x, a).value)
  {
    hide Bury;
    if a in {Exit, TakeTerm, Die} {
      BuryKeeps(x);
    }
  }

  lemma SupervisorGuarantees(x: Shared, a: SupervisorAct)
    requires SharedInv(x) && SupervisorStep(x, a).Some?
    ensures Rely(x, SupervisorStep(x, a).value)
  {}

  lemma SupervisorKeeps(x: Shared, a: SupervisorAct)
    requires SharedInv(x) && SupervisorStep(x, a).Some?
    ensures SharedInv(SupervisorStep(x, a).value) && Rely(x, SupervisorStep(x, a).value)
  {
    hide *;
    SupervisorKeepsInv(x, a);
    SupervisorGuarantees(x, a);
  }

  /** Only SIGTERM and the last write change what is shared. */
  lemma CancellerKeepsShared(x: Shared, pc: CancelPc, ch: Choice)
    requires SharedInv(x) && Knows(x, pc) && CancelStep(x, pc, ch).Some?
    ensures var o := CancelStep(x, pc, ch).value; SharedInv(o.sh) && Rely(x, o.sh)
  {
    var o := CancelStep(x, pc, ch).value;
    if !pc.SendTerm? && !pc.WriteCancelled? {
      assert o.sh == x;
    }
  }

  lemma TermKeepsGroup(x: Shared, g: Pid)
    ensures var y := DeliverTerm(x, g);
            y.meta == x.meta && y.sup == x.sup.(termPending := y.sup.termPending) && y.table == x.table
  {}

  lemma ShowsSupervisor(x: Shared, g: Pid, pids: seq<Pid>)
    requires SharedInv(x) && ShowsGroup(x.table, g, pids) && g == x.sup.pgid
    ensures x.sup.pc != Dead ==> x.sup.pid in pids
  {}

  lemma CancellerLearns(x: Shared, pc: CancelPc, ch: Choice)
    requires SharedInv(x) && Knows(x, pc) && CancelStep(x, pc, ch).Some?
    ensures var o := CancelStep(x, pc, ch).value; Knows(o.sh, o.pc)
  {
    hide DeliverTerm, ShowsGroup;
    if pc.SendTerm? { TermKeepsGroup(x, pc.pgid); }
    if pc.Listing? && ch.List? && ShowsGroup(x.table, pc.pgid, ch.pids) { ShowsSupervisor(x, pc.pgid, ch.pids); }
    if pc.Scanning? && pc.todo != [] {
      assert pc.todo == [pc.todo[0]] + pc.todo[1..];
    }
  }

  lemma CancellerKeepsOrder(x: Shared, pc: CancelPc, ch: Choice, events: seq<Event>)
    requires EventsFit(pc, events) && CancelStep(x, pc, ch).Some?
    ensures var o := CancelStep(x, pc, ch).value;
            EventsFit(o.pc, if o.event.Some? then events + [o.event.value] else events)
  {
    hide DeliverTerm, GroupEmpty, ReadEntry, ShowsGroup;
  }

  lemma CancellerKeeps(x: Shared, pc: CancelPc, ch: Choice, events: seq<Event>)
    requires SharedInv(x) && Knows(x, pc) && EventsFit(pc, events) && CancelStep(x, pc, ch).Some?
    ensures var o := CancelStep(x, pc, ch).value;
            && SharedInv(o.sh) && Rely(x, o.sh) && Knows(o.sh, o.pc)
            && EventsFit(o.pc, if o.event.Some? then events + [o.event.value] else events)
  {
    hide *;
    CancellerKeepsShared(x, pc, ch);
    CancellerLearns(x, pc, ch);
    CancellerKeepsOrder(x, pc, ch, events);
  }

  lemma Newcomer(x: Shared)
    ensures Rely(x, x) && Knows(x, ReadMeta) && EventsFit(ReadMeta, [])
  {}

  lemma StepKeepsInv(s: State, a: Action)
    requires Inv(s) && Step(s, a).Some?
    ensures Inv(Step(s, a).value) && Rely(s.sh, Step(s, a).value.sh)
  {
    hide SharedInv, Rely, Knows, EventsFit, CancelStep, SupervisorStep, SystemStep;
    var t := Step(s, a).value;
    match a {
      case System(sys) => SystemKeeps(s.sh, sys);
      case Super(act) => SupervisorKeeps(s.sh, act);
      case Call(_) => Newcomer(s.sh);
      case Cancel(id, ch) => CancellerKeeps(s.sh, s.cancellers[id].pc, ch, s.cancellers[id].events);
    }
    forall c | c in s.cancellers ensures Knows(t.sh, s.cancellers[c].pc) {
      KnowsIsStable(s.sh, t.sh, s.cancellers[c].pc);
    }
  }

  lemma {:induction false} RunKeepsInv(s: State, acts: seq<Action>)
    requires Inv(s) && Run(s, acts).Some?
    ensures Inv(Run(s, acts).value)
    decreases |acts|
  {
    if acts != [] {
      StepKeepsInv(s, acts[0]);
      RunKeepsInv(Step(s, acts[0]).value, acts[1..]);
    }
  }

  lemma {:induction false} RunAppend(s: State, a: seq<Action>, b: seq<Action>)
    requires Run(s, a).Some?
    ensures Run(s, a + b) == Run(Run(s, a).value, b)
    decreases |a|
  {
    if a == [] {
      assert a + b == b;
    } else {
      RunAppend(Step(s, a[0]).value, a[1..], b);
      assert (a + b)[1..] == a[1..] + b;
    }
  }

  /** `s` is what some run from some initial state leads to. */
  ghost predicate Reachable(s: State) {
    exists init, acts :: Init(init) && Run(init, acts) == Some(s)
  }

  lemma ReachableInv(s: State)
    requires Reachable(s)
    ensures Inv(s)
  {
    var init, acts :| Init(init) && Run(init, acts) == Some(s);
    InitInv(init);
    RunKeepsInv(init, acts);
  }

  // ---------- terminal states are absorbing ----------

  /** A canceller whose re-read of the metadata failed writes over the supervisor's own result. */
  predicate BlindOverwrite(s: State, a: Action) {
    && a.Cancel? && a.choice != Fail && a.id in s.cancellers
    && s.cancellers[a.id].pc.WriteCancelled? && s.cancellers[a.id].pc.blind
    && OwnResult(s.sh.meta.state)
  }

  /** Such an overwrite happens somewhere in the run. */
  predicate HasBlindOverwrite(s: State, acts: seq<Action>)
    decreases |acts|
  {
    acts != [] && (
      BlindOverwrite(s, acts[0])
      || (Step(s, acts[0]).Some? && HasBlindOverwrite(Step(s, acts[0]).value, acts[1..])))
  }

  /** One step, both directions: the only way out of a terminal state is a blind overwrite, and it always is one. */
  lemma TerminalStepExactly(s: State, a: Action)
    requires Reachable(s) && Step(s, a).Some? && Terminal(s.sh.meta.state)
    ensures Step(s, a).value.sh.meta.state != s.sh.meta.state <==> BlindOverwrite(s, a)
  {
    ReachableInv(s);
    TerminalStep(s, a);
  }

  lemma TerminalStep(s: State, a: Action)
    requires Inv(s) && Step(s, a).Some? && Terminal(s.sh.meta.state)
    ensures Step(s, a).value.sh.meta.state ==
            if BlindOverwrite(s, a) then Cancelled else s.sh.meta.state
  {
    if a.Cancel? {
      assert Knows(s.sh, s.cancellers[a.id].pc);
    }
  }

  lemma {:induction false} TerminalRun(s: State, acts: seq<Action>)
    requires Inv(s) && Run(s, acts).Some? && Terminal(s.sh.meta.state)
    ensures Run(s, acts).value.sh.meta.state ==
            if HasBlindOverwrite(s, acts) then Cancelled else s.sh.meta.state
    ensures HasBlindOverwrite(s, acts) ==> OwnResult(s.sh.meta.state)
    decreases |acts|
  {
    if acts != [] {
      StepKeepsInv(s, acts[0]);
      TerminalStep(s, acts[0]);
      TerminalRun(Step(s, acts[0]).value, acts[1..]);
    }
  }

  /**
    Terminal states are absorbing over every run, although there is no lock:
    a later state differs exactly when a blind overwrite happened in between.
    In particular `cancelled` is never replaced.
  */
  lemma TerminalIsAbsorbing(s: State, acts: seq<Action>)
    requires Reachable(s) && Run(s, acts).Some? && Terminal(s.sh.meta.state)
    ensures Run(s, acts).value.sh.meta.state != s.sh.meta.state <==> HasBlindOverwrite(s, acts)
    ensures s.sh.meta.state == Cancelled ==> Run(s, acts).value.sh.meta.state == Cancelled
  {
    ReachableInv(s);
    TerminalRun(s, acts);
  }

  /** No canceller's re-read fails anywhere in the run. */
  predicate EveryRereadSucceeds(s: State, acts: seq<Action>)
    decreases |acts|
  {
    acts == [] || (
      && !(acts[0].Cancel? && acts[0].choice == Fail && acts[0].id in s.cancellers
           && s.cancellers[acts[0].id].pc.Reread?)
      && (Step(s, acts[0]).Some? ==> EveryRereadSucceeds(Step(s, acts[0]).value, acts[1..])))
  }

  /** No blind write is pending, and what a call returned is what the record says. */
  ghost predicate TruthfulPc(sh: Shared, pc: CancelPc) {
    && (pc.WriteCancelled? ==> !pc.blind)
    && (pc.Returned? ==> pc.state == sh.meta.state)
  }

  ghost predicate Truthful(s: State) {
    forall c | c in s.cancellers :: TruthfulPc(s.sh, s.cancellers[c].pc)
  }

  lemma OwnTruth(x: Shared, pc: CancelPc, ch: Choice)
    requires TruthfulPc(x, pc) && CancelStep(x, pc, ch).Some? && !(pc.Reread? && ch == Fail)
    ensures var o := CancelStep(x, pc, ch).value; TruthfulPc(o.sh, o.pc)
  {
    hide DeliverTerm, GroupEmpty, ReadEntry, ShowsGroup;
  }

  lemma TruthfulStep(s: State, a: Action)
    requires Inv(s) && Truthful(s) && Step(s, a).Some? && EveryRereadSucceeds(s, [a])
    ensures Truthful(Step(s, a).value)
  {
    hide SystemStep, SupervisorStep, CancelStep, SharedInv, EventsFit;
    var t := Step(s, a).value;
    if a.Cancel? {
      OwnTruth(s.sh, s.cancellers[a.id].pc, a.choice);
    }
    if Terminal(s.sh.meta.state) {
      TerminalStep(s, a);
    }
    forall c | c in s.cancellers ensures TruthfulPc(t.sh, s.cancellers[c].pc) {
      assert Knows(s.sh, s.cancellers[c].pc) && TruthfulPc(s.sh, s.cancellers[c].pc);
      assert Terminal(s.sh.meta.state) ==> t.sh.meta.state == s.sh.meta.state;
    }
  }

  lemma {:induction false} TruthfulRun(s: State, acts: seq<Action>)
    requires Inv(s) && Truthful(s) && Run(s, acts).Some? && EveryRereadSucceeds(s, acts)
    ensures Truthful(Run(s, acts).value)
    ensures !HasBlindOverwrite(s, acts)
    decreases |acts|
  {
    if acts != [] {
      StepKeepsInv(s, acts[0]);
      TruthfulStep(s, acts[0]);
      TruthfulRun(Step(s, acts[0]).value, acts[1..]);
    }
  }

  /**
    When every re-read succeeds: terminal states never change over the whole
    run, and a state returned by any call of `cancel`, whether it wrote it or
    lost the race, is the recorded state then and ever after.
  */
  lemma ReturnedStateIsFinal(init: State, before: seq<Action>, after: seq<Action>, c: CancellerId)
    requires Init(init) && Run(init, before).Some? && Run(init, before + after).Some?
    requires EveryRereadSucceeds(init, before + after)
    ensures var s := Run(init, before).value;
            var t := Run(init, before + after).value;
            && (Terminal(s.sh.meta.state) ==> t.sh.meta.state == s.sh.meta.state)
            && (c in s.cancellers && s.cancellers[c].pc.Returned? ==>
                  s.sh.meta.state == s.cancellers[c].pc.state == t.sh.meta.state)
  {
    var s := Run(init, before).value;
    InitInv(init);
    RunKeepsInv(init, before);
    RunAppend(init, before, after);
    SplitRereads(init, before, after);
    TruthfulRun(init, before);
    TruthfulRun(s, after);
    if Terminal(s.sh.meta.state) {
      TerminalRun(s, after);
    }
    if c in s.cancellers && s.cancellers[c].pc.Returned? {
      assert Knows(s.sh, s.cancellers[c].pc);
    }
  }

  lemma {:induction false} SplitRereads(s: State, a: seq<Action>, b: seq<Action>)
    requires Run(s, a).Some? && EveryRereadSucceeds(s, a + b)
    ensures EveryRereadSucceeds(s, a) && EveryRereadSucceeds(Run(s, a).value, b)
    decreases |a|
  {
    if a == [] {
      assert a + b == b;
    } else {
      assert (a + b)[1..] == a[1..] + b;
      SplitRereads(Step(s, a[0]).value, a[1..], b);
    }
  }

  // ---------- cancelled is written only over a dead supervisor ----------

  lemma {:induction false} DeadStaysDead(s: State, acts: seq<Action>)
    requires Inv(s) && s.sh.sup.pc == Dead && Run(s, acts).Some?
    ensures Run(s, acts).value.sh.sup.pc == Dead
    decreases |acts|
  {
    if acts != [] {
      StepKeepsInv(s, acts[0]);
      DeadStaysDead(Step(s, acts[0]).value, acts[1..]);
    }
  }

  /** When `cancelled` is written the supervisor has no living process, and in no continuation can it act again. */
  lemma CancelledOnlyAfterDeath(s: State, a: Action, later: seq<Action>, act: SupervisorAct)
    requires Reachable(s) && Step(s, a).Some? && Run(Step(s, a).value, later).Some?
    requires a.Cancel? && a.id in s.cancellers && s.cancellers[a.id].pc.WriteCancelled?
    ensures !SupervisorAlive(s.sh)
    ensures var u := Run(Step(s, a).value, later).value;
            !SupervisorAlive(u.sh) && SupervisorStep(u.sh, act) == None
  {
    ReachableInv(s);
    assert Knows(s.sh, s.cancellers[a.id].pc);
    StepKeepsInv(s, a);
    RunKeepsInv(Step(s, a).value, later);
    DeadStaysDead(Step(s, a).value, later);
  }

  /** Whatever made a call conclude that the group is gone, the supervisor is dead at that moment. */
  lemma GoneMeansDead(s: State, a: Action)
    requires Reachable(s) && Step(s, a).Some?
    requires a.Cancel? && Step(s, a).value.cancellers[a.id].pc.Reread?
    ensures !SupervisorAlive(s.sh)
  {
    ReachableInv(s);
    StepKeepsInv(s, a);
    assert Knows(Step(s, a).value.sh, Step(s, a).value.cancellers[a.id].pc);
  }

  // ---------- identity and signals ----------

  /** A recorded pid is the supervisor's, and its TERM handler is already in place. */
  lemma PublishedMeansArmed(s: State)
    requires Reachable(s) && s.sh.meta.pid.Some?
    ensures s.sh.meta.pid == Some(s.sh.sup.pid) && s.sh.sup.handler
  {
    ReachableInv(s);
  }

  /**
    The identity sandwich.  Two equal captures around getpgid, however torn,
    give the supervisor's own group; and when the last stat is read the pid is
    still held by the supervisor's own entry.
  */
  lemma Sandwich(s: State, a: Action)
    requires Reachable(s) && a.Cancel? && a.id in s.cancellers && Step(s, a).Some?
    requires s.cancellers[a.id].pc.ReadStat?
    requires var next := Step(s, a).value.cancellers[a.id].pc; next.SendTerm? || next.SendKill?
    ensures var next := Step(s, a).value.cancellers[a.id].pc;
            && next.pid == s.sh.sup.pid && next.birth == s.sh.sup.birth && next.pgid == s.sh.sup.pgid
            && s.sh.sup.pid in s.sh.table && s.sh.table[s.sh.sup.pid].birth == s.sh.sup.birth
  {
    ReachableInv(s);
    StepKeepsInv(s, a);
    assert Knows(Step(s, a).value.sh, Step(s, a).value.cancellers[a.id].pc);
  }

  /** SIGTERM goes to the supervisor's group only, and a supervisor alive then has its handler. */
  lemma TermFindsHandler(s: State, c: CancellerId)
    requires Reachable(s) && c in s.cancellers && s.cancellers[c].pc.SendTerm?
    ensures s.cancellers[c].pc.pgid == s.sh.sup.pgid
    ensures SupervisorAlive(s.sh) ==> s.sh.sup.handler
  {
    ReachableInv(s);
    assert Knows(s.sh, s.cancellers[c].pc);
  }

  /** The supervisor survives every SIGTERM delivered to it. */
  lemma TermIsSurvived(s: State)
    requires Reachable(s) && SupervisorStep(s.sh, TakeTerm).Some?
    ensures var y := SupervisorStep(s.sh, TakeTerm).value;
            SupervisorAlive(y) && y.sup.pc == s.sh.sup.pc && y.sup.cancelRequested && !y.sup.termPending
  {
    ReachableInv(s);
  }

  /** A call signals at most TERM then KILL, each directly after a matching capture of its own. */
  lemma KillOnlyAfterTermAndFreshCapture(s: State, c: CancellerId)
    requires Reachable(s) && c in s.cancellers
    ensures s.cancellers[c].events <= [Matched, TermSent, Matched, KillSent]
    ensures s.cancellers[c].pc.SendKill? ==> s.cancellers[c].events == [Matched, TermSent, Matched]
  {
    ReachableInv(s);
    var e := s.cancellers[c].events;
    assert EventsFit(s.cancellers[c].pc, e);
    if s.cancellers[c].pc.SendKill? {
      assert e == SIGNAL_ORDER[..3];
    }
  }

  // ---------- the blind re-read really loses a result ----------

  function ExampleStart(): State {
    State(Shared(map[10 := Proc(1, OtherArgv, 10, false)], {(10, 1)}, Meta(Running, None),
                 Supervisor(10, 1, 10, Launching, false, false, false, false)), map[])
  }

  /** One more action of a concrete run. */
  lemma Then(init: State, acts: seq<Action>, s: State, a: Action) returns (more: seq<Action>, t: State)
    requires Run(init, acts) == Some(s) && Step(s, a).Some?
    ensures t == Step(s, a).value && more == acts + [a] && Run(init, more) == Some(t)
  {
    t, more := Step(s, a).value, acts + [a];
    RunAppend(init, acts, [a]);
    assert Run(t, [a][1..]) == Some(t);
  }

  lemma ExampleStarted() returns (acts: seq<Action>, s: State)
    ensures Run(ExampleStart(), acts) == Some(s)
    ensures s == State(
      Shared(map[10 := Proc(1, SupervisorArgv, 10, false)], {(10, 1)}, Meta(Running, Some(10)),
             Supervisor(10, 1, 10, Published, true, true, false, false)), map[])
  {
    var init := ExampleStart();
    acts, s := [], init;
    acts, s := Then(init, acts, s, Super(ExecOk));
    acts, s := Then(init, acts, s, Super(Load));
    acts, s := Then(init, acts, s, Super(Install));
    acts, s := Then(init, acts, s, Super(Popen));
    acts, s := Then(init, acts, s, Super(Publish));
    assert s.sh.table == map[10 := Proc(1, SupervisorArgv, 10, false)];
  }

  /** The supervisor publishes its pid while a canceller gets as far as its SIGTERM. */
  lemma ExampleUpToTerm() returns (acts: seq<Action>, s: State)
    ensures Run(ExampleStart(), acts) == Some(s)
    ensures s == State(
      Shared(map[10 := Proc(1, SupervisorArgv, 10, false)], {(10, 1)}, Meta(Running, Some(10)),
             Supervisor(10, 1, 10, Published, true, true, false, false)),
      map[0 := Canceller(SendTerm(10, 1, 10), [Matched])])
  {
    var init := ExampleStart();
    acts, s := ExampleStarted();
    var sh := s.sh;
    hide SupervisorStep;
    acts, s := Then(init, acts, s, Call(0));
    acts, s := Then(init, acts, s, Cancel(0, Go));
    assert s == State(sh, map[0 := Canceller(ReadCmdline(First, 10), [])]);
    acts, s := Then(init, acts, s, Cancel(0, Go));
    assert s == State(sh, map[0 := Canceller(ReadStat(First, 10, true), [])]);
    acts, s := Then(init, acts, s, Cancel(0, Go));
    assert s == State(sh, map[0 := Canceller(GetPgid(10, 1), [])]);
    acts, s := Then(init, acts, s, Cancel(0, Go));
    assert s == State(sh, map[0 := Canceller(ReadCmdline(Second(1, 10), 10), [])]);
    acts, s := Then(init, acts, s, Cancel(0, Go));
    assert s == State(sh, map[0 := Canceller(ReadStat(Second(1, 10), 10, true), [])]);
    acts, s := Then(init, acts, s, Cancel(0, Go));
    assert s.cancellers[0].events == [Matched];
    assert s.cancellers == map[0 := Canceller(SendTerm(10, 1, 10), [Matched])];
  }

  /** The worker has succeeded when SIGTERM comes: the supervisor is about to record `done`. */
  lemma ExampleTermTooLate() returns (acts: seq<Action>, s: State)
    ensures Run(ExampleStart(), acts) == Some(s)
    ensures s == State(
      Shared(map[10 := Proc(1, SupervisorArgv, 10, false)], {(10, 1)}, Meta(Running, Some(10)),
             Supervisor(10, 1, 10, Finishing(Done), true, true, true, false)),
      map[0 := Canceller(Probing(AfterTerm, 10, 1, 10), [Matched, TermSent])])
  {
    acts, s := ExampleUpToTerm();
    acts, s := Then(ExampleStart(), acts, s, Super(WorkerEnds(true)));
    assert 10 in s.sh.table && s.sh.table[10].pgid == 10;
    assert !GroupEmpty(s.sh.table, 10);
    acts, s := Then(ExampleStart(), acts, s, Cancel(0, Go));
    assert s.cancellers[0].events == [Matched, TermSent];
    assert s.cancellers == map[0 := Canceller(Probing(AfterTerm, 10, 1, 10), [Matched, TermSent])];
  }

  /** It records `done` and is gone. */
  lemma ExampleGone() returns (acts: seq<Action>, s: State)
    ensures Run(ExampleStart(), acts) == Some(s)
    ensures s.sh.table == map[] && s.sh.meta == Meta(Done, Some(10))
    ensures s.cancellers == map[0 := Canceller(Probing(AfterTerm, 10, 1, 10), [Matched, TermSent])]
  {
    acts, s := ExampleTermTooLate();
    acts, s := Then(ExampleStart(), acts, s, Super(Finish(true)));
    acts, s := Then(ExampleStart(), acts, s, Super(Exit));
    acts, s := Then(ExampleStart(), acts, s, System(Reap(10)));
  }

  /** The canceller finds the group empty. */
  lemma ExampleResultRecorded() returns (s: State)
    ensures Reachable(s) && s.sh.meta == Meta(Done, Some(10))
    ensures s.cancellers == map[0 := Canceller(Reread(10), [Matched, TermSent])]
  {
    hide SupervisorStep, SystemStep;
    var acts;
    acts, s := ExampleGone();
    acts, s := Then(ExampleStart(), acts, s, Cancel(0, Go));
    assert Init(ExampleStart());
  }

  /** The absorbing property does fail once a re-read fails: `done` is recorded and then replaced. */
  lemma BlindRereadLosesResult()
    ensures exists s: State, acts :: Reachable(s) && s.sh.meta.state == Done && HasBlindOverwrite(s, acts)
              && Run(s, acts).Some? && Run(s, acts).value.sh.meta.state == Cancelled
  {
    var s := ExampleResultRecorded();
    var acts, t := Then(s, [], s, Cancel(0, Fail));
    acts, t := Then(s, acts, t, Cancel(0, Go));
    ReachableInv(s);
    TerminalRun(s, acts);
  }
}
