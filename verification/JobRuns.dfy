/**
  What the job-cancellation protocol does get done: a job is published and its
  result recorded, and a cancellation that can prove the group gone ends with
  `cancelled` recorded and returned.
*/
module JobRuns {
  import opened Wrappers
  import opened JobProtocol
  import opened JobProtocolProofs

  /** One more action of a canceller. */
  lemma Goes(s0: State, acts: seq<Action>, s: State, c: CancellerId, ch: Choice) returns (more: seq<Action>, t: State)
    requires Run(s0, acts) == Some(s) && c in s.cancellers && CancelStep(s.sh, s.cancellers[c].pc, ch).Some?
    ensures Run(s0, more) == Some(t)
    ensures var o := CancelStep(s.sh, s.cancellers[c].pc, ch).value;
            t == State(o.sh, s.cancellers[c := Canceller(o.pc,
              if o.event.Some? then s.cancellers[c].events + [o.event.value] else s.cancellers[c].events)])
  {
    hide CancelStep, Run;
    more, t := Then(s0, acts, s, Cancel(c, ch));
  }

  /** One more action of the supervisor. */
  lemma Acts(s0: State, acts: seq<Action>, s: State, a: SupervisorAct) returns (more: seq<Action>, t: State)
    requires Run(s0, acts) == Some(s) && SupervisorStep(s.sh, a).Some?
    ensures Run(s0, more) == Some(t) && t == s.(sh := SupervisorStep(s.sh, a).value)
  {
    hide SupervisorStep, Run;
    more, t := Then(s0, acts, s, Super(a));
  }

  // ---------- the supervisor ----------

  /** A started job is published: running, with the pid, and with the handler in place. */
  lemma StartPublishes(s: State) returns (acts: seq<Action>, t: State)
    requires Init(s)
    ensures Run(s, acts) == Some(t) && t.sh.sup.pc == Published && t.sh.sup.handler
    ensures t.sh.meta == Meta(Running, Some(s.sh.sup.pid)) && s.sh.sup.pid in t.sh.table
    ensures t.sh.table[s.sh.sup.pid].argv == SupervisorArgv
  {
    hide Run;
    acts, t := [], s;
    assert Run(s, []) == Some(s) by { EmptyRun(s); }
    acts, t := Acts(s, acts, t, ExecOk);
    acts, t := Acts(s, acts, t, Load);
    acts, t := Acts(s, acts, t, Install);
    acts, t := Acts(s, acts, t, Popen);
    acts, t := Acts(s, acts, t, Publish);
  }

  lemma EmptyRun(s: State)
    ensures Run(s, []) == Some(s)
  {}

  /** A launch that fails is recorded as failed. */
  lemma FailedLaunchIsRecorded(s: State) returns (acts: seq<Action>, t: State)
    requires Init(s)
    ensures Run(s, acts) == Some(t) && t.sh.meta == Meta(Failed, None) && t.sh.sup.pc == Leaving
  {
    EmptyRun(s);
    hide Run;
    acts, t := Acts(s, [], s, ExecFails);
    acts, t := Acts(s, acts, t, MarkLaunchFailed(true));
  }

  /** Without a cancellation the worker's result is recorded: done exactly when it succeeded. */
  lemma ResultIsRecorded(s: State, success: bool) returns (acts: seq<Action>, t: State)
    requires Reachable(s) && s.sh.sup.pc == Published && !s.sh.sup.cancelRequested
    ensures Run(s, acts) == Some(t) && t.sh.sup.pc == Leaving && t.cancellers == s.cancellers && t.sh.table == s.sh.table
    ensures t.sh.meta == Meta(if success then Done else Failed, Some(s.sh.sup.pid))
  {
    ReachableInv(s);
    EmptyRun(s);
    hide Run, Reachable;
    acts, t := Acts(s, [], s, WorkerEnds(success));
    acts, t := Acts(s, acts, t, Finish(true));
  }

  /** An exception of the supervisor is recorded as a failure, unless a cancellation already is. */
  lemma TroubleIsRecorded(s: State) returns (acts: seq<Action>, t: State)
    requires Reachable(s) && s.sh.sup.pc in {Loaded, Armed, Forked, Published}
    ensures Run(s, acts) == Some(t) && t.sh.meta.state == Failed && t.sh.sup.pc == Leaving
  {
    EmptyRun(s);
    hide Run, Reachable;
    acts, t := Acts(s, [], s, Trouble);
    acts, t := Acts(s, acts, t, Finish(true));
  }

  /** Once a SIGTERM was taken the end of the worker records nothing: the write is left to the canceller. */
  lemma CancelledWorkerRecordsNothing(s: State, success: bool) returns (acts: seq<Action>, t: State)
    requires Reachable(s) && s.sh.sup.pc == Published && s.sh.sup.termPending
    ensures Run(s, acts) == Some(t) && t.sh.meta == s.sh.meta && t.sh.sup.pc == Leaving
  {
    ReachableInv(s);
    EmptyRun(s);
    hide Run, Reachable;
    acts, t := Acts(s, [], s, TakeTerm);
    acts, t := Acts(s, acts, t, WorkerEnds(success));
  }

  // ---------- what the surroundings may do ----------

  /** Once the supervisor is dead and reaped, its pid can go to a stranger, who may enter any group and leave again. */
  lemma PidIsReused(s: State, birth: Birth, g: Pid) returns (acts: seq<Action>, t: State)
    requires s.sh.sup.pc == Dead && s.sh.sup.pid !in s.sh.table && (s.sh.sup.pid, birth) !in s.sh.born
    ensures Run(s, acts) == Some(t) && t.sh.meta == s.sh.meta
    ensures s.sh.sup.pid in t.sh.table && t.sh.table[s.sh.sup.pid] == Proc(birth, OtherArgv, g, true)
  {
    var p := s.sh.sup.pid;
    EmptyRun(s);
    hide Run;
    acts, t := Then(s, [], s, System(Spawn(p, Proc(birth, OtherArgv, p, false))));
    acts, t := Then(s, acts, t, System(SetPgid(p, g)));
    acts, t := Then(s, acts, t, System(ExitOther(p)));
  }

  /** A SIGTERM to another group, or to a dead supervisor, does not reach the supervisor. */
  lemma OthersAreNotReached(sh: Shared, g: Pid)
    ensures g != sh.sup.pgid || sh.sup.pc == Dead ==> DeliverTerm(sh, g) == sh
    ensures g == sh.sup.pgid && sh.sup.pc != Dead ==> DeliverTerm(sh, g) == sh.(sup := sh.sup.(termPending := true))
  {}

  // ---------- what a call of cancel refuses ----------

  /** A job that is not running, or has no pid yet, is not touched: the call raises. */
  lemma NotRunningIsRefused(sh: Shared, ch: Choice)
    requires sh.meta.state != Running || sh.meta.pid == None
    ensures CancelStep(sh, ReadMeta, ch) == Some(Outcome(sh, Raised, None))
  {}

  /** An identity that cannot be read, or is not the supervisor's, is never signalled: the call looks for a recorded result. */
  lemma UnverifiedIsNotSignalled(sh: Shared, probe: Probe, pid: Pid, argvMatched: bool, ch: Choice)
    requires pid !in sh.table || !argvMatched || (!probe.First? && sh.table[pid].birth != probe.birth)
    ensures CancelStep(sh, ReadStat(probe, pid, argvMatched), ch) == Some(Outcome(sh, Raced, None))
  {}

  // ---------- a cancellation that succeeds ----------

  /** With the group gone and the record still running, the call records `cancelled` and returns it; a recorded result it returns. */
  lemma RereadThenCancels(s: State, c: CancellerId, p: Pid) returns (acts: seq<Action>, t: State)
    requires c in s.cancellers && s.cancellers[c].pc == Reread(p)
    ensures Run(s, acts) == Some(t) && c in t.cancellers && |acts| <= 2
    ensures forall i | 0 <= i < |acts| :: acts[i] == Cancel(c, Go)
    ensures s.sh.meta.state == Running ==>
              t.sh == s.sh.(meta := Meta(Cancelled, Some(p))) && t.cancellers[c].pc == Returned(Cancelled)
    ensures s.sh.meta.state != Running ==> t.sh == s.sh && t.cancellers[c].pc == Returned(s.sh.meta.state)
  {
    t := Step(s, Cancel(c, Go)).value;
    if s.sh.meta.state == Running {
      var u := Step(t, Cancel(c, Go)).value;
      TwoSteps(s, Cancel(c, Go), t, Cancel(c, Go), u);
      acts, t := [Cancel(c, Go), Cancel(c, Go)], u;
    } else {
      OneStep(s, Cancel(c, Go), t);
      acts := [Cancel(c, Go)];
    }
  }

  lemma OneStep(s: State, a: Action, t: State)
    requires Step(s, a) == Some(t)
    ensures Run(s, [a]) == Some(t)
  {
    assert Run(t, [a][1..]) == Some(t);
  }

  lemma TwoSteps(s: State, a: Action, t: State, b: Action, u: State)
    requires Step(s, a) == Some(t) && Step(t, b) == Some(u)
    ensures Run(s, [a, b]) == Some(u)
  {
    OneStep(t, b, u);
    assert [a, b][1..] == [b];
  }

  /** A published supervisor is the only process of its group, and nobody cancels under this id yet. */
  ghost predicate Alone(s: State, c: CancellerId) {
    && Reachable(s) && s.sh.sup.pc == Published && c !in s.cancellers
    && forall p | p in s.sh.table && s.sh.table[p].pgid == s.sh.sup.pgid :: p == s.sh.sup.pid
  }

  lemma AloneMeans(s: State, c: CancellerId)
    requires Alone(s, c)
    ensures var sh, me := s.sh, s.sh.sup;
            && me.pid in sh.table && sh.table[me.pid] == Proc(me.birth, SupervisorArgv, me.pgid, false)
            && sh.meta == Meta(Running, Some(me.pid)) && me.handler
  {
    ReachableInv(s);
  }

  /** The two captures of a call, with nothing changing meanwhile, lead it to its SIGTERM. */
  lemma CapturesMatch(s: State, c: CancellerId) returns (acts: seq<Action>, t: State)
    requires Alone(s, c)
    ensures Run(s, acts) == Some(t) && t.sh == s.sh
    ensures c in t.cancellers && t.cancellers[c] == Canceller(SendTerm(s.sh.sup.pid, s.sh.sup.birth, s.sh.sup.pgid), [Matched])
  {
    AloneMeans(s, c);
    EmptyRun(s);
    hide Run, Alone, Reachable;
    acts, t := Then(s, [], s, Call(c));
    acts, t := Goes(s, acts, t, c, Go);
    acts, t := Goes(s, acts, t, c, Go);
    acts, t := Goes(s, acts, t, c, Go);
    acts, t := Goes(s, acts, t, c, Go);
    acts, t := Goes(s, acts, t, c, Go);
    acts, t := Goes(s, acts, t, c, Go);
    assert [] + [Matched] == [Matched];
  }

  /** SIGTERM becomes pending and the call goes on to probe the group. */
  lemma TermIsSent(s0: State, acts: seq<Action>, s: State, c: CancellerId) returns (more: seq<Action>, t: State)
    requires Run(s0, acts) == Some(s) && c in s.cancellers && s.sh.sup.pc == Published && s.sh.sup.pid in s.sh.table
    requires s.sh.table[s.sh.sup.pid].pgid == s.sh.sup.pgid
    requires s.cancellers[c] == Canceller(SendTerm(s.sh.sup.pid, s.sh.sup.birth, s.sh.sup.pgid), [Matched])
    ensures Run(s0, more) == Some(t) && t.sh == s.sh.(sup := s.sh.sup.(termPending := true)) && c in t.cancellers
    ensures t.cancellers[c] == Canceller(Probing(AfterTerm, s.sh.sup.pid, s.sh.sup.birth, s.sh.sup.pgid), [Matched, TermSent])
  {
    hide Run;
    assert !GroupEmpty(s.sh.table, s.sh.sup.pgid);
    more, t := Goes(s0, acts, s, c, Go);
    assert [Matched] + [TermSent] == [Matched, TermSent];
  }

  /** The supervisor takes its SIGTERM, sees its worker end, leaves, and is reaped. */
  lemma SupervisorGoes(s0: State, acts: seq<Action>, s: State) returns (more: seq<Action>, t: State)
    requires Run(s0, acts) == Some(s) && s.sh.sup.pc == Published && s.sh.sup.handler && s.sh.sup.termPending
    requires s.sh.sup.pid in s.sh.table
    ensures Run(s0, more) == Some(t) && t.sh.meta == s.sh.meta && t.cancellers == s.cancellers
    ensures t.sh.table == s.sh.table - {s.sh.sup.pid} && t.sh.sup.pc == Dead
  {
    hide Run;
    more, t := Acts(s0, acts, s, TakeTerm);
    more, t := Acts(s0, more, t, WorkerEnds(false));
    more, t := Acts(s0, more, t, Exit);
    more, t := Then(s0, more, t, System(Reap(s.sh.sup.pid)));
  }

  /** The group is found empty, and the call records and returns `cancelled`. */
  lemma FindsGroupGone(s0: State, acts: seq<Action>, s: State, c: CancellerId, round: Round, p: Pid, b: Birth, g: Pid)
    returns (more: seq<Action>, t: State)
    requires Run(s0, acts) == Some(s) && c in s.cancellers && s.cancellers[c].pc == Probing(round, p, b, g)
    requires GroupEmpty(s.sh.table, g)
    ensures Run(s0, more) == Some(t) && t.sh == s.sh && c in t.cancellers
    ensures t.cancellers[c] == Canceller(Reread(p), s.cancellers[c].events)
  {
    hide Run;
    more, t := Goes(s0, acts, s, c, Go);
  }

  lemma RecordsCancelled(s0: State, acts: seq<Action>, s: State, c: CancellerId, p: Pid) returns (more: seq<Action>, t: State)
    requires Run(s0, acts) == Some(s) && c in s.cancellers && s.cancellers[c].pc == Reread(p) && s.sh.meta.state == Running
    ensures Run(s0, more) == Some(t) && t.sh == s.sh.(meta := Meta(Cancelled, Some(p))) && c in t.cancellers
    ensures t.cancellers[c] == Canceller(Returned(Cancelled), s.cancellers[c].events)
  {
    hide Run;
    more, t := Goes(s0, acts, s, c, Go);
    more, t := Goes(s0, more, t, c, Go);
  }

  /**
    From every reachable state with a published supervisor alone in its group
    there is a run in which a new call of `cancel` ends with `cancelled`
    recorded and returned, and the supervisor dead.
  */
  lemma CancellationCompletes(s: State, c: CancellerId) returns (acts: seq<Action>, t: State)
    requires Alone(s, c)
    ensures Run(s, acts) == Some(t) && c in t.cancellers && t.cancellers[c].pc == Returned(Cancelled)
    ensures t.sh.meta == Meta(Cancelled, Some(s.sh.sup.pid)) && t.sh.sup.pc == Dead
  {
    AloneMeans(s, c);
    NobodyElse(s, c);
    acts, t := CapturesMatch(s, c);
    hide *;
    acts, t := TermIsSent(s, acts, t, c);
    acts, t := SupervisorGoes(s, acts, t);
    acts, t := FindsGroupGone(s, acts, t, c, AfterTerm, s.sh.sup.pid, s.sh.sup.birth, s.sh.sup.pgid);
    acts, t := RecordsCancelled(s, acts, t, c, s.sh.sup.pid);
  }

  lemma NobodyElse(s: State, c: CancellerId)
    requires Alone(s, c)
    ensures GroupEmpty(s.sh.table - {s.sh.sup.pid}, s.sh.sup.pgid)
    ensures forall p | p in s.sh.table && s.sh.table[p].pgid == s.sh.sup.pgid :: p == s.sh.sup.pid
  {}

  // ---------- a supervisor that does not react ----------

  /** The wait after SIGTERM runs out over a live supervisor: a third capture leads to SIGKILL. */
  lemma WaitRunsOut(s0: State, acts: seq<Action>, s: State, c: CancellerId) returns (more: seq<Action>, t: State)
    requires Run(s0, acts) == Some(s) && c in s.cancellers && s.sh.sup.pid in s.sh.table
    requires s.sh.table[s.sh.sup.pid] == Proc(s.sh.sup.birth, SupervisorArgv, s.sh.sup.pgid, false)
    requires forall p | p in s.sh.table && s.sh.table[p].pgid == s.sh.sup.pgid :: p == s.sh.sup.pid
    requires s.cancellers[c] == Canceller(Probing(AfterTerm, s.sh.sup.pid, s.sh.sup.birth, s.sh.sup.pgid), [Matched, TermSent])
    ensures Run(s0, more) == Some(t) && t.sh == s.sh && c in t.cancellers
    ensures t.cancellers[c] == Canceller(SendKill(s.sh.sup.pid, s.sh.sup.birth, s.sh.sup.pgid), [Matched, TermSent, Matched])
  {
    hide Run;
    var me := s.sh.sup.pid;
    assert !GroupEmpty(s.sh.table, s.sh.sup.pgid);
    more, t := Goes(s0, acts, s, c, Go);
    more, t := Goes(s0, more, t, c, List([me]));
    more, t := Goes(s0, more, t, c, Go);
    more, t := Goes(s0, more, t, c, GiveUp);
    more, t := Goes(s0, more, t, c, Go);
    more, t := Goes(s0, more, t, c, Go);
    assert [Matched, TermSent] + [Matched] == [Matched, TermSent, Matched];
  }

  /** SIGKILL is sent, the supervisor dies and stays as a zombie, and the scan takes the group for gone. */
  lemma KilledIsGone(s0: State, acts: seq<Action>, s: State, c: CancellerId) returns (more: seq<Action>, t: State)
    requires Run(s0, acts) == Some(s) && c in s.cancellers && s.sh.sup.pid in s.sh.table && s.sh.sup.pc != Dead
    requires s.sh.table[s.sh.sup.pid] == Proc(s.sh.sup.birth, SupervisorArgv, s.sh.sup.pgid, false)
    requires forall p | p in s.sh.table && s.sh.table[p].pgid == s.sh.sup.pgid :: p == s.sh.sup.pid
    requires s.cancellers[c] == Canceller(SendKill(s.sh.sup.pid, s.sh.sup.birth, s.sh.sup.pgid), [Matched, TermSent, Matched])
    ensures Run(s0, more) == Some(t) && t.sh.meta == s.sh.meta && t.sh.sup.pc == Dead && c in t.cancellers
    ensures t.cancellers[c] == Canceller(Reread(s.sh.sup.pid), [Matched, TermSent, Matched, KillSent])
  {
    hide Run;
    var me := s.sh.sup.pid;
    assert !GroupEmpty(s.sh.table, s.sh.sup.pgid);
    more, t := Goes(s0, acts, s, c, Go);
    assert [Matched, TermSent, Matched] + [KillSent] == [Matched, TermSent, Matched, KillSent];
    more, t := Acts(s0, more, t, Die);
    assert me in t.sh.table && t.sh.table[me].pgid == s.sh.sup.pgid && t.sh.table[me].zombie;
    assert !GroupEmpty(t.sh.table, s.sh.sup.pgid);
    more, t := Goes(s0, more, t, c, Go);
    more, t := Goes(s0, more, t, c, List([me]));
    more, t := Goes(s0, more, t, c, Go);
    more, t := Goes(s0, more, t, c, Go);
  }

  /** Also when the supervisor never reacts to SIGTERM there is a run that ends with `cancelled`, by SIGKILL over a zombie left behind. */
  lemma KillCompletes(s: State, c: CancellerId) returns (acts: seq<Action>, t: State)
    requires Alone(s, c)
    ensures Run(s, acts) == Some(t) && c in t.cancellers
    ensures t.cancellers[c] == Canceller(Returned(Cancelled), [Matched, TermSent, Matched, KillSent])
    ensures t.sh.meta == Meta(Cancelled, Some(s.sh.sup.pid)) && t.sh.sup.pc == Dead
  {
    AloneMeans(s, c);
    NobodyElse(s, c);
    acts, t := CapturesMatch(s, c);
    hide *;
    acts, t := TermIsSent(s, acts, t, c);
    acts, t := WaitRunsOut(s, acts, t, c);
    acts, t := KilledIsGone(s, acts, t, c);
    acts, t := RecordsCancelled(s, acts, t, c, s.sh.sup.pid);
  }

  // ---------- a race that is lost ----------

  lemma JobEnds(s0: State, acts: seq<Action>, s: State, success: bool) returns (more: seq<Action>, t: State)
    requires Run(s0, acts) == Some(s) && s.sh.sup.pc == Published && !s.sh.sup.cancelRequested && s.sh.sup.pidNoted
    requires s.sh.sup.pid in s.sh.table
    ensures Run(s0, more) == Some(t) && t.cancellers == s.cancellers && s.sh.sup.pid !in t.sh.table
    ensures t.sh.meta == Meta(if success then Done else Failed, Some(s.sh.sup.pid))
  {
    hide Run;
    more, t := Acts(s0, acts, s, WorkerEnds(success));
    more, t := Acts(s0, more, t, Finish(true));
    more, t := Acts(s0, more, t, Exit);
    more, t := Then(s0, more, t, System(Reap(s.sh.sup.pid)));
  }

  lemma PidIsGone(s0: State, acts: seq<Action>, s: State, c: CancellerId, p: Pid) returns (more: seq<Action>, t: State)
    requires Run(s0, acts) == Some(s) && c in s.cancellers && s.cancellers[c].pc == ReadCmdline(First, p) && p !in s.sh.table
    requires s.sh.meta.state != Running
    ensures Run(s0, more) == Some(t) && t.sh == s.sh && c in t.cancellers
    ensures t.cancellers[c] == Canceller(Returned(s.sh.meta.state), s.cancellers[c].events)
  {
    hide Run;
    more, t := Goes(s0, acts, s, c, Go);
    more, t := Goes(s0, more, t, c, Go);
  }

  lemma CallReadsPid(s: State, c: CancellerId) returns (acts: seq<Action>, t: State)
    requires Alone(s, c)
    ensures Run(s, acts) == Some(t) && t.sh == s.sh && c in t.cancellers
    ensures t.cancellers[c] == Canceller(ReadCmdline(First, s.sh.sup.pid), [])
  {
    AloneMeans(s, c);
    EmptyRun(s);
    hide Run, Alone, Reachable;
    acts, t := Then(s, [], s, Call(c));
    acts, t := Goes(s, acts, t, c, Go);
  }

  /** If the job ends by itself under a call, the call returns the recorded result and sends no signal. */
  lemma LostRaceReturnsResult(s: State, c: CancellerId, success: bool) returns (acts: seq<Action>, t: State)
    requires Alone(s, c) && !s.sh.sup.cancelRequested
    ensures Run(s, acts) == Some(t) && c in t.cancellers
    ensures t.sh.meta == Meta(if success then Done else Failed, Some(s.sh.sup.pid))
    ensures t.cancellers[c] == Canceller(Returned(t.sh.meta.state), [])
  {
    AloneMeans(s, c);
    ReachableInv(s);
    acts, t := CallReadsPid(s, c);
    assert s.sh.sup.pidNoted && s.sh.sup.pc == Published;
    hide *;
    acts, t := JobEnds(s, acts, t, success);
    acts, t := PidIsGone(s, acts, t, c, s.sh.sup.pid);
  }
}
