/**
  The staged JDK update of core/runtime/java.py for one major: three directory
  slots (jdk-N, jdk-N.staging, jdk-N.old), the services that run on jdk-N, and
  a fault that may strike at every external call.

  Each method follows the source step by step.  Every step appends the disk it
  leaves to the ghost history, so "the machine stops here" is any element of
  the history, and what holds of every element holds at every crash point.
*/
module JdkUpdate {
  type App = string

  /** A directory slot; a tree that is not whole has lost files or has not got all of them yet. */
  datatype Slot = Absent | Tree(id: nat, whole: bool)

  datatype Name = Live | Staging | Rollback

  /** What a crash leaves behind. */
  datatype Disk = Disk(live: Slot, staging: Slot, rollback: Slot, running: set<App>)

  /** A point of the history: the disk, and whether the update had committed by then. */
  datatype Moment = Moment(disk: Disk, committed: bool)

  datatype Verb = Start | Stop

  /** What an external call does: succeed, raise without effect, or (removals) raise half way. */
  datatype Fault = Fine | Raises | RaisesHalfWay

  /** What the world answers to the reads of one update; whether a read raises is up to the faults. */
  datatype Answers = Answers(
    newId: nat,                  // identity of the downloaded tree
    stagedOk: bool,              // the staged tree reports the wanted major
    inUse: seq<App>,             // usage(major, home=dest)
    liveOk: bool)                // so does the tree swapped in

  /** The flags the handler looks at. */
  datatype Flags = Flags(hadLive: bool, rollbackCreated: bool, swapped: bool, committed: bool, svc: bool,
                         stopped: seq<App>, restarted: seq<App>)

  datatype RecoveryError = StopFailed(app: App) | CannotPreserve | RestoreFailed | RemoveFailed | StartFailed(app: App) | CleanFailed

  datatype Result =
    | NotStarted                 // raised before anything was touched
    | Installed                  // normal return
    | OriginalError              // the original exception, re-raised after a complete rollback
    | CommittedError             // "JDK update committed; rollback tree cleanup failed"
    | RollbackIncomplete         // "rollback incomplete"

  // ---------- what every step keeps ----------

  function Elems(s: seq<App>): (r: set<App>) {
    set a | a in s
  }

  /** `slot` is `was`, or what an interrupted removal leaves of it. */
  predicate LeftOf(slot: Slot, was: Slot) {
    slot == was || slot == Absent || (was.Tree? && slot == Tree(was.id, false))
  }

  /** What a removal that meets the fault leaves of a slot. */
  function AfterRemoval(slot: Slot, fault: Fault): Slot {
    match fault
    case Fine => Absent
    case Raises => slot
    case RaisesHalfWay => if slot.Tree? then Tree(slot.id, false) else Absent
  }

  /** Both probes report the wanted major, and no older rollback tree stands in the way of a swap. */
  predicate Good(w: Answers, start: Disk) {
    w.stagedOk && w.liveOk && !(start.live.Tree? && start.rollback.Tree?)
  }

  /** The disk between the two renames of a swap: the original tree is at .old alone. */
  function BetweenRenames(start: Disk, newId: nat, inUse: seq<App>): Disk {
    Disk(Absent, Tree(newId, true), start.live, start.running - Elems(inUse))
  }

  /** The tree that was live when the update began is whole, or as whole as it was, at jdk-N or .old. */
  predicate OriginalKept(start: Disk, d: Disk) {
    start.live.Tree? ==> d.live == start.live || d.rollback == start.live
  }

  /** Where an update with new tree `newId` can be, committed or not, having started from `start`. */
  predicate Reachable(start: Disk, newId: nat, m: Moment) {
    var d := m.disk;
    // An older rollback tree is never touched.
    && (start.rollback.Tree? ==> d.rollback == start.rollback)
    // Staging holds only what was there before or the new tree.
    && (d.staging.Tree? ==> d.staging.id == newId || LeftOf(d.staging, start.staging))
    && d.running <= start.running
    && (d.running != start.running ==> start.live.Tree?)
    && (if m.committed then
          && d.live == Tree(newId, true)
          && d.running == start.running
          && d.staging == Absent
          && (if start.live.Tree? then start.rollback == Absent && LeftOf(d.rollback, start.live) else d.rollback == start.rollback)
        else
          || (d.live == start.live && d.rollback == start.rollback)
          || (start.live == Absent && d.live == Tree(newId, true) && d.rollback == start.rollback)
          || (start.live.Tree? && start.rollback == Absent && d.rollback == start.live
              && (d.live == Absent || d.live == Tree(newId, true))))
  }

  /** The outcome tells the state. */
  predicate ResultTells(start: Disk, newId: nat, r: Result, d: Disk) {
    match r
    case NotStarted => d == start
    case Installed =>
      && d.live == Tree(newId, true) && d.staging == Absent && d.running == start.running
      && (start.live.Tree? ==> start.rollback == Absent)
      && d.rollback == (if start.live.Tree? then Absent else start.rollback)
    case OriginalError =>
      d == start.(staging := Absent)
    case CommittedError =>
      && start.live.Tree? && start.rollback == Absent
      && d.live == Tree(newId, true) && d.staging == Absent && d.running == start.running
      && LeftOf(d.rollback, start.live)
    case RollbackIncomplete => Reachable(start, newId, Moment(d, false))
  }

  function Get(d: Disk, n: Name): Slot {
    match n case Live => d.live case Staging => d.staging case Rollback => d.rollback
  }

  /** The disk with one slot replaced. */
  function With(d: Disk, n: Name, slot: Slot): Disk {
    match n
    case Live => d.(live := slot)
    case Staging => d.(staging := slot)
    case Rollback => d.(rollback := slot)
  }

  // ---------- removal ----------

  /** What detect() found for the major: one of the three slots, another plugin tree, or a shared runtime. */
  datatype Found = Nothing | Slotted(name: Name) | Elsewhere | Shared

  datatype Removal = NotInstalled | Refused | Removed | NothingThere | RemovalFailed

  /** A removal is not refused: the runtime is not shared, is there, and is not in use or is forced. */
  predicate Allowed(d: Disk, found: Found, inUse: seq<App>, force: bool) {
    found != Shared && (found == Nothing ==> d.live.Tree?) && (inUse == [] || force)
  }

  /** A removal acts on a slot of this major, not on another tree that detect() found. */
  predicate OnSlot(d: Disk, found: Found) {
    found != Elsewhere || d.live.Tree?
  }

  /** The slot a removal acts on: jdk-N when there is one, else whatever detect() pointed at. */
  function Target(d: Disk, found: Found): Name {
    if d.live.Tree? || !found.Slotted? then Live else found.name
  }

  /** The guard under which a removal acts on .old: it is allowed, there is no jdk-N, and detect() resolved into .old. */
  predicate RemovesRollback(d: Disk, found: Found, inUse: seq<App>, force: bool) {
    Allowed(d, found, inUse, force) && OnSlot(d, found) && Target(d, found) == Rollback
  }

  /** The dependents whose stop succeeds, when the first stop is call number `at`. */
  function StoppedBy(inUse: seq<App>, faults: nat -> Fault, at: nat): set<App> {
    set i | 0 <= i < |inUse| && faults(at + i) == Fine :: inUse[i]
  }

  /** How a removal ends, with the number of the next external call. */
  datatype Ending = Ending(removal: Removal, disk: Disk, next: nat)

  /** The end of a removal begun at `start` whose first external call is number `at`. */
  function Removing(start: Disk, found: Found, inUse: seq<App>, force: bool, faults: nat -> Fault, at: nat): Ending {
    if found == Nothing && !start.live.Tree? then Ending(NotInstalled, start, at)
    else if found == Shared then Ending(Refused, start, at)
    else if faults(at) != Fine || (inUse != [] && !force) then Ending(Refused, start, at + 1)
    else
      var d := start.(running := start.running - StoppedBy(inUse, faults, at + 1));
      var last := at + 1 + |inUse|;
      var removal := if faults(last) == Fine then Removed else RemovalFailed;
      if !OnSlot(start, found) then Ending(removal, d, last + 1)
      else
        var t := Target(start, found);
        if !Get(start, t).Tree? then Ending(NothingThere, d, last)
        else Ending(removal, With(d, t, AfterRemoval(Get(start, t), faults(last))), last + 1)
  }

  /** Every disk a removal can leave, finished or not. */
  predicate RemovalReach(start: Disk, found: Found, inUse: seq<App>, force: bool, d: Disk) {
    if !Allowed(start, found, inUse, force) then d == start
    else
      && start.running - Elems(inUse) <= d.running <= start.running
      && if OnSlot(start, found) then
           var t := Target(start, found);
           LeftOf(Get(d, t), Get(start, t)) && d == With(start, t, Get(d, t)).(running := d.running)
         else d == start.(running := d.running)
  }

  class Runtime {
    var live: Slot
    var staging: Slot
    var rollback: Slot
    var running: set<App>

    /** Counts external calls; the n-th one meets faults(n). */
    var calls: nat
    const faults: nat -> Fault

    ghost var history: seq<Moment>
    ghost var actions: seq<(App, Verb)>

    constructor (disk: Disk, faults: nat -> Fault)
      ensures Now() == disk && calls == 0 && history == [] && actions == [] && this.faults == faults
    {
      live, staging, rollback, running := disk.live, disk.staging, disk.rollback, disk.running;
      calls := 0;
      this.faults := faults;
      history, actions := [], [];
    }

    function Now(): Disk
      reads this
    {
      Disk(live, staging, rollback, running)
    }

    /** Every moment since `from` is Reachable, and so is the present one. */
    ghost predicate Safe(start: Disk, newId: nat, from: nat, committed: bool)
      reads this
    {
      && from <= |history|
      && (forall i | from <= i < |history| :: Reachable(start, newId, history[i]))
      && Reachable(start, newId, Moment(Now(), committed))
    }

    /** The external calls numbered from..to-1 all succeed. */
    predicate Quiet(from: nat, to: nat) {
      forall n: nat | from <= n < to :: faults(n) == Fine
    }

    /** The moment is in the history since `from`. */
    ghost predicate Seen(from: nat, m: Moment)
      reads this
    {
      exists i :: from <= i < |history| && history[i] == m
    }

    // ---------- external calls ----------

    /** Nothing happens on the disk, but the call may raise. */
    method Touch() returns (ok: bool)
      modifies this`calls
      ensures ok <==> faults(old(calls)) == Fine
      ensures calls == old(calls) + 1
    {
      ok := faults(calls) == Fine;
      calls := calls + 1;
    }

    method Put(n: Name, slot: Slot)
      modifies this`live, this`staging, this`rollback
      ensures Now() == With(old(Now()), n, slot)
    {
      match n
      case Live => live := slot;
      case Staging => staging := slot;
      case Rollback => rollback := slot;
    }

    ghost method Record(committed: bool)
      modifies this`history
      ensures history == old(history) + [Moment(Now(), committed)]
    {
      history := history + [Moment(Now(), committed)];
    }

    /** os.rename: atomic; it raises without effect on a fault or when something is in the way. */
    method Rename(src: Name, dst: Name) returns (ok: bool)
      requires src != dst
      modifies this`live, this`staging, this`rollback, this`calls, this`history
      ensures ok <==> faults(old(calls)) == Fine && Get(old(Now()), src).Tree? && Get(old(Now()), dst) == Absent
      ensures calls == old(calls) + 1
      ensures ok ==> Now() == With(With(old(Now()), dst, Get(old(Now()), src)), src, Absent)
      ensures ok ==> history == old(history) + [Moment(Now(), false)]
      ensures !ok ==> Now() == old(Now()) && history == old(history)
    {
      var fine := Touch();
      ok := fine && Get(Now(), src).Tree? && Get(Now(), dst) == Absent;
      if ok {
        Put(dst, Get(Now(), src));
        Put(src, Absent);
        Record(false);
      }
    }

    /** safe_rmtree: a raising removal may leave the tree as it was or without some of its files. */
    method RemoveTree(n: Name, committed: bool) returns (ok: bool)
      modifies this`live, this`staging, this`rollback, this`calls, this`history
      ensures LeftOf(Get(Now(), n), Get(old(Now()), n)) && Now() == With(old(Now()), n, Get(Now(), n))
      ensures ok <==> faults(old(calls)) == Fine
      ensures Get(Now(), n) == AfterRemoval(Get(old(Now()), n), faults(old(calls)))
      ensures calls == old(calls) + 1
      ensures old(history) <= history
      ensures forall i | |old(history)| <= i < |history| ::
        && LeftOf(Get(history[i].disk, n), Get(old(Now()), n))
        && history[i] == Moment(With(old(Now()), n, Get(history[i].disk, n)), committed)
    {
      var fault := faults(calls);
      calls := calls + 1;
      if fault == Raises {
        return false;
      }
      if Get(Now(), n).Tree? {
        Put(n, Tree(Get(Now(), n).id, false));
        Record(committed);
      }
      if fault == RaisesHalfWay {
        return false;
      }
      Put(n, Absent);
      Record(committed);
      return true;
    }

    /** service.action: takes effect, or raises without effect. */
    method Action(app: App, verb: Verb, committed: bool) returns (ok: bool)
      modifies this`running, this`calls, this`history, this`actions
      ensures ok <==> faults(old(calls)) == Fine
      ensures calls == old(calls) + 1
      ensures ok ==> running == (if verb == Start then old(running) + {app} else old(running) - {app})
      ensures !ok ==> running == old(running)
      ensures actions == old(actions) + [(app, verb)]
      ensures history == old(history) + [Moment(Now(), committed)]
    {
      ok := Touch();
      if ok {
        running := if verb == Start then running + {app} else running - {app};
      }
      actions := actions + [(app, verb)];
      Record(committed);
    }

    // ---------- the update ----------

    /** Where the try block can leave things; it failed, or ran to its end. */
    ghost predicate AttemptLeft(start: Disk, newId: nat, f: Flags, failed: bool)
      reads this
    {
      && Elems(f.stopped) <= start.running
      && f.restarted <= f.stopped
      && running == start.running - Elems(f.stopped) + Elems(f.restarted)
      && (f.stopped != [] ==> f.svc)
      && (f.svc ==> f.hadLive)
      && (f.hadLive ==> start.live.Tree?)
      && (f.rollbackCreated ==> f.hadLive && start.rollback == Absent)
      && (failed && f.committed ==> f.hadLive)
      && (!f.rollbackCreated && !f.swapped ==> live == start.live && rollback == start.rollback && f.restarted == [])
      && (f.rollbackCreated && !f.swapped ==> live == Absent && rollback == start.live && f.restarted == [])
      && (f.swapped ==>
            && live == Tree(newId, true) && staging == Absent
            && f.hadLive == start.live.Tree? && f.rollbackCreated == f.hadLive)
      && (f.swapped && !f.committed ==> rollback == if f.hadLive then start.live else start.rollback)
      && (f.committed ==> f.swapped && f.restarted == f.stopped)
      && (f.committed && !f.hadLive ==> rollback == start.rollback)
      && (!failed ==> f.committed && (f.hadLive ==> rollback == Absent))
    }

    /** Fetches and verifies, makes the root, checks the space and clears stale staging. */
    method ClearStaging(ghost start: Disk, ghost newId: nat) returns (ok: bool)
      requires start == Now()
      modifies this`live, this`staging, this`rollback, this`calls, this`history
      ensures Now() == start.(staging := staging) && LeftOf(staging, start.staging) && old(history) <= history
      ensures Safe(start, newId, |old(history)|, false)
      ensures old(calls) < calls && (ok <==> Quiet(old(calls), calls))
    {
      StagingMayHold(start, newId);
      hide Reachable;
      ok := Touch();
      if ok && staging.Tree? {
        ok := RemoveTree(Staging, false);
      }
    }

    /** Extracts the download beside the live tree and probes it. */
    method Stage(w: Answers, ghost start: Disk) returns (ok: bool)
      requires start == Now()
      modifies this`live, this`staging, this`rollback, this`calls, this`history
      ensures live == old(live) && rollback == old(rollback) && old(history) <= history
      ensures ok ==> staging == Tree(w.newId, true)
      ensures Safe(start, w.newId, |old(history)|, false)
      ensures old(calls) < calls && (ok <==> Quiet(old(calls), calls) && w.stagedOk)
    {
      StagingMayHold(start, w.newId);
      hide Reachable, LeftOf;
      ok := ClearStaging(start, w.newId);
      if !ok { return; }
      ok := Touch();             // ensure_dir(staging)
      if !ok { return; }
      staging := Tree(w.newId, false);
      Record(false);
      ok := Touch();             // tar
      if !ok { return; }
      staging := Tree(w.newId, true);
      Record(false);
      ok := Touch();             // the managed marker
      if !ok { return; }
      ok := Touch();             // probe(staging)
      ok := ok && w.stagedOk;
    }

    /** Stops the dependents that run, and only those. */
    method StopDependents(inUse: seq<App>, ghost start: Disk, ghost newId: nat, ghost from: nat, ghost act: nat)
      returns (ok: bool, stopped: seq<App>)
      requires start.live.Tree? && live == start.live && rollback == start.rollback && running == start.running
      requires Safe(start, newId, from, false)
      requires act <= |actions| && (forall i | act <= i < |actions| :: actions[i].0 in start.running)
      modifies this`running, this`calls, this`history, this`actions
      ensures Elems(stopped) <= start.running && running == start.running - Elems(stopped)
      ensures ok ==> running == start.running - Elems(inUse)
      ensures old(calls) <= calls && (ok <==> Quiet(old(calls), calls))
      ensures stopped != [] ==> inUse != []
      ensures Safe(start, newId, from, false) && old(history) <= history
      ensures act <= |actions| && (forall i | act <= i < |actions| :: actions[i].0 in start.running)
    {
      stopped := [];
      for i := 0 to |inUse|
        invariant Elems(stopped) <= start.running && running == start.running - Elems(stopped)
        invariant running == start.running - Elems(inUse[..i])
        invariant old(calls) <= calls && Quiet(old(calls), calls)
        invariant stopped != [] ==> inUse != []
        invariant Safe(start, newId, from, false) && old(history) <= history
        invariant act <= |actions| && (forall j | act <= j < |actions| :: actions[j].0 in start.running)
      {
        assert Elems(inUse[..i + 1]) == Elems(inUse[..i]) + {inUse[i]};
        ok := Touch();           // status(app)
        if !ok { return; }
        if inUse[i] !in running { continue; }
        ok := Action(inUse[i], Stop, false);
        if !ok { return; }
        assert Elems(stopped + [inUse[i]]) == Elems(stopped) + {inUse[i]};
        stopped := stopped + [inUse[i]];
      }
      assert inUse[..|inUse|] == inUse;
      ok := true;
    }

    /** Starts again what StopDependents stopped. */
    method RestartDependents(stopped: seq<App>, ghost start: Disk, ghost newId: nat, ghost from: nat, ghost act: nat)
      returns (ok: bool, restarted: seq<App>)
      requires Elems(stopped) <= start.running && running == start.running - Elems(stopped)
      requires Safe(start, newId, from, false) && (stopped != [] ==> start.live.Tree?)
      requires act <= |actions| && (forall i | act <= i < |actions| :: actions[i].0 in start.running)
      modifies this`running, this`calls, this`history, this`actions
      ensures restarted <= stopped && running == start.running - Elems(stopped) + Elems(restarted)
      ensures ok ==> restarted == stopped && running == start.running
      ensures old(calls) <= calls && (ok <==> Quiet(old(calls), calls))
      ensures Safe(start, newId, from, false) && old(history) <= history
      ensures act <= |actions| && (forall i | act <= i < |actions| :: actions[i].0 in start.running)
    {
      restarted := [];
      for i := 0 to |stopped|
        invariant restarted == stopped[..i] && running == start.running - Elems(stopped) + Elems(restarted)
        invariant old(calls) <= calls && Quiet(old(calls), calls)
        invariant Safe(start, newId, from, false) && old(history) <= history
        invariant act <= |actions| && (forall j | act <= j < |actions| :: actions[j].0 in start.running)
      {
        assert stopped[i] in Elems(stopped);
        ok := Action(stopped[i], Start, false);
        if !ok { return; }
        assert Elems(stopped[..i + 1]) == Elems(stopped[..i]) + {stopped[i]};
        restarted := restarted + [stopped[i]];
      }
      assert stopped[..|stopped|] == stopped;
      ok := true;
    }

    /** Looks for a live tree and makes way for it: refuses over an older rollback tree, stops the dependents. */
    method Prepare(w: Answers, ghost start: Disk, ghost from: nat, ghost act: nat) returns (f: Flags, ok: bool)
      requires Now() == start.(staging := staging) && staging == Tree(w.newId, true)
      requires Safe(start, w.newId, from, false) && act == |actions|
      modifies this`running, this`calls, this`history, this`actions
      ensures AttemptLeft(start, w.newId, f, true) && !f.rollbackCreated && !f.swapped && !f.committed
      ensures ok ==> f.hadLive == start.live.Tree? && (f.hadLive ==> start.rollback == Absent)
      ensures ok && f.hadLive ==> running == start.running - Elems(w.inUse)
      ensures old(calls) <= calls
      ensures ok <==> Quiet(old(calls), calls) && !(start.live.Tree? && start.rollback.Tree?)
      ensures Safe(start, w.newId, from, false) && old(history) <= history
      ensures act <= |actions| && (forall i | act <= i < |actions| :: actions[i].0 in start.running)
    {
      f := Flags(live.Tree?, false, false, false, false, [], []);
      if !f.hadLive {
        return f, true;
      }
      if rollback.Tree? {
        return f, false;
      }
      ok := Touch();             // usage
      if ok && w.inUse != [] {
        f := f.(svc := true);
        var stopped;
        ok, stopped := StopDependents(w.inUse, start, w.newId, from, act);
        f := f.(stopped := stopped);
      }
    }

    /** Existing tree to .old, staging to jdk-N. */
    method Swap(f0: Flags, ghost start: Disk, ghost newId: nat, ghost from: nat) returns (f: Flags, ok: bool)
      requires AttemptLeft(start, newId, f0, true) && !f0.rollbackCreated && !f0.swapped && !f0.committed
      requires staging == Tree(newId, true)
      requires f0.hadLive == start.live.Tree? && (f0.hadLive ==> start.rollback == Absent)
      requires Safe(start, newId, from, false)
      modifies this`live, this`staging, this`rollback, this`calls, this`history
      ensures AttemptLeft(start, newId, f, true) && !f.committed && f.restarted == []
      ensures f.stopped == f0.stopped && f.svc == f0.svc && f.hadLive == f0.hadLive
      ensures ok ==> f.swapped
      ensures old(calls) <= calls && (ok <==> Quiet(old(calls), calls))
      ensures ok && f.hadLive ==> Seen(|old(history)|, Moment(Disk(Absent, Tree(newId, true), start.live, running), false))
      ensures Safe(start, newId, from, false) && old(history) <= history
    {
      f := f0;
      if f.hadLive {
        ok := Rename(Live, Rollback);
        if !ok { return; }
        f := f.(rollbackCreated := true);
        assert history[|old(history)|] == Moment(Disk(Absent, Tree(newId, true), start.live, running), false);
      }
      ghost var between := history;
      ok := Rename(Staging, Live);
      if !ok { return; }
      assert between <= history;
      f := f.(swapped := true);
    }

    /** Proves the new tree, restarts the dependents, commits, and only then drops .old. */
    method Settle(w: Answers, f0: Flags, ghost start: Disk, ghost from: nat, ghost act: nat) returns (f: Flags, failed: bool)
      requires AttemptLeft(start, w.newId, f0, true) && f0.swapped && !f0.committed && f0.restarted == []
      requires Safe(start, w.newId, from, false)
      requires act <= |actions| && (forall i | act <= i < |actions| :: actions[i].0 in start.running)
      modifies this
      ensures AttemptLeft(start, w.newId, f, failed)
      ensures old(calls) < calls && (!failed <==> Quiet(old(calls), calls) && w.liveOk)
      ensures failed && f.committed ==> !Quiet(old(calls), calls)
      ensures Safe(start, w.newId, from, f.committed) && old(history) <= history
      ensures act <= |actions| && (forall i | act <= i < |actions| :: actions[i].0 in start.running)
    {
      f, failed := f0, true;
      var ok := Touch();         // probe(dest)
      if !ok || !w.liveOk { return; }
      if f.svc {
        var restarted;
        ok, restarted := RestartDependents(f.stopped, start, w.newId, from, act);
        f := f.(restarted := restarted);
        if !ok { return; }
      }
      f := f.(committed := true);
      Record(true);
      if f.hadLive {
        ok := RemoveTree(Rollback, true);
        if !ok { return; }
      }
      failed := false;
    }

    /** The try block. */
    method Attempt(w: Answers, ghost start: Disk) returns (f: Flags, failed: bool)
      requires start == Now()
      modifies this
      ensures AttemptLeft(start, w.newId, f, failed)
      ensures old(calls) < calls && (!failed <==> Quiet(old(calls), calls) && Good(w, start))
      ensures failed && f.committed ==> !Quiet(old(calls), calls)
      ensures !failed && start.live.Tree? ==>
        Seen(|old(history)|, Moment(BetweenRenames(start, w.newId, w.inUse), false))
      ensures Safe(start, w.newId, |old(history)|, f.committed) && old(history) <= history
      ensures |old(actions)| <= |actions| && (forall i | |old(actions)| <= i < |actions| :: actions[i].0 in start.running)
    {
      ghost var from, act := |history|, |actions|;
      f, failed := Flags(false, false, false, false, false, [], []), true;
      var ok := Stage(w, start);
      if !ok { return; }
      f, ok := Prepare(w, start, from, act);
      if !ok { return; }
      f, ok := Swap(f, start, w.newId, from);
      if !ok { return; }
      f, failed := Settle(w, f, start, from, act);
    }

    // ---------- the recovery handler ----------

    /** Stops what had already started on the new runtime; a failure is noted and the rest goes on. */
    method StopRestarted(f: Flags, ghost start: Disk, ghost newId: nat, ghost from: nat) returns (errors: seq<RecoveryError>)
      requires AttemptLeft(start, newId, f, true) && !f.committed && Safe(start, newId, from, false)
      modifies this`running, this`calls, this`history, this`actions
      ensures running <= start.running && Safe(start, newId, from, false) && old(history) <= history
      ensures old(calls) <= calls && (errors == [] <==> Quiet(old(calls), calls))
      ensures start.running <= running + Elems(f.stopped)
      ensures CannotPreserve !in errors
      ensures old(actions) <= actions && (forall i | |old(actions)| <= i < |actions| :: actions[i].0 in start.running)
    {
      errors := [];
      for i := 0 to |f.restarted|
        invariant running <= start.running && Safe(start, newId, from, false) && old(history) <= history
        invariant old(calls) <= calls && (errors == [] <==> Quiet(old(calls), calls))
        invariant start.running <= running + Elems(f.stopped)
        invariant CannotPreserve !in errors
        invariant old(actions) <= actions && (forall j | |old(actions)| <= j < |actions| :: actions[j].0 in start.running)
      {
        assert f.restarted[i] == f.stopped[i] && f.stopped[i] in Elems(f.stopped);
        var ok := Action(f.restarted[i], Stop, false);
        if !ok { errors := errors + [StopFailed(f.restarted[i])]; }
      }
    }

    /** Puts the original tree back, or takes a failed first install away. */
    method RestoreTrees(f: Flags, ghost start: Disk, ghost newId: nat, ghost from: nat) returns (errors: seq<RecoveryError>)
      requires Safe(start, newId, from, false) && running <= start.running && !f.committed
      requires !f.rollbackCreated && !f.swapped ==> live == start.live && rollback == start.rollback
      requires f.rollbackCreated && !f.swapped ==> live == Absent && rollback == start.live
      requires f.swapped ==> live == Tree(newId, true) && staging == Absent && f.hadLive == start.live.Tree? && f.rollbackCreated == f.hadLive
      requires f.swapped ==> rollback == if f.hadLive then start.live else start.rollback
      requires f.rollbackCreated ==> f.hadLive && start.rollback == Absent && start.live.Tree?
      modifies this`live, this`staging, this`rollback, this`calls, this`history
      ensures Safe(start, newId, from, false) && old(history) <= history
      ensures old(calls) <= calls && (errors == [] <==> Quiet(old(calls), calls))
      ensures errors == [] ==> live == start.live && rollback == start.rollback
      ensures CannotPreserve !in errors
    {
      errors := [];
      if f.rollbackCreated && rollback.Tree? {
        var ok := true;
        if live.Tree? {
          if staging.Tree? {
            errors := errors + [CannotPreserve];
          } else {
            ok := Rename(Live, Staging);
          }
        }
        if ok && !live.Tree? {
          ok := Rename(Rollback, Live);
        }
        if !ok { errors := errors + [RestoreFailed]; }
      } else if f.swapped && !f.hadLive && live.Tree? {
        if !staging.Tree? {
          var ok := Rename(Live, Staging);
          if !ok { errors := errors + [RemoveFailed]; }
        }
      }
    }

    /** Returns every service that was stopped to its running state. */
    method StartStopped(stopped: seq<App>, ghost start: Disk, ghost newId: nat, ghost from: nat) returns (errors: seq<RecoveryError>)
      requires Safe(start, newId, from, false) && running <= start.running && Elems(stopped) <= start.running
      requires stopped != [] ==> start.live.Tree?
      modifies this`running, this`calls, this`history, this`actions
      ensures running <= start.running && Safe(start, newId, from, false) && old(history) <= history
      ensures old(calls) <= calls && (errors == [] <==> Quiet(old(calls), calls))
      ensures errors == [] ==> running == old(running) + Elems(stopped)
      ensures CannotPreserve !in errors
      ensures old(actions) <= actions && (forall i | |old(actions)| <= i < |actions| :: actions[i].0 in start.running)
    {
      errors := [];
      for i := 0 to |stopped|
        invariant running <= start.running && Safe(start, newId, from, false) && old(history) <= history
        invariant old(calls) <= calls && (errors == [] <==> Quiet(old(calls), calls))
        invariant errors == [] ==> running == old(running) + Elems(stopped[..i])
        invariant CannotPreserve !in errors
        invariant old(actions) <= actions && (forall j | |old(actions)| <= j < |actions| :: actions[j].0 in start.running)
      {
        assert stopped[i] in Elems(stopped);
        assert Elems(stopped[..i + 1]) == Elems(stopped[..i]) + {stopped[i]};
        var ok := Action(stopped[i], Start, false);
        if !ok { errors := errors + [StartFailed(stopped[i])]; }
      }
      assert stopped[..|stopped|] == stopped;
    }

    /** The handler, for a failure before the commit point. */
    method Recover(f: Flags, ghost start: Disk, ghost newId: nat, ghost from: nat) returns (errors: seq<RecoveryError>)
      requires AttemptLeft(start, newId, f, true) && !f.committed && Safe(start, newId, from, false)
      modifies this
      ensures Safe(start, newId, from, false) && old(history) <= history
      ensures old(calls) <= calls && (errors == [] <==> Quiet(old(calls), calls))
      ensures errors == [] ==> Now() == start.(staging := Absent)
      ensures CannotPreserve !in errors
      ensures old(actions) <= actions && (forall i | |old(actions)| <= i < |actions| :: actions[i].0 in start.running)
    {
      hide Reachable;
      errors := [];
      if f.svc {
        errors := StopRestarted(f, start, newId, from);
      }
      var restoring := RestoreTrees(f, start, newId, from);
      errors := errors + restoring;
      if f.svc && live.Tree? {
        var starting := StartStopped(f.stopped, start, newId, from);
        errors := errors + starting;
      }
      if staging.Tree? {
        StagingMayShrink(start, newId, Now());
        var ok := RemoveTree(Staging, false);
        if !ok { errors := errors + [CleanFailed]; }
      }
    }

    /** `_install_temurin_locked`: the whole transaction under the major's lock. */
    method InstallLocked(w: Answers) returns (r: Result, errors: seq<RecoveryError>)
      modifies this
      ensures ResultTells(old(Now()), w.newId, r, Now())
      // Exactly when every call succeeds and the answers allow it, the update goes through.
      ensures r == Installed <==> Quiet(old(calls), calls) && Good(w, old(Now()))
      ensures Quiet(old(calls), calls) && !Good(w, old(Now())) ==> r == OriginalError
      ensures r == NotStarted <==> faults(old(calls)) != Fine
      ensures r == Installed && old(live).Tree? ==>
        Seen(|old(history)|, Moment(BetweenRenames(old(Now()), w.newId, w.inUse), false))
      ensures old(history) <= history
      ensures forall i | |old(history)| <= i < |history| :: Reachable(old(Now()), w.newId, history[i])
      ensures forall i | |old(history)| <= i < |history| && !history[i].committed :: OriginalKept(old(Now()), history[i].disk)
      ensures CannotPreserve !in errors && (r == RollbackIncomplete <==> errors != [])
      ensures forall i | |old(actions)| <= i < |actions| :: actions[i].0 in old(running)
    {
      ghost var start, from := Now(), |history|;
      errors := [];
      var ok := Touch();         // metadata, temporary directory: outside the try block
      if !ok {
        return NotStarted, [];
      }
      var f, failed := Attempt(w, start);
      if !failed {
        return Installed, [];
      }
      if f.committed {
        return CommittedError, [];
      }
      errors := Recover(f, start, w.newId, from);
      r := if errors == [] then OriginalError else RollbackIncomplete;
    }

    // ---------- removal and reinstallation ----------

    /** `_uninstall_locked`, with detect() and usage() answered by the world. */
    method UninstallLocked(found: Found, inUse: seq<App>, force: bool) returns (r: Removal)
      modifies this
      ensures Ending(r, Now(), calls) == Removing(old(Now()), found, inUse, force, faults, old(calls))
      ensures old(history) <= history
      ensures forall i | |old(history)| <= i < |history| :: RemovalReach(old(Now()), found, inUse, force, history[i].disk)
      ensures RemovalReach(old(Now()), found, inUse, force, Now())
    {
      hide StoppedBy, AfterRemoval;
      ghost var start, at := Now(), calls;
      if found == Nothing && !live.Tree? {
        return NotInstalled;
      }
      if found == Shared {
        return Refused;
      }
      var ok := Touch();         // usage
      if !ok || (inUse != [] && !force) {
        return Refused;
      }
      NobodyStopped(inUse, faults, at + 1);
      for i := 0 to |inUse|
        invariant Now() == start.(running := start.running - StoppedBy(inUse[..i], faults, at + 1))
        invariant calls == at + 1 + i && old(history) <= history
        invariant forall j | |old(history)| <= j < |history| :: RemovalReach(start, found, inUse, force, history[j].disk)
      {
        OneMoreStopped(inUse, faults, at + 1, i);
        ok := Action(inUse[i], Stop, false);   // a failure is ignored
      }
      assert inUse[..|inUse|] == inUse;
      if found == Elsewhere && !live.Tree? {
        ok := Touch();                         // another tree than this major's slots
        return if ok then Removed else RemovalFailed;
      }
      var target := Target(Now(), found);
      if !Get(Now(), target).Tree? {
        return NothingThere;
      }
      ok := RemoveTree(target, false);
      r := if ok then Removed else RemovalFailed;
    }

    /** `reinstall`: a shared runtime is refused by uninstall unless the caller asked for a plugin copy. */
    method Reinstall(found: Found, again: Found, toPluginDir: bool, removalUse: seq<App>, w: Answers) returns (ok: bool)
      modifies this
      ensures ok ==> live == Tree(w.newId, true) && staging == Absent
      ensures old(history) <= history
      // One update transaction.
      ensures !(found == Shared && !toPluginDir) ==>
        && (ok <==> Quiet(old(calls), calls) && Good(w, old(Now())))
        && forall i | |old(history)| <= i < |history| :: Reachable(old(Now()), w.newId, history[i])
      // A removal, which refuses as long as the runtime is still shared, and then the transaction.
      ensures found == Shared && !toPluginDir ==>
        var e := Removing(old(Now()), again, removalUse, true, faults, old(calls));
        && (ok <==> e.removal !in {Refused, RemovalFailed} && Quiet(e.next, calls) && Good(w, e.disk))
        && (e.removal in {Refused, RemovalFailed} ==> Now() == e.disk)
        && forall i | |old(history)| <= i < |history| ::
             RemovalReach(old(Now()), again, removalUse, true, history[i].disk) || Reachable(e.disk, w.newId, history[i])
    {
      if found == Shared && !toPluginDir {
        var r := UninstallLocked(again, removalUse, true);
        if r == Refused || r == RemovalFailed {
          return false;
        }
      }
      var r, _ := InstallLocked(w);
      ok := r == Installed;
    }
  }

  /** While the rest is as at the start, staging may hold the new tree or what is left of the old staging. */
  lemma StagingMayHold(start: Disk, newId: nat)
    ensures Reachable(start, newId, Moment(start, false))
    ensures forall slot | slot == Absent || slot.id == newId || LeftOf(slot, start.staging) ::
      Reachable(start, newId, Moment(With(start, Staging, slot), false))
  {}

  lemma StagingMayShrink(start: Disk, newId: nat, d: Disk)
    requires Reachable(start, newId, Moment(d, false))
    ensures forall slot | LeftOf(slot, d.staging) :: Reachable(start, newId, Moment(With(d, Staging, slot), false))
  {}

  // ---------- what removals do ----------

  lemma NobodyStopped(inUse: seq<App>, faults: nat -> Fault, at: nat)
    ensures StoppedBy(inUse[..0], faults, at) == {} && StoppedBy(inUse, faults, at) <= Elems(inUse)
  {}

  lemma OneMoreStopped(inUse: seq<App>, faults: nat -> Fault, at: nat, i: nat)
    requires i < |inUse|
    ensures StoppedBy(inUse[..i + 1], faults, at)
         == StoppedBy(inUse[..i], faults, at) + (if faults(at + i) == Fine then {inUse[i]} else {})
    ensures Elems(inUse) >= StoppedBy(inUse[..i + 1], faults, at)
  {}

  /** Without a fault an allowed removal empties its slot and stops the dependents; otherwise nothing changes. */
  lemma RemovalGoesThrough(start: Disk, found: Found, inUse: seq<App>, force: bool, faults: nat -> Fault, at: nat)
    requires forall n: nat :: faults(n) == Fine
    ensures var e := Removing(start, found, inUse, force, faults, at);
            if !Allowed(start, found, inUse, force) then e.removal in {NotInstalled, Refused} && e.disk == start
            else
              && e.disk.running == start.running - Elems(inUse)
              && (OnSlot(start, found) ==> Get(e.disk, Target(start, found)) == Absent)
              && (e.removal == NothingThere <==> OnSlot(start, found) && !Get(start, Target(start, found)).Tree?)
              && e.removal in {Removed, NothingThere}
  {
    assert StoppedBy(inUse, faults, at + 1) == Elems(inUse);
  }

  /** The faults that lead a removal from start to d. */
  function FaultsFor(start: Disk, found: Found, inUse: seq<App>, d: Disk): nat -> Fault {
    var was, left := Get(start, Target(start, found)), Get(d, Target(start, found));
    (n: nat) => if n == 0 then Fine
         else if n <= |inUse| then (if inUse[n - 1] in d.running then Raises else Fine)
         else if left == was then Raises else if left == Absent then Fine else RaisesHalfWay
  }

  /** The relation is exact: a removal that meets the right faults ends in each disk it holds of, and in no other. */
  lemma RemovalReachIsExact(start: Disk, found: Found, inUse: seq<App>, force: bool, d: Disk)
    ensures RemovalReach(start, found, inUse, force, d) <==>
            exists faults :: Removing(start, found, inUse, force, faults, 0).disk == d
  {
    if RemovalReach(start, found, inUse, force, d) {
      var faults := FaultsFor(start, found, inUse, d);
      if Allowed(start, found, inUse, force) {
        assert start.running - StoppedBy(inUse, faults, 1) == d.running by {
          forall a | a in start.running ensures a in StoppedBy(inUse, faults, 1) <==> a !in d.running {
            if a !in d.running {
              var i :| 0 <= i < |inUse| && inUse[i] == a;
              assert faults(1 + i) == Fine;
            }
          }
        }
      }
      assert Removing(start, found, inUse, force, faults, 0).disk == d;
    }
    if faults :| Removing(start, found, inUse, force, faults, 0).disk == d {
      EndsInReach(start, found, inUse, force, faults);
    }
  }

  lemma EndsInReach(start: Disk, found: Found, inUse: seq<App>, force: bool, faults: nat -> Fault)
    ensures RemovalReach(start, found, inUse, force, Removing(start, found, inUse, force, faults, 0).disk)
  {}

  /**
    Which tree goes.  An allowed removal without a fault takes jdk-N when there
    is one, else the slot that detect() found, and touches no other slot.  A
    refused one leaves everything as it is.
  */
  lemma RemovalTakes(start: Disk, found: Found, inUse: seq<App>, force: bool, faults: nat -> Fault, at: nat)
    requires forall n: nat :: faults(n) == Fine
    ensures var e := Removing(start, found, inUse, force, faults, at);
            && (found == Shared || (inUse != [] && !force) || (found == Nothing && start.live == Absent) ==>
                  e.disk == start && e.removal != Removed)
            && (found != Shared && (inUse == [] || force) && start.live.Tree? ==>
                  e.removal == Removed
                  && e.disk == Disk(Absent, start.staging, start.rollback, start.running - Elems(inUse)))
            && ((inUse == [] || force) && start.live == Absent && found == Slotted(Staging) && start.staging.Tree? ==>
                  e.removal == Removed && e.disk == Disk(Absent, Absent, start.rollback, start.running - Elems(inUse)))
            && ((inUse == [] || force) && start.live == Absent && found == Slotted(Rollback) && start.rollback.Tree? ==>
                  e.removal == Removed && e.disk == Disk(Absent, start.staging, Absent, start.running - Elems(inUse)))
            && ((inUse == [] || force) && start.live == Absent && found == Elsewhere ==>
                  e.removal == Removed && e.disk == start.(running := start.running - Elems(inUse)))
  {
    assert StoppedBy(inUse, faults, at + 1) == Elems(inUse);
  }

  /** A removal whose last call fails says so, and keeps the tree or loses part of it; it never loses another one. */
  lemma FailedRemovalKeeps(start: Disk, found: Found, inUse: seq<App>, faults: nat -> Fault)
    requires start.live.Tree? && found != Shared
    requires forall n: nat | n <= |inUse| :: faults(n) == Fine
    requires faults(|inUse| + 1) != Fine
    ensures var e := Removing(start, found, inUse, true, faults, 0);
            && e.removal == RemovalFailed && e.disk.live.Tree? && e.disk.live.id == start.live.id
            && (faults(|inUse| + 1) == Raises ==> e.disk.live == start.live)
            && e.disk.staging == start.staging && e.disk.rollback == start.rollback
  {}

  /** An existing .old is at risk from a removal if and only if jdk-N is missing, detect() found .old, and no use prevents it. */
  lemma RollbackAtRiskExactly(start: Disk, found: Found, inUse: seq<App>, force: bool)
    requires start.rollback.Tree?
    ensures (exists faults :: Removing(start, found, inUse, force, faults, 0).disk.rollback != start.rollback)
       <==> start.live == Absent && found == Slotted(Rollback) && (inUse == [] || force)
    ensures RemovesRollback(start, found, inUse, force)
       <==> start.live == Absent && found == Slotted(Rollback) && (inUse == [] || force)
  {
    if start.live == Absent && found == Slotted(Rollback) && (inUse == [] || force) {
      var fine: nat -> Fault := n => Fine;
      RemovalTakes(start, found, inUse, force, fine, 0);
      assert Removing(start, found, inUse, force, fine, 0).disk.rollback == Absent;
    }
  }

  // ---------- runs of installs, reinstalls and removals, with crashes anywhere ----------

  /** One operation of a run: an update (reinstall is one too) or a removal. */
  datatype Operation = Update(newId: nat) | Remove(found: Found, inUse: seq<App>, force: bool)

  /** `d` is the disk an operation begun at `start` leaves, by finishing or by crashing at some step. */
  predicate Leaves(start: Disk, op: Operation, d: Disk) {
    d == start || (
      match op
      case Update(newId) => Reachable(start, newId, Moment(d, false)) || Reachable(start, newId, Moment(d, true))
      case Remove(found, inUse, force) => RemovalReach(start, found, inUse, force, d))
  }

  /** Between two operations services may be started or stopped, but nobody else touches the slots. */
  predicate SameTrees(x: Disk, y: Disk) {
    x.(running := y.running) == y
  }

  ghost predicate Between(x: Disk, op: Operation, y: Disk) {
    exists d :: Leaves(x, op, d) && SameTrees(d, y)
  }

  /** disks[i] is the disk before operation i, and after the last one. */
  ghost predicate IsRun(disks: seq<Disk>, ops: seq<Operation>) {
    && |disks| == |ops| + 1
    && forall i | 0 <= i < |ops| :: Between(disks[i], ops[i], disks[i + 1])
  }

  predicate HitsOne(d: Disk, op: Operation) {
    op.Remove? && RemovesRollback(d, op.found, op.inUse, op.force)
  }

  /** Some removal of the run resolved into .old while jdk-N was missing. */
  predicate HitsRollback(disks: seq<Disk>, ops: seq<Operation>)
    requires |disks| == |ops| + 1
  {
    exists i | 0 <= i < |ops| :: HitsOne(disks[i], ops[i])
  }

  /** Every moment in the history of an update, and the state it ends in, is a disk an update leaves. */
  lemma UpdateLeaves(start: Disk, newId: nat, m: Moment, r: Result, d: Disk)
    requires Reachable(start, newId, m) && ResultTells(start, newId, r, d)
    ensures Leaves(start, Update(newId), m.disk) && Leaves(start, Update(newId), d)
  {
    assert m == Moment(m.disk, m.committed);
    match r
    case Installed => assert Reachable(start, newId, Moment(d, true));
    case CommittedError => assert Reachable(start, newId, Moment(d, true));
    case OriginalError => assert Reachable(start, newId, Moment(d, false));
    case _ =>
  }

  lemma OneOperationKeepsRollback(start: Disk, op: Operation, d: Disk)
    requires Leaves(start, op, d) && start.rollback.Tree?
    requires !HitsOne(start, op)
    ensures d.rollback == start.rollback
  {}

  /** A rollback tree left by an earlier operation is never overwritten, changed or removed by a later one. */
  lemma {:induction false} OldRollbackIsKept(disks: seq<Disk>, ops: seq<Operation>)
    requires IsRun(disks, ops) && disks[0].rollback.Tree?
    requires !HitsRollback(disks, ops)
    ensures disks[|ops|].rollback == disks[0].rollback
    decreases |ops|
  {
    if ops != [] {
      assert Between(disks[0], ops[0], disks[1]);
      var d :| Leaves(disks[0], ops[0], d) && SameTrees(d, disks[1]);
      OneOperationKeepsRollback(disks[0], ops[0], d);
      RunTail(disks, ops);
      OldRollbackIsKept(disks[1..], ops[1..]);
    }
  }

  lemma RunTail(disks: seq<Disk>, ops: seq<Operation>)
    requires IsRun(disks, ops) && ops != []
    ensures IsRun(disks[1..], ops[1..])
    ensures !HitsRollback(disks, ops) ==> !HitsRollback(disks[1..], ops[1..])
  {
    forall i | 0 <= i < |ops[1..]| ensures Between(disks[1..][i], ops[1..][i], disks[1..][i + 1]) {
      assert Between(disks[i + 1], ops[i + 1], disks[i + 2]);
    }
    if HitsRollback(disks[1..], ops[1..]) {
      var i :| 0 <= i < |ops[1..]| && HitsOne(disks[1..][i], ops[1..][i]);
      assert HitsOne(disks[i + 1], ops[i + 1]);
    }
  }

  /**
    The guard is met by what an update can leave.  A fault-free update passes
    through the moment between its renames; if the machine stops there, and a
    runtime on PATH resolves into .old, removing it leaves no tree of the major.
  */
  method InterruptedSwapThenRemovalLosesTree(start: Disk, w: Answers) returns (update: Runtime, removal: Runtime, r: Removal)
    requires start.live.Tree? && Good(w, start)
    ensures fresh(update) && fresh(removal)
    ensures update.Seen(0, Moment(BetweenRenames(start, w.newId, w.inUse), false))
    ensures var crashed := BetweenRenames(start, w.newId, w.inUse);
            && RemovesRollback(crashed, Slotted(Rollback), [], false)
            && Removing(crashed, Slotted(Rollback), [], false, removal.faults, 0) == Ending(r, removal.Now(), removal.calls)
            && r == Removed && removal.live == removal.rollback == Absent
            && IsRun([start, crashed, removal.Now()], [Update(w.newId), Remove(Slotted(Rollback), [], false)])
  {
    var fine: nat -> Fault := n => Fine;
    update := new Runtime(start, fine);
    var _, _ := update.InstallLocked(w);
    var crashed := BetweenRenames(start, w.newId, w.inUse);
    removal := new Runtime(crashed, fine);
    r := removal.UninstallLocked(Slotted(Rollback), [], false);
    assert update.Seen(0, Moment(crashed, false));
    CrashedRun(start, w, removal.Now());
  }

  lemma CrashedRun(start: Disk, w: Answers, d: Disk)
    requires start.live.Tree? && Good(w, start)
    requires RemovalReach(BetweenRenames(start, w.newId, w.inUse), Slotted(Rollback), [], false, d)
    ensures IsRun([start, BetweenRenames(start, w.newId, w.inUse), d], [Update(w.newId), Remove(Slotted(Rollback), [], false)])
  {
    var crashed := BetweenRenames(start, w.newId, w.inUse);
    assert Reachable(start, w.newId, Moment(crashed, false));
    assert Leaves(start, Update(w.newId), crashed) && SameTrees(crashed, crashed);
    assert Leaves(crashed, Remove(Slotted(Rollback), [], false), d) && SameTrees(d, d);
    assert Between(start, Update(w.newId), crashed) && Between(crashed, Remove(Slotted(Rollback), [], false), d);
  }

  /** A usable runtime: a whole tree at jdk-N, or at .old where the operator finds it. */
  predicate Recoverable(d: Disk) {
    (d.live.Tree? && d.live.whole) || (d.rollback.Tree? && d.rollback.whole)
  }

  /** However many updates run or crash, in whatever order, a recoverable runtime stays recoverable. */
  lemma {:induction false} UpdatesNeverLoseRuntime(disks: seq<Disk>, ops: seq<Operation>)
    requires IsRun(disks, ops) && Recoverable(disks[0])
    requires forall op | op in ops :: op.Update?
    ensures Recoverable(disks[|ops|])
    decreases |ops|
  {
    if ops != [] {
      assert Between(disks[0], ops[0], disks[1]);
      var d :| Leaves(disks[0], ops[0], d) && SameTrees(d, disks[1]);
      assert ops[0].Update?;
      assert Recoverable(disks[1]);
      RunTail(disks, ops);
      UpdatesNeverLoseRuntime(disks[1..], ops[1..]);
    }
  }

  /** Before the commit the original tree is at jdk-N or .old, and never in .staging: clearing staging cannot destroy it. */
  lemma StagingNeverHoldsOriginal(start: Disk, newId: nat, m: Moment)
    requires Reachable(start, newId, m) && start.live.Tree? && newId != start.live.id
    requires start.staging.Tree? ==> start.staging.id != start.live.id
    ensures m.disk.staging.Tree? ==> m.disk.staging.id != start.live.id
    ensures !m.committed ==> OriginalKept(start, m.disk)
    ensures !OriginalKept(start, m.disk) ==> m.committed && m.disk.live == Tree(newId, true)
  {}
}
