/**
  Copy-truncate log rotation of core/logrotate.py for one log: the live file and
  its numbered rotations, which may have gaps.  A rotation is a sequence of
  file-system steps that may stop after any of them.
*/
module LogRotate {
  import opened Wrappers

  /** One <log>.<i>.gz: what it holds, how many rotations came before it, and its modification time. */
  datatype Rotated = Rotated(content: string, serial: nat, mtime: nat)

  type Slots = map<nat, Rotated>

  /** The log, its rotations, and the number of rotations taken so far. */
  datatype Family = Family(live: string, slots: Slots, taken: nat)

  function Get(slots: Slots, i: nat): Option<Rotated> {
    if i in slots then Some(slots[i]) else None
  }

  function Without(slots: Slots, m: nat): Slots {
    map i: nat | i in slots && i != m :: slots[i]
  }

  /** os.replace of slot m onto slot m + 1, when slot m exists. */
  function Renamed(slots: Slots, m: nat): Slots {
    if m in slots then Without(slots, m)[m + 1 := slots[m]] else slots
  }

  // ---------- what a rotation has done at each point ----------

  /** Stopping points: slots m..keep-1 moved up, live captured in slot 1, live truncated. */
  datatype Point = Moved(m: nat) | Captured | Truncated

  predicate ValidPoint(p: Point, keep: nat) {
    p.Moved? ==> 1 <= p.m <= keep
  }

  /** What slot i holds once slots m..keep-1 have moved up; `freed` says whether removing slot keep succeeded. */
  function SlotAt(slots: Slots, keep: nat, freed: bool, m: nat, i: nat): Option<Rotated>
    requires 1 <= m <= keep
  {
    if i > keep || i < m then Get(slots, i)
    else if i == keep then
      var left := if freed then None else Get(slots, keep);
      if m < keep && keep - 1 in slots then Some(slots[keep - 1]) else left
    else if i == m then None
    else Get(slots, i - 1)
  }

  function SlotsAt(slots: Slots, keep: nat, freed: bool, m: nat): Slots
    requires 1 <= m <= keep
  {
    map i: nat | i in slots.Keys + (set j: nat | j in slots.Keys :: j + 1) && SlotAt(slots, keep, freed, m, i).Some?
      :: SlotAt(slots, keep, freed, m, i).value
  }

  /** The family at a point of a rotation begun at `f`. */
  function At(f: Family, keep: nat, freed: bool, now: nat, p: Point): Family
    requires 1 <= keep && ValidPoint(p, keep)
  {
    match p
    case Moved(m) => f.(slots := SlotsAt(f.slots, keep, freed, m))
    case Captured => AfterCapture(f, keep, freed, now)
    case Truncated => AfterCapture(f, keep, freed, now).(live := "")
  }

  function AfterCapture(f: Family, keep: nat, freed: bool, now: nat): Family
    requires 1 <= keep
  {
    Family(f.live, SlotsAt(f.slots, keep, freed, 1)[1 := Rotated(f.live, f.taken, now)], f.taken + 1)
  }

  // ---------- the rotation itself ----------

  class LogFiles {
    var live: string
    var slots: Slots
    var taken: nat
    ghost var history: seq<Family>

    function Now(): Family
      reads this
    {
      Family(live, slots, taken)
    }

    ghost method Record()
      modifies this`history
      ensures history == old(history) + [Now()]
    {
      history := history + [Now()];
    }

    /** Every moment from index `from` on is a stopping point of the rotation begun at f. */
    ghost predicate Stops(from: nat, f: Family, keep: nat, freed: bool, now: nat)
      requires 1 <= keep
      reads this
    {
      from <= |history| && forall k | from <= k < |history| :: IsStop(history[k], f, keep, freed, now)
    }

    /** Drops the oldest, then shifts 1..keep-1 up by one. */
    method ShiftUp(keep: nat, unlinkFails: bool, ghost now: nat)
      requires 1 <= keep
      modifies this`slots, this`history
      ensures slots == SlotsAt(old(slots), keep, !unlinkFails, 1)
      ensures old(history) <= history && Stops(|old(history)|, old(Now()), keep, !unlinkFails, now)
    {
      hide SlotsAt, IsStop, Without, Renamed;
      ghost var f0, freed := Now(), !unlinkFails;
      if keep in slots && !unlinkFails {
        slots := Without(slots, keep);
      }
      NothingMoved(f0.slots, keep, freed);
      Record();
      Stopped(f0, keep, freed, now, Moved(keep));
      var i := keep - 1;
      while i > 0
        invariant 0 <= i < keep
        invariant slots == SlotsAt(f0.slots, keep, freed, i + 1)
        invariant old(history) <= history && Stops(|old(history)|, f0, keep, freed, now)
      {
        MoveUp(f0.slots, keep, freed, i);
        slots := Renamed(slots, i);
        Record();
        Stopped(f0, keep, freed, now, Moved(i));
        i := i - 1;
      }
    }

    /** `_rotate_one`; unlinkFails resolves what removing the oldest slot does. */
    method RotateOne(keep: int, now: nat, unlinkFails: bool)
      modifies this
      ensures keep <= 0 ==> Now() == old(Now()).(live := "") && history == old(history)
      ensures Now() == Apply(old(Now()), Rotation(keep, !unlinkFails, now, Truncated))
      ensures keep >= 1 ==>
        && Now() == At(old(Now()), keep, !unlinkFails, now, Truncated)
        && old(history) <= history && Stops(|old(history)|, old(Now()), keep, !unlinkFails, now)
    {
      if keep <= 0 {
        live := "";
        return;
      }
      ghost var f0 := Now();
      ShiftUp(keep, unlinkFails, now);
      hide SlotsAt, IsStop;
      slots := slots[1 := Rotated(live, taken, now)];
      taken := taken + 1;
      Record();
      Stopped(f0, keep, !unlinkFails, now, Captured);
      live := "";
      Record();
      Stopped(f0, keep, !unlinkFails, now, Truncated);
    }

    /** `purge` removes the rotations older than the cutoff, or all of them; never the live log. */
    method Purge(cutoff: Option<nat>)
      modifies this`slots
      ensures Now() == Purged(old(Now()), cutoff) == Apply(old(Now()), Purging(cutoff))
      ensures live == old(live)
      ensures forall i: nat ::
        Get(slots, i) == (if i in old(slots) && cutoff.Some? && old(slots)[i].mtime >= cutoff.value then Some(old(slots)[i]) else None)
    {
      var todo := slots.Keys;
      while todo != {}
        invariant todo <= old(slots).Keys
        invariant slots == map i | i in old(slots) && (i in todo || !Expired(old(slots)[i], cutoff)) :: old(slots)[i]
        decreases todo
      {
        var i :| i in todo;
        if Expired(slots[i], cutoff) {
          slots := slots - {i};
        }
        todo := todo - {i};
      }
    }
  }

  /** `x` is what a rotation begun at `f` leaves when it stops somewhere. */
  ghost predicate IsStop(x: Family, f: Family, keep: nat, freed: bool, now: nat)
    requires 1 <= keep
  {
    exists p :: ValidPoint(p, keep) && x == At(f, keep, freed, now, p)
  }

  lemma Stopped(f: Family, keep: nat, freed: bool, now: nat, p: Point)
    requires 1 <= keep && ValidPoint(p, keep)
    ensures IsStop(At(f, keep, freed, now, p), f, keep, freed, now)
  {}

  lemma NothingMoved(slots: Slots, keep: nat, freed: bool)
    requires 1 <= keep
    ensures SlotsAt(slots, keep, freed, keep) ==
      if keep in slots && freed then Without(slots, keep) else slots
  {
    var s, t := SlotsAt(slots, keep, freed, keep), if keep in slots && freed then Without(slots, keep) else slots;
    SlotsAtGet(slots, keep, freed, keep);
    forall i: nat ensures Get(s, i) == Get(t, i) {}
    assert forall i :: i in s <==> i in t;
  }

  predicate Expired(r: Rotated, cutoff: Option<nat>) {
    cutoff.None? || r.mtime < cutoff.value
  }

  function Purged(f: Family, cutoff: Option<nat>): Family {
    f.(slots := map i | i in f.slots && !Expired(f.slots[i], cutoff) :: f.slots[i])
  }

  /** One turn of the shifting loop: slot m, when there, moves to m + 1, which is free or stuck. */
  lemma MoveUp(slots: Slots, keep: nat, freed: bool, m: nat)
    requires 1 <= m < keep
    ensures SlotsAt(slots, keep, freed, m) == Renamed(SlotsAt(slots, keep, freed, m + 1), m)
    ensures m + 1 in SlotsAt(slots, keep, freed, m + 1) ==> m + 1 == keep && !freed
  {
    var s, t := SlotsAt(slots, keep, freed, m + 1), SlotsAt(slots, keep, freed, m);
    SlotsAtGet(slots, keep, freed, m);
    SlotsAtGet(slots, keep, freed, m + 1);
    var moved := Renamed(s, m);
    forall i: nat ensures Get(t, i) == Get(moved, i) {}
    assert forall i :: i in t <==> i in moved;
  }

  lemma SlotsAtGet(slots: Slots, keep: nat, freed: bool, m: nat)
    requires 1 <= m <= keep
    ensures forall i: nat :: Get(SlotsAt(slots, keep, freed, m), i) == SlotAt(slots, keep, freed, m, i)
  {
    forall i: nat ensures Get(SlotsAt(slots, keep, freed, m), i) == SlotAt(slots, keep, freed, m, i) {
      if SlotAt(slots, keep, freed, m, i).Some? {
        assert i in slots || (i > 0 && i - 1 in slots);
        if i !in slots {
          assert i == (i - 1) + 1;
        }
      }
    }
  }

  // ---------- the exact shift ----------

  /**
    A rotation with keep >= 1 that removes the oldest is an exact shift, gaps
    included: slot 1 is the live content, slot i + 1 is the old slot i below
    keep, everything above keep stays, and the live log is empty.
  */
  lemma RotationIsShift(f: Family, keep: nat, now: nat, i: nat)
    requires 1 <= keep
    ensures var g := At(f, keep, true, now, Truncated);
            && g.live == ""
            && Get(g.slots, 1) == Some(Rotated(f.live, f.taken, now))
            && (1 <= i < keep ==> Get(g.slots, i + 1) == Get(f.slots, i))
            && (i > keep ==> Get(g.slots, i) == Get(f.slots, i))
  {
    SlotsAtGet(f.slots, keep, true, 1);
  }

  /** If removing the oldest fails it stays exactly when slot keep - 1 is empty and keep > 1; nothing else differs. */
  lemma FailedUnlinkExactly(f: Family, keep: nat, now: nat)
    requires 1 <= keep && keep in f.slots
    ensures At(f, keep, false, now, Truncated) != At(f, keep, true, now, Truncated)
            <==> keep > 1 && keep - 1 !in f.slots
  {
    SlotsAtGet(f.slots, keep, false, 1);
    SlotsAtGet(f.slots, keep, true, 1);
    var a, b := At(f, keep, false, now, Truncated), At(f, keep, true, now, Truncated);
    if keep > 1 && keep - 1 !in f.slots {
      assert Get(a.slots, keep) != Get(b.slots, keep);
    } else {
      forall i: nat ensures Get(a.slots, i) == Get(b.slots, i) {}
      assert forall i :: i in a.slots <==> i in b.slots;
      assert a.slots == b.slots;
    }
  }

  // ---------- no content is lost ----------

  /** Wherever a rotation stops, the live content and every slot but the oldest kept are still there. */
  lemma StoppedRotationKeeps(f: Family, keep: nat, freed: bool, now: nat, p: Point, i: nat)
    requires 1 <= keep && ValidPoint(p, keep)
    ensures var g := At(f, keep, freed, now, p);
            && (g.live == f.live || (1 in g.slots && g.slots[1].content == f.live))
            && (i in f.slots && i != keep && i >= 1 ==>
                  Get(g.slots, i) == Some(f.slots[i]) || Get(g.slots, i + 1) == Some(f.slots[i]))
  {
    SlotsAtGet(f.slots, keep, freed, if p.Moved? then p.m else 1);
  }

  // ---------- a higher index is always older ----------

  /** Rotations are numbered from 1, and a higher index means an earlier capture. */
  predicate Ordered(f: Family) {
    && (forall i | i in f.slots :: i >= 1 && f.slots[i].serial < f.taken)
    && (forall i, j | i in f.slots && j in f.slots && i < j :: f.slots[i].serial > f.slots[j].serial)
  }

  /** The slot whose rotation slot i holds at a point. */
  function Source(slots: Slots, keep: nat, m: nat, i: nat): nat
    requires 1 <= m <= keep
  {
    if i > keep || (i <= m && i != keep) then i
    else if i == keep then (if m < keep && keep - 1 in slots then keep - 1 else keep)
    else i - 1
  }

  lemma SourceOf(slots: Slots, keep: nat, freed: bool, m: nat, i: nat)
    requires 1 <= m <= keep && i in SlotsAt(slots, keep, freed, m)
    ensures Source(slots, keep, m, i) in slots
    ensures SlotsAt(slots, keep, freed, m)[i] == slots[Source(slots, keep, m, i)]
  {
    SlotsAtGet(slots, keep, freed, m);
    assert Get(SlotsAt(slots, keep, freed, m), i) == SlotAt(slots, keep, freed, m, i);
  }

  lemma SourcesInOrder(slots: Slots, keep: nat, freed: bool, m: nat, i: nat, j: nat)
    requires 1 <= m <= keep && i < j
    requires i in SlotsAt(slots, keep, freed, m) && j in SlotsAt(slots, keep, freed, m)
    ensures Source(slots, keep, m, i) < Source(slots, keep, m, j)
  {
    SlotsAtGet(slots, keep, freed, m);
    assert Get(SlotsAt(slots, keep, freed, m), i) == SlotAt(slots, keep, freed, m, i);
  }

  lemma ShiftKeepsOrder(f: Family, keep: nat, freed: bool, m: nat)
    requires Ordered(f) && 1 <= m <= keep
    ensures Ordered(f.(slots := SlotsAt(f.slots, keep, freed, m)))
    ensures m == 1 && keep > 1 ==> 1 !in SlotsAt(f.slots, keep, freed, m)
  {
    var s := SlotsAt(f.slots, keep, freed, m);
    forall i | i in s ensures i >= 1 && s[i].serial < f.taken {
      SourceOf(f.slots, keep, freed, m, i);
    }
    forall i, j | i in s && j in s && i < j ensures s[i].serial > s[j].serial {
      SourceOf(f.slots, keep, freed, m, i);
      SourceOf(f.slots, keep, freed, m, j);
      SourcesInOrder(f.slots, keep, freed, m, i, j);
    }
  }

  lemma RotationKeepsOrder(f: Family, keep: nat, freed: bool, now: nat, p: Point)
    requires Ordered(f) && 1 <= keep && ValidPoint(p, keep)
    ensures Ordered(At(f, keep, freed, now, p))
  {
    ShiftKeepsOrder(f, keep, freed, if p.Moved? then p.m else 1);
    hide SlotsAt;
  }

  /** Anything that happens to the log: a rotation with any keep that may stop anywhere, a purge, or new output. */
  datatype Event =
    | Rotation(keep: int, freed: bool, now: nat, stop: Point)
    | Purging(cutoff: Option<nat>)
    | Output(text: string)

  function Apply(f: Family, e: Event): Family {
    match e
    case Rotation(keep, freed, now, stop) =>
      if keep <= 0 then f.(live := "")
      else if ValidPoint(stop, keep) then At(f, keep, freed, now, stop)
      else f
    case Purging(cutoff) => Purged(f, cutoff)
    case Output(text) => f.(live := f.live + text)
  }

  function RunEvents(f: Family, events: seq<Event>): Family
    decreases |events|
  {
    if events == [] then f else RunEvents(Apply(f, events[0]), events[1..])
  }

  /** Over every run, whatever keep values alternate and wherever rotations stop, a higher index is older. */
  lemma {:induction false} HigherIsAlwaysOlder(f: Family, events: seq<Event>)
    requires Ordered(f)
    ensures Ordered(RunEvents(f, events))
    decreases |events|
  {
    if events != [] {
      var e := events[0];
      if e.Rotation? && e.keep > 0 && ValidPoint(e.stop, e.keep) {
        RotationKeepsOrder(f, e.keep, e.freed, e.now, e.stop);
      }
      HigherIsAlwaysOlder(Apply(f, e), events[1..]);
    }
  }

  /** The clock did not run backwards between captures. */
  predicate TimesAgree(f: Family) {
    forall i, j | i in f.slots && j in f.slots && f.slots[i].serial > f.slots[j].serial :: f.slots[i].mtime >= f.slots[j].mtime
  }

  /** A purge takes whole tails: with a rotation go all that are older, and what stays is what is young enough. */
  lemma PurgeTakesOldest(f: Family, cutoff: Option<nat>, i: nat, j: nat)
    requires Ordered(f) && TimesAgree(f) && i in f.slots && j in f.slots && i < j
    ensures i !in Purged(f, cutoff).slots ==> j !in Purged(f, cutoff).slots
    ensures Purged(f, cutoff).live == f.live
  {
    assert f.slots[i].serial > f.slots[j].serial;
  }
}
