/**
  The scan `_process_group_exists` of core/jobs.py, which is not atomic: every
  system call sees the process table of its own moment.  `world(k)` is the
  table at the k-th call and `raises(k)` says that this call fails for a reason
  other than the process being gone, so a pair of functions stands for an
  arbitrary concurrent system.
*/
module GroupScan {
  import opened Wrappers
  import opened JobProtocol

  type World = nat -> Table

  /** An entry of /proc: a process directory, or anything else. */
  datatype Entry = Process(pid: Pid) | NotDigits

  /** False, True, or a raised RuntimeError. */
  datatype Answer = NoLiveMember | LiveMember | Uncertain

  /** The answer together with the number of the last system call made. */
  datatype Verdict = Verdict(answer: Answer, last: nat)

  // ---------- what the scan computes ----------

  function Scan(g: int, world: World, raises: nat -> bool, entries: seq<Entry>): Verdict {
    if g <= 0 || raises(0) then Verdict(Uncertain, 0)
    else if GroupEmpty(world(0), g) then Verdict(NoLiveMember, 0)
    else if raises(1) then Verdict(Uncertain, 1)
    else ScanEntries(g, world, raises, entries, 2, false)
  }

  function ScanEntries(g: Pid, world: World, raises: nat -> bool, entries: seq<Entry>, k: nat, matched: bool): Verdict
    decreases |entries|
  {
    if entries == [] then
      if matched then Verdict(NoLiveMember, k)
      else if !raises(k) && GroupEmpty(world(k), g) then Verdict(NoLiveMember, k)
      else Verdict(Uncertain, k)
    else if entries[0] == NotDigits then ScanEntries(g, world, raises, entries[1..], k, matched)
    else if raises(k) then Verdict(Uncertain, k)
    else
      match ReadEntry(world(k), g, entries[0].pid)
      case Alive => Verdict(LiveMember, k)
      case Zombie => ScanEntries(g, world, raises, entries[1..], k + 1, true)
      case _ => ScanEntries(g, world, raises, entries[1..], k + 1, matched)
  }

  /** The scan as the source writes it: a loop over the entries with a match counter. */
  method ProcessGroupExists(g: int, world: World, raises: nat -> bool, entries: seq<Entry>)
    returns (answer: Answer, last: nat)
    ensures Verdict(answer, last) == Scan(g, world, raises, entries)
  {
    if g <= 0 || raises(0) {
      return Uncertain, 0;
    }
    if GroupEmpty(world(0), g) {
      return NoLiveMember, 0;
    }
    if raises(1) {
      return Uncertain, 1;
    }
    var matched, k: nat := 0, 2;
    for i := 0 to |entries|
      invariant matched >= 0
      invariant ScanEntries(g, world, raises, entries[i..], k, matched > 0) == Scan(g, world, raises, entries)
    {
      assert entries[i..][1..] == entries[i + 1..];
      if entries[i] == NotDigits {
        continue;
      }
      if raises(k) {
        return Uncertain, k;
      }
      var seen := ReadEntry(world(k), g, entries[i].pid);
      if seen == Alive {
        return LiveMember, k;
      }
      if seen == Zombie {
        matched := matched + 1;
      }
      k := k + 1;
    }
    if matched > 0 {
      return NoLiveMember, k;
    }
    if !raises(k) && GroupEmpty(world(k), g) {
      return NoLiveMember, k;
    }
    return Uncertain, k;
  }

  // ---------- what the answer means ----------

  /** The process (p, birth) is a live member of the group at call k. */
  predicate LiveAt(world: World, g: Pid, p: Pid, birth: Birth, k: nat) {
    ReadEntry(world(k), g, p) == Alive && world(k)[p].birth == birth
  }

  /** It is one at every call of the scan from the listing on. */
  ghost predicate Resident(world: World, g: Pid, p: Pid, birth: Birth, last: nat) {
    forall k: nat | k <= last :: LiveAt(world, g, p, birth, k)
  }

  /** The listing, made by call 1, shows every member of the group. */
  ghost predicate ListingComplete(world: World, g: Pid, entries: seq<Entry>) {
    forall p | p in world(1) && world(1)[p].pgid == g :: Process(p) in entries
  }

  /** Once dead or out of the group, a process stays so. */
  ghost predicate NeverReturns(world: World, g: Pid, p: Pid, birth: Birth, last: nat) {
    forall k: nat | 0 < k <= last :: LiveAt(world, g, p, birth, k) ==> LiveAt(world, g, p, birth, k - 1)
  }

  /** No member forks and nobody enters the group while the scan runs. */
  ghost predicate NobodyJoins(world: World, g: Pid, last: nat) {
    forall p, birth :: NeverReturns(world, g, p, birth, last)
  }

  lemma {:induction false} EntriesSound(g: Pid, world: World, raises: nat -> bool, entries: seq<Entry>,
                                        k: nat, matched: bool, p: Pid, birth: Birth)
    requires Process(p) in entries
    requires ScanEntries(g, world, raises, entries, k, matched).answer == NoLiveMember
    ensures !Resident(world, g, p, birth, ScanEntries(g, world, raises, entries, k, matched).last)
    decreases |entries|
  {
    if entries[0] == Process(p) {
      LastGrows(g, world, raises, entries[1..], k + 1, matched);
      LastGrows(g, world, raises, entries[1..], k + 1, true);
      assert !LiveAt(world, g, p, birth, k);
    } else if entries[0] == NotDigits {
      EntriesSound(g, world, raises, entries[1..], k, matched, p, birth);
    } else {
      var seen := ReadEntry(world(k), g, entries[0].pid);
      EntriesSound(g, world, raises, entries[1..], k + 1, seen == Zombie || matched, p, birth);
    }
  }

  lemma {:induction false} LastGrows(g: Pid, world: World, raises: nat -> bool, entries: seq<Entry>, k: nat, matched: bool)
    ensures ScanEntries(g, world, raises, entries, k, matched).last >= k
    decreases |entries|
  {
    if entries != [] {
      LastGrows(g, world, raises, entries[1..], k, matched);
      LastGrows(g, world, raises, entries[1..], k + 1, matched);
      LastGrows(g, world, raises, entries[1..], k + 1, true);
    }
  }

  /** Answer False: no process has been a live member through the whole scan. */
  lemma NoResidentSurvives(g: int, world: World, raises: nat -> bool, entries: seq<Entry>, p: Pid, birth: Birth)
    requires Scan(g, world, raises, entries).answer == NoLiveMember
    requires g > 0 && ListingComplete(world, g, entries)
    ensures !Resident(world, g, p, birth, Scan(g, world, raises, entries).last)
  {
    if GroupEmpty(world(0), g) {
      assert !LiveAt(world, g, p, birth, 0);
    } else if Process(p) in entries {
      EntriesSound(g, world, raises, entries, 2, false, p, birth);
    } else {
      LastGrows(g, world, raises, entries, 2, false);
      assert !LiveAt(world, g, p, birth, 1);
    }
  }

  /** A process that never returns, as the supervisor, is dead by the end of a scan that answers False. */
  lemma SupervisorIsDead(g: int, world: World, raises: nat -> bool, entries: seq<Entry>, p: Pid, birth: Birth)
    requires Scan(g, world, raises, entries).answer == NoLiveMember
    requires g > 0 && ListingComplete(world, g, entries)
    requires NeverReturns(world, g, p, birth, Scan(g, world, raises, entries).last)
    ensures !LiveAt(world, g, p, birth, Scan(g, world, raises, entries).last)
  {
    var last := Scan(g, world, raises, entries).last;
    NoResidentSurvives(g, world, raises, entries, p, birth);
    if LiveAt(world, g, p, birth, last) {
      LiveBefore(world, g, p, birth, last, last);
    }
  }

  lemma {:induction false} LiveBefore(world: World, g: Pid, p: Pid, birth: Birth, last: nat, k: nat)
    requires NeverReturns(world, g, p, birth, last) && k <= last && LiveAt(world, g, p, birth, k)
    ensures Resident(world, g, p, birth, k)
  {
    if k > 0 {
      LiveBefore(world, g, p, birth, last, k - 1);
    }
  }

  /** If nobody joins during the scan, answer False means the group has no live member at all. */
  lemma NoLiveMemberAtAll(g: int, world: World, raises: nat -> bool, entries: seq<Entry>)
    requires Scan(g, world, raises, entries).answer == NoLiveMember
    requires g > 0 && ListingComplete(world, g, entries)
    requires NobodyJoins(world, g, Scan(g, world, raises, entries).last)
    ensures forall p :: ReadEntry(world(Scan(g, world, raises, entries).last), g, p) != Alive
  {
    var last := Scan(g, world, raises, entries).last;
    forall p ensures ReadEntry(world(last), g, p) != Alive {
      if ReadEntry(world(last), g, p) == Alive {
        SupervisorIsDead(g, world, raises, entries, p, world(last)[p].birth);
      }
    }
  }

  /** Answer True was true of the table read last. */
  lemma {:induction false} LiveMemberIsReal(g: Pid, world: World, raises: nat -> bool, entries: seq<Entry>, k: nat, matched: bool)
    requires ScanEntries(g, world, raises, entries, k, matched).answer == LiveMember
    ensures exists p :: Process(p) in entries
              && ReadEntry(world(ScanEntries(g, world, raises, entries, k, matched).last), g, p) == Alive
    decreases |entries|
  {
    if entries[0].Process? && ReadEntry(world(k), g, entries[0].pid) == Alive {
      assert Process(entries[0].pid) in entries;
    } else if entries[0] == NotDigits {
      LiveMemberIsReal(g, world, raises, entries[1..], k, matched);
    } else {
      LiveMemberIsReal(g, world, raises, entries[1..], k + 1, ReadEntry(world(k), g, entries[0].pid) == Zombie || matched);
    }
  }

  /** It joins the group, or appears in it, between the calls k - 1 and k. */
  predicate JoinsAt(world: World, g: Pid, p: Pid, birth: Birth, k: nat) {
    k > 0 && LiveAt(world, g, p, birth, k) && !LiveAt(world, g, p, birth, k - 1)
  }

  lemma {:induction false} JoinedSince(world: World, g: Pid, p: Pid, birth: Birth, since: nat, now: nat)
    requires since <= now && !LiveAt(world, g, p, birth, since) && LiveAt(world, g, p, birth, now)
    ensures exists k: nat :: since < k <= now && JoinsAt(world, g, p, birth, k)
    decreases now - since
  {
    if LiveAt(world, g, p, birth, now - 1) {
      JoinedSince(world, g, p, birth, since, now - 1);
    } else {
      assert JoinsAt(world, g, p, birth, now);
    }
  }

  /** A scan of the entries that answers False read every listed process, at some call, and found it not live. */
  lemma {:induction false} ReadNotLive(g: Pid, world: World, raises: nat -> bool, entries: seq<Entry>,
                                       k: nat, matched: bool, p: Pid, birth: Birth)
    requires Process(p) in entries
    requires ScanEntries(g, world, raises, entries, k, matched).answer == NoLiveMember
    ensures exists i: nat :: k <= i <= ScanEntries(g, world, raises, entries, k, matched).last
              && !LiveAt(world, g, p, birth, i)
    decreases |entries|
  {
    if entries[0] == Process(p) {
      LastGrows(g, world, raises, entries[1..], k + 1, matched);
      LastGrows(g, world, raises, entries[1..], k + 1, true);
      assert !LiveAt(world, g, p, birth, k);
    } else if entries[0] == NotDigits {
      ReadNotLive(g, world, raises, entries[1..], k, matched, p, birth);
    } else {
      var seen := ReadEntry(world(k), g, entries[0].pid);
      ReadNotLive(g, world, raises, entries[1..], k + 1, seen == Zombie || matched, p, birth);
    }
  }

  /**
    For every world: whatever is live in the group after an answer False joined
    it after the listing, call 1, if it was not listed, and after its own entry
    was read, at some call i, if it was.
  */
  lemma LiveAfterFalseJoined(g: int, world: World, raises: nat -> bool, entries: seq<Entry>, p: Pid, birth: Birth)
    requires Scan(g, world, raises, entries).answer == NoLiveMember
    requires g > 0 && ListingComplete(world, g, entries)
    requires LiveAt(world, g, p, birth, Scan(g, world, raises, entries).last)
    ensures var last := Scan(g, world, raises, entries).last;
            exists i: nat, k: nat :: 1 <= i < k <= last && (Process(p) in entries ==> 2 <= i)
              && !LiveAt(world, g, p, birth, i) && JoinsAt(world, g, p, birth, k)
  {
    var last := Scan(g, world, raises, entries).last;
    LastGrows(g, world, raises, entries, 2, false);
    var i: nat := 1;
    if Process(p) in entries {
      ReadNotLive(g, world, raises, entries, 2, false, p, birth);
      i :| 2 <= i <= last && !LiveAt(world, g, p, birth, i);
    }
    JoinedSince(world, g, p, birth, i, last);
  }

  // ---------- a world that stands still ----------

  /** A live member of the group: an entry that is in it and no zombie. */
  predicate Lives(t: Table, g: Pid, p: Pid) {
    p in t && t[p].pgid == g && !t[p].zombie
  }

  ghost predicate SomeLive(t: Table, g: Pid, entries: seq<Entry>) {
    exists p :: Process(p) in entries && Lives(t, g, p)
  }

  ghost predicate SomeMember(t: Table, g: Pid, entries: seq<Entry>) {
    exists p :: Process(p) in entries && p in t && t[p].pgid == g
  }

  lemma {:induction false} StillEntries(g: Pid, t: Table, entries: seq<Entry>, k: nat, matched: bool)
    ensures var v := ScanEntries(g, i => t, i => false, entries, k, matched);
            v.answer == if SomeLive(t, g, entries) then LiveMember
                        else if matched || SomeMember(t, g, entries) || GroupEmpty(t, g) then NoLiveMember else Uncertain
    decreases |entries|
  {
    if entries != [] {
      var e, rest := entries[0], entries[1..];
      assert entries == [e] + rest;
      StillEntries(g, t, rest, k, matched);
      StillEntries(g, t, rest, k + 1, matched);
      StillEntries(g, t, rest, k + 1, true);
      MoreEntries(g, t, e, rest);
    }
  }

  lemma MoreEntries(g: Pid, t: Table, e: Entry, rest: seq<Entry>)
    ensures SomeLive(t, g, [e] + rest) <==> (e.Process? && Lives(t, g, e.pid)) || SomeLive(t, g, rest)
    ensures SomeMember(t, g, [e] + rest) <==> (e.Process? && e.pid in t && t[e.pid].pgid == g) || SomeMember(t, g, rest)
  {
    var all := [e] + rest;
    forall p ensures Process(p) in all <==> e == Process(p) || Process(p) in rest {}
  }

  /** While nothing changes and nothing raises, the answer is exact: True if some member is no zombie, else False. */
  lemma StillWorldIsExact(g: Pid, t: Table, entries: seq<Entry>)
    requires g > 0 && ListingComplete(i => t, g, entries)
    ensures Scan(g, i => t, i => false, entries).answer
         == if exists p :: p in t && t[p].pgid == g && !t[p].zombie then LiveMember else NoLiveMember
  {
    var world: World := i => t;
    StillEntries(g, t, entries, 2, false);
    if p :| p in t && t[p].pgid == g && !t[p].zombie {
      assert p in world(1) && world(1)[p].pgid == g;
      assert Process(p) in entries && Lives(t, g, p);
    } else if p :| p in t && t[p].pgid == g {
      assert p in world(1) && world(1)[p].pgid == g;
      assert Process(p) in entries;
    }
  }

  // ---------- the scanning steps of the protocol are this scan ----------

  /** The pids a listing names. */
  function PidsOf(entries: seq<Entry>): seq<Pid> {
    if entries == [] then []
    else (if entries[0].Process? then [entries[0].pid] else []) + PidsOf(entries[1..])
  }

  /** Where a canceller stands after the scan. */
  function AfterScan(answer: Answer, pc: CancelPc): CancelPc
    requires pc.Probing? || pc.Scanning?
  {
    match answer
    case NoLiveMember => Reread(pc.pid)
    case LiveMember => Present(pc.round, pc.pid, pc.birth, pc.pgid)
    case Uncertain => Raced
  }

  /** Follows a canceller alone through its scanning steps; step k meets the shared state of moment k. */
  function Follow(shared: nat -> Shared, raises: nat -> bool, pc: CancelPc, k: nat): CancelPc
    requires pc.Scanning?
    decreases |pc.todo|
  {
    var ch := if raises(k) && !(pc.todo == [] && pc.matched) then Fail else Go;
    match CancelStep(shared(k), pc, ch)
    case None => pc
    case Some(o) => if o.pc.Scanning? && |o.pc.todo| < |pc.todo| then Follow(shared, raises, o.pc, k + 1) else o.pc
  }

  lemma {:induction false} FollowsEntries(shared: nat -> Shared, raises: nat -> bool, entries: seq<Entry>, pc: CancelPc, k: nat)
    requires pc.Scanning? && pc.todo == PidsOf(entries)
    ensures var world: World := i => shared(i).table;
            Follow(shared, raises, pc, k)
            == AfterScan(ScanEntries(pc.pgid, world, raises, entries, k, pc.matched).answer, pc)
    decreases |entries|
  {
    var world: World := i => shared(i).table;
    if entries == [] {
    } else if entries[0] == NotDigits {
      assert PidsOf(entries) == PidsOf(entries[1..]);
      FollowsEntries(shared, raises, entries[1..], pc, k);
    } else if !raises(k) && ReadEntry(world(k), pc.pgid, pc.todo[0]) != Alive {
      var next := CancelStep(shared(k), pc, Go).value.pc;
      assert next.todo == PidsOf(entries[1..]);
      FollowsEntries(shared, raises, entries[1..], next, k + 1);
    }
  }

  /** From the first probe on, the protocol's steps reach what this scan answers, call by call. */
  lemma ProtocolScansAlike(shared: nat -> Shared, raises: nat -> bool, entries: seq<Entry>, pc: CancelPc)
    requires pc.Probing? && pc.pgid > 0 && ShowsGroup(shared(1).table, pc.pgid, PidsOf(entries))
    ensures var world: World := i => shared(i).table;
            var first := CancelStep(shared(0), pc, if raises(0) then Fail else Go).value.pc;
            AfterScan(Scan(pc.pgid, world, raises, entries).answer, pc) ==
              if !first.Listing? then first
              else
                var second := CancelStep(shared(1), first, if raises(1) then Fail else List(PidsOf(entries))).value.pc;
                if second.Scanning? then Follow(shared, raises, second, 2) else second
  {
    if !raises(0) && !GroupEmpty(shared(0).table, pc.pgid) && !raises(1) {
      FollowsEntries(shared, raises, entries,
        Scanning(pc.round, pc.pid, pc.birth, pc.pgid, PidsOf(entries), false), 2);
    }
  }

  // ---------- why nobody may join ----------

  /** Member 5 of group 5 forks 9 after the listing and dies before its entry is read. */
  function ForkingWorld(): World {
    k => if k <= 1 then map[5 := Proc(1, OtherArgv, 5, false)]
         else map[5 := Proc(1, OtherArgv, 5, true), 9 := Proc(2, OtherArgv, 5, false)]
  }

  /** A complete listing is not enough: with a fork the answer is False although 9 is alive in the group. */
  lemma ForkEscapesScan()
    ensures var v := Scan(5, ForkingWorld(), k => false, [Process(5)]);
            && v.answer == NoLiveMember
            && ListingComplete(ForkingWorld(), 5, [Process(5)])
            && ReadEntry(ForkingWorld()(v.last), 5, 9) == Alive
            && !NobodyJoins(ForkingWorld(), 5, v.last)
  {
    var w := ForkingWorld();
    var none: nat -> bool := k => false;
    assert 5 in w(0) && !GroupEmpty(w(0), 5);
    assert ReadEntry(w(2), 5, 5) == Zombie;
    assert [Process(5)][1..] == [];
    assert ScanEntries(5, w, none, [], 3, true) == Verdict(NoLiveMember, 3);
    assert LiveAt(w, 5, 9, 2, 2) && !LiveAt(w, 5, 9, 2, 1);
    assert !NeverReturns(w, 5, 9, 2, 3);
  }
}
