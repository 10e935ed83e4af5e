/**
  `replace_root` of core/deploy/war.py: extract a WAR beside the live webapp and
  swap it in with two renames, undoing them on an exception.  Every file-system
  call meets an arbitrary fault; the history holds the disk after every step.
*/
module WarSwap {
  import opened Wrappers

  /** A directory tree as its files; None where there is nothing at the path. */
  type Files = map<string, string>
  type Place = Option<Files>

  datatype Entry = Entry(path: string, data: string)

  /** Success, a raise without effect, or a raise after part of the work. */
  datatype Fault = Fine | Raises | RaisesHalfWay(survivors: set<string>)

  datatype Disk = Disk(target: Place, staging: Place, backup: Place)

  datatype Outcome = NoWar | Deployed | Raised

  /** The tree that extracting the entries into `into` gives: later entries win. */
  function Overlay(into: Files, entries: seq<Entry>): Files {
    if entries == [] then into
    else
      var last := entries[|entries| - 1];
      Overlay(into, entries[..|entries| - 1])[last.path := last.data]
  }

  /** The WAR's own tree. */
  function Tree(war: seq<Entry>): Files {
    Overlay(map[], war)
  }

  function OrEmpty(p: Place): Files {
    if p.None? then map[] else p.value
  }

  /** What `_rmtree_quiet` leaves of a tree: a removal that fails half way leaves some of the files. */
  function AfterRmtree(p: Place, f: Fault): Place {
    if p.None? then None
    else
      match f
      case Fine => None
      case Raises => p
      case RaisesHalfWay(survivors) => Some(map k | k in p.value && k in survivors :: p.value[k])
  }

  /** The disk after the first clean-up, whose two removals are calls c and c + 1. */
  function Cleaned(d: Disk, faults: nat -> Fault, c: nat): Disk {
    Disk(d.target, AfterRmtree(d.staging, faults(c)), AfterRmtree(d.backup, faults(c + 1)))
  }

  lemma FineRemoves()
    ensures forall p :: AfterRmtree(p, Fine) == None
  {}

  /** A directory can be renamed onto a missing or empty one. */
  predicate Vacant(p: Place) {
    p == None || p == Some(map[])
  }

  predicate AllSafe(entries: seq<Entry>, unsafeAt: Option<nat>) {
    unsafeAt.Some? ==> |entries| <= unsafeAt.value
  }

  /** The number after the last rename, when the extraction begins with call c: one call, one per entry, one or two renames. */
  function LastRename(c: nat, target: Place, entries: seq<Entry>): nat {
    c + 1 + |entries| + (if target.Some? then 2 else 1)
  }

  /** What the handler makes of a target: a missing one is replaced by the backup if the rename succeeds. */
  function Restored(target: Place, backup: Place, f: Fault): Place {
    if target == None && f == Fine then backup else target
  }

  /**
    Where the swap can be, for the disk after the first clean-up.  The target is
    the old tree, or missing with the old tree aside, or the new tree; it is
    never a mix.  A stale backup takes the place of a missing webapp.
  */
  predicate AllOrNothing(cleaned: Disk, entries: seq<Entry>, d: Disk) {
    || d.target == cleaned.target
    || (d.target == None && d.backup == cleaned.target)
    || d.target == Some(Overlay(OrEmpty(cleaned.staging), entries))
    || (cleaned.target == None && d.target == cleaned.backup)
  }

  class Webapp {
    var target: Place
    var staging: Place
    var backup: Place
    var calls: nat
    const faults: nat -> Fault
    ghost var history: seq<Disk>

    constructor (disk: Disk, faults: nat -> Fault)
      ensures Now() == disk && calls == 0 && this.faults == faults && history == []
    {
      target, staging, backup := disk.target, disk.staging, disk.backup;
      calls, history := 0, [];
      this.faults := faults;
    }

    function Now(): Disk
      reads this
    {
      Disk(target, staging, backup)
    }

    ghost method Record()
      modifies this`history
      ensures history == old(history) + [Now()]
    {
      history := history + [Now()];
    }

    method NextFault() returns (f: Fault)
      modifies this`calls
      ensures f == faults(old(calls)) && calls == old(calls) + 1
    {
      f := faults(calls);
      calls := calls + 1;
    }

    /** The calls numbered from..to-1 all succeed. */
    predicate Quiet(from: nat, to: nat) {
      forall n: nat | from <= n < to :: faults(n) == Fine
    }

    lemma BothFine(c: nat)
      ensures Quiet(c, c + 2) <==> faults(c) == Fine && faults(c + 1) == Fine
    {}

    /** `_rmtree_quiet`; it never raises. */
    method RmtreeQuiet(p: Place) returns (left: Place)
      modifies this`calls
      ensures left == AfterRmtree(p, faults(old(calls))) && calls == old(calls) + 1
    {
      var f := NextFault();
      if p.None? || f.Fine? {
        return None;
      }
      if f.Raises? {
        return p;
      }
      return Some(map k | k in p.value && k in f.survivors :: p.value[k]);
    }

    /** rename(2) on directories: the destination must be missing or empty. */
    method CanRename(src: Place, dst: Place) returns (ok: bool)
      modifies this`calls
      ensures ok <==> faults(old(calls)) == Fine && src.Some? && Vacant(dst)
      ensures calls == old(calls) + 1
    {
      var f := NextFault();
      ok := f.Fine? && src.Some? && Vacant(dst);
    }

    /** `safe_extract` into staging: entry by entry, stopping at an unsafe entry or a fault. */
    method Extract(entries: seq<Entry>, unsafeAt: Option<nat>) returns (ok: bool)
      modifies this`staging, this`calls, this`history
      ensures ok ==> staging == Some(Overlay(OrEmpty(old(staging)), entries)) && calls == old(calls) + 1 + |entries|
      ensures ok <==> AllSafe(entries, unsafeAt) && Quiet(old(calls), old(calls) + 1 + |entries|)
      ensures old(calls) < calls && old(history) <= history
      ensures forall i | |old(history)| <= i < |history| :: history[i].target == target && history[i].backup == backup
    {
      var f := NextFault();
      if !f.Fine? {
        return false;
      }
      staging := Some(OrEmpty(staging));
      Record();
      for i := 0 to |entries|
        invariant staging == Some(Overlay(OrEmpty(old(staging)), entries[..i]))
        invariant calls == old(calls) + 1 + i && Quiet(old(calls), calls)
        invariant unsafeAt.Some? ==> i <= unsafeAt.value || |entries| <= unsafeAt.value
        invariant old(history) <= history
        invariant forall k | |old(history)| <= k < |history| :: history[k].target == target && history[k].backup == backup
      {
        assert entries[..i + 1][..i] == entries[..i];
        if unsafeAt == Some(i) {
          return false;
        }
        f := NextFault();
        if !f.Fine? {
          return false;
        }
        staging := Some(staging.value[entries[i].path := entries[i].data]);
        Record();
      }
      assert entries[..|entries|] == entries;
      ok := true;
    }

    /** A live tree is moved aside once the extraction that begins with call c, and the rename after it, succeed. */
    predicate MovedAside(to: Place, entries: seq<Entry>, unsafeAt: Option<nat>, c: nat) {
      AllSafe(entries, unsafeAt) && Vacant(to) && Quiet(c, c + 2 + |entries|)
    }

    /** Moves the live tree aside and promotes staging. */
    method Promote(entries: seq<Entry>, unsafeAt: Option<nat>) returns (ok: bool)
      modifies this
      ensures ok <==>
        && AllSafe(entries, unsafeAt) && (old(target).Some? ==> Vacant(old(backup)))
        && Quiet(old(calls), LastRename(old(calls), old(target), entries))
      ensures ok ==> target == Some(Overlay(OrEmpty(old(staging)), entries)) && staging == None
      ensures ok ==> backup == if old(target).Some? then old(target) else old(backup)
      ensures ok ==> calls == LastRename(old(calls), old(target), entries)
      ensures !ok ==>
        if old(target).Some? && MovedAside(old(backup), entries, unsafeAt, old(calls))
        then target == None && backup == old(target) && calls == LastRename(old(calls), old(target), entries)
        else target == old(target) && backup == old(backup)
      ensures old(calls) < calls && old(history) <= history
      ensures forall i | |old(history)| <= i < |history| :: AllOrNothing(old(Now()), entries, history[i])
    {
      ok := Extract(entries, unsafeAt);
      if !ok { return; }
      if target.Some? {
        ok := CanRename(target, backup);
        if !ok { return; }
        backup, target := target, None;
        Record();
      }
      ok := CanRename(staging, target);
      if !ok { return; }
      target, staging := staging, None;
      Record();
    }

    /** The handler: puts a tree back if there is none and one stands aside, and drops staging. */
    method RollBack()
      modifies this
      ensures target == Restored(old(target), old(backup), faults(old(calls)))
      ensures backup == if target == old(target) then old(backup) else None
      ensures calls == old(calls) + 2      // counted even when there is nothing to put back or to drop
      ensures old(history) <= history
      ensures forall i | |old(history)| <= i < |history| ::
        (history[i].target == old(target) && history[i].backup == old(backup)) || (old(target) == None && history[i].target == old(backup))
    {
      var ok := CanRename(if target.None? then backup else None, target);
      if ok {
        target, backup := backup, None;
        Record();
      }
      staging := RmtreeQuiet(staging);
      Record();
    }

    /** How the swap of a cleaned disk ends, when the extraction begins with call c and `next` is the next call. */
    predicate Ends(cleaned: Disk, entries: seq<Entry>, unsafeAt: Option<nat>, c: nat, r: Outcome, d: Disk, next: nat) {
      // It deploys if and only if the WAR is safe, the way is free, and no call up to the last rename fails.
      && r != NoWar && c + 2 < next
      && (r == Deployed <==>
            && AllSafe(entries, unsafeAt) && (cleaned.target.Some? ==> Vacant(cleaned.backup))
            && Quiet(c, LastRename(c, cleaned.target, entries)))
      && (r == Deployed ==>
            && d.target == Some(Overlay(OrEmpty(cleaned.staging), entries)) && d.staging == None
            && next == LastRename(c, cleaned.target, entries) + 1
            && (faults(next - 1) == Fine ==> d.backup == None))
      // When it raises, the restoring rename is the last call but one.
      && (r == Raised && cleaned.target.Some? && MovedAside(cleaned.backup, entries, unsafeAt, c) ==>
            next == LastRename(c, cleaned.target, entries) + 2)
      // A webapp that was there is there, or aside exactly when it was moved and the restoring rename failed.
      && (r == Raised && cleaned.target.Some? ==>
            if MovedAside(cleaned.backup, entries, unsafeAt, c) && faults(next - 2) != Fine
            then d.target == None && d.backup == cleaned.target else d.target == cleaned.target)
      // One that was not there is replaced by a stale backup exactly when one survived and that rename succeeds.
      && (r == Raised && cleaned.target.None? ==> d.target == Restored(None, cleaned.backup, faults(next - 2)))
    }

    /** The try block with its handler, and the last clean-up. */
    method SwapIn(entries: seq<Entry>, unsafeAt: Option<nat>) returns (r: Outcome)
      modifies this
      ensures Ends(old(Now()), entries, unsafeAt, old(calls), r, Now(), calls)
      ensures old(history) <= history
      ensures forall i | |old(history)| <= i < |history| :: AllOrNothing(old(Now()), entries, history[i])
    {
      FineRemoves();
      hide Overlay, AfterRmtree;
      var ok := Promote(entries, unsafeAt);
      if !ok {
        RollBack();
        return Raised;
      }
      backup := RmtreeQuiet(backup);
      Record();
      return Deployed;
    }

    /** `replace_root`: the removals of staging and backup are the first two calls. */
    method ReplaceRoot(war: Option<seq<Entry>>, unsafeAt: Option<nat>) returns (r: Outcome)
      modifies this
      ensures war.None? ==> r == NoWar && Now() == old(Now()) && history == old(history)
      ensures war.Some? ==>
        var cleaned := Cleaned(old(Now()), faults, old(calls));
        && Ends(cleaned, war.value, unsafeAt, old(calls) + 2, r, Now(), calls)
        && old(history) <= history
        && forall i | |old(history)| <= i < |history| :: AllOrNothing(cleaned, war.value, history[i])
      // With the first clean-up complete: all or nothing.
      ensures war.Some? && Quiet(old(calls), old(calls) + 2) ==>
        && (r == Deployed ==> target == Some(Tree(war.value)))
        && (r == Raised ==> target == old(target) || (old(target).Some? && target == None && backup == old(target)))
    {
      if war.None? {
        return NoWar;
      }
      BothFine(calls);
      FineRemoves();
      hide Overlay, AfterRmtree, Quiet;
      staging := RmtreeQuiet(staging);
      backup := RmtreeQuiet(backup);
      Record();
      r := SwapIn(war.value, unsafeAt);
    }
  }

  // ---------- why the first clean-up matters ----------

  lemma {:induction false} OverlayKeys(into: Files, entries: seq<Entry>)
    ensures forall p :: p in Overlay(into, entries) <==> p in into || p in Tree(entries)
    ensures forall p | p in Tree(entries) :: Overlay(into, entries)[p] == Tree(entries)[p]
    ensures forall p | p in into && p !in Tree(entries) :: Overlay(into, entries)[p] == into[p]
  {
    if entries != [] {
      OverlayKeys(into, entries[..|entries| - 1]);
    }
  }

  /** A deployed webapp is exactly the WAR if and only if no file left in staging is foreign to the WAR. */
  lemma ExactTreeExactly(left: Files, war: seq<Entry>)
    ensures Overlay(left, war) == Tree(war) <==> left.Keys <= Tree(war).Keys
  {
    OverlayKeys(left, war);
    if left.Keys <= Tree(war).Keys {
      assert Overlay(left, war).Keys == Tree(war).Keys;
    }
  }

  /** Every file of a WAR is deployed with the data of its last entry, over whatever was there. */
  lemma {:induction false} LastEntryDecides(into: Files, entries: seq<Entry>, i: nat)
    requires i < |entries| && forall j | i < j < |entries| :: entries[j].path != entries[i].path
    ensures var d := Overlay(into, entries); entries[i].path in d && d[entries[i].path] == entries[i].data
  {
    if i < |entries| - 1 {
      LastEntryDecides(into, entries[..|entries| - 1], i);
    }
  }

  /** And a file no entry names is there exactly if it was there before. */
  lemma {:induction false} UnnamedStay(into: Files, entries: seq<Entry>, path: string)
    requires forall j | 0 <= j < |entries| :: entries[j].path != path
    ensures var d := Overlay(into, entries);
            (path in d <==> path in into) && (path in d ==> d[path] == into[path])
  {
    if entries != [] {
      UnnamedStay(into, entries[..|entries| - 1], path);
    }
  }

  // ---------- runs that end badly ----------

  /** The first removal fails and nothing else does: the old staging files are served with the new ones. */
  method StaleStagingIsDeployed(stale: Files, war: seq<Entry>) returns (w: Webapp, r: Outcome)
    ensures fresh(w) && r == Deployed && w.target == Some(Overlay(stale, war))
    ensures w.target == Some(Tree(war)) <==> stale.Keys <= Tree(war).Keys
  {
    w := new Webapp(Disk(None, Some(stale), None), (n: nat) => if n == 0 then Raises else Fine);
    r := w.ReplaceRoot(Some(war), None);
    ExactTreeExactly(stale, war);
  }

  /** The second removal and the extraction fail: a webapp that was not there becomes the stale backup. */
  method StaleBackupAppears(stale: Files, war: seq<Entry>) returns (w: Webapp, r: Outcome)
    ensures fresh(w) && r == Raised && w.target == Some(stale)
  {
    w := new Webapp(Disk(None, None, Some(stale)), (n: nat) => if n == 1 || n == 2 then Raises else Fine);
    assert w.faults(2) != Fine;
    r := w.ReplaceRoot(Some(war), None);
  }

  /** The second removal fails over a backup that holds a file: an existing webapp cannot be moved aside, and stays. */
  method StaleBackupBlocks(live: Files, stale: Files, war: seq<Entry>) returns (w: Webapp, r: Outcome)
    requires stale != map[]
    ensures fresh(w) && r == Raised && w.target == Some(live)
  {
    w := new Webapp(Disk(Some(live), None, Some(stale)), (n: nat) => if n == 1 then Raises else Fine);
    r := w.ReplaceRoot(Some(war), None);
  }

  /** Nothing fails: the WAR's tree replaces the old one, and nothing else is left. */
  method FaultFreeDeploys(live: Place, staging: Place, backup: Place, war: seq<Entry>) returns (w: Webapp, r: Outcome)
    ensures fresh(w) && r == Deployed && w.target == Some(Tree(war)) && w.staging == None && w.backup == None
  {
    w := new Webapp(Disk(live, staging, backup), (n: nat) => Fine);
    r := w.ReplaceRoot(Some(war), None);
  }

  /** The promoting and the restoring rename fail: no webapp is left, and the old one is aside. */
  method FailedRestoreLeavesNothing(live: Files, war: seq<Entry>) returns (w: Webapp, r: Outcome)
    ensures fresh(w) && r == Raised && w.target == None && w.backup == Some(live)
  {
    w := new Webapp(Disk(Some(live), None, None), (n: nat) => if n >= 4 + |war| then Raises else Fine);
    assert w.faults(4 + |war|) != Fine;
    r := w.ReplaceRoot(Some(war), None);
  }
}
