/**
  Deletion and retention of backups over the local store and the S3 destinations:
  `delete_backup` and `prune_backups` of core/backup/store.py on top of
  `_resolve_ids`, `enabled_ids`, `delete` and `list_remote` of core/backup/remote.py.
*/
module BackupRetention {
  import opened Wrappers
  import opened PyText
  import opened Sorting
  import opened BackupNames

  // ---------- destinations ----------

  /** Where a profile keeps its archives: endpoint and bucket as one name, and the prefix without slashes at its ends. */
  datatype Place = Place(bucket: string, prefix: string)

  /** A stored profile: complete when every required field is set, up when its requests succeed. */
  datatype Profile = Profile(id: string, enabled: bool, complete: bool, up: bool, place: Place)

  datatype Object = Object(bucket: string, key: string)

  type Registry = seq<Profile>

  function FullKey(place: Place, name: string): string {
    if place.prefix == "" then name else place.prefix + "/" + name
  }

  function EnabledIds(reg: Registry): seq<string> {
    if reg == [] then []
    else (if reg[0].enabled && reg[0].complete then [reg[0].id] else []) + EnabledIds(reg[1..])
  }

  /** The place a client for the id works on: that of the first profile with the id, if it is usable. */
  function Client(reg: Registry, pid: string): Option<Place> {
    if reg == [] then None
    else if reg[0].id == pid then (if reg[0].complete && reg[0].up then Some(reg[0].place) else None)
    else Client(reg[1..], pid)
  }

  function NonEmpty(ids: seq<string>): seq<string> {
    if ids == [] then [] else (if ids[0] == "" then [] else [ids[0]]) + NonEmpty(ids[1..])
  }

  /** The profiles `remote.delete` works on: an empty selection means every enabled one. */
  function Targets(reg: Registry, ids: seq<string>): seq<string> {
    if NonEmpty(ids) == [] then EnabledIds(reg) else NonEmpty(ids)
  }

  /** The objects the names stand for at the targets. */
  function At(reg: Registry, targets: seq<string>, names: set<string>): set<Object> {
    set t, n | t in targets && Client(reg, t).Some? && n in names ::
      Object(Client(reg, t).value.bucket, FullKey(Client(reg, t).value, n))
  }

  // ---------- what a destination lists ----------

  /** The name a listed key is reported under. */
  function NameOf(place: Place, key: string): string {
    if place.prefix != "" && StartsWith(key, place.prefix + "/") then key[|place.prefix| + 1..] else key
  }

  /** The key is one this destination would write. */
  predicate IsUnder(place: Place, key: string) {
    place.prefix == "" || StartsWith(key, place.prefix + "/")
  }

  predicate OfApp(name: string, app: string) {
    AppFromName(name) == Some(app)
  }

  function KeysIn(objects: set<Object>, bucket: string): set<string> {
    set o | o in objects && o.bucket == bucket :: o.key
  }

  /** The keys the server lists for the place: the query is a plain string prefix. */
  function ListedKeys(place: Place, keys: set<string>): set<string> {
    set k | k in keys && StartsWith(k, place.prefix)
  }

  /** The archives of the app at the place. */
  function Own(place: Place, keys: set<string>, app: string): set<string> {
    set k | k in keys && IsUnder(place, k) && OfApp(NameOf(place, k), app) :: NameOf(place, k)
  }

  /** Archives of the app that are listed with the place but lie outside its directory. */
  function Stray(place: Place, keys: set<string>, app: string): set<string> {
    set k | k in keys && StartsWith(k, place.prefix) && !IsUnder(place, k) && OfApp(k, app)
  }

  // ---------- newest ----------

  function AtLeast(names: set<string>, n: string): set<string> {
    set m | m in names && !Less(m, n)
  }

  /** The newest k of the names: those with fewer than k others at or above them. */
  function Newest(names: set<string>, k: nat): set<string> {
    set n | n in names && |AtLeast(names, n)| <= k
  }

  /** How many entries of the list are at or above n. */
  function Count(names: seq<string>, n: string): nat {
    if names == [] then 0 else (if Less(names[0], n) then 0 else 1) + Count(names[1..], n)
  }

  predicate NotBelow(a: string, b: string) {
    !Less(a, b)
  }

  /** sorted(names, reverse=True) */
  function SortedDown(names: seq<string>): seq<string> {
    Sorted(NotBelow, names)
  }

  predicate Descending(names: seq<string>) {
    forall i, j | 0 <= i < j < |names| :: !Less(names[i], names[j])
  }

  function Drop(names: seq<string>, k: nat): seq<string> {
    if k <= |names| then names[k..] else []
  }

  lemma {:induction false} CountConcat(a: seq<string>, b: seq<string>, n: string)
    ensures Count(a + b, n) == Count(a, n) + Count(b, n)
  {
    if a == [] {
      assert a + b == b;
    } else {
      assert (a + b)[1..] == a[1..] + b;
      CountConcat(a[1..], b, n);
    }
  }

  lemma {:induction false} InsertCounts(sorted: seq<string>, m: string, n: string)
    ensures Count(Insert(NotBelow, sorted, m), n) == Count(sorted, n) + Count([m], n)
  {
    if sorted == [] || NotBelow(sorted[|sorted| - 1], m) {
      CountConcat(sorted, [m], n);
      if sorted == [] { assert [] + [m] == [m]; }
    } else {
      var shorter, last := sorted[..|sorted| - 1], [sorted[|sorted| - 1]];
      InsertCounts(shorter, m, n);
      CountConcat(Insert(NotBelow, shorter, m), last, n);
      CountConcat(shorter, last, n);
      assert sorted == shorter + last;
    }
  }

  lemma {:induction false} SortedCounts(names: seq<string>, n: string)
    ensures Count(SortedDown(names), n) == Count(names, n)
  {
    if names != [] {
      var shorter, last := names[..|names| - 1], names[|names| - 1];
      SortedCounts(shorter, n);
      InsertCounts(SortedDown(shorter), last, n);
      CountConcat(shorter, [last], n);
      assert names == shorter + [last];
    }
  }

  lemma NotBelowIsOrder()
    ensures IsOrder(NotBelow)
  {
    forall a, b ensures NotBelow(a, b) || NotBelow(b, a) { LessTotal(a, b); }
    forall a, b, c | NotBelow(a, b) && NotBelow(b, c) ensures NotBelow(a, c) {
      LessTotal(b, c);
      if Less(a, c) && b != c { LessTransitive(a, c, b); }
    }
  }

  /** Sorting keeps the entries and puts the greater first. */
  lemma SortedDownSorts(names: seq<string>)
    ensures Descending(SortedDown(names))
    ensures forall n :: n in SortedDown(names) <==> n in names
    ensures forall n :: Count(SortedDown(names), n) == Count(names, n)
  {
    NotBelowIsOrder();
    SortedSorts(NotBelow, names);
    hide Sorted, Less, IsOrder;
    var s := SortedDown(names);
    forall i, j | 0 <= i < j < |s| ensures !Less(s[i], s[j]) { assert NotBelow(s[i], s[j]); }
    forall n ensures n in s <==> n in names { assert n in multiset(s) <==> n in multiset(names); }
    forall n ensures Count(s, n) == Count(names, n) { SortedCounts(names, n); }
  }

  lemma {:induction false} CountNothing(names: seq<string>, n: string)
    requires forall i | 0 <= i < |names| :: Less(names[i], n)
    ensures Count(names, n) == 0
  {
    if names != [] { CountNothing(names[1..], n); }
  }

  lemma {:induction false} CountSome(names: seq<string>, n: string)
    requires n in names
    ensures Count(names, n) > 0
  {
    LessTotal(n, n);
    if names[0] != n { CountSome(names[1..], n); }
  }

  /** What is past position k of a sorted list is what has more than k entries at or above it. */
  lemma {:induction false} DropByCount(sorted: seq<string>, k: nat, n: string)
    requires Descending(sorted)
    ensures n in Drop(sorted, k) <==> n in sorted && Count(sorted, n) > k
  {
    hide Less;
    if sorted != [] {
      var rest := sorted[1..];
      assert sorted == [sorted[0]] + rest;
      if k == 0 {
        if n in sorted { CountSome(sorted, n); }
      } else {
        DropByCount(rest, k - 1, n);
        assert Drop(sorted, k) == Drop(rest, k - 1);
        if n in rest {
          assert !Less(sorted[0], n);
        } else if n == sorted[0] {
          forall i | 0 <= i < |rest| ensures Less(rest[i], n) {
            LessTotal(rest[i], n);
          }
          CountNothing(rest, n);
          LessTotal(n, n);
        }
      }
    }
  }

  ghost predicate Distinct(names: seq<string>) {
    forall i, j | 0 <= i < j < |names| :: names[i] != names[j]
  }

  function Elements(names: seq<string>): set<string> {
    set m | m in names
  }

  lemma {:induction false} CountIsSize(names: seq<string>, n: string)
    requires Distinct(names)
    ensures Count(names, n) == |AtLeast(Elements(names), n)|
  {
    hide Less;
    if names == [] {
      assert AtLeast(Elements(names), n) == {};
    } else {
      var rest := names[1..];
      CountIsSize(rest, n);
      assert names == [names[0]] + rest;
      assert names[0] !in rest;
      assert AtLeast(Elements(names), n)
          == AtLeast(Elements(rest), n) + (if Less(names[0], n) then {} else {names[0]});
    }
  }

  lemma {:induction false} Oldest(names: set<string>) returns (m: string)
    requires names != {}
    ensures m in names && forall n | n in names :: !Less(n, m)
  {
    hide Less;
    var x :| x in names;
    var rest := names - {x};
    LessTotal(x, x);
    assert names == rest + {x};
    if rest == {} {
      return x;
    }
    m := Oldest(rest);
    if Less(x, m) {
      forall n | n in rest ensures !Less(n, x) {
        if Less(n, x) { LessTransitive(n, x, m); }
      }
      m := x;
    }
  }

  lemma AtLeastWithout(names: set<string>, m: string, n: string)
    requires m in names && Less(m, n)
    ensures AtLeast(names, n) == AtLeast(names - {m}, n)
  {}

  /** Of T names exactly min(k, T) are the newest, each above every other one, and the newest of them are the same. */
  lemma {:induction false} NewestIsExact(names: set<string>, k: nat)
    ensures |Newest(names, k)| == if k < |names| then k else |names|
    ensures forall a, b | a in Newest(names, k) && b in names - Newest(names, k) :: Less(b, a)
    ensures Newest(Newest(names, k), k) == Newest(names, k)
    decreases |names|
  {
    hide Less;
    if names == {} {
    } else {
      var m := Oldest(names);
      var rest := names - {m};
      NewestIsExact(rest, k);
      assert AtLeast(names, m) == names;
      forall n | n in rest ensures Less(m, n) && AtLeast(names, n) == AtLeast(rest, n) {
        LessTotal(m, n);
        AtLeastWithout(names, m, n);
      }
      if |names| <= k {
        forall n | n in rest ensures |AtLeast(rest, n)| <= k { SubsetSize(AtLeast(rest, n), rest); }
        assert Newest(names, k) == names;
      } else {
        assert Newest(names, k) == Newest(rest, k);
      }
    }
  }

  lemma {:induction false} SubsetSize<T>(a: set<T>, b: set<T>)
    requires a <= b
    ensures |a| <= |b| && (|a| == |b| ==> a == b)
  {
    if a != {} {
      var x :| x in a;
      SubsetSize(a - {x}, b - {x});
    }
  }

  /** Kept archives are at least as late as dropped ones of the same app. */
  lemma NewestAreLatest(names: set<string>, app: string, k: nat, a: string, b: string)
    requires a in Newest(names, k) && b in names - Newest(names, k)
    requires OfApp(a, app) && OfApp(b, app)
    ensures !Before(MomentOf(a), MomentOf(b))
  {
    hide AppFromName, Less, MomentOf, Newest;
    NewestIsExact(names, k);
    LessTotal(a, b);
    if Before(MomentOf(a), MomentOf(b)) {
      LaterIsGreater(a, b);
    }
  }

  // ---------- pruning one destination ----------

  /** The names `list_remote` reports for the app, in the order of the keys. */
  function NamesListed(place: Place, keys: seq<string>, app: string): seq<string> {
    if keys == [] then []
    else
      var n := NameOf(place, keys[0]);
      (if OfApp(n, app) then [n] else []) + NamesListed(place, keys[1..], app)
  }

  /** What a prune drops at a place: a listed name that has more than k listed entries at or above it. */
  function Dropped(place: Place, keys: set<string>, app: string, k: nat): set<string> {
    set n | n in Own(place, keys, app) + Stray(place, keys, app)
         && |AtLeast(Own(place, keys, app), n)| + |AtLeast(Stray(place, keys, app), n)| > k
  }

  lemma NameOfUnder(place: Place, key: string)
    ensures IsUnder(place, key) ==> StartsWith(key, place.prefix) && FullKey(place, NameOf(place, key)) == key
    ensures !IsUnder(place, key) ==> NameOf(place, key) == key
  {
    if IsUnder(place, key) && place.prefix != "" {
      var p := place.prefix + "/";
      assert key == p + key[|p|..];
      assert key[..|place.prefix|] == p[..|place.prefix|] == place.prefix;
    }
  }

  lemma FullKeyUnder(place: Place, name: string)
    ensures IsUnder(place, FullKey(place, name)) && NameOf(place, FullKey(place, name)) == name
  {
    if place.prefix != "" {
      var p := place.prefix + "/";
      assert FullKey(place, name) == p + name;
    }
  }

  ghost predicate Lists(place: Place, listed: seq<string>, keys: set<string>) {
    Distinct(listed) && forall k :: k in listed <==> k in ListedKeys(place, keys)
  }

  lemma OneMoreKey(place: Place, key: string, keys: set<string>, app: string, n: string)
    requires key !in keys && StartsWith(key, place.prefix)
    ensures var m := NameOf(place, key);
            var own := Own(place, keys, app);
            var stray := Stray(place, keys, app);
            if !OfApp(m, app) then Own(place, keys + {key}, app) == own && Stray(place, keys + {key}, app) == stray
            else if IsUnder(place, key) then
              m !in own && Own(place, keys + {key}, app) == own + {m} && Stray(place, keys + {key}, app) == stray
            else
              m !in stray && Own(place, keys + {key}, app) == own && Stray(place, keys + {key}, app) == stray + {m}
  {
    NameOfUnder(place, key);
    hide OfApp;
    hide StartsWith;
    forall k | k in keys && IsUnder(place, k) ensures NameOf(place, k) != NameOf(place, key) || !IsUnder(place, key) {
      NameOfUnder(place, k);
    }
  }

  /** Counting in the list of names is counting own and stray archives. */
  lemma {:induction false} CountListed(place: Place, listed: seq<string>, app: string, n: string)
    requires Distinct(listed) && forall k | k in listed :: StartsWith(k, place.prefix)
    ensures var names, keys := NamesListed(place, listed, app), Elements(listed);
            && (n in names <==> n in Own(place, keys, app) + Stray(place, keys, app))
            && Count(names, n) == |AtLeast(Own(place, keys, app), n)| + |AtLeast(Stray(place, keys, app), n)|
  {
    hide Less, OfApp, Own, Stray, IsUnder, NameOf, StartsWith;
    if listed == [] {
      NothingListed(place, app);
      assert AtLeast({}, n) == {};
      assert Elements(listed) == {};
    } else {
      var rest := listed[1..];
      CountListed(place, rest, app, n);
      assert listed == [listed[0]] + rest;
      assert Elements(listed) == Elements(rest) + {listed[0]};
      OneMoreKey(place, listed[0], Elements(rest), app, n);
      var m := NameOf(place, listed[0]);
      if OfApp(m, app) {
        assert ([m] + NamesListed(place, rest, app))[1..] == NamesListed(place, rest, app);
        OneMoreAtLeast(if IsUnder(place, listed[0]) then Own(place, Elements(rest), app)
                       else Stray(place, Elements(rest), app), m, n);
      } else {
        assert [] + NamesListed(place, rest, app) == NamesListed(place, rest, app);
      }
    }
  }

  lemma NothingListed(place: Place, app: string)
    ensures Own(place, {}, app) == {} && Stray(place, {}, app) == {}
  {}

  lemma OneMoreAtLeast(names: set<string>, m: string, n: string)
    requires m !in names
    ensures |AtLeast(names + {m}, n)| == |AtLeast(names, n)| + (if Less(m, n) then 0 else 1)
  {
    assert AtLeast(names + {m}, n) == AtLeast(names, n) + (if Less(m, n) then {} else {m});
  }

  lemma OwnAmongListed(place: Place, keys: set<string>, app: string)
    ensures Own(place, ListedKeys(place, keys), app) == Own(place, keys, app)
    ensures Stray(place, ListedKeys(place, keys), app) == Stray(place, keys, app)
  {
    forall k | k in keys && IsUnder(place, k) ensures StartsWith(k, place.prefix) { NameOfUnder(place, k); }
  }

  /** Dropping past position k of the sorted listing drops exactly `Dropped`. */
  lemma DropIsDropped(place: Place, listed: seq<string>, keys: set<string>, app: string, k: nat)
    requires Lists(place, listed, keys)
    ensures Elements(Drop(SortedDown(NamesListed(place, listed, app)), k)) == Dropped(place, keys, app, k)
  {
    assert Elements(listed) == ListedKeys(place, keys);
    OwnAmongListed(place, keys, app);
    var names := NamesListed(place, listed, app);
    SortedDownSorts(names);
    hide Own, Stray, Less, SortedDown, NamesListed, AtLeast, Drop;
    forall n ensures n in Drop(SortedDown(names), k) <==> n in Dropped(place, keys, app, k) {
      DropByCount(SortedDown(names), k, n);
      CountListed(place, listed, app, n);
    }
  }

  /** The objects after pruning the profile. */
  function PruneOne(objects: set<Object>, reg: Registry, pid: string, app: string, k: nat): set<Object> {
    match Client(reg, pid)
    case None => objects
    case Some(place) =>
      objects - At(reg, Targets(reg, [pid]), Dropped(place, KeysIn(objects, place.bucket), app, k))
  }

  function PruneEach(objects: set<Object>, reg: Registry, pids: seq<string>, app: string, k: nat): set<Object> {
    if pids == [] then objects
    else PruneEach(PruneOne(objects, reg, pids[0], app, k), reg, pids[1..], app, k)
  }

  // ---------- the operations ----------

  /** `validate.identifier`, on a value without blanks around it. */
  predicate ValidApp(app: string) {
    && 0 < |app| <= 63 && app != "." && app != ".."
    && app[0] != '.' && app[0] != '_' && app[0] != '-'
    && forall i | 0 <= i < |app| :: IsNameChar(app[i])
  }

  /** A local archive; the sidecar manifest may name an app. */
  datatype Archive = Archive(manifestApp: string)

  type LocalStore = map<string, Archive>

  /** The app a local archive is listed under. */
  function EntryApp(local: LocalStore, name: string): string
    requires name in local && AppFromName(name).Some?
  {
    if local[name].manifestApp != "" then local[name].manifestApp else AppFromName(name).value
  }

  function LocalOf(local: LocalStore, app: string): set<string> {
    set n | n in local && AppFromName(n).Some? && EntryApp(local, n) == app
  }

  /** The local store with the newest k archives of the app, and with those that cannot be removed. */
  function LocalAfter(local: LocalStore, app: string, k: nat, stuck: set<string>): LocalStore {
    local - (LocalOf(local, app) - Newest(LocalOf(local, app), k) - stuck)
  }

  function AppNames(local: LocalStore, listed: seq<string>, app: string): seq<string> {
    if listed == [] then []
    else
      var n := listed[0];
      (if n in local && AppFromName(n).Some? && EntryApp(local, n) == app then [n] else [])
      + AppNames(local, listed[1..], app)
  }

  /** listdir and LIST answer every entry once, in any order. */
  method InSomeOrder(names: set<string>) returns (listed: seq<string>)
    ensures Distinct(listed) && Elements(listed) == names
  {
    listed := [];
    var rest := names;
    while rest != {}
      invariant Distinct(listed) && rest <= names && Elements(listed) == names - rest
      decreases |rest|
    {
      var n :| n in rest;
      assert n !in Elements(listed) && Elements(listed + [n]) == Elements(listed) + {n};
      listed := listed + [n];
      rest := rest - {n};
    }
  }

  function WithoutLocal(ids: seq<string>): seq<string> {
    if ids == [] then [] else (if ids[0] == "local" then [] else [ids[0]]) + WithoutLocal(ids[1..])
  }

  lemma OneMoreElement(names: seq<string>, i: nat)
    requires i < |names|
    ensures Elements(names[..i + 1]) == Elements(names[..i]) + {names[i]}
  {}

  lemma DeletedNone(reg: Registry, targets: seq<string>)
    ensures At(reg, targets, {}) == {}
  {}

  lemma DeletedMore(reg: Registry, targets: seq<string>, names: set<string>, n: string)
    ensures At(reg, targets, names + {n}) == At(reg, targets, names) + At(reg, targets, {n})
  {
    hide Client, FullKey;
  }

  class Backups {
    var registry: Registry
    var local: LocalStore
    var objects: set<Object>

    /** `remote.delete`: goes over the targets and passes over those that fail. */
    method DeleteRemote(name: string, ids: seq<string>) returns (removedFrom: seq<string>)
      modifies this`objects
      ensures objects == old(objects) - At(registry, Targets(registry, ids), {name})
      ensures forall t :: t in removedFrom <==> t in Targets(registry, ids) && Client(registry, t).Some?
    {
      var targets := Targets(registry, ids);
      removedFrom := [];
      for i := 0 to |targets|
        invariant objects == old(objects) - At(registry, targets[..i], {name})
        invariant forall t :: t in removedFrom <==> t in targets[..i] && Client(registry, t).Some?
      {
        assert targets[..i + 1] == targets[..i] + [targets[i]];
        var client := Client(registry, targets[i]);
        if client.Some? {
          objects := objects - {Object(client.value.bucket, FullKey(client.value, name))};
          removedFrom := removedFrom + [targets[i]];
        }
      }
      assert targets[..|targets|] == targets;
    }

    /**
      `delete_backup`: None means everywhere; a selection without any remote id
      leaves every remote alone.  It raises, with nothing changed, for an invalid
      name and for a local file it cannot unlink.
    */
    method DeleteBackup(name: string, locations: Option<seq<string>>, stuck: set<string>) returns (ok: bool, removed: bool)
      modifies this`local, this`objects
      ensures var here := locations.None? || "local" in locations.value;
        && (ok <==> AppFromName(name).Some? && !(here && name in old(local) && name in stuck))
        && (removed <==> ok && here && name in old(local))
        && local == (if removed then old(local) - {name} else old(local))
      ensures !ok ==> objects == old(objects)
      ensures ok && locations.None? ==> objects == old(objects) - At(registry, EnabledIds(registry), {name})
      ensures ok && locations.Some? ==>
        var rids := WithoutLocal(locations.value);
        objects == if EnabledIds(registry) == [] || rids == [] then old(objects)
                   else old(objects) - At(registry, Targets(registry, rids), {name})
    {
      ok, removed := AppFromName(name).Some?, false;
      if !ok {
        return;
      }
      if (locations.None? || "local" in locations.value) && name in local {
        if name in stuck {
          return false, false;
        }
        local := local - {name};
        removed := true;
      }
      if EnabledIds(registry) != [] {
        var rids := if locations.None? then [] else WithoutLocal(locations.value);
        if locations.None? || rids != [] {
          var _ := DeleteRemote(name, rids);
        }
      }
    }

    /** The part of `prune_backups` that works on one profile. */
    method PruneProfile(pid: string, app: string, keep: nat)
      modifies this`objects
      ensures objects == PruneOne(old(objects), registry, pid, app, keep)
    {
      var client := Client(registry, pid);
      if client.None? {
        return;
      }
      var place := client.value;
      hide Client, ListedKeys, KeysIn, Drop, SortedDown, NamesListed, Dropped, Targets, StartsWith, At;
      var listed := InSomeOrder(ListedKeys(place, KeysIn(objects, place.bucket)));
      var dropped := Drop(SortedDown(NamesListed(place, listed, app)), keep);
      DropIsDropped(place, listed, KeysIn(objects, place.bucket), app, keep);
      DeletedNone(registry, Targets(registry, [pid]));
      assert Elements(dropped[..0]) == {};
      hide Elements;
      for i := 0 to |dropped|
        invariant objects == old(objects) - At(registry, Targets(registry, [pid]), Elements(dropped[..i]))
      {
        OneMoreElement(dropped, i);
        DeletedMore(registry, Targets(registry, [pid]), Elements(dropped[..i]), dropped[i]);
        var _ := DeleteRemote(dropped[i], [pid]);
      }
      assert dropped[..|dropped|] == dropped;
    }

    /** The part of `prune_backups` that works on the local store. */
    method PruneLocal(app: string, keep: nat, stuck: set<string>) returns (kept: nat, removed: seq<string>)
      modifies this`local, this`objects
      ensures objects == old(objects)
      ensures local == LocalAfter(old(local), app, keep, stuck)
      ensures Elements(removed) == old(local).Keys - local.Keys
      ensures kept == |Newest(LocalOf(old(local), app), keep)|
    {
      hide Newest, SortedDown, AppNames, Drop, Targets, At, EnabledIds, AppFromName;
      var listed := InSomeOrder(local.Keys);
      var names := AppNames(local, listed, app);
      var dropped := Drop(SortedDown(names), keep);
      ghost var mine := LocalOf(local, app);
      assert Elements(names) == mine by {
        AppNamesAre(local, listed, app);
      }
      assert Elements(dropped) == mine - Newest(mine, keep) && |Newest(mine, keep)| == if keep < |names| then keep else |names| by {
        AppNamesAre(local, listed, app);
        DropIsOldest(names, keep);
        NewestIsExact(mine, keep);
        DistinctSize(names);
      }
      OnlyLocal();
      removed := [];
      for i := 0 to |dropped|
        invariant local == old(local) - (Elements(dropped[..i]) - stuck) && objects == old(objects)
        invariant Elements(removed) == Elements(dropped[..i]) - stuck
      {
        assert Elements(dropped[..i + 1]) == Elements(dropped[..i]) + {dropped[i]};
        assert dropped[i] in Elements(dropped) && dropped[i] in mine;
        var ok, _ := DeleteBackup(dropped[i], Some(["local"]), stuck);
        if ok {
          assert Elements(removed + [dropped[i]]) == Elements(removed) + {dropped[i]};
          removed := removed + [dropped[i]];
        }
      }
      assert dropped[..|dropped|] == dropped;
      kept := if keep < |names| then keep else |names|;
    }

    /** `prune_backups`: the local store first, then each enabled profile. */
    method Prune(app: string, keep: int, stuck: set<string>) returns (valid: bool, kept: nat, removed: seq<string>)
      modifies this`local, this`objects
      ensures valid == ValidApp(app)
      ensures !valid ==> local == old(local) && objects == old(objects)
      ensures valid ==>
        var k := if keep < 0 then 0 else keep;
        && local == LocalAfter(old(local), app, k, stuck) && Elements(removed) == old(local).Keys - local.Keys
        && objects == PruneEach(old(objects), registry, EnabledIds(registry), app, k)
        && kept == |Newest(LocalOf(old(local), app), k)|
    {
      valid, kept, removed := ValidApp(app), 0, [];
      if !valid {
        return;
      }
      var k := if keep < 0 then 0 else keep;
      kept, removed := PruneLocal(app, k, stuck);
      ghost var pruned := local;
      var pids := EnabledIds(registry);
      hide Newest, LocalOf, PruneOne;
      for i := 0 to |pids|
        invariant local == pruned
        invariant PruneEach(objects, registry, pids[i..], app, k)
               == PruneEach(old(objects), registry, pids, app, k)
      {
        assert pids[i..][1..] == pids[i + 1..];
        PruneProfile(pids[i], app, k);
      }
    }
  }

  lemma OnlyLocal()
    ensures WithoutLocal(["local"]) == []
  {
    assert WithoutLocal(["local"][1..]) == [];
  }

  lemma {:induction false} AppNamesAre(local: LocalStore, listed: seq<string>, app: string)
    requires Distinct(listed)
    ensures Distinct(AppNames(local, listed, app))
    ensures forall n :: n in AppNames(local, listed, app) <==> n in listed && n in LocalOf(local, app)
  {
    hide AppFromName;
    if listed != [] {
      AppNamesAre(local, listed[1..], app);
      assert listed == [listed[0]] + listed[1..];
      assert listed[0] !in listed[1..];
    }
  }

  lemma {:induction false} DistinctSize(names: seq<string>)
    requires Distinct(names)
    ensures |Elements(names)| == |names|
  {
    if names != [] {
      DistinctSize(names[1..]);
      assert names == [names[0]] + names[1..];
      assert Elements(names) == {names[0]} + Elements(names[1..]);
      assert names[0] !in names[1..];
    }
  }

  /** Without repetition, dropping past position k leaves the newest k. */
  lemma DropIsOldest(names: seq<string>, k: nat)
    requires Distinct(names)
    ensures Elements(Drop(SortedDown(names), k)) == Elements(names) - Newest(Elements(names), k)
  {
    SortedDownSorts(names);
    hide Less, SortedDown, AtLeast, Drop;
    forall n ensures n in Drop(SortedDown(names), k) <==> n in names && |AtLeast(Elements(names), n)| > k {
      DropByCount(SortedDown(names), k, n);
      CountIsSize(names, n);
    }
  }

  // ---------- selections, in their own terms ----------

  /** The profiles a prune visits are those that are enabled and complete. */
  lemma {:induction false} EnabledExactly(reg: Registry, pid: string)
    ensures pid in EnabledIds(reg) <==> exists p :: p in reg && p.enabled && p.complete && p.id == pid
  {
    if reg != [] {
      EnabledExactly(reg[1..], pid);
      assert reg == [reg[0]] + reg[1..];
    }
  }

  /** A client works on the first profile with the id, if that is complete and answers. */
  lemma {:induction false} ClientExactly(reg: Registry, pid: string, i: nat)
    requires i < |reg| && reg[i].id == pid && forall j | 0 <= j < i :: reg[j].id != pid
    ensures Client(reg, pid) == if reg[i].complete && reg[i].up then Some(reg[i].place) else None
  {
    if i > 0 { ClientExactly(reg[1..], pid, i - 1); }
  }

  lemma {:induction false} NoClient(reg: Registry, pid: string)
    requires forall p | p in reg :: p.id != pid
    ensures Client(reg, pid) == None
  {
    if reg != [] { NoClient(reg[1..], pid); }
  }

  lemma {:induction false} NonEmptyMeans(ids: seq<string>)
    ensures forall t :: t in NonEmpty(ids) <==> t in ids && t != ""
  {
    if ids != [] {
      NonEmptyMeans(ids[1..]);
      assert ids == [ids[0]] + ids[1..];
    }
  }

  lemma {:induction false} WithoutLocalMeans(ids: seq<string>)
    ensures forall t :: t in WithoutLocal(ids) <==> t in ids && t != "local"
  {
    if ids != [] {
      WithoutLocalMeans(ids[1..]);
      assert ids == [ids[0]] + ids[1..];
    }
  }

  /** A selection reaches the ids in it, and all enabled profiles when it holds none but empty ones. */
  lemma TargetsExactly(reg: Registry, ids: seq<string>, t: string)
    ensures t in Targets(reg, ids) <==>
      if exists i :: i in ids && i != "" then t in ids && t != "" else t in EnabledIds(reg)
  {
    NonEmptyMeans(ids);
    if i :| i in ids && i != "" { assert i in NonEmpty(ids); }
    if NonEmpty(ids) != [] { assert NonEmpty(ids)[0] in NonEmpty(ids); }
  }

  /** A local archive is listed under the app its sidecar names, or else under the one its own name holds. */
  lemma LocalExactly(local: LocalStore, app: string, n: string)
    requires app != ""
    ensures n in LocalOf(local, app) <==>
      && n in local && AppFromName(n).Some?
      && (local[n].manifestApp == app || (local[n].manifestApp == "" && AppFromName(n) == Some(app)))
  {}

  /** Prunable are names of 1 to 63 letters, digits, dots, dashes and underscores that begin with a letter or digit. */
  lemma PrunableApps(app: string)
    ensures ValidApp(app) <==>
      && 1 <= |app| <= 63 && (forall i | 0 <= i < |app| :: IsNameChar(app[i]))
      && var n := app[0] as int; 48 <= n <= 57 || 65 <= n <= 90 || 97 <= n <= 122
    ensures ValidApp(app) ==> IsAppPart(app)
  {
    assert app == "." || app == ".." ==> app[0] == '.';
  }

  // ---------- what pruning promises ----------

  lemma {:induction false} TargetsOne(reg: Registry, pid: string)
    ensures Targets(reg, [pid]) == if pid == "" then EnabledIds(reg) else [pid]
  {
    assert NonEmpty([pid][1..]) == [];
    assert NonEmpty([pid]) == if pid == "" then [] else [pid];
  }

  /**
    Deleting at one profile reaches that profile alone if and only if its id is
    not empty, or it is the only enabled one: an empty selection means all.
  */
  lemma OneTargetExactly(reg: Registry, pid: string)
    ensures Targets(reg, [pid]) == [pid] <==> pid != "" || EnabledIds(reg) == [""]
  {
    TargetsOne(reg, pid);
  }

  ghost predicate NoSlash(s: string) {
    forall i | 0 <= i < |s| :: s[i] != '/'
  }

  /** Nothing after the last slash is one. */
  lemma AfterSlash(a: string, m: string)
    requires NoSlash(m)
    ensures var s := a + "/" + m; s[|a|] == '/' && forall k | |a| < k < |s| :: s[k] != '/'
  {
    var s := a + "/" + m;
    forall k | |a| < k < |s| ensures s[k] == m[k - |a| - 1] {}
  }

  lemma LastSlash(a: string, m: string, b: string, n: string)
    requires NoSlash(m) && NoSlash(n) && a + "/" + m == b + "/" + n
    ensures a == b && m == n
  {
    AfterSlash(a, m);
    AfterSlash(b, n);
    var s, t := a + "/" + m, b + "/" + n;
    assert |a| == |b|;
    assert s[..|a|] == a && t[..|b|] == b;
    assert s[|a| + 1..] == m && t[|b| + 1..] == n;
  }

  lemma StampHasNoSlash(s: string)
    requires IsStampPart(s)
    ensures NoSlash(s)
  {
    forall i | 0 <= i < 24 ensures s[i] != '/' {
      if 1 <= i < 9 { assert s[i] == s[1..9][i - 1]; }
      if 10 <= i < 16 { assert s[i] == s[10..16][i - 10]; }
      if 17 <= i { assert s[i] == s[17..][i - 17]; }
    }
  }

  lemma ArchiveHasNoSlash(name: string)
    requires AppFromName(name).Some?
    ensures NoSlash(name)
  {
    var s := Body(name);
    var app, part := s[7..|s| - 24], s[|s| - 24..];
    StampHasNoSlash(part);
    assert s == "backup-" + app + part && NoSlash("backup-") && NoSlash(app);
    hide AppFromName, IsStampPart, IsAppPart;
    assert NoSlash(s);
  }

  lemma SlashInside(p: Place, m: string)
    requires NoSlash(m)
    ensures NoSlash(FullKey(p, m)) <==> p.prefix == ""
  {
    if p.prefix != "" { assert FullKey(p, m)[|p.prefix|] == '/'; }
  }

  /** An archive has one key at a place, and different places of a bucket never share a key. */
  lemma KeysDoNotClash(p: Place, m: string, q: Place, n: string)
    requires NoSlash(m) && NoSlash(n) && FullKey(p, m) == FullKey(q, n)
    ensures p.prefix == q.prefix && m == n
  {
    if p.prefix != "" && q.prefix != "" {
      LastSlash(p.prefix, m, q.prefix, n);
    }
    SlashInside(p, m);
    SlashInside(q, n);
  }

  /** The archives of the app at a place, given all objects. */
  function OwnAt(objects: set<Object>, place: Place, app: string): set<string> {
    Own(place, KeysIn(objects, place.bucket), app)
  }

  function StrayAt(objects: set<Object>, place: Place, app: string): set<string> {
    Stray(place, KeysIn(objects, place.bucket), app)
  }

  lemma OwnMeans(objects: set<Object>, place: Place, app: string, n: string)
    ensures n in OwnAt(objects, place, app) <==>
            OfApp(n, app) && Object(place.bucket, FullKey(place, n)) in objects
  {
    hide OfApp;
    FullKeyUnder(place, n);
    hide IsUnder, NameOf, FullKey;
    var keys := KeysIn(objects, place.bucket);
    if n in OwnAt(objects, place, app) {
      var k :| k in keys && IsUnder(place, k) && OfApp(NameOf(place, k), app) && NameOf(place, k) == n;
      NameOfUnder(place, k);
    }
    assert Object(place.bucket, FullKey(place, n)) in objects ==> FullKey(place, n) in keys;
  }

  /** Every stray archive is older than every one of the place's own. */
  ghost predicate StraysOlder(objects: set<Object>, place: Place, app: string) {
    forall s, n | s in StrayAt(objects, place, app) && n in OwnAt(objects, place, app) :: Less(s, n)
  }

  /** Without newer strays, what is dropped of the place's own archives is all but the newest. */
  lemma DroppedOwn(place: Place, keys: set<string>, app: string, k: nat)
    requires forall s, n | s in Stray(place, keys, app) && n in Own(place, keys, app) :: Less(s, n)
    ensures Own(place, keys, app) - Dropped(place, keys, app, k) == Newest(Own(place, keys, app), k)
  {
    hide Own, Stray, Less;
    var own, stray := Own(place, keys, app), Stray(place, keys, app);
    forall n | n in own ensures AtLeast(stray, n) == {} {}
  }

  /**
    Pruning one profile with an id keeps exactly the newest archives of its own
    place for every keep, if and only if no stray archive is as new as one of them.
  */
  lemma DropsOldestExactly(place: Place, keys: set<string>, app: string)
    ensures (forall k: nat :: Own(place, keys, app) - Dropped(place, keys, app, k) == Newest(Own(place, keys, app), k))
       <==> (forall s, n | s in Stray(place, keys, app) && n in Own(place, keys, app) :: Less(s, n))
  {
    hide Own, Stray, Less;
    var own, stray := Own(place, keys, app), Stray(place, keys, app);
    if forall s, n | s in stray && n in own :: Less(s, n) {
      forall k: nat ensures own - Dropped(place, keys, app, k) == Newest(own, k) {
        DroppedOwn(place, keys, app, k);
      }
    } else {
      var s, n :| s in stray && n in own && !Less(s, n);
      var k := |AtLeast(own, n)|;
      assert s in AtLeast(stray, n);
      assert n in Newest(own, k) && n in Dropped(place, keys, app, k);
    }
  }

  lemma DroppedIsOfApp(place: Place, keys: set<string>, app: string, k: nat)
    ensures forall m | m in Dropped(place, keys, app, k) :: OfApp(m, app)
  {
    hide OfApp, IsUnder, NameOf, AtLeast;
  }

  /** Deleting archives at one place takes those archives from it, and none from any other place. */
  lemma DeletedOwn(objects: set<Object>, reg: Registry, pid: string, at: Place, names: set<string>, place: Place, app: string)
    requires Client(reg, pid) == Some(at) && forall m | m in names :: OfApp(m, app)
    ensures OwnAt(objects - At(reg, [pid], names), place, app)
         == OwnAt(objects, place, app) - (if at == place then names else {})
  {
    hide OfApp, FullKey, OwnAt;
    var after := objects - At(reg, [pid], names);
    forall n ensures n in OwnAt(after, place, app) <==> n in OwnAt(objects, place, app) && !(at == place && n in names) {
      OwnMeans(objects, place, app, n);
      OwnMeans(after, place, app, n);
      var o := Object(place.bucket, FullKey(place, n));
      if OfApp(n, app) && o in objects && o !in after {
        assert o in At(reg, [pid], names);
        var m :| m in names && o == Object(at.bucket, FullKey(at, m));
        AppHasNoSlash(n, app);
        AppHasNoSlash(m, app);
        KeysDoNotClash(at, m, place, n);
      }
      if at == place && n in names {
        assert o in At(reg, [pid], names);
      }
    }
  }

  lemma AppHasNoSlash(name: string, app: string)
    requires OfApp(name, app)
    ensures NoSlash(name)
  {
    ArchiveHasNoSlash(name);
  }

  lemma FewerStrays(objects: set<Object>, fewer: set<Object>, place: Place, app: string)
    requires fewer <= objects && StraysOlder(objects, place, app)
    ensures StraysOlder(fewer, place, app)
  {
    hide OfApp, IsUnder, NameOf, Less, StartsWith;
  }

  /** One profile's turn prunes its own place and leaves every other place alone. */
  lemma PruneOneAt(objects: set<Object>, reg: Registry, pid: string, place: Place, app: string, k: nat)
    requires pid != "" && StraysOlder(objects, place, app)
    ensures var after := PruneOne(objects, reg, pid, app, k);
            && StraysOlder(after, place, app)
            && OwnAt(after, place, app)
               == if Client(reg, pid) == Some(place) then Newest(OwnAt(objects, place, app), k)
                  else OwnAt(objects, place, app)
  {
    hide Newest, StraysOlder, Dropped, At;
    FewerStrays(objects, PruneOne(objects, reg, pid, app, k), place, app);
    if Client(reg, pid).Some? {
      var at := Client(reg, pid).value;
      var dropped := Dropped(at, KeysIn(objects, at.bucket), app, k);
      TargetsOne(reg, pid);
      DroppedIsOfApp(at, KeysIn(objects, at.bucket), app, k);
      DeletedOwn(objects, reg, pid, at, dropped, place, app);
      if at == place {
        StraysAreOlder(objects, place, app);
        DroppedOwn(place, KeysIn(objects, place.bucket), app, k);
      }
    }
  }

  lemma StraysAreOlder(objects: set<Object>, place: Place, app: string)
    requires StraysOlder(objects, place, app)
    ensures forall s, n | s in StrayAt(objects, place, app) && n in OwnAt(objects, place, app) :: Less(s, n)
  {}

  predicate Visits(reg: Registry, pids: seq<string>, place: Place) {
    exists i :: 0 <= i < |pids| && Client(reg, pids[i]) == Some(place)
  }

  lemma {:induction false} PruneEachAt(objects: set<Object>, reg: Registry, pids: seq<string>, place: Place, app: string, k: nat)
    requires "" !in pids && StraysOlder(objects, place, app)
    ensures OwnAt(PruneEach(objects, reg, pids, app, k), place, app)
         == if Visits(reg, pids, place) then Newest(OwnAt(objects, place, app), k) else OwnAt(objects, place, app)
    decreases |pids|
  {
    hide Newest, StraysOlder, PruneOne, OwnAt;
    if pids != [] {
      var after := PruneOne(objects, reg, pids[0], app, k);
      PruneOneAt(objects, reg, pids[0], place, app, k);
      PruneEachAt(after, reg, pids[1..], place, app, k);
      NewestIsExact(OwnAt(objects, place, app), k);
      assert Visits(reg, pids, place) <==> Client(reg, pids[0]) == Some(place) || Visits(reg, pids[1..], place) by {
        assert pids == [pids[0]] + pids[1..];
        if Visits(reg, pids, place) && Client(reg, pids[0]) != Some(place) {
          var i :| 0 <= i < |pids| && Client(reg, pids[i]) == Some(place);
          assert pids[1..][i - 1] == pids[i];
        }
      }
    }
  }

  /**
    Retention: when every enabled profile has an id, pruning leaves at the place
    of each of them exactly the newest min(keep, n) of the app's n archives there,
    none of them earlier than one that went,
    however many profiles share the place or the bucket, as long as no archive
    listed from outside the place is as new as one inside.
  */
  lemma EachDestinationKeepsNewest(objects: set<Object>, reg: Registry, pid: string, app: string, k: nat)
    requires "" !in EnabledIds(reg) && pid in EnabledIds(reg) && Client(reg, pid).Some?
    requires StraysOlder(objects, Client(reg, pid).value, app)
    ensures var place := Client(reg, pid).value;
            var after := OwnAt(PruneEach(objects, reg, EnabledIds(reg), app, k), place, app);
            var before := OwnAt(objects, place, app);
            && after == Newest(before, k) && |after| == (if k < |before| then k else |before|)
            && forall a, b | a in after && b in before - after ::
                 OfApp(a, app) && OfApp(b, app) && !Before(MomentOf(a), MomentOf(b))
  {
    hide AppFromName, Newest, StraysOlder, PruneEach, OwnAt, MomentOf, Before;
    var place := Client(reg, pid).value;
    var before := OwnAt(objects, place, app);
    PruneEachAt(objects, reg, EnabledIds(reg), place, app, k);
    NewestIsExact(before, k);
    NewestAreAmong(before, k);
    forall n | n in before ensures OfApp(n, app) { OwnMeans(objects, place, app, n); }
    forall a, b | a in Newest(before, k) && b in before - Newest(before, k)
      ensures OfApp(a, app) && OfApp(b, app) && !Before(MomentOf(a), MomentOf(b))
    {
      NewestAreLatest(before, app, k, a, b);
    }
  }

  /** The object is an archive of the app at the place of an enabled profile. */
  ghost predicate MayGo(reg: Registry, app: string, o: Object) {
    exists t, n :: t in EnabledIds(reg) && Client(reg, t).Some? && OfApp(n, app)
      && o == Object(Client(reg, t).value.bucket, FullKey(Client(reg, t).value, n))
  }

  /** Whatever the registry, pruning adds nothing and removes only archives of the app at enabled profiles. */
  lemma {:induction false} OthersStay(objects: set<Object>, reg: Registry, pids: seq<string>, app: string, k: nat, o: Object)
    requires forall i | 0 <= i < |pids| :: pids[i] in EnabledIds(reg)
    ensures PruneEach(objects, reg, pids, app, k) <= objects
    ensures o in objects - PruneEach(objects, reg, pids, app, k) ==> MayGo(reg, app, o)
    decreases |pids|
  {
    hide OfApp, Dropped, MayGo;
    if pids != [] {
      var after := PruneOne(objects, reg, pids[0], app, k);
      OthersStay(after, reg, pids[1..], app, k, o);
      if o in objects - after {
        OneMayGo(objects, reg, pids[0], app, k, o);
      }
    }
  }

  lemma OneMayGo(objects: set<Object>, reg: Registry, pid: string, app: string, k: nat, o: Object)
    requires pid in EnabledIds(reg) && o in objects - PruneOne(objects, reg, pid, app, k)
    ensures MayGo(reg, app, o)
  {
    hide OfApp, Dropped, FullKey;
    var at := Client(reg, pid).value;
    TargetsOne(reg, pid);
    DroppedIsOfApp(at, KeysIn(objects, at.bucket), app, k);
  }

  /** What is dropped at a profile with an empty id is gone from every enabled profile. */
  lemma EmptyIdDropsEverywhere(objects: set<Object>, reg: Registry, pid: string, app: string, k: nat, n: string)
    requires Client(reg, "").Some? && pid in EnabledIds(reg) && Client(reg, pid).Some?
    requires var at := Client(reg, "").value; n in Dropped(at, KeysIn(objects, at.bucket), app, k)
    ensures var other := Client(reg, pid).value;
            n !in OwnAt(PruneOne(objects, reg, "", app, k), other, app)
  {
    hide Dropped, Own, FullKey;
    TargetsOne(reg, "");
    OwnMeans(PruneOne(objects, reg, "", app, k), Client(reg, pid).value, app, n);
  }

  lemma TwoAtRoot(bucket: string, objects: set<Object>, app: string, older: string, newer: string)
    requires KeysIn(objects, bucket) == {older, newer}
    requires OfApp(older, app) && OfApp(newer, app) && Less(older, newer)
    ensures older in Dropped(Place(bucket, ""), KeysIn(objects, bucket), app, 1)
  {
    LessTotal(older, newer);
    LessTotal(older, older);
    hide OfApp, Less;
    var place := Place(bucket, "");
    assert Own(place, {older, newer}, app) == {older, newer} && Stray(place, {older, newer}, app) == {};
    assert AtLeast({older, newer}, older) == {older, newer} && AtLeast({}, older) == {};
  }

  lemma OneAtRoot(bucket: string, objects: set<Object>, app: string, n: string)
    requires KeysIn(objects, bucket) == {n} && OfApp(n, app)
    ensures OwnAt(objects, Place(bucket, ""), app) == {n} && StrayAt(objects, Place(bucket, ""), app) == {}
  {}

  lemma TwoProfiles(p: Profile, q: Profile)
    requires p.enabled && p.complete && q.enabled && q.complete
    ensures EnabledIds([p, q]) == [p.id, q.id]
  {
    assert [p, q][1..] == [q] && [q][1..] == [];
    assert EnabledIds([q]) == [q.id];
  }

  lemma TwoArchives(app: string) returns (older: string, newer: string)
    requires IsAppPart(app)
    ensures OfApp(older, app) && OfApp(newer, app) && Less(older, newer)
  {
    hide Less, Name, AppFromName, MomentOf;
    older, newer := Name(app, Moment(0, 0)), Name(app, Moment(1, 0));
    NameParses(app, Moment(0, 0));
    NameParses(app, Moment(1, 0));
    LaterIsGreater(older, newer);
  }

  lemma ThreeObjects(m: string, n: string)
    ensures var objects := {Object("a", m), Object("a", n), Object("b", m)};
            KeysIn(objects, "a") == {m, n} && KeysIn(objects, "b") == {m}
  {
    var objects := {Object("a", m), Object("a", n), Object("b", m)};
    assert Object("a", m) in objects && Object("a", n) in objects && Object("b", m) in objects;
  }

  /** A profile stored with an empty id: pruning it drops an archive that is the only one at another profile. */
  lemma EmptyIdReachesOthers(app: string) returns (reg: Registry, objects: set<Object>, other: Place)
    requires IsAppPart(app)
    ensures EnabledIds(reg) == ["", "b"] && Client(reg, "b") == Some(other)
    ensures |OwnAt(objects, other, app)| == 1 && StraysOlder(objects, other, app)
    ensures OwnAt(PruneEach(objects, reg, EnabledIds(reg), app, 1), other, app) == {}
  {
    hide OwnAt, StrayAt, PruneOne, PruneEach, KeysIn, Dropped, OfApp, Less, EnabledIds;
    other := Place("b", "");
    var first := Place("a", "");
    var p, q := Profile("", true, true, true, first), Profile("b", true, true, true, other);
    reg := [p, q];
    TwoProfiles(p, q);
    assert Client(reg, "") == Some(first) && Client(reg, "b") == Some(other) by { assert reg[1..][0] == q; }
    hide Client;
    var older, newer := TwoArchives(app);
    objects := {Object("a", older), Object("a", newer), Object("b", older)};
    ThreeObjects(older, newer);
    TwoAtRoot("a", objects, app, older, newer);
    OneAtRoot("b", objects, app, older);
    EmptyIdDropsEverywhere(objects, reg, "b", app, 1, older);
    OnlyShrinks(objects, reg, EnabledIds(reg), other, app, older);
  }

  lemma OnlyShrinks(objects: set<Object>, reg: Registry, pids: seq<string>, place: Place, app: string, n: string)
    requires pids != [] && forall i | 0 <= i < |pids| :: pids[i] in EnabledIds(reg)
    requires OwnAt(objects, place, app) == {n} && n !in OwnAt(PruneOne(objects, reg, pids[0], app, 1), place, app)
    ensures OwnAt(PruneEach(objects, reg, pids, app, 1), place, app) == {}
  {
    hide OwnAt, PruneOne;
    var after := PruneOne(objects, reg, pids[0], app, 1);
    var last := PruneEach(after, reg, pids[1..], app, 1);
    OthersStay(objects, reg, pids, app, 1, Object(place.bucket, FullKey(place, n)));
    OthersStay(after, reg, pids[1..], app, 1, Object(place.bucket, FullKey(place, n)));
    forall m ensures m !in OwnAt(last, place, app) {
      OwnMeans(objects, place, app, m);
      OwnMeans(after, place, app, m);
      OwnMeans(last, place, app, m);
    }
  }

  /**
    Local retention: of the app's n archives exactly the newest min(keep, n) stay,
    and those that cannot be removed; the archives of every other app and all
    other files stay; and of two archives named for one app one that is dropped is
    not later than one of the newest.
  */
  lemma LocalKeepsNewest(local: LocalStore, app: string, k: nat, stuck: set<string>)
    ensures var before, after := LocalOf(local, app), LocalAfter(local, app, k, stuck);
            && LocalOf(after, app) == Newest(before, k) + before * stuck
            && |Newest(before, k)| == (if k < |before| then k else |before|)
            && (forall other | other != app :: LocalOf(after, other) == LocalOf(local, other))
            && (forall n | n in local && n !in before :: n in after && after[n] == local[n])
            && (forall a, b | a in Newest(before, k) && b in local.Keys - after.Keys && AppFromName(a) == AppFromName(b) ::
                  AppFromName(a).Some? && !Before(MomentOf(a), MomentOf(b)))
  {
    hide AppFromName, Newest, MomentOf, Before;
    var before, after := LocalOf(local, app), LocalAfter(local, app, k, stuck);
    NewestIsExact(before, k);
    NewestAreAmong(before, k);
    forall a, b | a in Newest(before, k) && b in local.Keys - after.Keys && AppFromName(a) == AppFromName(b)
      ensures AppFromName(a).Some? && !Before(MomentOf(a), MomentOf(b))
    {
      assert a in before;
      NewestAreLatest(before, AppFromName(a).value, k, a, b);
    }
  }

  lemma NewestAreAmong(names: set<string>, k: nat)
    ensures Newest(names, k) <= names
  {}

  // ---------- local archives named for several apps ----------

  ghost predicate AllNamed(names: set<string>) {
    forall n | n in names :: AppFromName(n).Some?
  }

  /** For every keep, no dropped archive is later than a kept one. */
  ghost predicate KeepsLatest(names: set<string>)
    requires AllNamed(names)
  {
    forall k: nat, a, b | a in Newest(names, k) && b in names - Newest(names, k) :: !Before(MomentOf(a), MomentOf(b))
  }

  /** An earlier archive never has the greater name. */
  ghost predicate NamedInTime(names: set<string>)
    requires AllNamed(names)
  {
    forall a, b | a in names && b in names && Before(MomentOf(a), MomentOf(b)) :: Less(a, b)
  }

  /** Ranking by name keeps the latest for every keep if and only if no earlier archive has the greater name. */
  lemma KeepsLatestExactly(names: set<string>)
    requires AllNamed(names)
    ensures KeepsLatest(names) <==> NamedInTime(names)
  {
    hide AppFromName, MomentOf, Less, Newest;
    forall k: nat ensures Newest(names, k) <= names { NewestAreAmong(names, k); }
    if NamedInTime(names) {
      forall k: nat, a, b | a in Newest(names, k) && b in names - Newest(names, k)
        ensures !Before(MomentOf(a), MomentOf(b))
      {
        NewestIsExact(names, k);
        LessTotal(a, b);
      }
    }
    if KeepsLatest(names) {
      forall a, b | a in names && b in names && Before(MomentOf(a), MomentOf(b)) ensures Less(a, b) {
        LessTotal(a, b);
        if Less(b, a) {
          GreaterCanOutlast(names, a, b);
        }
      }
    }
  }

  /** Of two archives the one with the smaller name goes for some keep under which the other stays. */
  lemma GreaterCanOutlast(names: set<string>, a: string, b: string)
    requires a in names && b in names && Less(b, a)
    ensures exists k: nat :: a in Newest(names, k) && b in names - Newest(names, k)
  {
    hide Less;
    LessTotal(b, b);
    forall m | m in AtLeast(names, a) ensures m in AtLeast(names, b) {
      if Less(m, b) { LessTransitive(m, b, a); }
    }
    assert b in AtLeast(names, b) - AtLeast(names, a);
    SubsetSize(AtLeast(names, a) + {b}, AtLeast(names, b));
    var k := |AtLeast(names, a)|;
    assert a in Newest(names, k) && b !in Newest(names, k);
  }

  /**
    The local archives listed under an app: for every keep none that goes is
    later than one that stays, if and only if names and times agree on them.
    They always do when all are named for one app.
  */
  lemma LocalKeepsLatestExactly(local: LocalStore, app: string)
    ensures AllNamed(LocalOf(local, app)) && forall k: nat :: LocalOf(LocalAfter(local, app, k, {}), app) == Newest(LocalOf(local, app), k)
    ensures KeepsLatest(LocalOf(local, app)) <==> NamedInTime(LocalOf(local, app))
    ensures (forall a, b | a in LocalOf(local, app) && b in LocalOf(local, app) :: AppFromName(a) == AppFromName(b))
            ==> NamedInTime(LocalOf(local, app))
  {
    var names := LocalOf(local, app);
    forall k: nat ensures LocalOf(LocalAfter(local, app, k, {}), app) == Newest(names, k) {
      LocalKeepsNewest(local, app, k, {});
    }
    assert AllNamed(names);
    hide AppFromName, MomentOf, Less, Newest, LocalOf;
    KeepsLatestExactly(names);
    if forall a, b | a in names && b in names :: AppFromName(a) == AppFromName(b) {
      forall a, b | a in names && b in names && Before(MomentOf(a), MomentOf(b)) ensures Less(a, b) {
        LaterIsGreater(a, b);
      }
    }
  }

  lemma EarlierUnderGreaterName(a: string, b: string) returns (older: string, newer: string)
    requires IsAppPart(a) && IsAppPart(b) && a != b
    ensures AppFromName(older).Some? && AppFromName(newer).Some? && Less(newer, older)
    ensures {AppFromName(older).value, AppFromName(newer).value} == {a, b}
    ensures Before(MomentOf(older), MomentOf(newer))
  {
    hide Less, Name, AppFromName, MomentOf, IsAppPart;
    var t, u := DifferentAppsInvert(a, b);
    NameParses(a, t);
    NameParses(b, u);
    older, newer := if Inverted(a, t, b, u) then Name(a, t) else Name(b, u), if Inverted(a, t, b, u) then Name(b, u) else Name(a, t);
  }

  /**
    For any two apps there are archives, one named for each and both listed under
    one app, of which keep = 1 drops the later and keeps the earlier.
  */
  lemma MislabelledOutranks(app: string, a: string, b: string) returns (local: LocalStore, older: string, newer: string)
    requires app != "" && IsAppPart(a) && IsAppPart(b) && a != b
    ensures AppFromName(older).Some? && AppFromName(newer).Some? && Before(MomentOf(older), MomentOf(newer))
    ensures {AppFromName(older).value, AppFromName(newer).value} == {a, b}
    ensures LocalOf(local, app) == {older, newer} && LocalOf(LocalAfter(local, app, 1, {}), app) == {older}
  {
    hide AppFromName, MomentOf, Less, Newest, LocalAfter, IsAppPart;
    older, newer := EarlierUnderGreaterName(a, b);
    local := map[older := Archive(app), newer := Archive(app)];
    assert LocalOf(local, app) == {older, newer};
    GreaterOfTwoStays(local, app, newer, older);
  }

  lemma GreaterOfTwoStays(local: LocalStore, app: string, m: string, n: string)
    requires LocalOf(local, app) == {n, m} && Less(m, n)
    ensures LocalOf(LocalAfter(local, app, 1, {}), app) == {n}
  {
    NewerOfTwo(m, n);
    LocalKeepsNewest(local, app, 1, {});
    hide *;
    assert {m, n} == {n, m};
  }

  lemma NewerOfTwo(m: string, n: string)
    requires Less(m, n)
    ensures Newest({m, n}, 1) == {n}
  {
    LessTotal(m, n);
    LessTotal(m, m);
    LessTotal(n, n);
    hide Less;
    assert AtLeast({m, n}, n) == {n} && AtLeast({m, n}, m) == {m, n};
  }

  // ---------- an archive listed from outside the directory ----------

  lemma StrayNames(older: string, newer: string, app: string)
    requires OfApp(older, app) && OfApp(newer, app)
    ensures var place, keys := Place("b", "backup"), {"backup/" + older, newer};
            Own(place, keys, app) == {older} && Stray(place, keys, app) == {newer}
  {
    var place, keys := Place("b", "backup"), {"backup/" + older, newer};
    FullKeyUnder(place, older);
    AppHasNoSlash(newer, app);
    BeginsWithBackup(newer, app);
    assert FullKey(place, older) == "backup/" + older && place.prefix + "/" == "backup/";
    hide OfApp, StartsWith;
    assert !IsUnder(place, newer);
    assert newer !in {"backup/" + older};
  }

  lemma BeginsWithBackup(name: string, app: string)
    requires OfApp(name, app)
    ensures StartsWith(name, "backup") && !StartsWith(name, "backup/")
  {
    var front := name[..7];
    assert front == Body(name)[..7] == "backup-";
    assert name[..6] == front[..6] == "backup" && front[6] == '-';
  }

  lemma BothDropped(older: string, newer: string, app: string)
    requires OfApp(older, app) && OfApp(newer, app) && Less(older, newer)
    ensures older in Dropped(Place("b", "backup"), {"backup/" + older, newer}, app, 1)
  {
    StrayNames(older, newer, app);
    LessTotal(older, newer);
    LessTotal(older, older);
    hide OfApp, Less, Own, Stray;
    assert AtLeast({older}, older) == {older} && AtLeast({newer}, older) == {newer};
  }

  /**
    A destination with the prefix `backup` loses its only archive to keep = 1
    when a newer one of the app lies at the root of its bucket, and that one stays.
  */
  lemma StrayPushesOwnOut(app: string) returns (reg: Registry, objects: set<Object>, place: Place, own: string, stray: string)
    requires IsAppPart(app)
    ensures EnabledIds(reg) == ["p"] && Client(reg, "p") == Some(place) && place == Place("b", "backup")
    ensures OwnAt(objects, place, app) == {own} && StrayAt(objects, place, app) == {stray}
    ensures var after := PruneEach(objects, reg, EnabledIds(reg), app, 1);
            OwnAt(after, place, app) == {} && StrayAt(after, place, app) == {stray}
  {
    hide Own, Stray, OfApp, Less, Dropped, IsAppPart;
    place := Place("b", "backup");
    reg := [Profile("p", true, true, true, place)];
    assert reg[1..] == [] && EnabledIds(reg[1..]) == [];
    own, stray := TwoArchives(app);
    objects := {Object("b", "backup/" + own), Object("b", stray)};
    var keys := {"backup/" + own, stray};
    assert KeysIn(objects, "b") == keys by {
      assert Object("b", "backup/" + own) in objects && Object("b", stray) in objects;
    }
    StrayNames(own, stray, app);
    BothDropped(own, stray, app);
    StrayLeft(objects, reg, place, app, own, stray);
  }

  lemma StrayLeft(objects: set<Object>, reg: Registry, place: Place, app: string, own: string, stray: string)
    requires EnabledIds(reg) == ["p"] && Client(reg, "p") == Some(place) && place == Place("b", "backup")
    requires objects == {Object("b", "backup/" + own), Object("b", stray)}
    requires KeysIn(objects, "b") == {"backup/" + own, stray}
    requires OwnAt(objects, place, app) == {own} && StrayAt(objects, place, app) == {stray}
    requires own in Dropped(place, KeysIn(objects, "b"), app, 1)
    ensures var after := PruneEach(objects, reg, EnabledIds(reg), app, 1);
            OwnAt(after, place, app) == {} && StrayAt(after, place, app) == {stray}
  {
    hide Dropped, OfApp, At, OwnAt, StrayAt, KeysIn, EnabledIds, Client, Targets;
    var after := PruneOne(objects, reg, "p", app, 1);
    var dropped := Dropped(place, KeysIn(objects, "b"), app, 1);
    TargetsOne(reg, "p");
    PruneOnly(objects, reg, "p", app);
    DroppedIsOfApp(place, KeysIn(objects, "b"), app, 1);
    DeletedOwn(objects, reg, "p", place, dropped, place, app);
    StrayStays(objects, after, reg, place, app, dropped);
  }

  lemma PruneOnly(objects: set<Object>, reg: Registry, pid: string, app: string)
    ensures PruneEach(objects, reg, [pid], app, 1) == PruneOne(objects, reg, pid, app, 1)
  {
    assert [pid][1..] == [];
  }

  /** What is deleted lies under the prefix, so strays are never deleted. */
  lemma StrayStays(objects: set<Object>, after: set<Object>, reg: Registry, place: Place, app: string, names: set<string>)
    requires Client(reg, "p") == Some(place) && after == objects - At(reg, ["p"], names)
    ensures StrayAt(after, place, app) == StrayAt(objects, place, app)
  {
    hide OfApp, StartsWith;
    forall n | n in names ensures IsUnder(place, FullKey(place, n)) { FullKeyUnder(place, n); }
    hide FullKey, IsUnder;
    forall k | k in KeysIn(objects, place.bucket) && !IsUnder(place, k) ensures k in KeysIn(after, place.bucket) {
      assert Object(place.bucket, k) in objects;
      assert Object(place.bucket, k) !in At(reg, ["p"], names);
    }
  }
}
