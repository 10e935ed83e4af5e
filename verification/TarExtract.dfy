/**
  The two-pass tar extraction of core/backup/archive.py.  The first pass
  validates every member without writing; the second repeats the checks and
  writes.  The destination may hold anything beforehand, symbolic links
  included, so `realpath` is modelled as it is and not as a lexical join.
*/
module TarExtract {
  import opened Wrappers

  const MAX_COMPRESSED_ARCHIVE_BYTES: nat := 2 * 1024 * 1024 * 1024
  const MAX_ARCHIVE_MEMBERS: nat := 50_000
  const MAX_MEMBER_BYTES: nat := 2 * 1024 * 1024 * 1024
  const MAX_TOTAL_EXTRACTED_BYTES: nat := 8 * 1024 * 1024 * 1024
  const MIN_FREE_SPACE_BYTES: nat := 128 * 1024 * 1024

  // ---------- archives and trees ----------

  datatype Kind = Regular | Directory | SymLink | HardLink | CharDevice | BlockDevice | Fifo | Unknown

  /** A tar member; a regular member's size is the length of its data. */
  datatype Member = Member(name: string, kind: Kind, data: seq<int>)

  /** An absolute path as its components. */
  type Path = seq<string>

  /** A link's target is where it finally leads. */
  datatype Node = Dir | File(data: seq<int>) | Link(target: Path)

  type Tree = map<Path, Node>

  // ---------- names ----------

  function Split(name: string, cur: string): seq<string>
    decreases |name|
  {
    if name == "" then [cur]
    else if name[0] == '/' then [cur] + Split(name[1..], "")
    else Split(name[1..], cur + [name[0]])
  }

  function ForwardSlashes(name: string): string {
    if name == "" then "" else [if name[0] == '\\' then '/' else name[0]] + ForwardSlashes(name[1..])
  }

  predicate LooksAbsolute(name: string) {
    (name != "" && (name[0] == '/' || name[0] == '\\')) || (|name| > 1 && name[1] == ':')
  }

  predicate Climbs(name: string) {
    ".." in Split(ForwardSlashes(name), "")
  }

  /** The components a join keeps: empty ones and dots go. */
  function Components(parts: seq<string>): Path {
    if parts == [] then []
    else (if parts[0] == "" || parts[0] == "." then [] else [parts[0]]) + Components(parts[1..])
  }

  /** os.path.realpath of base joined with a name that does not climb. */
  function Resolve(t: Tree, cur: Path, parts: Path): Path
    decreases |parts|
  {
    if parts == [] then cur
    else
      var next := cur + [parts[0]];
      Resolve(t, if next in t && t[next].Link? then t[next].target else next, parts[1..])
  }

  function Target(t: Tree, base: Path, name: string): Path {
    Resolve(t, base, Components(Split(name, "")))
  }

  /** `_safe_target`: None when it raises. */
  function SafeTarget(t: Tree, base: Path, name: string): Option<Path> {
    if LooksAbsolute(name) || Climbs(name) || !(base <= Target(t, base, name)) then None
    else Some(Target(t, base, name))
  }

  // ---------- the checks ----------

  /** `_validate_member` */
  predicate ValidMember(t: Tree, base: Path, m: Member) {
    && m.kind !in {SymLink, HardLink, CharDevice, BlockDevice, Fifo}
    && SafeTarget(t, base, m.name).Some?
    && (m.kind == Regular ==> |m.data| <= MAX_MEMBER_BYTES)
  }

  function Total(members: seq<Member>): nat {
    if members == [] then 0
    else Total(members[..|members| - 1]) + (if members[|members| - 1].kind == Regular then |members[|members| - 1].data| else 0)
  }

  /** What the archive must be for preflight to let it through. */
  predicate Accepted(t: Tree, base: Path, compressed: nat, members: seq<Member>) {
    && compressed <= MAX_COMPRESSED_ARCHIVE_BYTES
    && |members| <= MAX_ARCHIVE_MEMBERS
    && (forall i | 0 <= i < |members| :: ValidMember(t, base, members[i]))
    && Total(members) <= MAX_TOTAL_EXTRACTED_BYTES
  }

  lemma {:induction false} TotalGrows(members: seq<Member>, i: nat)
    requires i <= |members|
    ensures Total(members[..i]) <= Total(members)
  {
    if i < |members| {
      TotalGrows(members[..|members| - 1], i);
      assert members[..|members| - 1][..i] == members[..i];
    } else {
      assert members[..i] == members;
    }
  }

  lemma TotalOfNone()
    ensures Total([]) == 0
  {}

  lemma TotalOfNext(members: seq<Member>, i: nat)
    requires i < |members|
    ensures Total(members[..i + 1])
         == Total(members[..i]) + (if members[i].kind == Regular then |members[i].data| else 0)
  {
    assert members[..i + 1][..i] == members[..i];
  }

  /** The first i members have passed, with this total. */
  ghost predicate Passed(t: Tree, base: Path, members: seq<Member>, i: nat, total: nat) {
    && i <= |members| && i <= MAX_ARCHIVE_MEMBERS
    && total == Total(members[..i]) && total <= MAX_TOTAL_EXTRACTED_BYTES
    && forall j | 0 <= j < i :: ValidMember(t, base, members[j])
  }

  lemma NonePassed(t: Tree, base: Path, members: seq<Member>)
    ensures Passed(t, base, members, 0, 0)
  {
    TotalOfNone();
  }

  lemma NextPasses(t: Tree, base: Path, compressed: nat, members: seq<Member>, i: nat, total: nat)
    requires Passed(t, base, members, i, total) && i < |members|
    ensures var more := total + if members[i].kind == Regular then |members[i].data| else 0;
            if i < MAX_ARCHIVE_MEMBERS && ValidMember(t, base, members[i]) && more <= MAX_TOTAL_EXTRACTED_BYTES
            then Passed(t, base, members, i + 1, more) else !Accepted(t, base, compressed, members)
  {
    hide ValidMember;
    TotalOfNext(members, i);
    TotalGrows(members, i + 1);
    hide Total;
  }

  lemma AllPassed(t: Tree, base: Path, compressed: nat, members: seq<Member>, total: nat)
    requires compressed <= MAX_COMPRESSED_ARCHIVE_BYTES && Passed(t, base, members, |members|, total)
    ensures Accepted(t, base, compressed, members) && total == Total(members)
  {
    hide ValidMember, Total;
    assert members[..|members|] == members;
  }

  /** `_preflight`: the total size, or None when it raises. */
  method Preflight(t: Tree, base: Path, compressed: nat, members: seq<Member>) returns (r: Option<nat>)
    ensures r.Some? <==> Accepted(t, base, compressed, members)
    ensures r.Some? ==> r.value == Total(members)
  {
    if compressed > MAX_COMPRESSED_ARCHIVE_BYTES {
      return None;
    }
    hide ValidMember, Total, Accepted, Passed;
    NonePassed(t, base, members);
    var count: nat, total: nat := 0, 0;
    for i := 0 to |members|
      invariant count == i && Passed(t, base, members, i, total)
    {
      NextPasses(t, base, compressed, members, i, total);
      count := count + 1;
      if count > MAX_ARCHIVE_MEMBERS {
        return None;
      }
      if !ValidMember(t, base, members[i]) {
        return None;
      }
      if members[i].kind == Regular {
        total := total + |members[i].data|;
        if total > MAX_TOTAL_EXTRACTED_BYTES {
          return None;
        }
      }
    }
    AllPassed(t, base, compressed, members, total);
    return Some(total);
  }

  // ---------- writing ----------

  /** os.makedirs(path, exist_ok=True), or None when something that is no directory is in the way. */
  function MakeDirs(t: Tree, path: Path): Option<Tree>
    decreases |path|
  {
    if path == [] then Some(t)
    else
      match MakeDirs(t, path[..|path| - 1])
      case None => None
      case Some(u) =>
        if path !in u then Some(u[path := Dir]) else if u[path] == Dir then Some(u) else None
  }

  /** open(path, "wb") and writing, with the parent made first; a directory cannot be opened. */
  function WriteFile(t: Tree, path: Path, data: seq<int>): Option<Tree> {
    if path == [] then None
    else
      match MakeDirs(t, path[..|path| - 1])
      case None => None
      case Some(u) => if path in u && !u[path].File? then None else Some(u[path := File(data)])
  }

  /** What one member does to the tree. */
  function Place(t: Tree, base: Path, m: Member): Option<Tree> {
    match m.kind
    case Directory => MakeDirs(t, Target(t, base, m.name))
    case Regular => WriteFile(t, Target(t, base, m.name), m.data)
    case _ => Some(t)
  }

  /** The left fold of the members. */
  function Fold(t: Tree, base: Path, members: seq<Member>): Option<Tree> {
    if members == [] then Some(t)
    else
      match Fold(t, base, members[..|members| - 1])
      case None => None
      case Some(u) => Place(u, base, members[|members| - 1])
  }

  // ---------- what writing keeps ----------

  /** The two trees have the same links in the same places. */
  predicate SameLinks(t: Tree, u: Tree) {
    && (forall p | p in t && t[p].Link? :: p in u && u[p] == t[p])
    && (forall p | p in u && u[p].Link? :: p in t && t[p] == u[p])
  }

  /** Outside base nothing differs. */
  ghost predicate SameOutside(t: Tree, u: Tree, base: Path) {
    forall p | !(base <= p) :: (p in t <==> p in u) && (p in t ==> t[p] == u[p])
  }

  /** base and everything above it are directories. */
  predicate Rooted(t: Tree, base: Path) {
    forall k | 0 < k <= |base| :: base[..k] in t && t[base[..k]] == Dir
  }

  lemma RootHolds(t: Tree, base: Path, path: Path)
    requires Rooted(t, base) && path != []
    ensures path <= base ==> path in t
  {
    if path <= base { assert base[..|path|] == path; }
  }

  lemma {:induction false} MakeDirsKeeps(t: Tree, base: Path, path: Path)
    requires Rooted(t, base) && MakeDirs(t, path).Some?
    requires base <= path || path <= base
    ensures var u := MakeDirs(t, path).value;
            SameLinks(t, u) && SameOutside(t, u, base) && Rooted(u, base)
    ensures var u := MakeDirs(t, path).value;
            forall p | p in t :: p in u && u[p] == t[p]
    decreases |path|
  {
    if path != [] {
      var shorter := path[..|path| - 1];
      assert base <= shorter || shorter <= base;
      MakeDirsKeeps(t, base, shorter);
      var u := MakeDirs(t, shorter).value;
      RootHolds(u, base, path);
      assert path !in u ==> base <= path;
    }
  }

  lemma PlaceKeeps(t: Tree, base: Path, m: Member)
    requires Rooted(t, base) && SafeTarget(t, base, m.name).Some? && Place(t, base, m).Some?
    ensures var u := Place(t, base, m).value;
            SameLinks(t, u) && SameOutside(t, u, base) && Rooted(u, base)
  {
    var path := Target(t, base, m.name);
    if m.kind == Directory {
      MakeDirsKeeps(t, base, path);
    } else if m.kind == Regular {
      var parent := path[..|path| - 1];
      assert base <= parent || parent <= base;
      MakeDirsKeeps(t, base, parent);
      var u := MakeDirs(t, parent).value;
      assert forall k | 0 < k <= |base| :: base[..k] in u && u[base[..k]] == Dir;
      assert SameLinks(u, u[path := File(m.data)]);
    }
  }

  lemma {:induction false} ResolveSame(t: Tree, u: Tree, cur: Path, parts: Path)
    requires SameLinks(t, u)
    ensures Resolve(t, cur, parts) == Resolve(u, cur, parts)
    decreases |parts|
  {
    if parts != [] {
      var next := cur + [parts[0]];
      ResolveSame(t, u, if next in t && t[next].Link? then t[next].target else next, parts[1..]);
    }
  }

  /** Links decide every check, and extraction makes no link: what preflight accepted stays accepted. */
  lemma ChecksSame(t: Tree, u: Tree, base: Path, m: Member)
    requires SameLinks(t, u)
    ensures ValidMember(t, base, m) == ValidMember(u, base, m)
    ensures Target(t, base, m.name) == Target(u, base, m.name)
  {
    ResolveSame(t, u, base, Components(Split(m.name, "")));
  }

  /** Without links under base a member's place is the lexical join. */
  lemma {:induction false} LexicalWithoutLinks(t: Tree, base: Path, cur: Path, parts: Path)
    requires forall p | p in t && base <= p :: !t[p].Link?
    requires base <= cur
    ensures Resolve(t, cur, parts) == cur + parts
    decreases |parts|
  {
    if parts != [] {
      LexicalWithoutLinks(t, base, cur + [parts[0]], parts[1..]);
      assert cur + [parts[0]] + parts[1..] == cur + parts;
    }
  }

  // ---------- the extraction ----------

  datatype Outcome = Extracted | Unsafe | NoSpace | OsError

  class Extraction {
    var tree: Tree

    /** os.makedirs as it runs: on a failure the directories made so far stay. */
    method Make(base: Path, path: Path) returns (ok: bool)
      requires Rooted(tree, base) && (base <= path || path <= base)
      modifies this
      ensures ok <==> MakeDirs(old(tree), path).Some?
      ensures ok ==> tree == MakeDirs(old(tree), path).value
      ensures SameLinks(old(tree), tree) && SameOutside(old(tree), tree, base) && Rooted(tree, base)
      decreases |path|
    {
      if path == [] {
        return true;
      }
      var shorter := path[..|path| - 1];
      ok := Make(base, shorter);
      if !ok {
        return;
      }
      RootHolds(tree, base, path);
      if path !in tree {
        tree := tree[path := Dir];
      } else {
        ok := tree[path] == Dir;
      }
    }

    /** One member of the second pass, after its checks. */
    method Write(base: Path, m: Member) returns (ok: bool)
      requires Rooted(tree, base) && SafeTarget(tree, base, m.name).Some?
      modifies this
      ensures ok <==> Place(old(tree), base, m).Some?
      ensures ok ==> tree == Place(old(tree), base, m).value
      ensures SameLinks(old(tree), tree) && SameOutside(old(tree), tree, base) && Rooted(tree, base)
    {
      var path := Target(tree, base, m.name);
      if m.kind == Directory {
        ok := Make(base, path);
        return;
      }
      if m.kind != Regular {
        return true;
      }
      if path == [] {
        return false;
      }
      var parent := path[..|path| - 1];
      assert base <= parent || parent <= base;
      ok := Make(base, parent);
      if ok {
        ghost var before := tree;
        ok := path !in tree || tree[path].File?;
        if ok {
          tree := tree[path := File(m.data)];
          assert SameLinks(before, tree);
        }
      }
    }

    /** `safe_extract_tar` into an existing destination. */
    method SafeExtract(base: Path, compressed: nat, members: seq<Member>, free: nat) returns (r: Outcome)
      requires Rooted(tree, base)
      modifies this
      ensures r == Unsafe <==> !Accepted(old(tree), base, compressed, members)
      ensures r == NoSpace <==>
        Accepted(old(tree), base, compressed, members) && free < Total(members) + MIN_FREE_SPACE_BYTES
      ensures r == Unsafe || r == NoSpace ==> tree == old(tree)
      ensures r == Extracted ==> Fold(old(tree), base, members) == Some(tree)
      ensures r == OsError ==> Fold(old(tree), base, members) == None
      ensures SameLinks(old(tree), tree) && SameOutside(old(tree), tree, base)
    {
      var size := Preflight(tree, base, compressed, members);
      if size.None? {
        return Unsafe;
      }
      if free < size.value + MIN_FREE_SPACE_BYTES {
        return NoSpace;
      }
      var count, total := 0, 0;
      for i := 0 to |members|
        invariant count == i && total == Total(members[..i])
        invariant Fold(old(tree), base, members[..i]) == Some(tree)
        invariant SameLinks(old(tree), tree) && SameOutside(old(tree), tree, base) && Rooted(tree, base)
      {
        assert members[..i + 1][..i] == members[..i];
        TotalGrows(members, i + 1);
        ChecksSame(old(tree), tree, base, members[i]);
        count := count + 1;
        if count > MAX_ARCHIVE_MEMBERS {
          return Unsafe;
        }
        if !ValidMember(tree, base, members[i]) {
          return Unsafe;
        }
        if members[i].kind == Regular {
          total := total + |members[i].data|;
          if total > MAX_TOTAL_EXTRACTED_BYTES {
            return Unsafe;
          }
        }
        var ok := Write(base, members[i]);
        if !ok {
          FoldFails(old(tree), base, members, i + 1);
          return OsError;
        }
      }
      assert members[..|members|] == members;
      return Extracted;
    }
  }

  lemma {:induction false} FoldFails(t: Tree, base: Path, members: seq<Member>, i: nat)
    requires i <= |members| && Fold(t, base, members[..i]) == None
    ensures Fold(t, base, members) == None
    decreases |members|
  {
    if i < |members| {
      assert members[..|members| - 1][..i] == members[..i];
      FoldFails(t, base, members[..|members| - 1], i);
    } else {
      assert members[..i] == members;
    }
  }

  // ---------- the resulting tree ----------

  lemma {:induction false} FoldKeeps(t: Tree, base: Path, members: seq<Member>)
    requires Rooted(t, base) && Fold(t, base, members).Some?
    requires forall i | 0 <= i < |members| :: ValidMember(t, base, members[i])
    ensures var u := Fold(t, base, members).value;
            SameLinks(t, u) && SameOutside(t, u, base) && Rooted(u, base)
    decreases |members|
  {
    if members != [] {
      var last := members[|members| - 1];
      FoldKeeps(t, base, members[..|members| - 1]);
      var u := Fold(t, base, members[..|members| - 1]).value;
      ChecksSame(t, u, base, last);
      PlaceKeeps(u, base, last);
    }
  }

  /** A placed file can only be replaced by a later regular member with the same place. */
  lemma FileStays(t: Tree, base: Path, m: Member, p: Path)
    requires Rooted(t, base) && SafeTarget(t, base, m.name).Some? && Place(t, base, m).Some?
    requires p in t && t[p].File? && !(m.kind == Regular && Target(t, base, m.name) == p)
    ensures p in Place(t, base, m).value && Place(t, base, m).value[p] == t[p]
  {
    var path := Target(t, base, m.name);
    if m.kind == Directory {
      MakeDirsKeeps(t, base, path);
    } else if m.kind == Regular {
      var parent := path[..|path| - 1];
      assert base <= parent || parent <= base;
      MakeDirsKeeps(t, base, parent);
    }
  }

  /** The last regular member for a place decides the file there. */
  lemma {:induction false} LastMemberWins(t: Tree, base: Path, members: seq<Member>, i: nat)
    requires Rooted(t, base) && Fold(t, base, members).Some?
    requires forall j | 0 <= j < |members| :: ValidMember(t, base, members[j])
    requires i < |members| && members[i].kind == Regular
    requires forall j | i < j < |members| && members[j].kind == Regular ::
      Target(t, base, members[j].name) != Target(t, base, members[i].name)
    ensures var u := Fold(t, base, members).value;
            var p := Target(t, base, members[i].name);
            p in u && u[p] == File(members[i].data) && base <= p
    decreases |members|
  {
    var shorter, last := members[..|members| - 1], members[|members| - 1];
    FoldKeeps(t, base, shorter);
    var u := Fold(t, base, shorter).value;
    ChecksSame(t, u, base, last);
    if i < |members| - 1 {
      LastMemberWins(t, base, shorter, i);
      FileStays(u, base, last, Target(t, base, members[i].name));
    }
  }

  // ---------- names as text ----------

  /** A name put together from its pieces. */
  function Slashed(pieces: seq<string>): string {
    if pieces == [] then "" else if |pieces| == 1 then pieces[0] else pieces[0] + "/" + Slashed(pieces[1..])
  }

  predicate NoSlash(s: string) {
    forall i | 0 <= i < |s| :: s[i] != '/'
  }

  /** A component that stands for itself. */
  predicate Plain(c: string) {
    c != "" && c != "." && c != ".." && NoSlash(c)
  }

  lemma {:induction false} SplitPiece(piece: string, rest: string, cur: string)
    requires NoSlash(piece)
    ensures Split(piece + "/" + rest, cur) == [cur + piece] + Split(rest, "")
    ensures Split(piece, cur) == [cur + piece]
  {
    if piece == "" {
      assert piece + "/" + rest == "/" + rest && cur + piece == cur;
    } else {
      assert (piece + "/" + rest)[1..] == piece[1..] + "/" + rest;
      assert cur + piece == (cur + [piece[0]]) + piece[1..];
      SplitPiece(piece[1..], rest, cur + [piece[0]]);
    }
  }

  /** Splitting a name gives the pieces it was put together from. */
  lemma {:induction false} SplitSlashed(pieces: seq<string>)
    requires pieces != [] && forall i | 0 <= i < |pieces| :: NoSlash(pieces[i])
    ensures Split(Slashed(pieces), "") == pieces
  {
    assert "" + pieces[0] == pieces[0] && pieces == [pieces[0]] + pieces[1..];
    SplitPiece(pieces[0], if |pieces| == 1 then "" else Slashed(pieces[1..]), "");
    if |pieces| > 1 { SplitSlashed(pieces[1..]); }
  }

  lemma {:induction false} PlainComponents(pieces: seq<string>)
    requires forall i | 0 <= i < |pieces| :: Plain(pieces[i])
    ensures Components(pieces) == pieces
  {
    if pieces != [] { PlainComponents(pieces[1..]); }
  }

  lemma PlainPieces(pieces: seq<string>)
    requires forall j | 0 <= j < |pieces| :: Plain(pieces[j])
    ensures Components(Split(Slashed(pieces), "")) == pieces
  {
    PlainComponents(pieces);
    if pieces != [] {
      SplitSlashed(pieces);
    } else {
      assert [""][1..] == [];
    }
  }

  lemma NoisyPieces(pieces: seq<string>, i: nat, noise: string)
    requires i <= |pieces| && noise in {"", "."} && forall j | 0 <= j < |pieces| :: Plain(pieces[j])
    ensures Components(Split(Slashed(pieces[..i] + [noise] + pieces[i..]), "")) == pieces
  {
    var all := pieces[..i] + [noise] + pieces[i..];
    forall j | 0 <= j < |all| ensures NoSlash(all[j]) {
      assert j != i ==> all[j] == pieces[if j < i then j else j - 1];
    }
    hide Split, Slashed, Components, NoSlash;
    SplitSlashed(all);
    NoiseGoes(pieces, i, noise);
    PlainComponents(pieces);
  }

  /** A name of plain components stands for that path, and doubled slashes, dots and a final slash do not matter. */
  lemma NameMeansPath(pieces: seq<string>, i: nat)
    requires i <= |pieces| && forall j | 0 <= j < |pieces| :: Plain(pieces[j])
    ensures Components(Split(Slashed(pieces), "")) == pieces
    ensures Components(Split(Slashed(pieces[..i] + [""] + pieces[i..]), "")) == pieces
    ensures Components(Split(Slashed(pieces[..i] + ["."] + pieces[i..]), "")) == pieces
  {
    hide *;
    PlainPieces(pieces);
    NoisyPieces(pieces, i, "");
    NoisyPieces(pieces, i, ".");
  }

  lemma {:induction false} NoiseGoes(pieces: seq<string>, i: nat, noise: string)
    requires i <= |pieces| && noise in {"", "."}
    ensures Components(pieces[..i] + [noise] + pieces[i..]) == Components(pieces)
  {
    var all := pieces[..i] + [noise] + pieces[i..];
    if i == 0 {
      assert all[1..] == pieces;
    } else {
      assert all[1..] == pieces[1..][..i - 1] + [noise] + pieces[1..][i - 1..];
      NoiseGoes(pieces[1..], i - 1, noise);
    }
  }

  predicate IsSlash(c: char) {
    c == '/' || c == '\\'
  }

  /** Two dots stand at i between slashes of either kind, or at an end of the name. */
  predicate DotsAt(name: string, i: int) {
    && 0 <= i && i + 2 <= |name| && name[i] == '.' && name[i + 1] == '.'
    && (i == 0 || IsSlash(name[i - 1])) && (i + 2 == |name| || IsSlash(name[i + 2]))
  }

  lemma {:induction false} ForwardSlashesAt(name: string)
    ensures |ForwardSlashes(name)| == |name|
    ensures forall i | 0 <= i < |name| :: ForwardSlashes(name)[i] == if IsSlash(name[i]) then '/' else name[i]
  {
    if name != "" { ForwardSlashesAt(name[1..]); }
  }

  /** The piece p stands at position i of s, between slashes or ends. */
  predicate PieceAt(s: string, p: string, i: int) {
    && 0 <= i && i + |p| <= |s| && s[i..i + |p|] == p
    && (i == 0 || s[i - 1] == '/') && (i + |p| == |s| || s[i + |p|] == '/')
  }

  ghost predicate HasPiece(s: string, p: string) {
    exists i :: PieceAt(s, p, i)
  }

  lemma {:induction false} FirstPiece(s: string) returns (n: nat)
    ensures n <= |s| && NoSlash(s[..n]) && (n == |s| || s[n] == '/')
  {
    if s == "" || s[0] == '/' {
      n := 0;
    } else {
      n := FirstPiece(s[1..]);
      assert s[..n + 1] == [s[0]] + s[1..][..n];
      n := n + 1;
    }
  }

  /** What splitting finds is what stands between slashes. */
  lemma {:induction false} SplitFinds(s: string, p: string)
    requires NoSlash(p)
    ensures p in Split(s, "") <==> HasPiece(s, p)
    decreases |s|
  {
    var n := FirstPiece(s);
    var first := s[..n];
    assert "" + first == first;
    if n == |s| {
      SplitPiece(first, "", "");
      assert s == first;
      if p == first { assert PieceAt(s, p, 0); }
      forall i | PieceAt(s, p, i) ensures p == first { WholePiece(s, p, i); }
    } else {
      var rest := s[n + 1..];
      assert s == first + "/" + rest;
      SplitPiece(first, rest, "");
      SplitFinds(rest, p);
      PieceShifts(s, p, n);
    }
  }

  lemma WholePiece(s: string, p: string, i: int)
    requires NoSlash(s) && PieceAt(s, p, i)
    ensures p == s
  {}

  lemma PieceShifts(s: string, p: string, n: nat)
    requires n < |s| && s[n] == '/' && NoSlash(s[..n]) && NoSlash(p)
    ensures HasPiece(s, p) <==> p == s[..n] || HasPiece(s[n + 1..], p)
  {
    var rest := s[n + 1..];
    if p == s[..n] { assert PieceAt(s, p, 0); }
    forall i | PieceAt(rest, p, i) ensures PieceAt(s, p, n + 1 + i) {
      assert s[n + 1 + i..n + 1 + i + |p|] == rest[i..i + |p|];
    }
    forall i | PieceAt(s, p, i) ensures p == s[..n] || PieceAt(rest, p, i - n - 1) {
      PieceBefore(s, p, n, i);
      if i > n {
        assert s[i..i + |p|] == rest[i - n - 1..i - n - 1 + |p|];
      }
    }
  }

  lemma PieceBefore(s: string, p: string, n: nat, i: int)
    requires n < |s| && s[n] == '/' && NoSlash(s[..n]) && NoSlash(p) && PieceAt(s, p, i)
    ensures i > n || p == s[..n]
  {
    assert forall k | 0 <= k < n :: s[k] == s[..n][k];
    assert forall k | 0 <= k < n :: s[k] != '/';
    assert forall k | i <= k < i + |p| :: s[k] == s[i..i + |p|][k - i];
    assert forall k | i <= k < i + |p| :: s[k] != '/';
  }

  /** A name climbs exactly when two dots stand between slashes of either kind. */
  lemma ClimbsExactly(name: string)
    ensures Climbs(name) <==> exists i :: DotsAt(name, i)
  {
    var f := ForwardSlashes(name);
    ForwardSlashesAt(name);
    SplitFinds(f, "..");
    forall i ensures PieceAt(f, "..", i) <==> DotsAt(name, i) {
      if 0 <= i && i + 2 <= |name| { assert f[i..i + 2] == [f[i], f[i + 1]]; }
    }
    if i :| PieceAt(f, "..", i) { assert DotsAt(name, i); }
    if i :| DotsAt(name, i) { assert PieceAt(f, "..", i); }
  }

  /** Begins with a slash of either kind, or has a colon behind its first character. */
  predicate Rootish(name: string) {
    (|name| >= 1 && IsSlash(name[0])) || (|name| >= 2 && name[1] == ':')
  }

  /**
    What an accepted archive never holds, in any tree: a member whose name climbs
    behind either slash, begins with a slash or a drive, a link or a device.
  */
  lemma AcceptedIsTame(t: Tree, base: Path, compressed: nat, members: seq<Member>, i: nat)
    requires Accepted(t, base, compressed, members) && i < |members|
    ensures !Rootish(members[i].name) && forall k :: !DotsAt(members[i].name, k)
    ensures members[i].kind in {Regular, Directory, Unknown}
  {
    ClimbsExactly(members[i].name);
    assert ValidMember(t, base, members[i]);
    hide Climbs;
  }

  /** Under a destination without links a member with a tame name is let through, whatever the tree holds, and no other is. */
  lemma TameIsValid(t: Tree, base: Path, m: Member)
    requires forall p | p in t && base <= p :: !t[p].Link?
    ensures ValidMember(t, base, m) <==>
      && m.kind in {Regular, Directory, Unknown} && (m.kind == Regular ==> |m.data| <= MAX_MEMBER_BYTES)
      && !Rootish(m.name) && forall k :: !DotsAt(m.name, k)
  {
    ClimbsExactly(m.name);
    LexicalWithoutLinks(t, base, base, Components(Split(m.name, "")));
    hide Climbs, Split, Components, Resolve;
  }

  /** The file of a member named by plain components lands at base followed by those components, when nothing later replaces it. */
  lemma FileLandsWhereNamed(t: Tree, base: Path, compressed: nat, members: seq<Member>, i: nat, pieces: seq<string>)
    requires Rooted(t, base) && (forall p | p in t && base <= p :: !t[p].Link?)
    requires Accepted(t, base, compressed, members) && Fold(t, base, members).Some?
    requires i < |members| && members[i].kind == Regular && members[i].name == Slashed(pieces)
    requires forall j | 0 <= j < |pieces| :: Plain(pieces[j])
    requires forall j | i < j < |members| && members[j].kind == Regular :: Target(t, base, members[j].name) != base + pieces
    ensures var u := Fold(t, base, members).value;
            base + pieces in u && u[base + pieces] == File(members[i].data)
  {
    NameMeansPath(pieces, 0);
    LexicalWithoutLinks(t, base, base, pieces);
    assert Target(t, base, members[i].name) == base + pieces;
    hide Target, Slashed, Plain, Rooted;
    LastMemberWins(t, base, members, i);
  }

  lemma TargetOfPlain(t: Tree, base: Path, pieces: seq<string>)
    requires forall p | p in t && base <= p :: !t[p].Link?
    requires forall j | 0 <= j < |pieces| :: Plain(pieces[j])
    ensures Target(t, base, Slashed(pieces)) == base + pieces
  {
    NameMeansPath(pieces, 0);
    LexicalWithoutLinks(t, base, base, pieces);
  }

  /** A directory stays one, whatever is extracted after it. */
  lemma DirStays(t: Tree, base: Path, m: Member, p: Path)
    requires Rooted(t, base) && SafeTarget(t, base, m.name).Some? && Place(t, base, m).Some?
    requires p in t && t[p] == Dir
    ensures p in Place(t, base, m).value && Place(t, base, m).value[p] == Dir
  {
    var path := Target(t, base, m.name);
    if m.kind == Directory {
      MakeDirsKeeps(t, base, path);
    } else if m.kind == Regular {
      var parent := path[..|path| - 1];
      assert base <= parent || parent <= base;
      MakeDirsKeeps(t, base, parent);
    }
  }

  lemma {:induction false} MakesDir(t: Tree, path: Path)
    requires MakeDirs(t, path).Some?
    ensures forall k | 0 < k <= |path| :: path[..k] in MakeDirs(t, path).value && MakeDirs(t, path).value[path[..k]] == Dir
    decreases |path|
  {
    if path != [] {
      var shorter := path[..|path| - 1];
      MakesDir(t, shorter);
      forall k | 0 < k < |path| ensures path[..k] == shorter[..k] {}
      assert path[..|path|] == path;
    }
  }

  /** After the extraction every directory member, and every directory above a member, is there. */
  lemma {:induction false} DirectoriesStand(t: Tree, base: Path, members: seq<Member>, i: nat, k: nat)
    requires Rooted(t, base) && Fold(t, base, members).Some?
    requires forall j | 0 <= j < |members| :: ValidMember(t, base, members[j])
    requires i < |members| && members[i].kind in {Regular, Directory}
    requires var p := Target(t, base, members[i].name); 0 < k < |p| || (members[i].kind == Directory && k == |p| > 0)
    ensures var u, p := Fold(t, base, members).value, Target(t, base, members[i].name);
            p[..k] in u && u[p[..k]] == Dir
    decreases |members|
  {
    var shorter, last := members[..|members| - 1], members[|members| - 1];
    FoldKeeps(t, base, shorter);
    var u := Fold(t, base, shorter).value;
    ChecksSame(t, u, base, last);
    var p := Target(t, base, members[i].name);
    if i < |members| - 1 {
      DirectoriesStand(t, base, shorter, i, k);
      DirStays(u, base, last, p[..k]);
    } else if last.kind == Directory {
      MakesDir(u, p);
    } else {
      MakesDir(u, p[..|p| - 1]);
      assert p[..|p| - 1][..k] == p[..k];
    }
  }
}
