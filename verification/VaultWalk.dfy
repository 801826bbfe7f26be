/** scripts/check-vault-frontmatter.py: the pruned walk over a vault, and the predicate that decides
    for one path whether that walk would reach it. */
module VaultWalk {
  import opened Text
  import opened Sorting

  datatype Node = File | Dir(entries: seq<Entry>)
  datatype Entry = Entry(name: string, node: Node)

  /** `storage_rules.in_area(·, wall)` for a fixed wall. */
  type Wall = string -> bool

  const MD := ".md"

  ghost predicate WellFormed(node: Node) {
    node.Dir? ==>
      && NoDup(Names(node.entries))
      && forall e :: e in node.entries ==> e.name != "" && Free(e.name, '/') && WellFormed(e.node)
  }

  function Names(entries: seq<Entry>): (r: seq<string>)
    ensures |r| == |entries| && forall i :: 0 <= i < |r| ==> r[i] == entries[i].name
  {
    seq(|entries|, i requires 0 <= i < |entries| => entries[i].name)
  }

  /** The entry called `name`. */
  function Child(entries: seq<Entry>, name: string): (r: Option<Entry>)
    ensures r.Some? ==> r.value in entries && r.value.name == name
    ensures r.None? ==> forall e :: e in entries ==> e.name != name
  {
    if entries == [] then None
    else if entries[0].name == name then Some(entries[0])
    else Child(entries[1..], name)
  }

  predicate IsDot(name: string) {
    name != "" && name[0] == '.'
  }

  // ----- the walk -----

  /** The `.md` names of a directory that the wall lets through. */
  function NoteNames(entries: seq<Entry>, base: string, wall: Wall): (r: seq<string>)
    ensures forall n :: n in r <==>
              exists e :: e in entries && e.name == n && e.node.File? && EndsWith(n, MD) && !wall(base + n)
  {
    if entries == [] then [] else
      var e := entries[0];
      assert entries == [e] + entries[1..];
      (if e.node.File? && EndsWith(e.name, MD) && !wall(base + e.name) then [e.name] else [])
      + NoteNames(entries[1..], base, wall)
  }

  /** The subdirectories the walk enters. */
  function DirNames(entries: seq<Entry>, base: string, wall: Wall): (r: seq<string>)
    ensures forall n :: n in r <==>
              exists e :: e in entries && e.name == n && e.node.Dir? && !IsDot(n) && !wall(base + n)
  {
    if entries == [] then [] else
      var e := entries[0];
      assert entries == [e] + entries[1..];
      (if e.node.Dir? && !IsDot(e.name) && !wall(base + e.name) then [e.name] else [])
      + DirNames(entries[1..], base, wall)
  }

  function Prefixed(base: string, names: seq<string>): (r: seq<string>)
    ensures |r| == |names| && forall i :: 0 <= i < |r| ==> r[i] == base + names[i]
  {
    seq(|names|, i requires 0 <= i < |names| => base + names[i])
  }

  /** Top-down: a directory's own notes in order, then its subdirectories in order. */
  function Walk(dir: Node, base: string, wall: Wall): seq<string>
    requires dir.Dir?
    decreases dir, 1, 0
  {
    Prefixed(base, Sort(NoteNames(dir.entries, base, wall), STRING_ORDER))
    + WalkDirs(dir, Sort(DirNames(dir.entries, base, wall), STRING_ORDER), base, wall)
  }

  function WalkDirs(dir: Node, names: seq<string>, base: string, wall: Wall): seq<string>
    requires dir.Dir?
    decreases dir, 0, |names|
  {
    if names == [] then []
    else
      var child := Child(dir.entries, names[0]);
      (if child.Some? && child.value.node.Dir? then Walk(child.value.node, base + names[0] + "/", wall) else [])
      + WalkDirs(dir, names[1..], base, wall)
  }

  /** `iter_notes`: filter, sort and yield the names of one directory, prune and sort `dirs`, descend. */
  method IterNotes(dir: Node, base: string, wall: Wall) returns (notes: seq<string>)
    requires dir.Dir?
    ensures notes == Walk(dir, base, wall)
    decreases dir, 1
  {
    var files := Sort(NoteNames(dir.entries, base, wall), STRING_ORDER);
    notes := [];
    for i := 0 to |files|
      invariant notes == Prefixed(base, files[..i])
    {
      assert files[..i + 1] == files[..i] + [files[i]];
      notes := notes + [base + files[i]];
    }
    assert files[..|files|] == files;
    var dirs := Sort(DirNames(dir.entries, base, wall), STRING_ORDER);
    var below := Descend(dir, dirs, base, wall);
    notes := notes + below;
  }

  method Descend(dir: Node, dirs: seq<string>, base: string, wall: Wall) returns (notes: seq<string>)
    requires dir.Dir?
    ensures notes == WalkDirs(dir, dirs, base, wall)
    decreases dir, 0
  {
    hide WalkDirs, Walk;
    notes := [];
    assert dirs[0..] == dirs;
    for i := 0 to |dirs|
      invariant notes + WalkDirs(dir, dirs[i..], base, wall) == WalkDirs(dir, dirs, base, wall)
    {
      WalkDirsStep(dir, dirs[i..], base, wall);
      assert dirs[i..][1..] == dirs[i + 1..];
      var below := [];
      var child := Child(dir.entries, dirs[i]);
      if child.Some? && child.value.node.Dir? {
        below := IterNotes(child.value.node, base + dirs[i] + "/", wall);
      }
      assert below == WalkChild(dir, dirs[i], base, wall);
      assert notes + (below + WalkDirs(dir, dirs[i + 1..], base, wall))
             == notes + below + WalkDirs(dir, dirs[i + 1..], base, wall);
      notes := notes + below;
    }
    WalkDirsEnd(dir, base, wall);
    assert dirs[|dirs|..] == [];
  }

  lemma WalkDirsEnd(dir: Node, base: string, wall: Wall)
    requires dir.Dir?
    ensures WalkDirs(dir, [], base, wall) == []
  {
  }

  lemma WalkDirsStep(dir: Node, names: seq<string>, base: string, wall: Wall)
    requires dir.Dir? && names != []
    ensures WalkDirs(dir, names, base, wall)
         == WalkChild(dir, names[0], base, wall) + WalkDirs(dir, names[1..], base, wall)
  {
  }

  function WalkChild(dir: Node, name: string, base: string, wall: Wall): seq<string>
    requires dir.Dir?
  {
    var child := Child(dir.entries, name);
    if child.Some? && child.value.node.Dir? then Walk(child.value.node, base + name + "/", wall) else []
  }

  // ----- the predicate -----

  /** The ancestor at `depth` is neither a dot directory nor walled. */
  predicate AncestorPasses(parts: seq<string>, depth: nat, wall: Wall)
    requires 1 <= depth <= |parts|
  {
    !("." <= parts[depth - 1]) && !wall(Join(parts[..depth], '/'))
  }

  /** `in_scan`. */
  method InScanLoop(rel: string, wall: Wall) returns (r: bool)
    ensures r == InScan(rel, wall)
  {
    var parts := Split(rel, '/');
    for depth := 1 to |parts|
      invariant forall k :: 1 <= k < depth ==> AncestorPasses(parts, k, wall)
    {
      if IsDot(parts[depth - 1]) || wall(Join(parts[..depth], '/')) {
        assert !AncestorPasses(parts, depth, wall);
        return false;
      }
    }
    return EndsWith(rel, MD) && !wall(rel);
  }

  predicate InScan(rel: string, wall: Wall) {
    var parts := Split(rel, '/');
    (forall depth :: 1 <= depth < |parts| ==> AncestorPasses(parts, depth, wall)) && EndsWith(rel, ".md") && !wall(rel)
  }

  // ----- paths in the tree -----

  predicate FileAt(node: Node, parts: seq<string>)
    decreases |parts|
  {
    if parts == [] then node.File?
    else node.Dir? && var child := Child(node.entries, parts[0]); child.Some? && FileAt(child.value.node, parts[1..])
  }

  /** The walk's own decisions along one path below `base`. */
  predicate PassesBelow(base: string, parts: seq<string>, wall: Wall)
    decreases |parts|
  {
    if |parts| == 0 then false
    else if |parts| == 1 then EndsWith(parts[0], MD) && !wall(base + parts[0])
    else !IsDot(parts[0]) && !wall(base + parts[0]) && PassesBelow(base + parts[0] + "/", parts[1..], wall)
  }

  ghost predicate Reaches(dir: Node, base: string, wall: Wall, rel: string, parts: seq<string>) {
    |parts| >= 1 && rel == base + Join(parts, '/') && FileAt(dir, parts) && PassesBelow(base, parts, wall)
  }

  lemma ChildOf(entries: seq<Entry>, e: Entry)
    requires NoDup(Names(entries)) && e in entries
    ensures Child(entries, e.name) == Some(e)
  {
  }

  // ----- the walk yields exactly the paths that pass -----

  lemma {:induction false} InWalkDirs(dir: Node, names: seq<string>, base: string, wall: Wall, rel: string)
    requires dir.Dir?
    ensures rel in WalkDirs(dir, names, base, wall) <==> exists n :: n in names && rel in WalkChild(dir, n, base, wall)
    decreases |names|
  {
    hide Walk, WalkDirs, WalkChild;
    if names == [] {
      WalkDirsEnd(dir, base, wall);
    } else {
      InWalkDirs(dir, names[1..], base, wall, rel);
      WalkDirsStep(dir, names, base, wall);
      assert names == [names[0]] + names[1..];
    }
  }

  lemma InPrefixed(base: string, names: seq<string>, rel: string)
    ensures rel in Prefixed(base, names) <==> exists n :: n in names && rel == base + n
  {
  }

  /** A yielded path is a note of this directory or comes out of a subdirectory the walk enters. */
  lemma InWalk(dir: Node, base: string, wall: Wall, rel: string)
    requires dir.Dir?
    ensures rel in Walk(dir, base, wall) <==>
      || (exists n :: n in NoteNames(dir.entries, base, wall) && rel == base + n)
      || (exists n :: n in DirNames(dir.entries, base, wall) && rel in WalkChild(dir, n, base, wall))
  {
    hide WalkDirs, WalkChild, NoteNames, DirNames;
    var files := Sort(NoteNames(dir.entries, base, wall), STRING_ORDER);
    var dirs := Sort(DirNames(dir.entries, base, wall), STRING_ORDER);
    SameElements(NoteNames(dir.entries, base, wall), files);
    SameElements(DirNames(dir.entries, base, wall), dirs);
    InPrefixed(base, files, rel);
    InWalkDirs(dir, dirs, base, wall, rel);
  }

  lemma ReachesHere(dir: Node, base: string, wall: Wall, e: Entry)
    requires dir.Dir? && Child(dir.entries, e.name) == Some(e) && e.node.File? && EndsWith(e.name, MD)
             && !wall(base + e.name)
    ensures Reaches(dir, base, wall, base + e.name, [e.name])
  {
  }

  lemma ReachesBelow(dir: Node, base: string, wall: Wall, e: Entry, rel: string, rest: seq<string>)
    requires dir.Dir? && Child(dir.entries, e.name) == Some(e) && e.node.Dir? && !IsDot(e.name) && !wall(base + e.name)
    requires |rest| >= 1
    ensures Reaches(dir, base, wall, rel, [e.name] + rest) <==> Reaches(e.node, base + e.name + "/", wall, rel, rest)
  {
  }

  lemma {:induction false} WalkedReaches(dir: Node, base: string, wall: Wall, rel: string) returns (parts: seq<string>)
    requires dir.Dir? && WellFormed(dir) && rel in Walk(dir, base, wall)
    ensures Reaches(dir, base, wall, rel, parts)
    decreases dir
  {
    hide Walk, WalkDirs, NoteNames, DirNames, Reaches, Child, Names;
    InWalk(dir, base, wall, rel);
    if n :| n in NoteNames(dir.entries, base, wall) && rel == base + n {
      var e :| e in dir.entries && e.name == n && e.node.File? && EndsWith(n, MD) && !wall(base + n);
      ChildOf(dir.entries, e);
      ReachesHere(dir, base, wall, e);
      parts := [n];
    } else {
      var n :| n in DirNames(dir.entries, base, wall) && rel in WalkChild(dir, n, base, wall);
      var e :| e in dir.entries && e.name == n && e.node.Dir? && !IsDot(n) && !wall(base + n);
      ChildOf(dir.entries, e);
      var rest := WalkedReaches(e.node, base + n + "/", wall, rel);
      ReachesNonEmpty(e.node, base + n + "/", wall, rel, rest);
      ReachesBelow(dir, base, wall, e, rel, rest);
      parts := [n] + rest;
    }
  }

  lemma ReachesNonEmpty(dir: Node, base: string, wall: Wall, rel: string, parts: seq<string>)
    requires Reaches(dir, base, wall, rel, parts)
    ensures |parts| >= 1 && FileAt(dir, parts) && PassesBelow(base, parts, wall) && rel == base + Join(parts, '/')
  {
  }

  /** The first step of a path that is reached: a note of this directory, or a subdirectory entered. */
  lemma FirstStep(dir: Node, base: string, wall: Wall, rel: string, parts: seq<string>) returns (e: Entry)
    requires dir.Dir? && Reaches(dir, base, wall, rel, parts)
    ensures e in dir.entries && e.name == parts[0] && Child(dir.entries, e.name) == Some(e)
    ensures |parts| == 1 ==> e.node.File? && EndsWith(e.name, MD) && !wall(base + e.name) && rel == base + e.name
    ensures |parts| > 1 ==> e.node.Dir? && !IsDot(e.name) && !wall(base + e.name)
  {
    e := Child(dir.entries, parts[0]).value;
    assert FileAt(e.node, parts[1..]);
  }

  lemma {:induction false} ReachesWalked(dir: Node, base: string, wall: Wall, rel: string, parts: seq<string>)
    requires dir.Dir? && WellFormed(dir) && Reaches(dir, base, wall, rel, parts)
    ensures rel in Walk(dir, base, wall)
    decreases |parts|
  {
    hide Walk, WalkDirs, NoteNames, DirNames, Reaches, Child, FileAt, PassesBelow, Names;
    InWalk(dir, base, wall, rel);
    ReachesNonEmpty(dir, base, wall, rel, parts);
    var e := FirstStep(dir, base, wall, rel, parts);
    if |parts| == 1 {
      assert e.name in NoteNames(dir.entries, base, wall);
    } else {
      assert parts == [e.name] + parts[1..];
      ReachesBelow(dir, base, wall, e, rel, parts[1..]);
      ReachesWalked(e.node, base + e.name + "/", wall, rel, parts[1..]);
      assert e.name in DirNames(dir.entries, base, wall);
      ChildWalked(dir, base, wall, e, rel);
    }
  }

  lemma ChildWalked(dir: Node, base: string, wall: Wall, e: Entry, rel: string)
    requires dir.Dir? && Child(dir.entries, e.name) == Some(e) && e.node.Dir?
    ensures WalkChild(dir, e.name, base, wall) == Walk(e.node, base + e.name + "/", wall)
  {
  }

  // ----- the two predicates agree -----

  /** The walk's `base` inside the directory at `pre`. */
  function BaseOf(pre: seq<string>): string {
    if pre == [] then "" else Join(pre, '/') + "/"
  }

  lemma {:induction false} JoinAppend(pre: seq<string>, part: string)
    ensures Join(pre + [part], '/') == BaseOf(pre) + part
    ensures BaseOf(pre + [part]) == BaseOf(pre) + part + "/"
  {
    if pre != [] {
      JoinAppend(pre[1..], part);
      assert (pre + [part])[1..] == pre[1..] + [part];
      if |pre| == 1 {
        assert pre[1..] + [part] == [part];
      }
    }
  }

  ghost predicate AncestorsPass(all: seq<string>, lo: nat, hi: nat, wall: Wall)
    requires hi <= |all|
  {
    forall depth :: lo < depth < hi ==> AncestorPasses(all, depth, wall)
  }

  lemma {:induction false} PassesBelowIs(pre: seq<string>, parts: seq<string>, wall: Wall)
    requires |parts| >= 1
    ensures PassesBelow(BaseOf(pre), parts, wall) <==>
      && AncestorsPass(pre + parts, |pre|, |pre| + |parts|, wall)
      && EndsWith(parts[|parts| - 1], MD) && !wall(Join(pre + parts, '/'))
    decreases |parts|
  {
    var all := pre + parts;
    JoinAppend(pre, parts[0]);
    if |parts| == 1 {
      assert all == pre + [parts[0]];
    } else {
      var deeper := pre + [parts[0]];
      assert deeper + parts[1..] == all;
      PassesBelowIs(deeper, parts[1..], wall);
      assert all[..|pre| + 1] == deeper;
      assert AncestorPasses(all, |pre| + 1, wall) <==> !IsDot(parts[0]) && !wall(BaseOf(pre) + parts[0]);
    }
  }

  lemma {:induction false} JoinEndsWith(parts: seq<string>)
    requires |parts| >= 1
    ensures EndsWith(Join(parts, '/'), MD) <==> EndsWith(parts[|parts| - 1], MD)
  {
    if |parts| > 1 {
      JoinEndsWith(parts[1..]);
      EndsBehindSlash(parts[0], Join(parts[1..], '/'));
    }
  }

  lemma EndsBehindSlash(front: string, rest: string)
    ensures EndsWith(front + "/" + rest, MD) <==> EndsWith(rest, MD)
  {
    var all := front + "/" + rest;
    if |rest| >= 3 {
      assert all[|all| - 3..] == rest[|rest| - 3..];
    } else if |all| >= 3 {
      assert all[|all| - 3..][2 - |rest|] == '/';
      assert forall i :: 0 <= i < 3 ==> MD[i] != '/';
    }
  }

  ghost predicate PartsOk(parts: seq<string>) {
    |parts| >= 1 && forall i :: 0 <= i < |parts| ==> Free(parts[i], '/')
  }

  lemma InScanIs(all: seq<string>, wall: Wall)
    requires PartsOk(all)
    ensures InScan(Join(all, '/'), wall) <==>
      AncestorsPass(all, 0, |all|, wall) && EndsWith(all[|all| - 1], MD) && !wall(Join(all, '/'))
  {
    SplitJoin(all, '/');
    JoinEndsWith(all);
  }

  lemma {:induction false} FilePartsOk(node: Node, parts: seq<string>)
    requires WellFormed(node) && FileAt(node, parts)
    ensures forall i :: 0 <= i < |parts| ==> Free(parts[i], '/')
    decreases |parts|
  {
    if parts != [] {
      FilePartsOk(Child(node.entries, parts[0]).value.node, parts[1..]);
    }
  }

  /** The walk rooted at the directory `pre` of the vault yields the note at `pre/parts` exactly when
      that file is there and the predicate accepts its path, given that the root's own path passes. */
  lemma WalkMatchesInScan(dir: Node, pre: seq<string>, parts: seq<string>, wall: Wall)
    requires dir.Dir? && WellFormed(dir) && PartsOk(parts) && (pre == [] || PartsOk(pre))
    requires AncestorsPass(pre + parts, 0, |pre| + 1, wall)
    ensures Join(pre + parts, '/') in Walk(dir, BaseOf(pre), wall) <==>
            FileAt(dir, parts) && InScan(Join(pre + parts, '/'), wall)
  {
    hide Walk, InScan, FileAt, PassesBelow, WellFormed, Join, AncestorsPass, BaseOf, PartsOk;
    PartsNotEmpty(parts);
    JoinBase(pre, parts);
    WalkIsPasses(dir, BaseOf(pre), wall, Join(pre + parts, '/'), parts);
    PassesIsInScan(pre, parts, wall);
  }

  lemma PartsNotEmpty(parts: seq<string>)
    requires PartsOk(parts)
    ensures |parts| >= 1
  {
  }

  lemma PartsConcat(pre: seq<string>, parts: seq<string>)
    requires PartsOk(parts) && (pre == [] || PartsOk(pre))
    ensures PartsOk(pre + parts)
  {
    hide Free;
  }

  /** The walk yields a path exactly if the file is there and its own decisions along the path let it. */
  lemma WalkIsPasses(dir: Node, base: string, wall: Wall, rel: string, parts: seq<string>)
    requires dir.Dir? && WellFormed(dir) && PartsOk(parts) && |parts| >= 1 && rel == base + Join(parts, '/')
    ensures rel in Walk(dir, base, wall) <==> FileAt(dir, parts) && PassesBelow(base, parts, wall)
  {
    hide Walk, FileAt, PassesBelow, Reaches, WellFormed, Join, PartsOk;
    ReachesIs(dir, base, wall, rel, parts);
    if rel in Walk(dir, base, wall) {
      var found := WalkedReaches(dir, base, wall, rel);
      SameParts(dir, base, wall, rel, found, parts);
    } else if FileAt(dir, parts) && PassesBelow(base, parts, wall) {
      ReachesWalked(dir, base, wall, rel, parts);
    }
  }

  /** And those decisions are the predicate, if the root's own path passes. */
  lemma PassesIsInScan(pre: seq<string>, parts: seq<string>, wall: Wall)
    requires PartsOk(parts) && (pre == [] || PartsOk(pre))
    requires |parts| >= 1 && AncestorsPass(pre + parts, 0, |pre| + 1, wall)
    ensures PassesBelow(BaseOf(pre), parts, wall) <==> InScan(Join(pre + parts, '/'), wall)
  {
    hide InScan, PassesBelow, Join, AncestorsPass, EndsWith, BaseOf, PartsOk;
    var all := pre + parts;
    PartsConcat(pre, parts);
    InScanIs(all, wall);
    PassesBelowIs(pre, parts, wall);
    AncestorsFrom(all, |pre|, wall);
    assert all[|all| - 1] == parts[|parts| - 1];
  }

  lemma AncestorsFrom(all: seq<string>, k: nat, wall: Wall)
    requires k < |all| && AncestorsPass(all, 0, k + 1, wall)
    ensures AncestorsPass(all, 0, |all|, wall) <==> AncestorsPass(all, k, |all|, wall)
  {
    hide AncestorPasses;
  }

  lemma ReachesIs(dir: Node, base: string, wall: Wall, rel: string, parts: seq<string>)
    requires |parts| >= 1 && rel == base + Join(parts, '/')
    ensures Reaches(dir, base, wall, rel, parts) <==> FileAt(dir, parts) && PassesBelow(base, parts, wall)
  {
  }

  /** A path below a base has one list of components. */
  lemma SameParts(dir: Node, base: string, wall: Wall, rel: string, found: seq<string>, parts: seq<string>)
    requires WellFormed(dir) && Reaches(dir, base, wall, rel, found)
    requires PartsOk(parts) && rel == base + Join(parts, '/')
    ensures found == parts
  {
    hide WellFormed, PassesBelow, FileAt;
    FilePartsOk(dir, found);
    assert Join(found, '/') == rel[|base|..] == Join(parts, '/');
    SplitJoin(found, '/');
    SplitJoin(parts, '/');
  }

  lemma JoinBase(pre: seq<string>, parts: seq<string>)
    requires |parts| >= 1
    ensures Join(pre + parts, '/') == BaseOf(pre) + Join(parts, '/')
  {
    if pre == [] {
      assert pre + parts == parts;
    } else {
      JoinConcat(pre, parts, '/');
    }
  }

  /** From the vault root: for every path, the walk yields it exactly when it names a file there and
      the predicate accepts it. */
  lemma VaultWalkIsInScan(dir: Node, wall: Wall, rel: string)
    requires dir.Dir? && WellFormed(dir)
    ensures rel in Walk(dir, "", wall) <==> FileAt(dir, Split(rel, '/')) && InScan(rel, wall)
  {
    var parts := Split(rel, '/');
    SplitParts(rel, '/');
    JoinSplit(rel, '/');
    assert [] + parts == parts;
    WalkMatchesInScan(dir, [], parts, wall);
  }

  // ----- each note once -----

  lemma ConcatNoDup(a: seq<string>, b: seq<string>)
    requires NoDup(a) && NoDup(b) && forall x :: x in a ==> x !in b
    ensures NoDup(a + b)
  {
    forall i, j | 0 <= i < j < |a + b| ensures (a + b)[i] != (a + b)[j] {
      if i < |a| <= j {
        assert (a + b)[i] in a && (a + b)[j] in b;
      }
    }
  }

  lemma TailNames(entries: seq<Entry>)
    requires entries != [] && NoDup(Names(entries))
    ensures NoDup(Names(entries[1..])) && forall e :: e in entries[1..] ==> e.name != entries[0].name
  {
  }

  lemma {:induction false} FilteredNoDup(entries: seq<Entry>, base: string, wall: Wall)
    requires NoDup(Names(entries))
    ensures NoDup(NoteNames(entries, base, wall)) && NoDup(DirNames(entries, base, wall))
  {
    hide NoDup, Names, EndsWith, IsDot;
    if entries != [] {
      TailNames(entries);
      FilteredNoDup(entries[1..], base, wall);
      ConsNoDup(entries[0].name, NoteNames(entries[1..], base, wall));
      ConsNoDup(entries[0].name, DirNames(entries[1..], base, wall));
      assert [] + NoteNames(entries[1..], base, wall) == NoteNames(entries[1..], base, wall);
      assert [] + DirNames(entries[1..], base, wall) == DirNames(entries[1..], base, wall);
    } else {
      NothingTwice();
    }
  }

  lemma ConsNoDup(x: string, rest: seq<string>)
    requires NoDup(rest) && x !in rest
    ensures NoDup([x] + rest)
  {
  }

  lemma NothingTwice()
    ensures NoDup<string>([])
  {
  }

  /** The first component of a path below `base`. */
  function Below(base: string, rel: string): seq<string> {
    if base <= rel then Split(rel[|base|..], '/') else []
  }

  lemma NoteBelow(base: string, name: string)
    requires Free(name, '/')
    ensures Below(base, base + name) == [name]
  {
    assert (base + name)[|base|..] == name;
    SplitFree(name, '/');
  }

  lemma ChildWellFormed(dir: Node, n: string)
    requires dir.Dir? && WellFormed(dir) && Child(dir.entries, n).Some?
    ensures WellFormed(Child(dir.entries, n).value.node) && Free(n, '/')
    ensures Child(dir.entries, n).value.node < dir
  {
  }

  /** What comes out of the subdirectory `n` starts with `n` and goes on. */
  lemma ChildBelow(dir: Node, base: string, wall: Wall, n: string, rel: string)
    requires dir.Dir? && WellFormed(dir) && rel in WalkChild(dir, n, base, wall)
    ensures |Below(base, rel)| >= 2 && Below(base, rel)[0] == n
  {
    hide Walk, Reaches, WellFormed, Below, Child;
    var e := Child(dir.entries, n).value;
    ChildWellFormed(dir, n);
    var rest := WalkedReaches(e.node, base + n + "/", wall, rel);
    ReachesNonEmpty(e.node, base + n + "/", wall, rel, rest);
    BelowChild(base, n, rest);
    assert rel == base + (n + ['/'] + Join(rest, '/'));
  }

  lemma BelowChild(base: string, n: string, rest: seq<string>)
    requires Free(n, '/') && |rest| >= 1
    ensures |Below(base, base + (n + ['/'] + Join(rest, '/')))| >= 2
    ensures Below(base, base + (n + ['/'] + Join(rest, '/')))[0] == n
  {
    hide Join, Split;
    var rel := base + (n + ['/'] + Join(rest, '/'));
    assert rel[|base|..] == n + ['/'] + Join(rest, '/');
    SplitCons(n, Join(rest, '/'), '/');
  }

  lemma {:induction false} DirsOnce(dir: Node, names: seq<string>, base: string, wall: Wall)
    requires dir.Dir? && WellFormed(dir) && NoDup(names)
    requires forall n :: n in names ==> NoDup(WalkChild(dir, n, base, wall))
    ensures NoDup(WalkDirs(dir, names, base, wall))
    decreases |names|
  {
    hide Walk, WalkDirs, WalkChild, WellFormed, Below;
    if names == [] {
      WalkDirsEnd(dir, base, wall);
    } else {
      var first, rest := WalkChild(dir, names[0], base, wall), WalkDirs(dir, names[1..], base, wall);
      assert names[0] in names;
      DirsOnce(dir, names[1..], base, wall);
      forall rel | rel in first ensures rel !in rest {
        ChildBelow(dir, base, wall, names[0], rel);
        InWalkDirs(dir, names[1..], base, wall, rel);
        forall n | n in names[1..] ensures rel !in WalkChild(dir, n, base, wall) {
          assert n != names[0];
          if rel in WalkChild(dir, n, base, wall) {
            ChildBelow(dir, base, wall, n, rel);
          }
        }
      }
      ConcatNoDup(first, rest);
      WalkDirsStep(dir, names, base, wall);
    }
  }

  lemma PrefixedNoDup(base: string, names: seq<string>)
    requires NoDup(names)
    ensures NoDup(Prefixed(base, names))
  {
    forall i, j | 0 <= i < j < |names| ensures base + names[i] != base + names[j] {
      assert (base + names[i])[|base|..] == names[i] && (base + names[j])[|base|..] == names[j];
    }
  }

  /** The walk yields each note once. */
  lemma {:induction false} WalkOnce(dir: Node, base: string, wall: Wall)
    requires dir.Dir? && WellFormed(dir)
    ensures NoDup(Walk(dir, base, wall))
    decreases dir
  {
    hide WalkDirs, NoteNames, DirNames, Child, Below, Names;
    var notes, dirs := NoteNames(dir.entries, base, wall), DirNames(dir.entries, base, wall);
    var files, subs := Sort(notes, STRING_ORDER), Sort(dirs, STRING_ORDER);
    FilteredNoDup(dir.entries, base, wall);
    PermutationNoDup(notes, files);
    PermutationNoDup(dirs, subs);
    SameElements(notes, files);
    PrefixedNoDup(base, files);
    forall n | n in subs ensures NoDup(WalkChild(dir, n, base, wall)) {
      if Child(dir.entries, n).Some? && Child(dir.entries, n).value.node.Dir? {
        ChildWellFormed(dir, n);
        WalkOnce(Child(dir.entries, n).value.node, base + n + "/", wall);
      }
    }
    DirsOnce(dir, subs, base, wall);
    forall rel | rel in Prefixed(base, files) ensures rel !in WalkDirs(dir, subs, base, wall) {
      InPrefixed(base, files, rel);
      var n :| n in files && rel == base + n;
      NoteBelow(base, n);
      NotFromBelow(dir, subs, base, wall, rel);
    }
    ConcatNoDup(Prefixed(base, files), WalkDirs(dir, subs, base, wall));
  }

  lemma NotFromBelow(dir: Node, names: seq<string>, base: string, wall: Wall, rel: string)
    requires dir.Dir? && WellFormed(dir) && |Below(base, rel)| == 1
    ensures rel !in WalkDirs(dir, names, base, wall)
  {
    hide Walk, WalkDirs, WalkChild, WellFormed, Below;
    InWalkDirs(dir, names, base, wall, rel);
    forall n | n in names ensures rel !in WalkChild(dir, n, base, wall) {
      if rel in WalkChild(dir, n, base, wall) {
        ChildBelow(dir, base, wall, n, rel);
      }
    }
  }
}
