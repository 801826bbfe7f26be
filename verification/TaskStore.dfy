/** A project's task directories, the operations of scripts/harness_memory.py on them, and the pass of
    daemon/internal/dreaming/taskmover.go that moves a closed one, file by file. */
module TaskStore {
  import opened Text
  import opened Sorting
  import opened TaskNames

  datatype Home = Tasks | CompletedTasks
  datatype PlanFile = PlanFile(home: Home, name: string)

  /** What is on disk: the two task folders, and which task directories hold a plan that is not blank. */
  datatype Project = Project(open: set<string>, completed: set<string>, plans: set<PlanFile>)

  /** A task's three files, a repo-local pair (None is the singleton), or the error. */
  datatype Answer = At(name: string, home: Home) | LocalPlan(slug: Option<string>)
                  | AmbiguousSlug | SharesName | UnsafeName | NameRequired | Dangling

  /** `_task_dir_names`, as a set. */
  function Dirs(p: Project): set<string> {
    set n | n in p.open + p.completed && IsSafe(n)
  }

  /** `_task_home_parts`. */
  function HomeOf(p: Project, name: string): Home {
    if name !in p.open && name in p.completed then CompletedTasks else Tasks
  }

  predicate HasPlan(p: Project, name: string) {
    PlanFile(HomeOf(p, name), name) in p.plans
  }

  // ----- what a call answers -----

  /** `resolve_active_plan` with an explicit, normalised name; None is a bare name. */
  ghost predicate AnswersArg(p: Project, arg: Option<string>, a: Answer) {
    match arg
    case None => a == NameRequired
    case Some(slug) =>
      if !IsSafe(slug) then a == UnsafeName
      else exists l :: Finds(Dirs(p), slug, l) && AnswersLookup(p, slug, l, a)
  }

  ghost predicate AnswersLookup(p: Project, slug: string, l: Lookup, a: Answer) {
    match l
    case Ambiguous => a == AmbiguousSlug
    case One(name) => a == At(name, HomeOf(p, name))
    case NoTask => exists pl :: Places(Dirs(p), slug, pl) && AnswersPlacement(p, pl, a)
  }

  ghost predicate AnswersPlacement(p: Project, pl: Placement, a: Answer) {
    match pl
    case Refused => a == SharesName
    case New(name) => a == At(name, HomeOf(p, name))
  }

  /** `resolve_active_plan` through a worktree's marker; None is a blank marker. */
  ghost predicate AnswersMarker(p: Project, marker: Option<string>, a: Answer) {
    match marker
    case None => a == Dangling
    case Some(slug) =>
      if !IsSafe(slug) then a == Dangling
      else exists l :: Finds(Dirs(p), slug, l) && a == MarkerAnswer(p, l)
  }

  function MarkerAnswer(p: Project, l: Lookup): Answer {
    match l
    case Ambiguous => AmbiguousSlug
    case NoTask => Dangling
    case One(name) => if HasPlan(p, name) then At(name, HomeOf(p, name)) else Dangling
  }

  /** Without a vault: an explicit name is taken as it is, a marker has to name a local plan that is not
      blank, and a bare call is the singleton. */
  predicate AnswersLocally(local: set<string>, arg: Option<string>, marker: Option<string>, a: Answer) {
    match (arg, marker)
    case (Some(raw), _) =>
      var slug := Normalize(raw);
      a == if slug.Some? && !IsSafe(slug.value) then UnsafeName else LocalPlan(slug)
    case (None, Some(raw)) =>
      var slug := Normalize(raw);
      a == if slug.Some? && IsSafe(slug.value) && slug.value in local then LocalPlan(slug) else Dangling
    case (None, None) => a == LocalPlan(None)
  }

  // ----- the operations -----

  function Mkdir(p: Project, name: string, home: Home): Project {
    if home.Tasks? then p.(open := p.open + {name}) else p.(completed := p.completed + {name})
  }

  function WithPlan(p: Project, name: string, home: Home): Project {
    Mkdir(p, name, home).(plans := p.plans + {PlanFile(home, name)})
  }

  /** The night has moved a file of an open task: its plan, or any other one. */
  function FileMoved(p: Project, name: string, plan: bool): Project {
    p.(completed := p.completed + {name},
       plans := if plan && PlanFile(Tasks, name) in p.plans
                then p.plans - {PlanFile(Tasks, name)} + {PlanFile(CompletedTasks, name)}
                else p.plans)
  }

  /** The emptied directory is gone. */
  function Pruned(p: Project, name: string): Project {
    p.(open := p.open - {name})
  }

  /** File `j` of a pass moves if its commit is answered yes; the last one, the tracker, only behind all
      the others. */
  predicate Moves(commits: seq<bool>, j: nat) {
    j < |commits| && commits[j] && (j == |commits| - 1 ==> forall i :: 0 <= i < j ==> commits[i])
  }

  /** What the first `n` files of a pass have moved: anything at all, and the plan. */
  ghost predicate AnyMoves(commits: seq<bool>, n: nat) {
    exists j :: 0 <= j < n && Moves(commits, j)
  }

  ghost predicate PlanMoves(leaves: seq<string>, commits: seq<bool>, n: nat) {
    exists j :: 0 <= j < n && j < |leaves| && Moves(commits, j) && leaves[j] == "plan.md"
  }

  ghost function FilesMoved(p: Project, name: string, leaves: seq<string>, commits: seq<bool>, n: nat): Project {
    if AnyMoves(commits, n) then FileMoved(p, name, PlanMoves(leaves, commits, n)) else p
  }

  /** A whole pass over one folder: the files, then the directory if it is whole and empty. */
  ghost function FolderPass(p: Project, name: string, leaves: seq<string>, commits: seq<bool>, others: bool): Project {
    var q := FilesMoved(p, name, leaves, commits, |leaves|);
    if false !in commits && !others && PlanFile(Tasks, name) !in q.plans then Pruned(q, name) else q
  }

  class Store {
    var open: set<string>
    var completed: set<string>
    var plans: set<PlanFile>

    function State(): Project
      reads this
    {
      Project(open, completed, plans)
    }

    constructor (p: Project)
      ensures State() == p
    {
      open, completed, plans := p.open, p.completed, p.plans;
    }

    /** The names on disk, sorted. */
    method TaskDirNames() returns (names: seq<string>)
      ensures NoDup(names) && SortedBy(names, STRING_ORDER)
      ensures forall n :: n in names <==> n in Dirs(State())
    {
      var left := open + completed;
      var found := [];
      while left != {}
        invariant NoDup(found) && (forall n :: n in found ==> n !in left)
        invariant forall n :: n in found || (n in left && IsSafe(n)) <==> n in Dirs(State())
        decreases left
      {
        var n :| n in left;
        left := left - {n};
        if IsSafe(n) {
          found := found + [n];
        }
      }
      names := Sort(found, STRING_ORDER);
      StringOrder();
      SortSorted(found, STRING_ORDER);
      PermutationNoDup(found, names);
      SameElements(found, names);
    }

    /** `_match_task_dirs`. */
    method MatchTaskDirs(names: seq<string>, slug: string) returns (matched: seq<string>)
      requires NoDup(names)
      ensures NoDup(matched) && Elements(matched) == Matches(Elements(names), slug)
    {
      if slug in names {
        return [slug];
      }
      matched := [];
      for i := 0 to |names|
        invariant NoDup(matched)
        invariant forall n :: n in matched <==> n in names[..i] && IsTask(n) && TaskDir(n).value.slug == slug
      {
        assert names[..i + 1] == names[..i] + [names[i]];
        var m := TaskDir(names[i]);
        if m.Some? && m.value.slug == slug {
          assert names[i] !in names[..i];
          matched := matched + [names[i]];
        }
      }
      assert names[..|names|] == names;
    }

    /** `_next_task_number`. */
    method NextTaskNumber(names: seq<string>) returns (number: string)
      ensures exists m: nat :: Highest(Elements(names), m) && number == Pad3(m + 1)
    {
      var m: nat := 0;
      for i := 0 to |names|
        invariant Highest(Elements(names[..i]), m)
      {
        HighestStep(names, i, m);
        if TaskDir(names[i]).Some? && NumberIn(names[i]) > m {
          m := NumberIn(names[i]);
        }
      }
      assert names[..|names|] == names;
      number := Pad3(m + 1);
    }

    /** `_resolve_task_dir`. */
    method ResolveTaskDir(slug: string) returns (l: Lookup)
      ensures Finds(Dirs(State()), slug, l)
    {
      var names := TaskDirNames();
      var matched := MatchTaskDirs(names, slug);
      assert Elements(names) == Dirs(State());
      l := ToLookup(matched);
    }

    /** `_placed_task`; a name that finds one directory is reused. */
    method PlacedTask(slug: string) returns (a: Answer)
      requires Finds(Dirs(State()), slug, NoTask) || exists n :: Finds(Dirs(State()), slug, One(n))
      ensures exists l :: Finds(Dirs(State()), slug, l) && AnswersLookup(State(), slug, l, a)
      ensures a.At? && IsSafe(slug) ==> IsSafe(a.name)
    {
      var names := TaskDirNames();
      assert Elements(names) == Dirs(State());
      var existing := MatchTaskDirs(names, slug);
      DistinctCount(existing);
      if |existing| == 1 {
        assert existing[0] in Elements(existing);
        a := At(existing[0], HomeOf(State(), existing[0]));
        return;
      }
      OnlyNoTask(Dirs(State()), slug, existing);
      if TaskDir(slug).None? {
        var number := NextTaskNumber(names);
        assert Places(Dirs(State()), slug, New(number + "-" + slug));
        ghost var m: nat :| number == Pad3(m + 1);
        if IsSafe(slug) {
          SafeName(m + 1, slug);
        }
        a := At(number + "-" + slug, HomeOf(State(), number + "-" + slug));
        return;
      }
      for i := 0 to |names|
        invariant forall j :: 0 <= j < i ==> !Shares(names[j], slug)
      {
        if Shares(names[i], slug) {
          assert names[i] in Dirs(State());
          assert Places(Dirs(State()), slug, Refused);
          return SharesName;
        }
      }
      assert Places(Dirs(State()), slug, New(slug));
      a := At(slug, HomeOf(State(), slug));
    }

    /** `resolve_active_plan`: the explicit name first, then the marker, then a bare call. `tasks` says that
        the project keeps its plans in tasks; `local` are the slugs of its local plans that are not blank. */
    method ResolveActivePlan(arg: Option<string>, marker: Option<string>, tasks: bool, local: set<string>)
      returns (a: Answer)
      ensures tasks && arg.Some? ==> AnswersArg(State(), Normalize(arg.value), a)
      ensures tasks && arg.None? && marker.Some? ==> AnswersMarker(State(), Normalize(marker.value), a)
      ensures tasks && arg.None? && marker.None? ==> a == NameRequired
      ensures !tasks ==> AnswersLocally(local, arg, marker, a)
      ensures arg.Some? ==>
                (a == UnsafeName <==> Normalize(arg.value).Some? && Traverses(Normalize(arg.value).value))
      ensures arg.None? && marker.Some? ==>
                a != UnsafeName
                && (Normalize(marker.value).Some? && Traverses(Normalize(marker.value).value) ==> a == Dangling)
      ensures a.At? ==> (a.home == CompletedTasks <==> a.name in completed - open)
      ensures a.At? ==> !Traverses(a.name) && Split(a.name, '/') == [a.name]
      ensures a.LocalPlan? && a.slug.Some? ==> !Traverses(a.slug.value)
    {
      hide IsSafe, Traverses, Split, Normalize, TaskDir;
      forall name ensures IsSafe(name) <==> !Traverses(name)
        ensures IsSafe(name) ==> Split(name, '/') == [name]
      {
        SafeIs(name);
      }
      if arg.Some? {
        var slug := Normalize(arg.value);
        if slug.Some? && !IsSafe(slug.value) {
          return UnsafeName;
        }
        if !tasks {
          return LocalPlan(slug);
        }
        if slug.None? {
          return NameRequired;
        }
        var l := ResolveTaskDir(slug.value);
        if l.Ambiguous? {
          return AmbiguousSlug;
        }
        FoundIsSafe(State(), slug.value, l);
        if l.One? && HasPlan(State(), l.name) {
          return At(l.name, HomeOf(State(), l.name));
        }
        a := PlacedTask(slug.value);
        return;
      }
      if marker.Some? {
        var slug := Normalize(marker.value);
        if slug.None? || !IsSafe(slug.value) {
          return Dangling;
        }
        if !tasks {
          return if slug.value in local then LocalPlan(slug) else Dangling;
        }
        var l := ResolveTaskDir(slug.value);
        FoundIsSafe(State(), slug.value, l);
        match l {
          case Ambiguous => return AmbiguousSlug;
          case NoTask => return Dangling;
          case One(name) =>
            return if HasPlan(State(), name) then At(name, HomeOf(State(), name)) else Dangling;
        }
      }
      return if tasks then NameRequired else LocalPlan(None);
    }

    /** `/plan` writing the plan where the resolver pointed. */
    method WritePlan(name: string, home: Home)
      modifies this
      ensures State() == WithPlan(old(State()), name, home)
    {
      if home.Tasks? {
        open := open + {name};
      } else {
        completed := completed + {name};
      }
      plans := plans + {PlanFile(home, name)};
    }

    /** A file of the folder under its new path. */
    method CommitMove(name: string, leaf: string)
      modifies this
      ensures State() == FileMoved(old(State()), name, leaf == "plan.md")
    {
      completed := completed + {name};
      if leaf == "plan.md" && PlanFile(Tasks, name) in plans {
        plans := plans - {PlanFile(Tasks, name)} + {PlanFile(CompletedTasks, name)};
      }
    }

    /** The loop of `ApplyTaskMoves` for one folder and its files, the tracker last: what each commit
        answers is given, and whether the folder holds files the plan did not see. */
    method MoveFolder(name: string, leaves: seq<string>, commits: seq<bool>, others: bool) returns (stopped: bool)
      requires |commits| == |leaves| >= 1 && name in open
      modifies this
      ensures State() == FolderPass(old(State()), name, leaves, commits, others)
      ensures stopped <==> exists i :: 0 <= i < |commits| - 1 && !commits[i]
    {
      stopped := false;
      var complete := true;
      var j := 0;
      while j < |leaves| && !stopped
        invariant 0 <= j <= |leaves|
        invariant complete <==> forall i :: 0 <= i < j ==> commits[i]
        invariant stopped ==> j == |leaves| - 1 && !complete
        invariant j == |leaves| ==> forall i :: 0 <= i < j - 1 ==> commits[i]
        invariant State() == FilesMoved(old(State()), name, leaves, commits, j)
        decreases |leaves| - j, !stopped
      {
        if j == |leaves| - 1 && !complete {
          stopped := true;
        } else {
          FileStep(old(State()), name, leaves, commits, j);
          if commits[j] {
            CommitMove(name, leaves[j]);
          }
          complete := complete && commits[j];
          j := j + 1;
        }
      }
      if stopped {
        StayStep(old(State()), name, leaves, commits, j);
      }
      if complete && !others && PlanFile(Tasks, name) !in plans {
        open := open - {name};
      }
    }
  }

  lemma FileStep(p: Project, name: string, leaves: seq<string>, commits: seq<bool>, j: nat)
    requires |commits| == |leaves| && j < |leaves|
    requires j == |leaves| - 1 ==> forall i :: 0 <= i < j ==> commits[i]
    ensures FilesMoved(p, name, leaves, commits, j + 1) ==
            var q := FilesMoved(p, name, leaves, commits, j);
            if commits[j] then FileMoved(q, name, leaves[j] == "plan.md") else q
  {
    assert AnyMoves(commits, j + 1) <==> AnyMoves(commits, j) || Moves(commits, j);
    assert PlanMoves(leaves, commits, j + 1) <==>
           PlanMoves(leaves, commits, j) || (Moves(commits, j) && leaves[j] == "plan.md");
    assert PlanMoves(leaves, commits, j) ==> AnyMoves(commits, j);
  }

  lemma StayStep(p: Project, name: string, leaves: seq<string>, commits: seq<bool>, j: nat)
    requires |commits| == |leaves| && j == |leaves| - 1 && !Moves(commits, j)
    ensures FilesMoved(p, name, leaves, commits, j + 1) == FilesMoved(p, name, leaves, commits, j)
  {
    assert forall i: nat :: i <= j && Moves(commits, i) ==> i < j;
  }

  lemma FoundIsSafe(p: Project, slug: string, l: Lookup)
    requires Finds(Dirs(p), slug, l)
    ensures l.One? ==> l.name in Dirs(p) && IsSafe(l.name)
  {
    if l.One? {
      assert l.name in Matches(Dirs(p), slug);
    }
  }

  /** The length of the matched list decides: none, one, or the error. */
  function ToLookup(matched: seq<string>): (l: Lookup)
    requires NoDup(matched)
    ensures l == NoTask <==> Elements(matched) == {}
    ensures l.One? ==> Elements(matched) == {l.name}
    ensures l == Ambiguous ==> |Elements(matched)| > 1
  {
    DistinctCount(matched);
    if |matched| > 1 then Ambiguous
    else if |matched| == 1 then assert matched == [matched[0]]; One(matched[0])
    else NoTask
  }

  lemma OnlyNoTask(dirs: set<string>, slug: string, existing: seq<string>)
    requires Finds(dirs, slug, NoTask) || exists n :: Finds(dirs, slug, One(n))
    requires NoDup(existing) && Elements(existing) == Matches(dirs, slug) && |existing| != 1
    ensures Finds(dirs, slug, NoTask)
  {
    DistinctCount(existing);
  }

  lemma HighestStep(names: seq<string>, i: nat, m: nat)
    requires i < |names| && Highest(Elements(names[..i]), m)
    ensures Elements(names[..i + 1]) == Elements(names[..i]) + {names[i]}
    ensures Highest(Elements(names[..i + 1]),
                    if IsTask(names[i]) && NumberIn(names[i]) > m then NumberIn(names[i]) else m)
  {
  }
}
