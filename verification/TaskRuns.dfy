/** Every run of placing, writing and moving tasks: names stay unique and keep finding their task. */
module TaskRuns {
  import opened Text
  import opened TaskNames
  import opened TaskStore

  /** Begin makes the directory only (an interrupted `/plan`); Write makes it and its plan. The night
      moves one file at a time and removes the emptied directory, any number of nights later. */
  datatype Step = Begin(slug: string) | Write(slug: string) | MoveFile(name: string, plan: bool) | Prune(name: string)

  function Apply(p: Project, write: bool, a: Answer): Project {
    if !a.At? then p else if write then WithPlan(p, a.name, a.home) else Mkdir(p, a.name, a.home)
  }

  ghost predicate Next(p: Project, step: Step, q: Project) {
    match step
    case Begin(slug) => exists a :: AnswersArg(p, Some(slug), a) && q == Apply(p, false, a)
    case Write(slug) => exists a :: AnswersArg(p, Some(slug), a) && q == Apply(p, true, a)
    case MoveFile(name, plan) => name in p.open && q == FileMoved(p, name, plan)
    case Prune(name) =>
      name in p.open && name in p.completed && PlanFile(Tasks, name) !in p.plans && q == Pruned(p, name)
  }

  /** The operator types one-line slugs. */
  predicate StepOk(step: Step) {
    (step.Begin? || step.Write?) ==> IsSlug(step.slug)
  }

  function Folder(p: Project, home: Home): set<string> {
    if home.Tasks? then p.open else p.completed
  }

  /** Names are unique, and plans lie in directories that exist. */
  ghost predicate Valid(p: Project) {
    Unique(Dirs(p)) && forall f :: f in p.plans ==> f.name in Folder(p, f.home)
  }

  ghost predicate Run(states: seq<Project>, steps: seq<Step>) {
    && |states| == |steps| + 1
    && forall i :: 0 <= i < |steps| ==> StepAt(states[i], steps[i], states[i + 1])
  }

  ghost predicate StepAt(p: Project, step: Step, q: Project) {
    Next(p, step, q) && StepOk(step)
  }

  // ----- one step -----

  /** In one of the two folders, the task has a plan. */
  predicate AnyPlan(p: Project, name: string) {
    PlanFile(Tasks, name) in p.plans || PlanFile(CompletedTasks, name) in p.plans
  }

  /** Names and plans a step may add but never take away. */
  ghost predicate Grows(p: Project, q: Project) {
    Dirs(p) <= Dirs(q) && forall n :: AnyPlan(p, n) ==> AnyPlan(q, n)
  }

  /** The directories after a step: the same, or one more, composed for a slug that found nothing. */
  ghost predicate Placed(dirs: set<string>, after: set<string>) {
    after == dirs || exists slug, name :: PlacedAs(dirs, slug, name) && after == dirs + {name}
  }

  ghost predicate PlacedAs(dirs: set<string>, slug: string, name: string) {
    IsSlug(slug) && Matches(dirs, slug) == {} && Places(dirs, slug, New(name)) && IsSafe(name)
  }

  /** Where an explicit name leads: a task already there, a new name that fits in, or the refusal of a
      numbered name. */
  lemma AnswerFits(p: Project, slug: string, a: Answer)
    requires Unique(Dirs(p)) && IsSlug(slug) && AnswersArg(p, Some(slug), a)
    ensures a.At? || a == SharesName
    ensures a.At? ==> a.home == HomeOf(p, a.name) && IsSafe(a.name)
    ensures a.At? ==> Finds(Dirs(p), slug, One(a.name)) || PlacedAs(Dirs(p), slug, a.name)
    ensures a.At? && Finds(Dirs(p), slug, One(a.name)) ==> a.name in Dirs(p)
  {
    var l :| Finds(Dirs(p), slug, l) && AnswersLookup(p, slug, l, a);
    NeverAmbiguous(Dirs(p), slug, l);
    if l.One? {
      assert l.name in Matches(Dirs(p), slug);
    } else {
      var pl :| Places(Dirs(p), slug, pl) && AnswersPlacement(p, pl, a);
      if pl.New? && !IsTask(slug) {
        var m: nat :| Highest(Dirs(p), m) && pl.name == Pad3(m + 1) + "-" + slug;
        SafeName(m + 1, slug);
      }
    }
  }

  lemma ApplyDirs(p: Project, write: bool, a: Answer)
    requires a.At? ==> IsSafe(a.name)
    requires forall f :: f in p.plans ==> f.name in Folder(p, f.home)
    ensures var q := Apply(p, write, a);
            && Dirs(q) == (if a.At? then Dirs(p) + {a.name} else Dirs(p))
            && (forall f :: f in q.plans ==> f.name in Folder(q, f.home)) && Grows(p, q)
  {
  }

  /** The uniqueness of the names is kept by every placement, on either side of 999. */
  lemma AnswerKeeps(p: Project, slug: string, write: bool, a: Answer)
    requires Valid(p) && IsSlug(slug) && AnswersArg(p, Some(slug), a)
    ensures var q := Apply(p, write, a); Valid(q) && Grows(p, q) && Placed(Dirs(p), Dirs(q))
  {
    hide IsSlug, Matches, Finds, Places, AnswersArg, Apply, Dirs, Grows;
    AnswerFits(p, slug, a);
    ApplyDirs(p, write, a);
    if a.At? {
      if Finds(Dirs(p), slug, One(a.name)) {
        assert Dirs(p) + {a.name} == Dirs(p);
      } else {
        PlacementKeepsUnique(Dirs(p), slug, a.name);
      }
    }
  }

  lemma StepKeeps(p: Project, step: Step, q: Project)
    requires Valid(p) && StepAt(p, step, q)
    ensures Valid(q) && Grows(p, q) && Placed(Dirs(p), Dirs(q))
  {
    match step {
      case Begin(slug) =>
        var a :| AnswersArg(p, Some(slug), a) && q == Apply(p, false, a);
        AnswerKeeps(p, slug, false, a);
      case Write(slug) =>
        var a :| AnswersArg(p, Some(slug), a) && q == Apply(p, true, a);
        AnswerKeeps(p, slug, true, a);
      case MoveFile(name, plan) => assert Dirs(q) == Dirs(p);
      case Prune(name) => assert Dirs(q) == Dirs(p);
    }
  }

  /** What a name was answered with, the same call answers again once the directory is there, so calling
      twice never places two tasks; the lookup itself finds the directory exactly if it was there before,
      was typed with its number, or got a number of three digits. */
  lemma PlacedIsFound(p: Project, slug: string, write: bool, name: string, home: Home)
    requires Valid(p) && IsSlug(slug) && AnswersArg(p, Some(slug), At(name, home))
    ensures var q := Apply(p, write, At(name, home));
            && HomeOf(q, name) == home && (write ==> HasPlan(q, name))
            && (forall a :: AnswersArg(q, Some(slug), a) ==> a == At(name, home))
            && (Finds(Dirs(q), slug, One(name)) <==>
                Finds(Dirs(p), slug, One(name)) || IsTask(slug) || BelowLimit(Dirs(p)))
  {
    hide IsSafe, IsSlug, IsTask, TaskDir, Highest, Pad3, BelowLimit, Places, Finds, Shares, Matches, Unique;
    var q := Apply(p, write, At(name, home));
    AnswerFits(p, slug, At(name, home));
    DirsAfter(p, write, name, home);
    SlugIsSafe(slug);
    if Finds(Dirs(p), slug, One(name)) {
      assert Dirs(q) == Dirs(p);
      FoundLeads(q, slug, name);
    } else {
      NewIsFound(Dirs(p), slug, name);
      if IsTask(slug) || BelowLimit(Dirs(p)) {
        FoundLeads(q, slug, name);
      } else {
        forall a | AnswersArg(q, Some(slug), a) ensures a == At(name, home) {
          var l :| Finds(Dirs(q), slug, l) && AnswersLookup(q, slug, l, a);
          FindsUnique(Dirs(q), slug, l, NoTask);
        }
        FindsOne(Dirs(q), slug, name);
      }
    }
  }

  lemma FindsOne(dirs: set<string>, slug: string, name: string)
    requires Finds(dirs, slug, NoTask)
    ensures !Finds(dirs, slug, One(name))
  {
  }

  lemma SlugIsSafe(slug: string)
    requires IsSlug(slug)
    ensures IsSafe(slug)
  {
  }

  lemma DirsAfter(p: Project, write: bool, name: string, home: Home)
    requires IsSafe(name) && home == HomeOf(p, name)
    ensures var q := Apply(p, write, At(name, home));
            && Dirs(q) == Dirs(p) + {name} && (name in Dirs(p) ==> Dirs(q) == Dirs(p))
            && HomeOf(q, name) == home && (write ==> HasPlan(q, name))
  {
  }

  /** A new directory is found by the slug, or the slug still finds nothing and is given this very name. */
  lemma NewIsFound(dirs: set<string>, slug: string, name: string)
    requires PlacedAs(dirs, slug, name)
    ensures IsTask(slug) || BelowLimit(dirs) ==> Finds(dirs + {name}, slug, One(name))
    ensures !IsTask(slug) && !BelowLimit(dirs) ==> Finds(dirs + {name}, slug, NoTask)
    ensures !IsTask(slug) && !BelowLimit(dirs) ==>
              forall pl :: Places(dirs + {name}, slug, pl) ==> pl == New(name)
  {
    hide IsSafe, Pad3;
    if IsTask(slug) {
      assert name == slug;
    } else {
      var m: nat :| Highest(dirs, m) && name == Pad3(m + 1) + "-" + slug;
      PlacedName(dirs, slug, name, m);
      BelowMeans(dirs, m);
      assert |name| > |slug|;
      if m >= 999 {
        InvisibleName(dirs, slug, name);
        HighestKept(dirs, name, m);
        forall n: nat | Highest(dirs + {name}, n) ensures n == m {
          HighestUnique(dirs + {name}, m, n);
        }
      } else {
        FoundBySlug(dirs, slug, name);
      }
    }
  }

  lemma FoundBySlug(dirs: set<string>, slug: string, name: string)
    requires Matches(dirs, slug) == {} && IsTask(name) && TaskDir(name).value.slug == slug && name != slug
    ensures Matches(dirs + {name}, slug) == {name}
  {
  }

  // ----- runs -----

  /** In every run no two task directories, open or completed, ever share a number or a verb slug. */
  lemma {:induction false} NamesStayUnique(states: seq<Project>, steps: seq<Step>, k: nat)
    requires Run(states, steps) && Valid(states[0]) && k < |states|
    ensures Valid(states[k])
  {
    hide Valid, Grows, Placed, Next, StepOk;
    if k > 0 {
      NamesStayUnique(states, steps, k - 1);
      assert StepAt(states[k - 1], steps[k - 1], states[k - 1 + 1]);
      StepKeeps(states[k - 1], steps[k - 1], states[k]);
    }
  }

  lemma {:induction false} NamesStay(states: seq<Project>, steps: seq<Step>, i: nat, k: nat)
    requires Run(states, steps) && Valid(states[0]) && i <= k < |states|
    ensures Grows(states[i], states[k])
  {
    hide Valid, Grows, Placed, Next, StepOk;
    if i == k {
      GrowsAlong(states[i], states[i], states[i]);
    } else {
      NamesStay(states, steps, i, k - 1);
      NamesStayUnique(states, steps, k - 1);
      assert StepAt(states[k - 1], steps[k - 1], states[k - 1 + 1]);
      StepKeeps(states[k - 1], steps[k - 1], states[k]);
      GrowsAlong(states[i], states[k - 1], states[k]);
    }
  }

  lemma GrowsAlong(p: Project, q: Project, r: Project)
    ensures Grows(p, p) && (Grows(p, q) && Grows(q, r) ==> Grows(p, r))
  {
  }

  /** `_resolve_task_dir` has one answer, so the operations above have one as well. */
  lemma FindsUnique(dirs: set<string>, slug: string, l: Lookup, m: Lookup)
    requires Finds(dirs, slug, l) && Finds(dirs, slug, m)
    ensures l == m
  {
  }

  lemma AnswerUnique(p: Project, slug: string, a: Answer, b: Answer)
    requires AnswersArg(p, Some(slug), a) && AnswersArg(p, Some(slug), b)
    ensures a == b
  {
    hide Dirs, IsSafe, Finds, Highest, IsTask, Shares, Pad3;
    if IsSafe(slug) {
      var l :| Finds(Dirs(p), slug, l) && AnswersLookup(p, slug, l, a);
      var m :| Finds(Dirs(p), slug, m) && AnswersLookup(p, slug, m, b);
      FindsUnique(Dirs(p), slug, l, m);
      if l.NoTask? {
        var k :| Places(Dirs(p), slug, k) && AnswersPlacement(p, k, a);
        var n :| Places(Dirs(p), slug, n) && AnswersPlacement(p, n, b);
        PlacesUnique(Dirs(p), slug, k, n);
      }
    }
  }

  lemma PlacesUnique(dirs: set<string>, slug: string, k: Placement, n: Placement)
    requires Places(dirs, slug, k) && Places(dirs, slug, n)
    ensures k == n
  {
    hide Highest, IsTask, Shares, Pad3;
    if !IsTask(slug) {
      var i: nat :| Highest(dirs, i) && k == New(Pad3(i + 1) + "-" + slug);
      var j: nat :| Highest(dirs, j) && n == New(Pad3(j + 1) + "-" + slug);
      HighestUnique(dirs, i, j);
    }
  }

  /** The name still leads to the task it led to, under whatever folder it is in by then. */
  ghost predicate LeadsTo(p: Project, slug: string, name: string) {
    && Finds(Dirs(p), slug, One(name))
    && forall a :: AnswersArg(p, Some(slug), a) ==> a == At(name, HomeOf(p, name))
  }

  lemma FoundLeads(p: Project, slug: string, name: string)
    requires IsSafe(slug) && Finds(Dirs(p), slug, One(name))
    ensures LeadsTo(p, slug, name)
  {
    hide Dirs, Finds, IsSafe;
    forall l | Finds(Dirs(p), slug, l) ensures l == One(name) {
      FindsUnique(Dirs(p), slug, l, One(name));
    }
  }

  /** A task's directory name finds that task at every later point of the run, moved or not. */
  lemma DirectoryNameIsStable(states: seq<Project>, steps: seq<Step>, i: nat, k: nat, name: string)
    requires Run(states, steps) && Valid(states[0]) && i <= k < |states|
    requires name in Dirs(states[i])
    ensures LeadsTo(states[k], name, name)
  {
    NamesStay(states, steps, i, k);
    FoundLeads(states[k], name, name);
  }

  /** "Two tasks share the slug" is never the answer, to any name, anywhere in a run. */
  lemma AmbiguityUnreachable(states: seq<Project>, steps: seq<Step>, k: nat, arg: Option<string>, a: Answer)
    requires Run(states, steps) && Valid(states[0]) && k < |states|
    requires AnswersArg(states[k], arg, a) || AnswersMarker(states[k], arg, a)
    ensures a != AmbiguousSlug
  {
    NamesStayUnique(states, steps, k);
    if arg.Some? && IsSafe(arg.value) {
      forall l | Finds(Dirs(states[k]), arg.value, l) ensures l != Ambiguous {
        NeverAmbiguous(Dirs(states[k]), arg.value, l);
      }
    }
  }

  // ----- verb slugs -----

  /** Whatever is done from here on, the verb slug finds the task. */
  ghost predicate AlwaysFinds(p: Project, verb: string, name: string) {
    forall states, steps :: Run(states, steps) && states[0] == p ==> Finds(Dirs(states[|steps|]), verb, One(name))
  }

  ghost predicate SlugIsFree(dirs: set<string>, name: string) {
    IsTask(name) && name in dirs
    && TaskDir(name).value.slug !in dirs && !Capturable(dirs, TaskDir(name).value.slug)
  }

  lemma {:induction false} SlugStaysFree(states: seq<Project>, steps: seq<Step>, k: nat, name: string)
    requires Run(states, steps) && Valid(states[0]) && k < |states| && SlugIsFree(Dirs(states[0]), name)
    ensures SlugIsFree(Dirs(states[k]), name)
  {
    hide Capturable, IsTask, TaskDir, Dirs, Valid, Next;
    if k > 0 {
      SlugStaysFree(states, steps, k - 1, name);
      NamesStayUnique(states, steps, k - 1);
      var p, q := states[k - 1], states[k];
      assert StepAt(p, steps[k - 1], states[k - 1 + 1]);
      StepKeeps(p, steps[k - 1], q);
      if Dirs(q) != Dirs(p) {
        var slug, added :| PlacedAs(Dirs(p), slug, added) && Dirs(q) == Dirs(p) + {added};
        PlacementMisses(Dirs(p), name, slug, added);
      }
    }
  }

  lemma OnlyHolder(dirs: set<string>, name: string)
    requires Unique(dirs) && name in dirs && IsTask(name) && TaskDir(name).value.slug !in dirs
    ensures Matches(dirs, TaskDir(name).value.slug) == {name}
  {
  }

  /** A verb slug finds its task through every run that may follow exactly if it is not the name of
      another directory and cannot be composed as one any more: it has not the numbered shape, or its
      number is taken or passed, or what stands behind the number is no slug, is numbered itself or
      already finds something. */
  lemma VerbSlugIsStable(p: Project, name: string)
    requires Valid(p) && name in Dirs(p) && IsTask(name)
    ensures var verb := TaskDir(name).value.slug;
            AlwaysFinds(p, verb, name) <==> verb !in Dirs(p) && !Capturable(Dirs(p), verb)
  {
    hide Capturable, TaskDir, Valid, Dirs;
    var verb := TaskDir(name).value.slug;
    if SlugIsFree(Dirs(p), name) {
      forall states, steps | Run(states, steps) && states[0] == p
        ensures Finds(Dirs(states[|steps|]), verb, One(name))
      {
        SlugStaysFree(states, steps, |steps|, name);
        NamesStayUnique(states, steps, |steps|);
        ValidIsUnique(states[|steps|]);
        OnlyHolder(Dirs(states[|steps|]), name);
      }
    } else {
      SlugIsShorter(name);
      var states, steps := [p], [];
      if verb !in Dirs(p) {
        ValidIsUnique(p);
        states, steps := Capture(p, verb);
      }
      assert Run(states, steps);
      assert verb in Dirs(states[|steps|]);
      assert !Finds(Dirs(states[|steps|]), verb, One(name));
    }
  }

  lemma ValidIsUnique(p: Project)
    requires Valid(p)
    ensures Unique(Dirs(p))
  {
  }

  lemma SlugIsShorter(name: string)
    requires IsTask(name)
    ensures name != TaskDir(name).value.slug
  {
  }

  /** A placement is a step. */
  lemma PlacementStep(p: Project, slug: string, name: string) returns (q: Project)
    requires IsSlug(slug) && Matches(Dirs(p), slug) == {} && Places(Dirs(p), slug, New(name)) && IsSafe(name)
    ensures StepAt(p, Begin(slug), q) && Dirs(q) == Dirs(p) + {name}
  {
    hide Places, Matches, Dirs;
    var a := At(name, HomeOf(p, name));
    q := Apply(p, false, a);
    assert Finds(Dirs(p), slug, NoTask) && AnswersLookup(p, slug, NoTask, a);
    assert AnswersArg(p, Some(slug), a);
    DirsAfter(p, false, name, HomeOf(p, name));
  }

  /** The run that captures: a numbered name is typed that brings the highest number up, unless it is there
      already, and then the slug whose name comes out as the verb slug. */
  lemma Capture(p: Project, verb: string) returns (states: seq<Project>, steps: seq<Step>)
    requires Capturable(Dirs(p), verb)
    ensures Run(states, steps) && states[0] == p && verb in Dirs(states[|steps|])
  {
    hide IsSlug, IsTask, Matches, Places, Highest, NumberIn, TaskDir, Dirs, Next;
    var n: nat, rest :| CanCompose(Dirs(p), n, rest) && verb == Pad3(n) + "-" + rest;
    var m := HighestExists(Dirs(p));
    HighestBelow(Dirs(p), m, n, rest);
    if m == n - 1 {
      var q := ComposeStep(p, n, rest);
      states, steps := [p, q], [Begin(rest)];
    } else {
      var filler := FillerExists(Dirs(p), n, rest);
      SlugIsSafe(filler);
      var o := PlacementStep(p, filler, filler);
      var q := ComposeStep(o, n, rest);
      states, steps := [p, o, q], [Begin(filler), Begin(rest)];
    }
  }

  lemma HighestBelow(dirs: set<string>, m: nat, n: nat, rest: string)
    requires Highest(dirs, m) && CanCompose(dirs, n, rest)
    ensures m < n && (m < n - 1 ==> n >= 2 && forall d :: d in dirs && IsTask(d) ==> NumberIn(d) < n - 1)
  {
  }

  lemma ComposeStep(p: Project, n: nat, rest: string) returns (q: Project)
    requires CanCompose(Dirs(p), n, rest) && Highest(Dirs(p), n - 1)
    ensures StepAt(p, Begin(rest), q) && Pad3(n) + "-" + rest in Dirs(q)
  {
    hide Dirs, Highest, Matches, Next, Pad3;
    var m: nat := n - 1;
    assert Places(Dirs(p), rest, New(Pad3(m + 1) + "-" + rest));
    SafeName(n, rest);
    q := PlacementStep(p, rest, Pad3(n) + "-" + rest);
  }

  /** For instance one task `001-002-b`, whose verb slug `002-b` is free and lost by placing `b`. */
  lemma CaptureHappens(p: Project)
    requires p == Project({"001-002-b"}, {}, {})
    ensures Valid(p) && TaskDir("001-002-b") == Some(Numbered("001", "002-b"))
    ensures Capturable(Dirs(p), "002-b") && !AlwaysFinds(p, "002-b", "001-002-b")
  {
    hide Capturable, TaskDir, Shares, AlwaysFinds, IsSafe;
    FirstNames();
    NameReadsBack(1, "002-b");
    SecondName(Dirs(p));
    VerbSlugIsStable(p, "001-002-b");
  }

  lemma FirstNames()
    ensures Pad3(1) == "001" && Pad3(1) + "-" + "002-b" == "001-002-b" && Pad3(2) + "-" + "b" == "002-b"
    ensures IsSafe("001-002-b") && IsSlug("b")
  {
  }

  lemma SecondName(dirs: set<string>)
    requires dirs == {"001-002-b"}
    ensures Capturable(dirs, "002-b")
  {
    hide Pad3;
    FirstNames();
    NameReadsBack(1, "002-b");
    assert NumberIn("001-002-b") == 1 by {
      Pad3Value(1);
    }
    assert CanCompose(dirs, 2, "b");
  }

  // ----- the marker of a worktree -----

  /** The plan is under `completed/tasks/` already and the directory is still under `tasks/` as well. */
  predicate PartMoved(p: Project, name: string) {
    name in p.open && PlanFile(Tasks, name) !in p.plans && PlanFile(CompletedTasks, name) in p.plans
  }

  /** A worktree bound to a task with a plan stays bound to it through every later step, except exactly
      while the task is part moved: then the marker reads as dangling although the plan exists. */
  lemma MarkerStaysBound(states: seq<Project>, steps: seq<Step>, i: nat, k: nat, name: string, a: Answer)
    requires Run(states, steps) && Valid(states[0]) && i <= k < |states|
    requires name in Dirs(states[i]) && AnyPlan(states[i], name)
    requires AnswersMarker(states[k], Some(name), a)
    ensures a == if PartMoved(states[k], name) then Dangling else At(name, HomeOf(states[k], name))
  {
    NamesStay(states, steps, i, k);
    NamesStayUnique(states, steps, k);
    assert Finds(Dirs(states[k]), name, One(name));
    var l :| Finds(Dirs(states[k]), name, l) && a == MarkerAnswer(states[k], l);
    FindsUnique(Dirs(states[k]), name, l, One(name));
  }

  /** The window opens exactly with the move of an open task's plan, and closes exactly when the directory
      is removed or a plan is written for the task again. */
  lemma WindowOpensAndCloses(p: Project, step: Step, q: Project, name: string)
    requires Valid(p) && StepAt(p, step, q) && IsSafe(name)
    ensures !PartMoved(p, name) ==>
              (PartMoved(q, name) <==> step == MoveFile(name, true) && PlanFile(Tasks, name) in p.plans)
    ensures PartMoved(p, name) ==>
              (PartMoved(q, name) <==>
               step != Prune(name) && !(step.Write? && AnswersArg(p, Some(step.slug), At(name, Tasks))))
  {
    hide IsSlug, Unique;
    if step.Begin? || step.Write? {
      var a :| AnswersArg(p, Some(step.slug), a) && q == Apply(p, step.Write?, a);
      WindowAnswer(p, step.slug, step.Write?, a, name);
    }
  }

  lemma WindowAnswer(p: Project, slug: string, write: bool, a: Answer, name: string)
    requires Valid(p) && IsSlug(slug) && AnswersArg(p, Some(slug), a) && IsSafe(name)
    ensures var q := Apply(p, write, a);
            && (!PartMoved(p, name) ==> !PartMoved(q, name))
            && (PartMoved(p, name) ==> (PartMoved(q, name) <==> !(write && AnswersArg(p, Some(slug), At(name, Tasks)))))
  {
    hide IsSlug, IsSafe, Matches, Places, AnswersArg, Unique;
    AnswerFits(p, slug, a);
    if AnswersArg(p, Some(slug), At(name, Tasks)) {
      AnswerUnique(p, slug, a, At(name, Tasks));
    }
  }

  /** What the first `n` files of a pass have done, if an error cuts it off there, is such a run. */
  lemma CutOffPassIsRun(p: Project, name: string, leaves: seq<string>, commits: seq<bool>, n: nat)
    returns (states: seq<Project>, steps: seq<Step>)
    requires name in p.open
    ensures Run(states, steps) && states[0] == p && |steps| <= 1
    ensures states[|steps|] == FilesMoved(p, name, leaves, commits, n)
  {
    states, steps := [p], [];
    if AnyMoves(commits, n) {
      states := [p, FilesMoved(p, name, leaves, commits, n)];
      steps := [MoveFile(name, PlanMoves(leaves, commits, n))];
    }
  }

  /** And so is a whole pass over one folder. */
  lemma PassIsRun(p: Project, name: string, leaves: seq<string>, commits: seq<bool>, others: bool)
    returns (states: seq<Project>, steps: seq<Step>)
    requires |commits| == |leaves| >= 1 && name in p.open
    ensures Run(states, steps) && states[0] == p
    ensures states[|steps|] == FolderPass(p, name, leaves, commits, others)
  {
    states, steps := CutOffPassIsRun(p, name, leaves, commits, |leaves|);
    var q, r := states[|steps|], FolderPass(p, name, leaves, commits, others);
    if r != q {
      assert Moves(commits, |commits| - 1);
      assert StepAt(q, Prune(name), r);
      states, steps := states + [r], steps + [Prune(name)];
    }
  }

  /** After a pass the marker of a task that had its plan under `tasks/` is bound unless the plan moved and
      the directory stayed: because another file was refused, or one the plan did not see is left. */
  lemma PassBindsMarker(p: Project, name: string, leaves: seq<string>, commits: seq<bool>, others: bool)
    requires |commits| == |leaves| >= 1 && name in p.open && PlanFile(Tasks, name) in p.plans
    ensures var q := FolderPass(p, name, leaves, commits, others);
            PartMoved(q, name) <==> PlanMoves(leaves, commits, |leaves|) && (false in commits || others)
  {
    assert PlanMoves(leaves, commits, |leaves|) ==> AnyMoves(commits, |leaves|);
  }
}
