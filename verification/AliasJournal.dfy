/** The write loops of scripts/alias_backfill.py: one run over the vault, its journal, and the two
    replays of that journal. A journal record holds the texts themselves where the source holds
    their SHA-256. */
module AliasJournal {
  import opened Text
  import opened AliasText
  import opened AliasLine

  type Files = map<string, string>

  /** What the model answered for one note: aliases to write, or a reason to leave it. */
  datatype Work = Aliased(path: string, op: Op, aliases: seq<string>) | Skipped(path: string)

  /** A journal line: a write with its before- and after-image, or anything else. */
  datatype Record = Wrote(path: string, op: Op, aliases: seq<string>, before: string, after: string)
                  | NotWritten(path: string)

  /** `yaml.safe_load(head).get("aliases") == aliases`, which this model does not open up. */
  type YamlCheck = (string, seq<string>) -> bool

  predicate OneLine(aliases: seq<string>) {
    forall i :: 0 <= i < |aliases| ==> Free(aliases[i], '\n')
  }

  // ----- one run -----

  /** The edit and `verify_written`; None is the "write refused" branch. */
  function Attempt(before: string, op: Op, aliases: seq<string>, yaml: YamlCheck): Option<string> {
    match Edit(op, before, RenderLine(aliases))
    case None => None
    case Some(after) =>
      match Front(after)
      case None => None
      case Some(h) => if yaml(after[h.start..h.end], aliases) then Some(after) else None
  }

  function RecordOf(files: Files, work: Work, yaml: YamlCheck): Record {
    if work.Skipped? || work.path !in files then NotWritten(work.path)
    else
      match Attempt(files[work.path], work.op, work.aliases, yaml)
      case None => NotWritten(work.path)
      case Some(after) => Wrote(work.path, work.op, work.aliases, files[work.path], after)
  }

  function AfterRecord(files: Files, r: Record): Files {
    if r.Wrote? then files[r.path := r.after] else files
  }

  /** Reading a note that is gone stops the run. */
  predicate Crashes(files: Files, work: Work) {
    work.Aliased? && work.path !in files
  }

  datatype RunResult = RunResult(files: Files, journal: seq<Record>)

  function RunAll(files: Files, todo: seq<Work>, yaml: YamlCheck, dryRun: bool): RunResult {
    if todo == [] || Crashes(files, todo[0]) then RunResult(files, [])
    else
      var r := RecordOf(files, todo[0], yaml);
      var rest := RunAll(if dryRun then files else AfterRecord(files, r), todo[1..], yaml, dryRun);
      RunResult(rest.files, [r] + rest.journal)
  }

  // ----- when a run writes -----

  /** The edit of this note applies, and `after` is what it gives: a line at the end of a block without the
      key, or a block in front of a note without one. */
  ghost predicate EditGives(before: string, op: Op, line: string, after: string) {
    match op
    case Insert =>
      exists g: nat, e: nat ::
        e <= |before| && IsFront(before, g, e) && !HasKey(before[g..e])
          && after == before[..e] + ("\n" + line) + before[e..]
    case Create =>
      (forall g: nat, e: nat :: !IsFront(before, g, e)) && after == "---\n" + line + "\n---\n\n" + before
  }

  /** The block of the edited note, as the YAML check is given it. */
  ghost predicate HeadPasses(after: string, aliases: seq<string>, yaml: YamlCheck) {
    exists g: nat, e: nat :: g <= e <= |after| && IsFront(after, g, e) && yaml(after[g..e], aliases)
  }

  ghost predicate Writes(files: Files, work: Work, yaml: YamlCheck, after: string) {
    && work.Aliased? && work.path in files
    && EditGives(files[work.path], work.op, RenderLine(work.aliases), after)
    && HeadPasses(after, work.aliases, yaml)
  }

  /** What one item of the work list does, in terms of the note it names. */
  ghost predicate RecordFits(files: Files, work: Work, yaml: YamlCheck, r: Record) {
    && r.path == work.path
    && (r.Wrote? <==> exists after :: Writes(files, work, yaml, after))
    && (r.Wrote? ==> work.Aliased? && r.op == work.op && r.aliases == work.aliases && work.path in files
                     && r.before == files[work.path] && Writes(files, work, yaml, r.after))
  }

  /** Nothing in front of `n` named a note that is gone. */
  ghost predicate NotedUpTo(files: Files, todo: seq<Work>, n: nat)
    requires n <= |todo|
  {
    forall i :: 0 <= i < n && todo[i].Aliased? ==> todo[i].path in files
  }

  /** The vault in front of each item of a run, and behind the last one. */
  ghost predicate Stages(stages: seq<Files>, files: Files, todo: seq<Work>, yaml: YamlCheck, dryRun: bool,
                         journal: seq<Record>) {
    && |stages| == |journal| + 1 && |journal| <= |todo| && stages[0] == files
    && forall i :: 0 <= i < |journal| ==>
         && RecordFits(stages[i], todo[i], yaml, journal[i])
         && stages[i + 1] == if journal[i].Wrote? && !dryRun then stages[i][journal[i].path := journal[i].after]
                             else stages[i]
  }

  /** Redoing, for any text: an insertion is the edit itself, a creation puts the block in front unasked. */
  lemma RedoIs(op: Op, current: string, line: string, after: string)
    ensures Redo(op, current, line) == Some(after) <==>
            if op.Insert? then EditGives(current, Insert, line, after)
            else after == "---\n" + line + "\n---\n\n" + current
  {
    EditGivesIs(current, Insert, line, after);
  }

  /** Undoing, for any text: the first such line goes, or the block in front, or nothing if there is none. */
  lemma UndoIs(op: Op, current: string, line: string, i: nat)
    ensures op.Insert? && FirstAt(current, "\n" + line, 0, i) ==>
              Undo(op, current, line) == current[..i] + current[i + |"\n" + line|..]
    ensures op.Insert? && !Contains(current, "\n" + line) ==> Undo(op, current, line) == current
    ensures op.Create? ==>
              var block := "---\n" + line + "\n---\n\n";
              Undo(op, current, line) == if block <= current then current[|block|..] else current
  {
    if FirstAt(current, "\n" + line, 0, i) {
      FindIs(current, "\n" + line, 0, i);
    }
  }

  lemma EditGivesIs(before: string, op: Op, line: string, after: string)
    ensures Edit(op, before, line) == Some(after) <==> EditGives(before, op, line, after)
  {
    forall g: nat, e: nat | IsFront(before, g, e) ensures Front(before) == Some(Head(g, e)) {
      FrontIs(before, g, e);
    }
  }

  lemma HeadPassesIs(after: string, aliases: seq<string>, yaml: YamlCheck)
    ensures HeadPasses(after, aliases, yaml) <==>
            Front(after).Some? && yaml(after[Front(after).value.start..Front(after).value.end], aliases)
  {
    forall g: nat, e: nat | IsFront(after, g, e) ensures Front(after) == Some(Head(g, e)) {
      FrontIs(after, g, e);
    }
  }

  lemma AttemptIs(before: string, op: Op, aliases: seq<string>, yaml: YamlCheck, after: string)
    ensures Attempt(before, op, aliases, yaml) == Some(after) <==>
            EditGives(before, op, RenderLine(aliases), after) && HeadPasses(after, aliases, yaml)
  {
    hide Edit, Front, IsFront, EditGives, HeadPasses, RenderLine;
    EditGivesIs(before, op, RenderLine(aliases), after);
    HeadPassesIs(after, aliases, yaml);
  }

  lemma RecordOfFits(files: Files, work: Work, yaml: YamlCheck)
    requires !Crashes(files, work)
    ensures RecordFits(files, work, yaml, RecordOf(files, work, yaml))
  {
    hide Attempt, EditGives, HeadPasses, RenderLine;
    if work.Aliased? && work.path in files {
      forall after
        ensures Attempt(files[work.path], work.op, work.aliases, yaml) == Some(after) <==>
                Writes(files, work, yaml, after)
      {
        AttemptIs(files[work.path], work.op, work.aliases, yaml, after);
      }
    }
  }

  /** A run works off its list item by item: a note is written exactly if the item has aliases for it, the
      edit applies and the block of the edited note passes the check, and then with exactly that text. It
      ends behind the list, or in front of the first item whose note is gone. */
  lemma {:induction false} RunWrites(files: Files, todo: seq<Work>, yaml: YamlCheck, dryRun: bool)
    returns (stages: seq<Files>)
    ensures var run := RunAll(files, todo, yaml, dryRun);
            && |stages| == |run.journal| + 1 <= |todo| + 1
            && Stages(stages, files, todo, yaml, dryRun, run.journal)
            && run.files == stages[|run.journal|]
            && NotedUpTo(files, todo, |run.journal|)
            && (|run.journal| < |todo| ==>
                  todo[|run.journal|].Aliased? && todo[|run.journal|].path !in files)
    decreases |todo|
  {
    hide RecordOf, RecordFits, Stages;
    if todo == [] || Crashes(files, todo[0]) {
      stages := [files];
      NoStages(files, todo, yaml, dryRun);
    } else {
      var r := RecordOf(files, todo[0], yaml);
      RecordOfFits(files, todo[0], yaml);
      RecordKeys(files, todo[0], yaml);
      var next := if dryRun then files else AfterRecord(files, r);
      var rest := RunWrites(next, todo[1..], yaml, dryRun);
      stages := [files] + rest;
      var journal := RunAll(next, todo[1..], yaml, dryRun).journal;
      assert RunAll(files, todo, yaml, dryRun).journal == [r] + journal;
      assert forall i :: 0 <= i < |todo[1..]| ==> todo[1..][i] == todo[i + 1];
      StagesCons(rest, files, next, todo, yaml, dryRun, r, journal);
      forall i | 0 <= i < 1 + |journal| && todo[i].Aliased? ensures todo[i].path in files {
        if i > 0 {
          assert todo[1..][i - 1] == todo[i];
        }
      }
    }
  }

  lemma NoStages(files: Files, todo: seq<Work>, yaml: YamlCheck, dryRun: bool)
    ensures Stages([files], files, todo, yaml, dryRun, [])
  {
  }

  lemma StagesCons(rest: seq<Files>, files: Files, next: Files, todo: seq<Work>, yaml: YamlCheck, dryRun: bool,
                   r: Record, journal: seq<Record>)
    requires todo != [] && Stages(rest, next, todo[1..], yaml, dryRun, journal) && RecordFits(files, todo[0], yaml, r)
    requires next == if r.Wrote? && !dryRun then files[r.path := r.after] else files
    ensures Stages([files] + rest, files, todo, yaml, dryRun, [r] + journal)
    ensures ([files] + rest)[|[r] + journal|] == rest[|journal|]
  {
    hide RecordFits;
    var stages, all := [files] + rest, [r] + journal;
    forall i | 0 <= i < |all|
      ensures RecordFits(stages[i], todo[i], yaml, all[i])
      ensures stages[i + 1] == if all[i].Wrote? && !dryRun then stages[i][all[i].path := all[i].after] else stages[i]
    {
      if i > 0 {
        assert stages[i] == rest[i - 1] && todo[i] == todo[1..][i - 1] && all[i] == journal[i - 1];
      }
    }
  }

  lemma RecordKeys(files: Files, work: Work, yaml: YamlCheck)
    ensures AfterRecord(files, RecordOf(files, work, yaml)).Keys == files.Keys
  {
  }

  // ----- the two replays -----

  datatype Counts = Counts(missing: nat, done: nat, current: nat, changed: nat, unclean: nat)

  const NO_COUNTS := Counts(0, 0, 0, 0, 0)

  /** What happens to one record; `Raised` is an uncaught `ValueError`, which ends the command. */
  datatype Outcome = Ignored | Missing | Changed | Current | Unclean | Raised | Rewrite(text: string)

  function RevertOutcome(files: Files, r: Record): Outcome {
    if !r.Wrote? then Ignored
    else if r.path !in files then Missing
    else if files[r.path] != r.after then Changed
    else
      var restored := Undo(r.op, files[r.path], RenderLine(r.aliases));
      if restored != r.before then Unclean else Rewrite(restored)
  }

  /** None is `insert_aliases` raising; `created_prefix` never does. */
  function Redo(op: Op, current: string, line: string): Option<string> {
    match op
    case Insert => Edit(Insert, current, line)
    case Create => Some(CreatedPrefix(line) + current)
  }

  function ReapplyOutcome(files: Files, r: Record): Outcome {
    if !r.Wrote? then Ignored
    else if r.path !in files then Missing
    else if files[r.path] == r.after then Current
    else if files[r.path] != r.before then Changed
    else
      match Redo(r.op, files[r.path], RenderLine(r.aliases))
      case None => Raised
      case Some(text) => if text != r.after then Unclean else Rewrite(text)
  }

  datatype Direction = Revert | Reapply

  function OutcomeOf(dir: Direction, files: Files, r: Record): Outcome {
    match dir
    case Revert => RevertOutcome(files, r)
    case Reapply => ReapplyOutcome(files, r)
  }

  function Count(counts: Counts, o: Outcome): Counts {
    match o
    case Ignored | Raised => counts
    case Missing => counts.(missing := counts.missing + 1)
    case Changed => counts.(changed := counts.changed + 1)
    case Current => counts.(current := counts.current + 1)
    case Unclean => counts.(unclean := counts.unclean + 1)
    case Rewrite(_) => counts.(done := counts.done + 1)
  }

  function AfterOutcome(files: Files, r: Record, o: Outcome): Files {
    if o.Rewrite? then files[r.path := o.text] else files
  }

  datatype Replayed = Replayed(files: Files, counts: Counts, raised: bool)

  function Replay(dir: Direction, files: Files, journal: seq<Record>, dryRun: bool, counts: Counts): Replayed
    decreases |journal|
  {
    if journal == [] then Replayed(files, counts, false)
    else
      var o := OutcomeOf(dir, files, journal[0]);
      if o.Raised? then Replayed(files, counts, true) else
      Replay(dir, if dryRun then files else AfterOutcome(files, journal[0], o), journal[1..], dryRun, Count(counts, o))
  }

  // ----- the vault as the commands change it -----

  class Vault {
    var files: Files

    constructor (initial: Files)
      ensures files == initial
    {
      files := initial;
    }

    /** The write loop of `cmd_run`, on a vault the corpus gate lets it write. A dry run keeps the
        journal and not the writes. */
    method Run(todo: seq<Work>, yaml: YamlCheck, dryRun: bool) returns (journal: seq<Record>)
      modifies this
      ensures RunAll(old(files), todo, yaml, dryRun) == RunResult(files, journal)
    {
      journal := [];
      var i := 0;
      while i < |todo|
        invariant i <= |todo|
        invariant RunAll(old(files), todo, yaml, dryRun).files == RunAll(files, todo[i..], yaml, dryRun).files
        invariant RunAll(old(files), todo, yaml, dryRun).journal
                  == journal + RunAll(files, todo[i..], yaml, dryRun).journal
      {
        assert todo[i..][0] == todo[i] && todo[i..][1..] == todo[i + 1..];
        if Crashes(files, todo[i]) {
          return;
        }
        var r := RecordOf(files, todo[i], yaml);
        journal := journal + [r];
        if !dryRun {
          files := AfterRecord(files, r);
        }
        i := i + 1;
      }
    }

    /** `cmd_revert`. */
    method RevertJournal(journal: seq<Record>, dryRun: bool) returns (counts: Counts)
      modifies this
      ensures Replay(Revert, old(files), journal, dryRun, NO_COUNTS) == Replayed(files, counts, false)
    {
      hide RenderLine, Undo;
      counts := NO_COUNTS;
      var i := 0;
      while i < |journal|
        invariant i <= |journal|
        invariant Replay(Revert, old(files), journal, dryRun, NO_COUNTS)
                  == Replay(Revert, files, journal[i..], dryRun, counts)
      {
        assert journal[i..][0] == journal[i] && journal[i..][1..] == journal[i + 1..];
        var r := journal[i];
        i := i + 1;
        if !r.Wrote? {
          continue;
        }
        if r.path !in files {
          counts := counts.(missing := counts.missing + 1);
          continue;
        }
        var current := files[r.path];
        if current != r.after {
          counts := counts.(changed := counts.changed + 1);
          continue;
        }
        var restored := Undo(r.op, current, RenderLine(r.aliases));
        if restored != r.before {
          counts := counts.(unclean := counts.unclean + 1);
          continue;
        }
        if !dryRun {
          files := files[r.path := restored];
        }
        counts := counts.(done := counts.done + 1);
      }
    }

    /** `cmd_reapply`, on a vault the corpus gate lets it write. */
    method ReapplyJournal(journal: seq<Record>, dryRun: bool) returns (counts: Counts, raised: bool)
      modifies this
      ensures Replay(Reapply, old(files), journal, dryRun, NO_COUNTS) == Replayed(files, counts, raised)
    {
      hide RenderLine, Redo;
      counts, raised := NO_COUNTS, false;
      var i := 0;
      while i < |journal|
        invariant i <= |journal| && !raised
        invariant Replay(Reapply, old(files), journal, dryRun, NO_COUNTS)
                  == Replay(Reapply, files, journal[i..], dryRun, counts)
      {
        assert journal[i..][0] == journal[i] && journal[i..][1..] == journal[i + 1..];
        var r := journal[i];
        i := i + 1;
        if !r.Wrote? {
          continue;
        }
        if r.path !in files {
          counts := counts.(missing := counts.missing + 1);
          continue;
        }
        var current := files[r.path];
        if current == r.after {
          counts := counts.(current := counts.current + 1);
          continue;
        }
        if current != r.before {
          counts := counts.(changed := counts.changed + 1);
          continue;
        }
        var restored := Redo(r.op, current, RenderLine(r.aliases));
        if restored.None? {
          return counts, true;
        }
        if restored.value != r.after {
          counts := counts.(unclean := counts.unclean + 1);
          continue;
        }
        if !dryRun {
          files := files[r.path := restored.value];
        }
        counts := counts.(done := counts.done + 1);
      }
    }
  }

  // ----- what the journal of one run looks like -----

  ghost predicate Faithful(r: Record) {
    r.Wrote? ==> OneLine(r.aliases) && Edit(r.op, r.before, RenderLine(r.aliases)) == Some(r.after)
  }

  /** The journal of any number of runs: every record of a write holds true images. */
  ghost predicate AllFaithful(journal: seq<Record>) {
    forall i :: 0 <= i < |journal| ==> Faithful(journal[i])
  }

  ghost predicate OneRun(journal: seq<Record>) {
    && AllFaithful(journal)
    && forall i, j :: 0 <= i < j < |journal| && journal[i].Wrote? && journal[j].Wrote? ==>
         journal[i].path != journal[j].path
  }

  /** The record that wrote `path`. */
  function Lookup(journal: seq<Record>, path: string): (r: Option<Record>)
    ensures r.Some? ==> r.value in journal && r.value.Wrote? && r.value.path == path
    ensures r.None? ==> forall i :: 0 <= i < |journal| ==> journal[i].Wrote? ==> journal[i].path != path
  {
    if journal == [] then None
    else if journal[0].Wrote? && journal[0].path == path then Some(journal[0])
    else Lookup(journal[1..], path)
  }

  lemma OneRunTail(journal: seq<Record>)
    requires OneRun(journal) && journal != []
    ensures OneRun(journal[1..]) && Faithful(journal[0])
    ensures journal[0].Wrote? ==> Lookup(journal[1..], journal[0].path).None?
  {
  }

  ghost predicate OneLineWork(todo: seq<Work>) {
    forall i :: 0 <= i < |todo| && todo[i].Aliased? ==> OneLine(todo[i].aliases)
  }

  lemma LineFacts(aliases: seq<string>)
    requires OneLine(aliases)
    ensures Free(RenderLine(aliases), '\n') && OccursAt(RenderLine(aliases), KEY, 0)
  {
    RenderIsOneLine(aliases);
  }

  /** The images of a write differ in whether the note refuses an edit, and lead to each other. */
  lemma ImagesOf(r: Record)
    requires Faithful(r) && r.Wrote?
    ensures Sealed(r.after) && !Sealed(r.before) && r.before != r.after
    ensures Undo(r.op, r.after, RenderLine(r.aliases)) == r.before
    ensures Redo(r.op, r.before, RenderLine(r.aliases)) == Some(r.after)
  {
    hide RenderLine, Undo, Sealed, Front, HasKey, CreatedPrefix;
    LineFacts(r.aliases);
    EditUndo(r.op, r.before, RenderLine(r.aliases));
    EditOnce(r.op, r.before, RenderLine(r.aliases), r.op, "");
    EditIsOpen(r.op, r.before, RenderLine(r.aliases));
  }

  lemma EditIsOpen(op: Op, raw: string, line: string)
    requires Edit(op, raw, line).Some?
    ensures !Sealed(raw)
  {
  }

  lemma RecordIsFaithful(files: Files, work: Work, yaml: YamlCheck)
    requires work.Aliased? ==> OneLine(work.aliases)
    ensures var r := RecordOf(files, work, yaml);
            && r.path == work.path && Faithful(r)
            && (r.Wrote? ==> r.path in files && files[r.path] == r.before && Sealed(r.after) && !Sealed(r.before))
  {
    hide Edit, Sealed, RenderLine, Front;
    var r := RecordOf(files, work, yaml);
    if r.Wrote? {
      ImagesOf(r);
    }
  }

  /** What a run leaves on disk at `path`. */
  ghost predicate PathAfterRun(files: Files, after: RunResult, path: string)
    requires after.files.Keys == files.Keys && path in files
  {
    match Lookup(after.journal, path)
    case None => after.files[path] == files[path]
    case Some(r) => r.before == files[path] && r.after == after.files[path] && !Sealed(files[path])
  }

  /** A run's journal is faithful and writes no note twice: once written, a note refuses any edit. */
  lemma {:induction false} RunJournal(files: Files, todo: seq<Work>, yaml: YamlCheck)
    requires OneLineWork(todo)
    ensures var after := RunAll(files, todo, yaml, false);
            && OneRun(after.journal) && after.files.Keys == files.Keys
            && forall path :: path in files ==> PathAfterRun(files, after, path)
    decreases |todo|
  {
    if todo != [] && !Crashes(files, todo[0]) {
      var r := RecordOf(files, todo[0], yaml);
      RecordIsFaithful(files, todo[0], yaml);
      var next := AfterRecord(files, r);
      RunJournal(next, todo[1..], yaml);
      RunStep(files, r, RunAll(next, todo[1..], yaml, false));
    }
  }

  lemma RunStep(files: Files, r: Record, rest: RunResult)
    requires Faithful(r)
    requires r.Wrote? ==> r.path in files && files[r.path] == r.before && Sealed(r.after) && !Sealed(r.before)
    requires OneRun(rest.journal) && rest.files.Keys == files.Keys
    requires forall path :: path in files ==> PathAfterRun(AfterRecord(files, r), rest, path)
    ensures OneRun([r] + rest.journal)
    ensures forall path :: path in files ==> PathAfterRun(files, RunResult(rest.files, [r] + rest.journal), path)
  {
    hide Faithful, Sealed;
    var journal := [r] + rest.journal;
    assert journal[1..] == rest.journal;
    if r.Wrote? {
      assert PathAfterRun(AfterRecord(files, r), rest, r.path);
      assert Lookup(rest.journal, r.path).None?;
    }
    forall path | path in files ensures PathAfterRun(files, RunResult(rest.files, journal), path) {
      assert PathAfterRun(AfterRecord(files, r), rest, path);
    }
  }

  // ----- replaying a journal of any number of runs -----

  /** The image a replay looks for, and the one it puts there. */
  function From(dir: Direction, r: Record): string
    requires r.Wrote?
  {
    if dir.Revert? then r.after else r.before
  }

  function To(dir: Direction, r: Record): string
    requires r.Wrote?
  {
    if dir.Revert? then r.before else r.after
  }

  predicate Fits(dir: Direction, r: Record, path: string, text: string) {
    r.Wrote? && r.path == path && From(dir, r) == text
  }

  /** The first record that a replay acts on, for a note that holds this text. */
  function First(dir: Direction, journal: seq<Record>, path: string, text: string): (r: Option<Record>)
    ensures r.Some? ==> r.value in journal && Fits(dir, r.value, path, text)
    ensures r.None? ==> forall i :: 0 <= i < |journal| ==> !Fits(dir, journal[i], path, text)
  {
    if journal == [] then None
    else if Fits(dir, journal[0], path, text) then Some(journal[0])
    else First(dir, journal[1..], path, text)
  }

  /** What a replay makes of one note: the other image of the first record that has its text. */
  function ReplayedText(dir: Direction, journal: seq<Record>, path: string, text: string): string {
    match First(dir, journal, path, text)
    case None => text
    case Some(r) => To(dir, r)
  }

  /** What was put there is no record's image to look for, so a note is rewritten once at most. */
  lemma RewrittenOnce(dir: Direction, journal: seq<Record>, r: Record, path: string)
    requires AllFaithful(journal) && Faithful(r) && r.Wrote?
    ensures First(dir, journal, path, To(dir, r)).None?
  {
    hide Faithful, Sealed, Redo, Undo, RenderLine;
    ImagesOf(r);
    var f := First(dir, journal, path, To(dir, r));
    if f.Some? {
      var i :| 0 <= i < |journal| && journal[i] == f.value;
      assert Faithful(journal[i]);
      ImagesOf(f.value);
      assert false;
    }
  }

  lemma StepOutcome(dir: Direction, files: Files, r: Record)
    requires Faithful(r)
    ensures var o := OutcomeOf(dir, files, r);
            && !o.Unclean? && !o.Raised?
            && AfterOutcome(files, r, o) ==
               if r.Wrote? && r.path in files && files[r.path] == From(dir, r)
               then files[r.path := To(dir, r)] else files
  {
    hide RenderLine, Undo, Redo, Faithful, Sealed;
    if r.Wrote? {
      ImagesOf(r);
    }
  }

  /** Replaying the first record and then the rest is looking the note up in the whole journal. */
  lemma StepText(dir: Direction, files: Files, journal: seq<Record>, path: string)
    requires AllFaithful(journal) && journal != [] && path in files
    ensures var next := AfterOutcome(files, journal[0], OutcomeOf(dir, files, journal[0]));
            && next.Keys == files.Keys
            && ReplayedText(dir, journal[1..], path, next[path]) == ReplayedText(dir, journal, path, files[path])
  {
    hide OutcomeOf, AfterOutcome, Faithful;
    var r := journal[0];
    assert Faithful(r) && AllFaithful(journal[1..]);
    StepOutcome(dir, files, r);
    if Fits(dir, r, path, files[path]) {
      RewrittenOnce(dir, journal[1..], r, path);
    }
  }

  ghost predicate Replays(dir: Direction, journal: seq<Record>, files: Files, after: Files) {
    after.Keys == files.Keys
    && forall path :: path in files ==> after[path] == ReplayedText(dir, journal, path, files[path])
  }

  lemma ReplaysCons(dir: Direction, files: Files, journal: seq<Record>, after: Files)
    requires AllFaithful(journal) && journal != []
    requires Replays(dir, journal[1..], AfterOutcome(files, journal[0], OutcomeOf(dir, files, journal[0])), after)
    ensures Replays(dir, journal, files, after)
  {
    hide OutcomeOf, AfterOutcome, Faithful, ReplayedText;
    assert Faithful(journal[0]);
    StepOutcome(dir, files, journal[0]);
    forall path | path in files ensures after[path] == ReplayedText(dir, journal, path, files[path]) {
      StepText(dir, files, journal, path);
    }
  }

  lemma NothingReplayed(dir: Direction, files: Files)
    ensures Replays(dir, [], files, files)
  {
  }

  /** For the journal of any number of runs and any vault: each note becomes the other image of the first
      record that has its text, every other note stays, no note is ever "would not restore cleanly" and
      nothing is raised. */
  lemma {:induction false} ReplayAll(dir: Direction, files: Files, journal: seq<Record>, counts: Counts)
    requires AllFaithful(journal)
    ensures Replays(dir, journal, files, Replay(dir, files, journal, false, counts).files)
    ensures !Replay(dir, files, journal, false, counts).raised
    ensures Replay(dir, files, journal, false, counts).counts.unclean == counts.unclean
    decreases |journal|
  {
    hide OutcomeOf, Faithful, ReplayedText, Replays;
    if journal == [] {
      NothingReplayed(dir, files);
    } else {
      assert Faithful(journal[0]) && AllFaithful(journal[1..]);
      StepOutcome(dir, files, journal[0]);
      var o := OutcomeOf(dir, files, journal[0]);
      ReplayAll(dir, AfterOutcome(files, journal[0], o), journal[1..], Count(counts, o));
      ReplaysCons(dir, files, journal, Replay(dir, files, journal, false, counts).files);
    }
  }

  /** A dry run touches nothing. */
  lemma {:induction false} DryRunKeepsFiles(dir: Direction, files: Files, journal: seq<Record>, counts: Counts)
    ensures Replay(dir, files, journal, true, counts).files == files
    decreases |journal|
  {
    if journal != [] {
      DryRunKeepsFiles(dir, files, journal[1..], Count(counts, OutcomeOf(dir, files, journal[0])));
    }
  }

  // ----- what the counters count -----

  /** What one record adds, told from the text of its note at that moment. */
  function Tally(dir: Direction, files: Files, r: Record): Counts {
    if !r.Wrote? then NO_COUNTS
    else if r.path !in files then NO_COUNTS.(missing := 1)
    else if dir.Reapply? && files[r.path] == r.after then NO_COUNTS.(current := 1)
    else if files[r.path] == From(dir, r) then NO_COUNTS.(done := 1)
    else NO_COUNTS.(changed := 1)
  }

  function Plus(a: Counts, b: Counts): Counts {
    Counts(a.missing + b.missing, a.done + b.done, a.current + b.current, a.changed + b.changed, a.unclean + b.unclean)
  }

  function Total(dir: Direction, files: Files, journal: seq<Record>, dryRun: bool): Counts
    decreases |journal|
  {
    if journal == [] then NO_COUNTS else
      var r := journal[0];
      var turns := r.Wrote? && r.path in files && files[r.path] == From(dir, r) && !dryRun;
      Plus(Tally(dir, files, r), Total(dir, if turns then files[r.path := To(dir, r)] else files, journal[1..], dryRun))
  }

  lemma TallyIsCount(dir: Direction, files: Files, r: Record, counts: Counts)
    requires Faithful(r)
    ensures Count(counts, OutcomeOf(dir, files, r)) == Plus(counts, Tally(dir, files, r))
  {
    hide RenderLine, Undo, Redo, Faithful, Sealed;
    if r.Wrote? {
      ImagesOf(r);
    }
  }

  /** Missing, changed since, already there, or done: the counters say of each record what its note was found
      to be, and every record of a write is counted once. */
  lemma {:induction false} ReplayCounts(dir: Direction, files: Files, journal: seq<Record>, dryRun: bool,
                                        counts: Counts)
    requires AllFaithful(journal)
    ensures Replay(dir, files, journal, dryRun, counts).counts == Plus(counts, Total(dir, files, journal, dryRun))
    decreases |journal|
  {
    hide OutcomeOf, Faithful, Tally;
    if journal != [] {
      var r := journal[0];
      assert Faithful(r) && AllFaithful(journal[1..]);
      StepOutcome(dir, files, r);
      TallyIsCount(dir, files, r, counts);
      var o := OutcomeOf(dir, files, r);
      ReplayCounts(dir, if dryRun then files else AfterOutcome(files, r, o), journal[1..], dryRun, Count(counts, o));
    }
  }

  /** The notes a replay rewrites. */
  ghost function Turned(dir: Direction, files: Files, journal: seq<Record>): set<string> {
    set path | path in files && First(dir, journal, path, files[path]).Some?
  }

  /** "done" is the number of notes rewritten, and every record of a write falls under one counter. */
  lemma {:induction false} CountsAddUp(dir: Direction, files: Files, journal: seq<Record>)
    requires AllFaithful(journal)
    ensures var t := Total(dir, files, journal, false);
            && t.done == |Turned(dir, files, journal)| && t.unclean == 0
            && t.missing + t.done + t.current + t.changed == WriteCount(journal)
            && (dir.Revert? ==> t.current == 0)
    decreases |journal|
  {
    hide Faithful, Tally;
    if journal == [] {
      assert Turned(dir, files, journal) == {};
    } else {
      var r := journal[0];
      assert Faithful(r) && AllFaithful(journal[1..]);
      var turns := r.Wrote? && r.path in files && files[r.path] == From(dir, r);
      var next := if turns then files[r.path := To(dir, r)] else files;
      CountsAddUp(dir, next, journal[1..]);
      TurnedStep(dir, files, journal, turns, next);
      TallyOne(dir, files, r);
    }
  }

  function WriteCount(journal: seq<Record>): nat {
    if journal == [] then 0 else (if journal[0].Wrote? then 1 else 0) + WriteCount(journal[1..])
  }

  lemma TallyOne(dir: Direction, files: Files, r: Record)
    ensures var t := Tally(dir, files, r);
            && t.missing + t.done + t.current + t.changed == (if r.Wrote? then 1 else 0) && t.unclean == 0
            && (dir.Revert? ==> t.current == 0)
    ensures Faithful(r) ==>
              Tally(dir, files, r).done ==
              if r.Wrote? && r.path in files && files[r.path] == From(dir, r) then 1 else 0
  {
    hide Faithful, Sealed, Redo, Undo, RenderLine;
    if Faithful(r) && r.Wrote? {
      ImagesOf(r);
    }
  }

  lemma TurnedStep(dir: Direction, files: Files, journal: seq<Record>, turns: bool, next: Files)
    requires AllFaithful(journal) && journal != []
    requires var r := journal[0];
             && (turns <==> r.Wrote? && r.path in files && files[r.path] == From(dir, r))
             && next == if turns then files[r.path := To(dir, r)] else files
    ensures |Turned(dir, files, journal)| == |Turned(dir, next, journal[1..])| + (if turns then 1 else 0)
  {
    hide Faithful, First, To, From;
    var r := journal[0];
    var now, later := Turned(dir, files, journal), Turned(dir, next, journal[1..]);
    assert Faithful(r) && AllFaithful(journal[1..]);
    assert next.Keys == files.Keys;
    forall path | path in files
      ensures path in now <==> path in later || (turns && path == r.path)
    {
      FirstCons(dir, journal, path, files[path]);
    }
    if turns {
      RewrittenOnce(dir, journal[1..], r, r.path);
      assert r.path !in later;
      assert now == later + {r.path};
    } else {
      assert now == later;
    }
  }

  lemma FirstCons(dir: Direction, journal: seq<Record>, path: string, text: string)
    requires journal != []
    ensures First(dir, journal, path, text) ==
            if Fits(dir, journal[0], path, text) then Some(journal[0]) else First(dir, journal[1..], path, text)
  {
  }

  // ----- reverting and reapplying -----

  /** In the journal of one run, a record is found by its path alone. */
  lemma {:induction false} FirstIsLookup(dir: Direction, journal: seq<Record>, path: string, text: string)
    requires OneRun(journal)
    ensures First(dir, journal, path, text) ==
            match Lookup(journal, path)
            case None => None
            case Some(r) => if From(dir, r) == text then Some(r) else None
  {
    hide Faithful;
    if journal != [] {
      OneRunTail(journal);
      FirstIsLookup(dir, journal[1..], path, text);
    }
  }

  /** Reverting the vault as the run left it gives back the vault as the run found it, byte for byte. */
  lemma RevertUndoesRun(files: Files, todo: seq<Work>, yaml: YamlCheck)
    requires OneLineWork(todo)
    ensures var run := RunAll(files, todo, yaml, false);
            Replay(Revert, run.files, run.journal, false, NO_COUNTS).files == files
  {
    hide RunAll, Replay, OneRun, AllFaithful, Sealed;
    var run := RunAll(files, todo, yaml, false);
    RunJournal(files, todo, yaml);
    OneRunFaithful(run.journal);
    ReplayAll(Revert, run.files, run.journal, NO_COUNTS);
    var back := Replay(Revert, run.files, run.journal, false, NO_COUNTS).files;
    forall path | path in files ensures back[path] == files[path] {
      assert PathAfterRun(files, run, path);
      FirstIsLookup(Revert, run.journal, path, run.files[path]);
      assert back[path] == ReplayedText(Revert, run.journal, path, run.files[path]);
    }
  }

  lemma OneRunFaithful(journal: seq<Record>)
    requires OneRun(journal)
    ensures AllFaithful(journal)
  {
  }

  function RevertedAndReapplied(files: Files, journal: seq<Record>): Files {
    Replay(Reapply, Replay(Revert, files, journal, false, NO_COUNTS).files, journal, false, NO_COUNTS).files
  }

  /** A text on disk comes back: it is no image at all, or it is an after-image, and the first record that
      starts from what the revert puts in its place ends in it. */
  predicate ComesBack(journal: seq<Record>, path: string, text: string) {
    match First(Revert, journal, path, text)
    case None => First(Reapply, journal, path, text).None?
    case Some(r) =>
      var again := First(Reapply, journal, path, r.before);
      again.Some? && again.value.after == text
  }

  /** Revert, then reapply, with the journal of any number of runs and any edits made before the revert:
      what each note is then, and that it is as it was exactly if the journal brings its text back. */
  lemma RevertThenReapply(files: Files, journal: seq<Record>)
    requires AllFaithful(journal)
    ensures var again := RevertedAndReapplied(files, journal);
            && again.Keys == files.Keys
            && forall path :: path in files ==>
                 && again[path] == ReplayedText(Reapply, journal, path,
                                                ReplayedText(Revert, journal, path, files[path]))
                 && (again[path] == files[path] <==> ComesBack(journal, path, files[path]))
  {
    hide Replay, AllFaithful, First;
    ReplayAll(Revert, files, journal, NO_COUNTS);
    var reverted := Replay(Revert, files, journal, false, NO_COUNTS).files;
    ReplayAll(Reapply, reverted, journal, NO_COUNTS);
    forall path | path in files
      ensures var again := RevertedAndReapplied(files, journal);
              && again[path] == ReplayedText(Reapply, journal, path, ReplayedText(Revert, journal, path, files[path]))
              && (again[path] == files[path] <==> ComesBack(journal, path, files[path]))
    {
      assert reverted[path] == ReplayedText(Revert, journal, path, files[path]);
      PathComesBack(journal, path, files[path]);
    }
  }

  lemma PathComesBack(journal: seq<Record>, path: string, text: string)
    requires AllFaithful(journal)
    ensures ReplayedText(Reapply, journal, path, ReplayedText(Revert, journal, path, text)) == text
            <==> ComesBack(journal, path, text)
  {
    hide Faithful, Sealed, Redo, Undo, RenderLine;
    var f := First(Revert, journal, path, text);
    if f.Some? {
      var i :| 0 <= i < |journal| && journal[i] == f.value;
      assert Fits(Reapply, journal[i], path, f.value.before);
    } else {
      var g := First(Reapply, journal, path, text);
      if g.Some? {
        var i :| 0 <= i < |journal| && journal[i] == g.value;
        assert Faithful(journal[i]);
        ImagesOf(g.value);
      }
    }
  }

  /** Every note that any run wrote and nobody touched since is restored. */
  ghost predicate RestoresAll(journal: seq<Record>) {
    forall files, i :: RestoresNote(files, journal, i)
  }

  ghost predicate RestoresNote(files: Files, journal: seq<Record>, i: nat) {
    i < |journal| && journal[i].Wrote? && journal[i].path in files && files[journal[i].path] == journal[i].after
    ==> journal[i].path in RevertedAndReapplied(files, journal)
        && RevertedAndReapplied(files, journal)[journal[i].path] == journal[i].after
  }

  /** What the journal alone says about it. */
  predicate BringsAllBack(journal: seq<Record>) {
    forall i :: 0 <= i < |journal| && journal[i].Wrote? ==> ComesBack(journal, journal[i].path, journal[i].after)
  }

  lemma RestoresAllIff(journal: seq<Record>)
    requires AllFaithful(journal)
    ensures RestoresAll(journal) <==> BringsAllBack(journal)
  {
    hide AllFaithful, ComesBack, RevertedAndReapplied, ReplayedText;
    forall files, i | BringsAllBack(journal) ensures RestoresNote(files, journal, i) {
      RevertThenReapply(files, journal);
    }
    if RestoresAll(journal) {
      forall i | 0 <= i < |journal| && journal[i].Wrote? ensures ComesBack(journal, journal[i].path, journal[i].after) {
        var files := map[journal[i].path := journal[i].after];
        assert RestoresNote(files, journal, i);
        RevertThenReapply(files, journal);
      }
    }
  }

  /** So it is enough that no two writes of one note start from one text and end in different ones. */
  lemma DistinctStartsRestore(journal: seq<Record>)
    requires AllFaithful(journal)
    requires forall i, j :: 0 <= i < |journal| && 0 <= j < |journal| && journal[i].Wrote? && journal[j].Wrote?
               && journal[i].path == journal[j].path && journal[i].before == journal[j].before
               ==> journal[i].after == journal[j].after
    ensures RestoresAll(journal)
  {
    hide AllFaithful, RestoresAll;
    RestoresAllIff(journal);
    forall i | 0 <= i < |journal| && journal[i].Wrote? ensures ComesBack(journal, journal[i].path, journal[i].after) {
      var r := journal[i];
      assert Fits(Revert, r, r.path, r.after);
      var f := First(Revert, journal, r.path, r.after).value;
      var j :| 0 <= j < |journal| && journal[j] == f;
      assert Fits(Reapply, journal[j], r.path, f.before);
      var g := First(Reapply, journal, r.path, f.before).value;
      var k :| 0 <= k < |journal| && journal[k] == g;
    }
  }

  /** With the journal of one run every note equal to either image ends as its after-image, and every other
      note is exactly what the user made of it. */
  lemma OneRunComesBack(files: Files, journal: seq<Record>)
    requires OneRun(journal)
    ensures RestoresAll(journal)
    ensures var again := RevertedAndReapplied(files, journal);
            && again.Keys == files.Keys
            && forall path :: path in files ==>
                 again[path] == match Lookup(journal, path)
                                case None => files[path]
                                case Some(r) => if files[path] == r.before then r.after else files[path]
  {
    hide AllFaithful, OneRun, RevertedAndReapplied, RestoresAll;
    OneRunFaithful(journal);
    OneRunDistinct(journal);
    RevertThenReapply(files, journal);
    forall path | path in files
      ensures RevertedAndReapplied(files, journal)[path]
           == match Lookup(journal, path)
              case None => files[path]
              case Some(r) => if files[path] == r.before then r.after else files[path]
    {
      FirstIsLookup(Revert, journal, path, files[path]);
      FirstIsLookup(Reapply, journal, path, ReplayedText(Revert, journal, path, files[path]));
    }
  }

  lemma OneRunDistinct(journal: seq<Record>)
    requires OneRun(journal)
    ensures RestoresAll(journal)
  {
    hide Faithful, RestoresAll;
    DistinctStartsRestore(journal);
  }

  /** The journal is appended to. Two runs over one note with a revert between them leave two records that
      start from one text; reverting and reapplying then brings the first run's text back. */
  lemma TwoRunJournalRestoresTheFirst(files: Files, first: Record, second: Record)
    requires Faithful(first) && Faithful(second) && first.Wrote? && second.Wrote?
    requires first.path == second.path && first.before == second.before && first.after != second.after
    requires first.path in files && files[first.path] == second.after
    ensures var again := RevertedAndReapplied(files, [first, second]);
            again.Keys == files.Keys && again[first.path] == first.after != files[first.path]
    ensures !RestoresAll([first, second])
  {
    hide Faithful, RevertedAndReapplied;
    var journal := [first, second];
    RevertThenReapply(files, journal);
    assert journal[1..] == [second];
    assert First(Revert, journal, first.path, second.after) == Some(second);
    assert First(Reapply, journal, first.path, second.before) == Some(first);
    assert !RestoresNote(files, journal, 1);
  }

  // ----- the journal of a dry run -----

  /** The survey lists each note once. */
  ghost predicate EachOnce(todo: seq<Work>) {
    forall i, j :: 0 <= i < j < |todo| ==> todo[i].path != todo[j].path
  }

  lemma {:induction false} SameJournal(files: Files, others: Files, todo: seq<Work>, yaml: YamlCheck)
    requires EachOnce(todo)
    requires forall i :: 0 <= i < |todo| ==>
      (todo[i].path in files <==> todo[i].path in others)
        && (todo[i].path in files ==> files[todo[i].path] == others[todo[i].path])
    ensures RunAll(files, todo, yaml, true).journal == RunAll(others, todo, yaml, false).journal
    ensures RunAll(files, todo, yaml, true).files == files
    decreases |todo|
  {
    hide Attempt;
    if todo != [] && !Crashes(files, todo[0]) {
      var r := RecordOf(others, todo[0], yaml);
      assert RecordOf(files, todo[0], yaml) == r && r.path == todo[0].path;
      assert forall i :: 0 <= i < |todo[1..]| ==> todo[1..][i] == todo[i + 1] && todo[i + 1].path != todo[0].path;
      SameJournal(files, AfterRecord(others, r), todo[1..], yaml);
    }
  }

  /** Reapplying the journal of a dry run writes exactly what the run itself would have written. */
  lemma ReapplyCarriesOutDryRun(files: Files, todo: seq<Work>, yaml: YamlCheck)
    requires OneLineWork(todo) && EachOnce(todo)
    ensures RunAll(files, todo, yaml, true).files == files
    ensures Replay(Reapply, files, RunAll(files, todo, yaml, true).journal, false, NO_COUNTS).files
         == RunAll(files, todo, yaml, false).files
  {
    hide RunAll, Replay, OneRun, AllFaithful, ReplayedText, PathAfterRun;
    SameJournal(files, files, todo, yaml);
    var run := RunAll(files, todo, yaml, false);
    RunJournal(files, todo, yaml);
    OneRunFaithful(run.journal);
    ReplayAll(Reapply, files, run.journal, NO_COUNTS);
    var out := Replay(Reapply, files, run.journal, false, NO_COUNTS).files;
    forall path | path in files ensures out[path] == run.files[path] {
      ReappliedIsRun(files, run, path);
    }
  }

  lemma ReappliedIsRun(files: Files, run: RunResult, path: string)
    requires run.files.Keys == files.Keys && path in files && PathAfterRun(files, run, path)
    requires OneRun(run.journal)
    ensures ReplayedText(Reapply, run.journal, path, files[path]) == run.files[path]
  {
    hide OneRun;
    FirstIsLookup(Reapply, run.journal, path, files[path]);
  }
}
