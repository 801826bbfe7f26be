/** `safe_write_replace_style` of scripts/harness_memory.py, and any number of writers using it on
    one file. `hash` stands for SHA-256; where a result needs it to be collision-free it says so. */
module CasWriter {
  import opened Text

  type Hash = string -> string

  datatype CasError = ModifiedSinceRead | DeletedSinceRead

  ghost predicate CollisionFree(hash: Hash) {
    forall a: string, b: string :: hash(a) == hash(b) ==> a == b
  }

  /** The compare half: the content-hash mode wins over the mtime mode; with neither there is no check. */
  function CasCheck(content: Option<string>, mtime: real, expectedHash: Option<string>, expectedMtime: Option<real>,
                    hash: Hash)
    : Option<CasError>
  {
    if expectedHash.Some? then
      if content.None? then Some(DeletedSinceRead)
      else if hash(content.value) != expectedHash.value then Some(ModifiedSinceRead)
      else None
    else if expectedMtime.Some? && content.Some? then
      var apart := mtime - expectedMtime.value;
      if apart > 0.000001 || -apart > 0.000001 then Some(ModifiedSinceRead) else None
    else None
  }

  class VaultFile {
    var content: Option<string>
    var mtime: real

    constructor (content: Option<string>, mtime: real)
      ensures this.content == content && this.mtime == mtime
    {
      this.content, this.mtime := content, mtime;
    }

    /** A refused write changes nothing; an accepted one replaces the whole content. In hash mode it
        is accepted exactly when the file is there and still has the expected hash, in mtime mode when
        the file is gone or its time is within a microsecond, and without either always. */
    method SafeWriteReplaceStyle(newContent: string, expectedHash: Option<string>, expectedMtime: Option<real>,
                                 hash: Hash, now: real)
      returns (error: Option<CasError>)
      modifies this
      ensures error == CasCheck(old(content), old(mtime), expectedHash, expectedMtime, hash)
      ensures error.None? ==> content == Some(newContent) && mtime == now
      ensures error.Some? ==> content == old(content) && mtime == old(mtime)
      ensures expectedHash.Some? ==>
                (error.None? <==> old(content).Some? && hash(old(content).value) == expectedHash.value)
      ensures error == Some(DeletedSinceRead) <==> expectedHash.Some? && old(content).None?
      ensures expectedHash.None? && expectedMtime.None? ==> error.None?
      ensures expectedHash.None? && expectedMtime.Some? ==>
        (error.None? <==> old(content).None? || -0.000001 <= old(mtime) - expectedMtime.value <= 0.000001)
    {
      if expectedHash.Some? {
        if content.Some? {
          var actual := hash(content.value);
          if actual != expectedHash.value {
            return Some(ModifiedSinceRead);
          }
        } else {
          return Some(DeletedSinceRead);
        }
      } else if expectedMtime.Some? && content.Some? {
        var apart := mtime - expectedMtime.value;
        if apart > 0.000001 || -apart > 0.000001 {
          return Some(ModifiedSinceRead);
        }
      }
      content, mtime := Some(newContent), now;
      error := None;
    }
  }

  // ----- many writers -----

  /** Where one writer is in the documented calling pattern: read and hash, take the lock, compare, write. */
  datatype Writer = Idle | HasRead(seen: Option<string>) | Locked(seen: Option<string>) | Passed(seen: Option<string>)

  /** One accepted write: what the writer had read, what it replaced, what it wrote. */
  datatype Event = Event(writer: nat, base: Option<string>, replaced: Option<string>, written: string)

  datatype World = World(content: Option<string>, holder: Option<nat>, writers: seq<Writer>, log: seq<Event>)

  datatype Step = ReadFile(w: nat) | Acquire(w: nat) | Compare(w: nat) | Commit(w: nat, text: string) | Delete

  /** `content_hash(path.read_bytes()) if path.exists() else None`. */
  function Expected(seen: Option<string>, hash: Hash): Option<string> {
    if seen.Some? then Some(hash(seen.value)) else None
  }

  /** With `mutex`, comparing and writing happen inside one critical section; without it, the lock is
      not taken. Another device may delete the file, under `mutex` only while nobody holds the lock. */
  ghost predicate Next(mutex: bool, hash: Hash, s: World, step: Step, t: World) {
    match step
    case ReadFile(w) => w < |s.writers| && s.writers[w].Idle? && t == s.(writers := s.writers[w := HasRead(s.content)])
    case Acquire(w) => mutex && w < |s.writers| && s.writers[w].HasRead? && s.holder.None?
                       && t == s.(holder := Some(w), writers := s.writers[w := Locked(s.writers[w].seen)])
    case Compare(w) => w < |s.writers| && (if mutex then s.writers[w].Locked? else s.writers[w].HasRead?)
                       && t == Compared(s, w, hash)
    case Commit(w, text) => w < |s.writers| && s.writers[w].Passed? && t == Committed(s, w, text)
    case Delete => (mutex ==> s.holder.None?) && t == s.(content := None)
  }

  function Release(s: World, w: nat): Option<nat> {
    if s.holder == Some(w) then None else s.holder
  }

  function Compared(s: World, w: nat, hash: Hash): World
    requires w < |s.writers| && !s.writers[w].Idle?
  {
    if CasCheck(s.content, 0.0, Expected(s.writers[w].seen, hash), None, hash).None?
    then s.(writers := s.writers[w := Passed(s.writers[w].seen)])
    else s.(writers := s.writers[w := Idle], holder := Release(s, w))
  }

  function Committed(s: World, w: nat, text: string): World
    requires w < |s.writers| && s.writers[w].Passed?
  {
    World(Some(text), Release(s, w), s.writers[w := Idle],
          s.log + [Event(w, s.writers[w].seen, s.content, text)])
  }

  ghost predicate Start(s: World) {
    s.holder.None? && s.log == [] && forall w :: 0 <= w < |s.writers| ==> s.writers[w].Idle?
  }

  ghost predicate Run(mutex: bool, hash: Hash, states: seq<World>, steps: seq<Step>) {
    && |states| == |steps| + 1 && Start(states[0])
    && forall i :: 0 <= i < |steps| ==> Next(mutex, hash, states[i], steps[i], states[i + 1])
  }

  // ----- what every step keeps -----

  /** The writer read a file, and the file still has that hash. */
  ghost predicate Fresh(base: Option<string>, now: Option<string>, hash: Hash) {
    base.Some? ==> now.Some? && hash(now.value) == hash(base.value)
  }

  ghost predicate Safe(s: World, hash: Hash) {
    && (forall w :: 0 <= w < |s.writers| ==> (s.writers[w].Locked? || s.writers[w].Passed? <==> s.holder == Some(w)))
    && (s.holder.Some? ==> s.holder.value < |s.writers|)
    && (forall w :: 0 <= w < |s.writers| && s.writers[w].Passed? ==> Fresh(s.writers[w].seen, s.content, hash))
    && forall i :: 0 <= i < |s.log| ==> Fresh(s.log[i].base, s.log[i].replaced, hash)
  }

  lemma StepSafe(hash: Hash, s: World, step: Step, t: World)
    requires Next(true, hash, s, step, t) && Safe(s, hash)
    ensures Safe(t, hash)
  {
  }

  lemma {:induction false} RunSafe(hash: Hash, states: seq<World>, steps: seq<Step>, k: nat)
    requires Run(true, hash, states, steps) && k < |states|
    ensures Safe(states[k], hash)
  {
    if k > 0 {
      RunSafe(hash, states, steps, k - 1);
      assert Next(true, hash, states[k - 1], steps[k - 1], states[k - 1 + 1]);
      StepSafe(hash, states[k - 1], steps[k - 1], states[k]);
    }
  }

  /** A write that replaced something its writer had not read. */
  ghost predicate Loses(e: Event) {
    e.base != e.replaced
  }

  /** Under the mutex, a write loses an update only in the one case the calling pattern leaves
      unchecked: the writer had found no file, and there was one by the time it wrote. */
  lemma OnlyUncheckedWritesLose(hash: Hash, states: seq<World>, steps: seq<Step>, k: nat, i: nat)
    requires Run(true, hash, states, steps) && CollisionFree(hash)
    requires k < |states| && i < |states[k].log|
    ensures var e := states[k].log[i]; Loses(e) <==> e.base.None? && e.replaced.Some?
  {
    RunSafe(hash, states, steps, k);
    assert Fresh(states[k].log[i].base, states[k].log[i].replaced, hash);
  }

  // ----- no update is lost on an existing file -----

  ghost predicate NoDelete(steps: seq<Step>) {
    forall i :: 0 <= i < |steps| ==> !steps[i].Delete?
  }

  /** Every write replaced the text written just before it, starting from `first`. */
  ghost predicate Linked(first: string, log: seq<Event>, now: Option<string>) {
    && (forall i :: 0 <= i < |log| ==> log[i].replaced == Some(Version(first, log, i)))
    && now == Some(Version(first, log, |log|))
  }

  function Version(first: string, log: seq<Event>, i: nat): string
    requires i <= |log|
  {
    if i == 0 then first else log[i - 1].written
  }

  ghost predicate AlwaysSawFile(s: World) {
    && (forall w :: 0 <= w < |s.writers| && !s.writers[w].Idle? ==> s.writers[w].seen.Some?)
    && forall i :: 0 <= i < |s.log| ==> s.log[i].base.Some?
  }

  lemma LinkedAppend(first: string, log: seq<Event>, now: Option<string>, e: Event)
    requires Linked(first, log, now) && e.replaced == now
    ensures Linked(first, log + [e], Some(e.written))
  {
    var longer := log + [e];
    forall i | 0 <= i < |longer| ensures longer[i].replaced == Some(Version(first, longer, i)) {
      assert i > 0 ==> longer[i - 1] == log[i - 1];
      assert i < |log| ==> longer[i] == log[i];
      assert Version(first, longer, i) == Version(first, log, i);
    }
    assert longer[|longer| - 1] == e;
  }

  lemma StepLinked(mutex: bool, hash: Hash, s: World, step: Step, t: World, first: string)
    requires Next(mutex, hash, s, step, t) && !step.Delete?
    requires Linked(first, s.log, s.content) && AlwaysSawFile(s)
    ensures Linked(first, t.log, t.content) && AlwaysSawFile(t)
  {
    if step.Commit? {
      LinkedAppend(first, s.log, s.content, Event(step.w, s.writers[step.w].seen, s.content, step.text));
    }
  }

  lemma {:induction false} RunLinked(mutex: bool, hash: Hash, states: seq<World>, steps: seq<Step>, first: string,
                                     k: nat)
    requires Run(mutex, hash, states, steps) && NoDelete(steps) && states[0].content == Some(first) && k < |states|
    ensures Linked(first, states[k].log, states[k].content) && AlwaysSawFile(states[k])
  {
    if k > 0 {
      RunLinked(mutex, hash, states, steps, first, k - 1);
      assert Next(mutex, hash, states[k - 1], steps[k - 1], states[k - 1 + 1]);
      StepLinked(mutex, hash, states[k - 1], steps[k - 1], states[k], first);
    }
  }

  /** Any number of writers on an existing file, any interleaving: under the mutex the successful writes
      form one chain in which each was computed from the text the one before it left. */
  lemma NoUpdateLost(hash: Hash, states: seq<World>, steps: seq<Step>, first: string, k: nat)
    requires Run(true, hash, states, steps) && CollisionFree(hash) && NoDelete(steps)
    requires states[0].content == Some(first) && k < |states|
    ensures var log := states[k].log;
            && (forall i :: 0 <= i < |log| ==> log[i].base == Some(Version(first, log, i)))
            && states[k].content == Some(Version(first, log, |log|))
  {
    RunLinked(true, hash, states, steps, first, k);
    var log := states[k].log;
    forall i | 0 <= i < |log| ensures log[i].base == Some(Version(first, log, i)) {
      OnlyUncheckedWritesLose(hash, states, steps, k, i);
    }
  }

  // ----- the two windows -----

  /** Without the mutex two writers can both compare before either writes, and one update is lost. */
  lemma WindowWithoutMutex(hash: Hash, first: string, a: string, b: string)
    returns (states: seq<World>, steps: seq<Step>)
    requires a != first
    ensures Run(false, hash, states, steps) && NoDelete(steps) && states[0].content == Some(first)
    ensures var end := states[|states| - 1];
            |end.log| == 2 && end.log[1] == Event(1, Some(first), Some(a), b) && Loses(end.log[1])
  {
    var c := Some(first);
    var s0 := World(c, None, [Idle, Idle], []);
    var s1 := s0.(writers := [HasRead(c), Idle]);
    var s2 := s0.(writers := [HasRead(c), HasRead(c)]);
    var s3 := s0.(writers := [Passed(c), HasRead(c)]);
    var s4 := s0.(writers := [Passed(c), Passed(c)]);
    var s5 := World(Some(a), None, [Idle, Passed(c)], [Event(0, c, c, a)]);
    var s6 := World(Some(b), None, [Idle, Idle], [Event(0, c, c, a), Event(1, c, Some(a), b)]);
    states := [s0, s1, s2, s3, s4, s5, s6];
    steps := [ReadFile(0), ReadFile(1), Compare(0), Compare(1), Commit(0, a), Commit(1, b)];
    forall i | 0 <= i < |steps| ensures Next(false, hash, states[i], steps[i], states[i + 1]) {
      if i == 0 { assert s0.writers[0 := HasRead(c)] == s1.writers; }
      if i == 1 { assert s1.writers[1 := HasRead(c)] == s2.writers; }
      if i == 2 { assert s2.writers[0 := Passed(c)] == s3.writers; }
      if i == 3 { assert s3.writers[1 := Passed(c)] == s4.writers; }
      if i == 4 { assert s4.writers[0 := Idle] == s5.writers; }
      if i == 5 { assert s5.writers[1 := Idle] == s6.writers; }
    }
  }

  /** With the mutex, two writers that both found no file have nothing to compare: the second creation
      replaces the first unseen. */
  lemma WindowOnCreation(hash: Hash, a: string, b: string) returns (states: seq<World>, steps: seq<Step>)
    ensures Run(true, hash, states, steps) && NoDelete(steps) && states[0].content.None?
    ensures var end := states[|states| - 1];
            |end.log| == 2 && end.log[1] == Event(1, None, Some(a), b) && Loses(end.log[1])
  {
    var c: Option<string> := None;
    var s0 := World(c, None, [Idle, Idle], []);
    var s1 := s0.(writers := [HasRead(c), Idle]);
    var s2 := s0.(writers := [HasRead(c), HasRead(c)]);
    var s3 := World(c, Some(0), [Locked(c), HasRead(c)], []);
    var s4 := World(c, Some(0), [Passed(c), HasRead(c)], []);
    var s5 := World(Some(a), None, [Idle, HasRead(c)], [Event(0, c, c, a)]);
    var s6 := World(Some(a), Some(1), [Idle, Locked(c)], [Event(0, c, c, a)]);
    var s7 := World(Some(a), Some(1), [Idle, Passed(c)], [Event(0, c, c, a)]);
    var s8 := World(Some(b), None, [Idle, Idle], [Event(0, c, c, a), Event(1, c, Some(a), b)]);
    states := [s0, s1, s2, s3, s4, s5, s6, s7, s8];
    steps := [ReadFile(0), ReadFile(1), Acquire(0), Compare(0), Commit(0, a), Acquire(1), Compare(1), Commit(1, b)];
    forall i | 0 <= i < |steps| ensures Next(true, hash, states[i], steps[i], states[i + 1]) {
      if i == 0 { assert s0.writers[0 := HasRead(c)] == s1.writers; }
      if i == 1 { assert s1.writers[1 := HasRead(c)] == s2.writers; }
      if i == 2 { assert s2.writers[0 := Locked(c)] == s3.writers; }
      if i == 3 { assert s3.writers[0 := Passed(c)] == s4.writers; }
      if i == 4 { assert s4.writers[0 := Idle] == s5.writers; }
      if i == 5 { assert s5.writers[1 := Locked(c)] == s6.writers; }
      if i == 6 { assert s6.writers[1 := Passed(c)] == s7.writers; }
      if i == 7 { assert s7.writers[1 := Idle] == s8.writers; }
    }
  }
}
