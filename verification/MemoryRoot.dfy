/** One configuration key, `plugins.obsidian-vault.memory_root`: its setter in scripts/agentm_config.py
    and its two readers, in scripts/harness_memory.py and scripts/alias_backfill.py. A path is the list
    of its components. */
module MemoryRoot {
  import opened Text

  type Path = seq<string>

  /** `.strip().replace("\\", "/")`. */
  function Candidate(raw: string): string {
    Replace(Strip(raw), '\\', '/')
  }

  function Components(rel: string): seq<string> {
    Split(rel, '/')
  }

  // ----- the setter -----

  /** What is stored, or None where the setter refuses. */
  function Accepted(raw: string): Option<string> {
    var rel := Trim(Candidate(raw), Slash);
    if rel == "" then None
    else if (Strip(raw) != "" && Strip(raw)[0] == '/') || !Free(rel, ':') || ".." in Components(rel) then None
    else Some(rel)
  }

  class Config {
    var memoryRoot: Option<string>

    constructor (stored: Option<string>)
      ensures memoryRoot == stored
    {
      memoryRoot := stored;
    }

    /** `cmd_set_memory_root`: 2 and no change, or 0 and the normalised value. */
    method CmdSetMemoryRoot(raw: string) returns (code: int)
      modifies this
      ensures code == if Accepted(raw).Some? then 0 else 2
      ensures memoryRoot == if Accepted(raw).Some? then Accepted(raw) else old(memoryRoot)
    {
      var rel := Trim(Replace(Strip(raw), '\\', '/'), Slash);
      if rel == "" {
        return 2;
      }
      if (Strip(raw) != "" && Strip(raw)[0] == '/') || !Free(rel, ':') || ".." in Split(rel, '/') {
        return 2;
      }
      if memoryRoot != Some(rel) {
        memoryRoot := Some(rel);
      }
      code := 0;
    }
  }

  // ----- the readers -----

  predicate Unusable(candidate: string) {
    candidate == "" || candidate[0] == '/' || !Free(candidate, ':')
  }

  /** `_read_config_memory_root`; "" means the vault root. */
  function ReadRel(stored: string): string {
    var candidate := Candidate(stored);
    if Unusable(candidate) then ""
    else
      var rel := Trim(candidate, Slash);
      if rel == "" || ".." in Components(rel) then "" else rel
  }

  /** `Path.joinpath`: empty and "." components vanish. */
  function Kept(parts: seq<string>): seq<string> {
    if parts == [] then []
    else (if parts[0] == "" || parts[0] == "." then [] else [parts[0]]) + Kept(parts[1..])
  }

  /** `memory_root`, without an export. */
  function HarnessRoot(vault: Path, stored: string): Path {
    var rel := ReadRel(stored);
    if rel == "" then vault else vault + Kept(Components(rel))
  }

  /** `resolve_memory_root` of the backfill, without an export. */
  function BackfillRoot(vault: Path, stored: string): Path {
    var candidate := Candidate(stored);
    if Unusable(candidate) then vault
    else
      var parts := Components(Trim(candidate, Slash));
      if "" in parts || ".." in parts then vault else vault + Kept(parts)
  }

  /** `_vault_root_from_memory_root`. */
  function VaultRootFrom(root: Path, stored: string): Path {
    var rel := ReadRel(stored);
    if rel == "" then root
    else
      var parts := Components(rel);
      if |root| > |parts| && root[|root| - |parts|..] == parts then root[..|root| - |parts|] else root
  }

  // ----- which values are stored, and which are read -----

  /** `raw` is `s` between blanks, and `s` with its backslashes turned is `rel` between slashes. */
  ghost predicate Between(raw: string, left: string, s: string, right: string, a: string, rel: string, b: string) {
    && raw == left + s + right && All(left, Space) && All(right, Space) && Trimmed(s, Space)
    && Replace(s, '\\', '/') == a + rel + b && All(a, Slash) && All(b, Slash) && Trimmed(rel, Slash)
  }

  lemma BetweenIs(raw: string, left: string, s: string, right: string, a: string, rel: string, b: string)
    requires Between(raw, left, s, right, a, rel, b)
    ensures s == Strip(raw) && rel == Trim(Candidate(raw), Slash)
    ensures rel != "" ==> (Candidate(raw)[0] == '/' <==> a != "")
    ensures Free(Candidate(raw), ':') <==> Free(rel, ':')
  {
    TrimIs(left, s, right, Space);
    TrimIs(a, rel, b, Slash);
    FreeConcat(a, rel, ':');
    FreeConcat(a + rel, b, ':');
    SlashesFree(a);
    SlashesFree(b);
  }

  lemma SlashesFree(s: string)
    requires All(s, Slash)
    ensures Free(s, ':')
  {
    assert forall i :: 0 <= i < |s| ==> In(s[i], Slash);
  }

  lemma BetweenExists(raw: string) returns (left: string, right: string, a: string, b: string)
    ensures Between(raw, left, Strip(raw), right, a, Trim(Candidate(raw), Slash), b)
  {
    left, right := TrimSplit(raw, Space);
    a, b := TrimSplit(Candidate(raw), Slash);
  }

  /** The setter takes exactly the values that, between blanks and slashes, spell a nonempty prefix without a
      colon and without an upward component, and do not start with a slash as they are written. */
  lemma AcceptedIs(raw: string, rel: string)
    ensures Accepted(raw) == Some(rel) <==>
            && rel != "" && Free(rel, ':') && ".." !in Split(rel, '/')
            && exists left, s, right, a, b :: Between(raw, left, s, right, a, rel, b) && s[0] != '/'
  {
    hide Between, Candidate, Trim, Strip;
    var left, right, a, b := BetweenExists(raw);
    forall l, s, r, c, d | Between(raw, l, s, r, c, rel, d)
      ensures s == Strip(raw) && rel == Trim(Candidate(raw), Slash)
    {
      BetweenIs(raw, l, s, r, c, rel, d);
    }
    EmptyPrefix(raw);
  }

  lemma EmptyPrefix(raw: string)
    ensures Strip(raw) == "" ==> Trim(Candidate(raw), Slash) == ""
  {
    if Strip(raw) == "" {
      assert Candidate(raw) == "";
    }
  }

  /** A reader takes exactly the values that spell such a prefix with no slash or backslash in front. */
  lemma ReadIs(stored: string, rel: string)
    requires rel != ""
    ensures ReadRel(stored) == rel <==>
            && Free(rel, ':') && ".." !in Split(rel, '/')
            && exists left, s, right, b :: Between(stored, left, s, right, "", rel, b)
  {
    hide Between, Candidate, Trim, Strip;
    var left, right, a, b := BetweenExists(stored);
    BetweenIs(stored, left, Strip(stored), right, a, Trim(Candidate(stored), Slash), b);
    forall l, s, r, d | Between(stored, l, s, r, "", rel, d)
      ensures s == Strip(stored) && rel == Trim(Candidate(stored), Slash)
      ensures Candidate(stored) != "" && Candidate(stored)[0] != '/'
      ensures Free(Candidate(stored), ':') <==> Free(rel, ':')
    {
      BetweenIs(stored, l, s, r, "", rel, d);
      CandidateNotEmpty(stored);
    }
    CandidateNotEmpty(stored);
  }

  lemma CandidateNotEmpty(raw: string)
    ensures Candidate(raw) == "" ==> Trim(Candidate(raw), Slash) == ""
  {
  }

  // ----- components -----

  lemma {:induction false} KeptIs(parts: seq<string>)
    ensures forall c :: c in Kept(parts) ==> c in parts && c != "" && c != "."
    ensures |Kept(parts)| <= |parts|
    ensures Kept(parts) == parts <==> "" !in parts && "." !in parts
  {
    if parts != [] {
      KeptIs(parts[1..]);
      assert parts == [parts[0]] + parts[1..];
    }
  }

  /** Every component is kept or dropped by itself, in order. */
  lemma {:induction false} KeptConcat(a: seq<string>, b: seq<string>)
    ensures Kept(a + b) == Kept(a) + Kept(b)
  {
    hide Kept, KeptOne;
    KeptNone();
    if a == [] {
      assert a + b == b && [] + Kept(b) == Kept(b);
    } else {
      KeptConcat(a[1..], b);
      KeptCons(a);
      KeptCons(a + b);
      KeptStep(a, b);
    }
  }

  lemma KeptNone()
    ensures Kept([]) == []
  {
  }

  lemma KeptStep(a: seq<string>, b: seq<string>)
    requires a != [] && Kept(a[1..] + b) == Kept(a[1..]) + Kept(b)
    requires Kept(a) == KeptOne(a[0]) + Kept(a[1..]) && Kept(a + b) == KeptOne(a[0]) + Kept((a + b)[1..])
    ensures Kept(a + b) == Kept(a) + Kept(b)
  {
    hide Kept, KeptOne;
    assert (a + b)[1..] == a[1..] + b;
    assert KeptOne(a[0]) + (Kept(a[1..]) + Kept(b)) == (KeptOne(a[0]) + Kept(a[1..])) + Kept(b);
  }

  /** Only an empty component and "." vanish. */
  function KeptOne(c: string): Path {
    if c in {"", "."} then [] else [c]
  }

  lemma KeptCons(parts: seq<string>)
    requires parts != []
    ensures Kept(parts) == KeptOne(parts[0]) + Kept(parts[1..])
  {
  }

  ghost predicate IsVault(vault: Path) {
    |vault| >= 1 && "" !in vault && "." !in vault
  }

  // ----- main results -----

  /** For every stored value, hand-edited ones included: the two readers give the same directory exactly
      when the value has no empty component, or nothing but empty and "." ones. */
  lemma ReadersAgree(vault: Path, stored: string)
    ensures HarnessRoot(vault, stored) == BackfillRoot(vault, stored) <==>
            ReadRel(stored) == "" || "" !in Components(ReadRel(stored)) || Kept(Components(ReadRel(stored))) == []
    ensures HarnessRoot(vault, stored) ==
            vault + (if ReadRel(stored) == "" then [] else Kept(Split(ReadRel(stored), '/')))
    ensures BackfillRoot(vault, stored) ==
            if "" in Split(ReadRel(stored), '/') then vault else HarnessRoot(vault, stored)
  {
  }

  /** For every stored value, deriving the vault root from the memory root gives the vault back exactly
      when no component is empty or ".", or all are. */
  lemma VaultRootBack(vault: Path, stored: string)
    requires IsVault(vault)
    ensures VaultRootFrom(HarnessRoot(vault, stored), stored) == vault <==>
            ReadRel(stored) == ""
            || ("" !in Components(ReadRel(stored)) && "." !in Components(ReadRel(stored)))
            || Kept(Components(ReadRel(stored))) == []
  {
    hide ReadRel, Components, Kept;
    var rel := ReadRel(stored);
    if rel != "" {
      SuffixOff(vault, Components(rel));
    }
  }

  /** Whatever the root, deriving never gives up its last component. */
  lemma RootIsKept(root: Path, stored: string)
    requires root != []
    ensures VaultRootFrom(root, stored) != [] && VaultRootFrom(root, stored) <= root
    ensures VaultRootFrom(root, stored) != root ==> root == VaultRootFrom(root, stored) + Split(ReadRel(stored), '/')
  {
  }

  lemma SuffixOff(vault: Path, parts: seq<string>)
    requires IsVault(vault)
    ensures var root := vault + Kept(parts);
            var back := if |root| > |parts| && root[|root| - |parts|..] == parts
                        then root[..|root| - |parts|] else root;
            back == vault <==> ("" !in parts && "." !in parts) || Kept(parts) == []
  {
    hide Kept;
    KeptIs(parts);
    var root := vault + Kept(parts);
    if Kept(parts) == parts {
      assert root[|root| - |parts|..] == parts && root[..|root| - |parts|] == vault;
    } else {
      assert forall c :: c in root ==> c != "" && c != ".";
      assert |root| >= |parts| ==> forall c :: c in root[|root| - |parts|..] ==> c in root;
      assert root == vault <==> Kept(parts) == [];
    }
  }

  /** Both readers stay inside the vault: below it, with no upward component. */
  lemma StaysInVault(vault: Path, stored: string)
    ensures vault <= HarnessRoot(vault, stored) && vault <= BackfillRoot(vault, stored)
    ensures ".." !in HarnessRoot(vault, stored)[|vault|..] && ".." !in BackfillRoot(vault, stored)[|vault|..]
  {
    var rel := ReadRel(stored);
    KeptIs(Components(rel));
    var parts := Components(Trim(Candidate(stored), Slash));
    KeptIs(parts);
    assert vault[|vault|..] == [];
    assert (vault + Kept(Components(rel)))[|vault|..] == Kept(Components(rel));
    assert (vault + Kept(parts))[|vault|..] == Kept(parts);
  }

  /** A reader never gets more characters than are stored, and fewer where there is a blank at an end. */
  lemma ReadRelShrinks(stored: string)
    ensures |ReadRel(stored)| <= |stored|
    ensures !Trimmed(stored, Space) ==> |ReadRel(stored)| < |stored|
  {
    var left, right := TrimSplit(stored, Space);
    TrimTrimmed(stored, Space);
    var leftSlashes, rightSlashes := TrimSplit(Candidate(stored), Slash);
  }

  /** What the setter stored is what the readers read, exactly if stripping its slashes left no blank at an end. */
  lemma StoredIsRead(raw: string, rel: string)
    requires Accepted(raw) == Some(rel)
    ensures ReadRel(rel) == rel <==> Trimmed(rel, Space)
    ensures Trimmed(rel, Space) ==> Accepted(rel) == Some(rel)
  {
    ReadRelShrinks(rel);
    if Trimmed(rel, Space) {
      var candidate := Candidate(raw);
      var left, right := TrimSplit(candidate, Slash);
      TrimTrimmed(rel, Space);
      TrimTrimmed(rel, Slash);
      forall i | 0 <= i < |rel| ensures rel[i] != '\\' {
        assert rel[i] == candidate[|left| + i];
      }
      assert Candidate(rel) == rel;
      assert !In(rel[0], Slash);
    }
  }

  lemma {:induction false} KeptIsShorter(parts: seq<string>, sep: char)
    requires parts != [] && Kept(parts) != []
    ensures |Join(Kept(parts), sep)| <= |Join(parts, sep)|
  {
    if |parts| > 1 {
      var rest := Kept(parts[1..]);
      if rest == [] {
        assert Kept(parts) == [parts[0]];
      } else {
        KeptIsShorter(parts[1..], sep);
        assert Kept(parts) == rest || (Kept(parts) == [parts[0]] + rest && Kept(parts)[1..] == rest);
      }
    }
  }

  ghost predicate ProperPath(rel: string) {
    Trimmed(rel, Space) && "" !in Components(rel) && "." !in Components(rel)
  }

  /** For every value the setter accepts: the directory it spells under the vault is the one read exactly
      if its components are all names and no blank stands at an end; and then both readers give that
      directory and the vault root is derived back from it. */
  lemma AcceptedValueWorks(raw: string, rel: string, vault: Path)
    requires Accepted(raw) == Some(rel) && IsVault(vault)
    ensures HarnessRoot(vault, rel) == vault + Components(rel) <==> ProperPath(rel)
    ensures ProperPath(rel) ==> BackfillRoot(vault, rel) == vault + Components(rel)
    ensures ProperPath(rel) ==> VaultRootFrom(HarnessRoot(vault, rel), rel) == vault
  {
    hide ReadRel, Accepted;
    StoredIsRead(raw, rel);
    KeptIs(Components(rel));
    ReadersAgree(vault, rel);
    VaultRootBack(vault, rel);
    var read := ReadRel(rel);
    if HarnessRoot(vault, rel) == vault + Components(rel) && read != rel {
      ReadRelShrinks(rel);
      assert HarnessRoot(vault, rel)[|vault|..] == Components(rel);
      assert read != "";
      assert (vault + Kept(Components(read)))[|vault|..] == Kept(Components(read));
      KeptIsShorter(Components(read), '/');
      JoinSplit(read, '/');
      JoinSplit(rel, '/');
      assert false;
    }
  }

  /** An accepted value that splits the readers: `a//b` is `a/b` to one and the vault root to the other,
      and the vault root is not derived back. */
  lemma DoubledSlashSplits(vault: Path)
    requires IsVault(vault)
    ensures Accepted("a//b") == Some("a//b")
    ensures HarnessRoot(vault, "a//b") == vault + ["a", "b"] && BackfillRoot(vault, "a//b") == vault
    ensures VaultRootFrom(HarnessRoot(vault, "a//b"), "a//b") != vault
  {
    var s := "a//b";
    ComponentsOfExample();
    TrimTrimmed(s, Space);
    assert Replace(s, '\\', '/') == s;
    TrimTrimmed(s, Slash);
    KeptOfExample();
    VaultRootBack(vault, s);
  }

  lemma ComponentsOfExample()
    ensures Components("a//b") == ["a", "", "b"]
  {
    SplitFree("b", '/');
    SplitCons("", "b", '/');
    SplitCons("a", "/b", '/');
    assert "a" + ['/'] + "/b" == "a//b" && "" + ['/'] + "b" == "/b";
  }

  lemma KeptOfExample()
    ensures Kept(["a", "", "b"]) == ["a", "b"]
  {
  }

  /** A value written with a leading backslash is judged relative before its slashes are stripped: the
      setter takes `\ /a`, stores it with a leading blank, and both readers then ignore it. */
  lemma LeadingBackslashIsIgnored(vault: Path)
    ensures Accepted("\\ /a") == Some(" /a")
    ensures ReadRel(" /a") == "" && HarnessRoot(vault, " /a") == vault == BackfillRoot(vault, " /a")
  {
    LeadingBlankAccepted();
    TrimIs(" ", "/a", "", Space);
    assert " " + "/a" + "" == " /a";
    assert Replace("/a", '\\', '/') == "/a";
  }

  lemma LeadingBlankAccepted()
    ensures Accepted("\\ /a") == Some(" /a")
  {
    hide Trim, Split, Replace;
    assert Trimmed("\\ /a", Space) && Trimmed(" /a", Slash);
    TrimTrimmed("\\ /a", Space);
    assert Replace("\\ /a", '\\', '/') == "/ /a";
    TrimIs("/", " /a", "", Slash);
    assert "/" + " /a" + "" == "/ /a";
    SplitFree("a", '/');
    SplitCons(" ", "a", '/');
    assert " " + ['/'] + "a" == " /a";
  }
}
