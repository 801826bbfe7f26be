/** Numbered-task names of scripts/harness_memory.py: how a name is read, looked up and assigned. */
module TaskNames {
  import opened Text

  // ----- reading a name -----

  datatype Numbered = Numbered(number: string, slug: string)

  /** `re.match(r"^(\d{3})-(.+)$", name)`; `$` also matches in front of a final newline. */
  function TaskDir(name: string): Option<Numbered> {
    if |name| < 5 || !IsDigit(name[0]) || !IsDigit(name[1]) || !IsDigit(name[2]) || name[3] != '-' then None
    else
      var rest := name[4..];
      var slug := if rest[|rest| - 1] == '\n' then rest[..|rest| - 1] else rest;
      if slug != "" && Free(slug, '\n') then Some(Numbered(name[..3], slug)) else None
  }

  /** A plan slug is one path component. */
  predicate IsSafe(slug: string) {
    slug != "." && slug != ".." && Free(slug, '/') && Free(slug, '\\') && Free(slug, ':') && Free(slug, '\0')
  }

  /** What would leave the directory a name is joined onto. */
  predicate Traverses(name: string) {
    name == "." || name == ".." || exists i :: 0 <= i < |name| && name[i] in {'/', '\\', ':', '\0'}
  }

  lemma SafeIs(name: string)
    ensures IsSafe(name) <==> !Traverses(name)
    ensures IsSafe(name) ==> Split(name, '/') == [name]
  {
    if IsSafe(name) {
      SplitFree(name, '/');
    }
  }

  lemma SafeName(m: nat, slug: string)
    requires IsSafe(slug)
    ensures IsSafe(Pad3(m) + "-" + slug)
  {
  }

  // ----- what the operator typed -----

  /** `s.endswith(suffix)`, then the rest in front of it. */
  function WithoutSuffix(s: string, suffix: string): string {
    if EndsWith(s, suffix) then s[..|s| - |suffix|] else s
  }

  function WithoutPrefix(s: string, prefix: string): string {
    if prefix <= s then s[|prefix|..] else s
  }

  /** `_normalize_plan_name`; None is a bare name. */
  function Normalize(raw: string): Option<string> {
    var s := WithoutPrefix(WithoutSuffix(Strip(raw), ".md"), "PLAN-");
    if s == "" || s == "PLAN" then None else Some(s)
  }

  // ----- numbers -----

  /** `f"{n:03d}"`. */
  function Pad3(n: nat): string {
    if n < 1000 then [DigitChar(n / 100), DigitChar(n / 10 % 10), DigitChar(n % 10)] else Decimal(n)
  }

  /** `int(...)` of the three digits of a task number. */
  function NumberOf(number: string): nat
    requires |number| == 3 && IsDigit(number[0]) && IsDigit(number[1]) && IsDigit(number[2])
  {
    100 * DigitValue(number[0]) + 10 * DigitValue(number[1]) + DigitValue(number[2])
  }

  function NumberIn(name: string): nat
    requires TaskDir(name).Some?
  {
    NumberOf(TaskDir(name).value.number)
  }

  lemma Pad3Value(n: nat)
    requires n < 1000
    ensures |Pad3(n)| == 3 && NumberOf(Pad3(n)) == n
  {
  }

  /** Every number is written in full, with zeros in front up to three digits. */
  lemma NumberWritten(n: nat)
    ensures AllDigits(Pad3(n)) && IntOf(Pad3(n)) == n && (|Pad3(n)| == 3 || (|Pad3(n)| > 3 && Pad3(n)[0] != '0'))
  {
    if n < 1000 {
      IntOfThree(DigitChar(n / 100), DigitChar(n / 10 % 10), DigitChar(n % 10));
      Pad3Value(n);
    } else {
      IntOfDecimal(n);
      DecimalLong(n);
      NoLeadingZero(n);
    }
  }

  lemma IntOfThree(a: char, b: char, c: char)
    requires IsDigit(a) && IsDigit(b) && IsDigit(c)
    ensures AllDigits([a, b, c]) && IntOf([a, b, c]) == NumberOf([a, b, c])
  {
    assert [a, b, c][..2] == [a, b] && [a, b][..1] == [a];
    assert IntOf([a]) == DigitValue(a);
    assert IntOf([a, b]) == 10 * DigitValue(a) + DigitValue(b);
  }

  lemma {:induction false} NoLeadingZero(n: nat)
    requires n >= 1
    ensures Decimal(n)[0] != '0'
  {
    if n >= 10 {
      NoLeadingZero(n / 10);
    }
  }

  lemma DecimalLong(n: nat)
    requires n >= 1000
    ensures |Decimal(n)| >= 4
  {
    assert n / 10 >= 100 && n / 10 / 10 >= 10 && n / 10 / 10 / 10 >= 1;
    assert |Decimal(n / 10 / 10)| >= 2;
    assert |Decimal(n / 10)| >= 3;
  }

  /** A name written with a number reads back as that number exactly while the number has three digits. */
  lemma NameReadsBack(n: nat, slug: string)
    requires slug != "" && Free(slug, '\n')
    ensures TaskDir(Pad3(n) + "-" + slug) == if n < 1000 then Some(Numbered(Pad3(n), slug)) else None
  {
    var name := Pad3(n) + "-" + slug;
    if n < 1000 {
      Pad3Value(n);
      assert name[..3] == Pad3(n) && name[4..] == slug;
    } else {
      DecimalLong(n);
      assert IsDigit(Pad3(n)[3]) && name[3] == Pad3(n)[3];
    }
  }

  /** Exactly the names that are read as a task: three digits, a dash, and a slug of one line, with one final
      line break or not. */
  lemma TaskDirIs(name: string, number: string, slug: string)
    ensures TaskDir(name) == Some(Numbered(number, slug)) <==>
            && |number| == 3 && (forall i :: 0 <= i < 3 ==> '0' <= number[i] <= '9')
            && slug != "" && Free(slug, '\n')
            && (name == number + "-" + slug || name == number + "-" + slug + "\n")
  {
    if TaskDir(name) == Some(Numbered(number, slug)) {
      assert name == name[..3] + "-" + name[4..];
      assert name[4..][|name[4..]| - 1] == '\n' ==> name[4..] == slug + "\n";
    }
    if |number| == 3 && name == number + "-" + slug {
      assert name[..3] == number && name[4..] == slug;
    }
    if |number| == 3 && name == number + "-" + slug + "\n" {
      assert name[..3] == number && name[4..] == slug + "\n";
      assert (slug + "\n")[..|slug|] == slug;
    }
  }

  // ----- looking a name up -----

  predicate IsTask(name: string) {
    TaskDir(name).Some?
  }

  /** `_match_task_dirs`: an exact directory name alone, else every directory with that verb slug. */
  function Matches(dirs: set<string>, slug: string): set<string> {
    if slug in dirs then {slug} else set n | n in dirs && IsTask(n) && TaskDir(n).value.slug == slug
  }

  datatype Lookup = NoTask | One(name: string) | Ambiguous

  /** `_resolve_task_dir`, on the set of directory names. */
  ghost predicate Finds(dirs: set<string>, slug: string, l: Lookup) {
    match l
    case NoTask => Matches(dirs, slug) == {}
    case One(name) => Matches(dirs, slug) == {name}
    case Ambiguous => |Matches(dirs, slug)| > 1
  }

  // ----- assigning a name -----

  /** The highest number a task carries, or 0. */
  ghost predicate Highest(dirs: set<string>, m: nat) {
    && (forall d :: d in dirs && IsTask(d) ==> NumberIn(d) <= m)
    && (m > 0 ==> exists d :: d in dirs && IsTask(d) && NumberIn(d) == m)
  }

  predicate Shares(a: string, b: string) {
    IsTask(a) && IsTask(b)
    && (TaskDir(a).value.number == TaskDir(b).value.number || TaskDir(a).value.slug == TaskDir(b).value.slug)
  }

  datatype Placement = New(name: string) | Refused

  /** `_placed_task` for a slug that finds nothing. */
  ghost predicate Places(dirs: set<string>, slug: string, p: Placement) {
    if !IsTask(slug) then exists m: nat :: Highest(dirs, m) && p == New(Pad3(m + 1) + "-" + slug)
    else if exists d :: d in dirs && Shares(d, slug) then p == Refused
    else p == New(slug)
  }

  // ----- no two tasks share a number or a verb slug -----

  ghost predicate Unique(dirs: set<string>) {
    forall a, b :: a in dirs && b in dirs && a != b ==> !Shares(a, b)
  }

  /** With unique names, no name is ambiguous. */
  lemma NeverAmbiguous(dirs: set<string>, slug: string, l: Lookup)
    requires Unique(dirs) && Finds(dirs, slug, l)
    ensures l != Ambiguous
  {
    var found := Matches(dirs, slug);
    if found != {} {
      var a :| a in found;
      forall b | b in found ensures b == a {
        assert slug !in dirs ==> (a == b || Shares(a, b));
      }
      assert found == {a};
    }
  }

  /** What `slug` may be: typed by the operator, one component, on one line. */
  predicate IsSlug(slug: string) {
    slug != "" && IsSafe(slug) && Free(slug, '\n')
  }

  lemma HighestUnique(dirs: set<string>, m: nat, n: nat)
    requires Highest(dirs, m) && Highest(dirs, n)
    ensures m == n
  {
  }

  /** A slug without a number is written behind the next number. */
  lemma PlacedName(dirs: set<string>, slug: string, name: string, m: nat)
    requires Highest(dirs, m) && IsSlug(slug) && !IsTask(slug) && Places(dirs, slug, New(name))
    ensures name == Pad3(m + 1) + "-" + slug
    ensures TaskDir(name) == if m < 999 then Some(Numbered(Pad3(m + 1), slug)) else None
  {
    var i: nat :| Highest(dirs, i) && name == Pad3(i + 1) + "-" + slug;
    HighestUnique(dirs, m, i);
    NameReadsBack(m + 1, slug);
  }

  lemma PlacedBelow(dirs: set<string>, slug: string, name: string)
    requires IsSlug(slug) && !IsTask(slug) && Places(dirs, slug, New(name))
    requires BelowLimit(dirs)
    ensures IsTask(name) && TaskDir(name).value.slug == slug
    ensures forall d :: d in dirs && IsTask(d) ==> NumberIn(d) < NumberIn(name)
  {
    var m: nat :| Highest(dirs, m) && name == Pad3(m + 1) + "-" + slug;
    PlacedName(dirs, slug, name, m);
    Pad3Value(m + 1);
  }

  /** Every task's number leaves room for a three-digit one behind it. */
  ghost predicate BelowLimit(dirs: set<string>) {
    forall d :: d in dirs && IsTask(d) ==> NumberIn(d) < 999
  }

  lemma BelowMeans(dirs: set<string>, m: nat)
    requires Highest(dirs, m)
    ensures BelowLimit(dirs) <==> m < 999
  {
  }

  /** A placement keeps all numbers and verb slugs distinct, whatever the highest number is; it is a task
      exactly if the name was typed with its number or the number still has three digits. */
  lemma PlacementKeepsUnique(dirs: set<string>, slug: string, name: string)
    requires Unique(dirs) && IsSlug(slug) && Matches(dirs, slug) == {}
    requires Places(dirs, slug, New(name))
    ensures Unique(dirs + {name})
    ensures IsTask(name) <==> IsTask(slug) || BelowLimit(dirs)
    ensures IsTask(name) ==> name !in dirs
  {
    hide IsSlug, Pad3, NumberOf;
    if !IsTask(slug) {
      var m: nat :| Highest(dirs, m) && name == Pad3(m + 1) + "-" + slug;
      PlacedName(dirs, slug, name, m);
      BelowMeans(dirs, m);
      if BelowLimit(dirs) {
        PlacedBelow(dirs, slug, name);
        forall d | d in dirs && IsTask(d) ensures d != name && !Shares(d, name) {
          assert d !in Matches(dirs, slug);
        }
      }
    } else {
      assert slug !in dirs;
    }
  }

  /** Past 999 the promise fails: the name `1000-…` is not read as a task, its verb slug does not find
      it, placing the same slug again answers the directory that is already there, and every other slug
      placed after it gets the number 1000 as well. */
  lemma ThousandIsInvisible(dirs: set<string>, slug: string, name: string, other: string, next: string)
    requires Highest(dirs, 999) && IsSlug(slug) && !IsTask(slug) && Matches(dirs, slug) == {}
    requires Places(dirs, slug, New(name))
    requires IsSlug(other) && !IsTask(other) && other != slug && Places(dirs + {name}, other, New(next))
    ensures !IsTask(name) && Matches(dirs + {name}, slug) == {}
    ensures Places(dirs + {name}, slug, New(name))
    ensures name == Pad3(1000) + "-" + slug && next == Pad3(1000) + "-" + other && next != name
  {
    hide TaskDir, Matches, IsSlug, Highest, Pad3;
    PlacedName(dirs, slug, name, 999);
    assert |name| > |slug|;
    InvisibleName(dirs, slug, name);
    HighestKept(dirs, name, 999);
    PlacedName(dirs + {name}, other, next, 999);
    NumberedDiffer(Pad3(1000), slug, other);
  }

  lemma NumberedDiffer(number: string, a: string, b: string)
    requires a != b
    ensures number + "-" + a != number + "-" + b
  {
    assert (number + "-" + a)[|number| + 1..] == a;
    assert (number + "-" + b)[|number| + 1..] == b;
  }

  lemma InvisibleName(dirs: set<string>, slug: string, name: string)
    requires !IsTask(name) && name != slug && Matches(dirs, slug) == {}
    ensures Matches(dirs + {name}, slug) == {}
  {
  }

  lemma HighestKept(dirs: set<string>, name: string, m: nat)
    requires Highest(dirs, m) && !IsTask(name)
    ensures Highest(dirs + {name}, m)
  {
  }

  /** Two placements composed before either directory exists take the same number. */
  lemma TwoPlacementsCollide(dirs: set<string>, m: nat, a: string, b: string, x: string, y: string)
    requires IsSlug(a) && IsSlug(b) && a != b && !IsTask(a) && !IsTask(b)
    requires m < 999 && Highest(dirs, m)
    requires Places(dirs, a, New(x)) && Places(dirs, b, New(y))
    ensures x != y && !Unique(dirs + {x, y})
  {
    PlacedName(dirs, a, x, m);
    PlacedName(dirs, b, y, m);
    assert TaskDir(x).value != TaskDir(y).value;
    assert Shares(x, y);
  }

  // ----- a verb slug that is later the name of another directory -----

  /** `Pad3(n)-rest` can still be placed: no task has the number `n` or a higher one, and `rest` is a
      slug without a number that finds nothing. */
  ghost predicate CanCompose(dirs: set<string>, n: nat, rest: string) {
    && 1 <= n <= 1000
    && (forall d :: d in dirs && IsTask(d) ==> NumberIn(d) < n)
    && IsSlug(rest) && !IsTask(rest) && Matches(dirs, rest) == {}
  }

  ghost predicate Capturable(dirs: set<string>, verb: string) {
    exists n: nat, rest :: CanCompose(dirs, n, rest) && verb == Pad3(n) + "-" + rest
  }

  /** What this comes to for a verb slug of the numbered shape. */
  lemma CapturableIs(dirs: set<string>, verb: string)
    requires IsTask(verb) && Free(verb, '\n')
    ensures Capturable(dirs, verb) <==>
            var rest := TaskDir(verb).value.slug;
            && NumberIn(verb) > 0 && (forall d :: d in dirs && IsTask(d) ==> NumberIn(d) < NumberIn(verb))
            && IsSafe(rest) && !IsTask(rest) && Matches(dirs, rest) == {}
  {
    hide Matches, IsSafe;
    var n, rest := NumberIn(verb), TaskDir(verb).value.slug;
    assert verb[|verb| - 1] != '\n';
    Pad3Digits(verb[..3]);
    assert verb == Pad3(n) + "-" + rest;
    forall k: nat, r | CanCompose(dirs, k, r) && verb == Pad3(k) + "-" + r ensures k == n && r == rest {
      NameReadsBack(k, r);
      Pad3Value(n);
      if k < 1000 {
        Pad3Value(k);
      }
    }
    if IsSafe(rest) && n > 0 {
      assert IsSlug(rest);
    }
  }

  lemma Pad3Digits(number: string)
    requires |number| == 3 && IsDigit(number[0]) && IsDigit(number[1]) && IsDigit(number[2])
    ensures NumberOf(number) < 1000 && Pad3(NumberOf(number)) == number
  {
    ThreeDigits(DigitValue(number[0]), DigitValue(number[1]), DigitValue(number[2]));
  }

  lemma ThreeDigits(a: nat, b: nat, c: nat)
    requires a < 10 && b < 10 && c < 10
    ensures var n := 100 * a + 10 * b + c; n < 1000 && n / 100 == a && n / 10 % 10 == b && n % 10 == c
  {
    var n := 100 * a + 10 * b + c;
    assert n / 10 == 10 * a + b;
  }

  /** A placement that cannot compose the verb slug of a task leaves it like that. */
  lemma PlacementMisses(dirs: set<string>, task: string, slug: string, name: string)
    requires task in dirs && IsTask(task)
    requires var verb := TaskDir(task).value.slug; verb !in dirs && !Capturable(dirs, verb)
    requires IsSlug(slug) && Matches(dirs, slug) == {} && Places(dirs, slug, New(name))
    ensures var verb := TaskDir(task).value.slug; name != verb && !Capturable(dirs + {name}, verb)
  {
    hide IsSlug;
    var verb := TaskDir(task).value.slug;
    assert task in Matches(dirs, verb);
    if !IsTask(slug) {
      var m: nat :| Highest(dirs, m) && name == Pad3(m + 1) + "-" + slug;
      NumbersSmall(dirs, m);
      assert CanCompose(dirs, m + 1, slug);
    }
    forall n: nat, rest | CanCompose(dirs + {name}, n, rest) ensures CanCompose(dirs, n, rest) {
      assert Matches(dirs, rest) <= Matches(dirs + {name}, rest) || rest == name;
    }
  }

  lemma NumbersSmall(dirs: set<string>, m: nat)
    requires Highest(dirs, m)
    ensures m <= 999
  {
  }

  lemma {:induction false} HighestExists(dirs: set<string>) returns (m: nat)
    ensures Highest(dirs, m)
  {
    if dirs == {} {
      m := 0;
    } else {
      var d :| d in dirs;
      m := HighestExists(dirs - {d});
      if IsTask(d) && NumberIn(d) > m {
        m := NumberIn(d);
      }
    }
  }

  /** Longer than any name. */
  lemma {:induction false} LengthBound(dirs: set<string>) returns (n: nat)
    ensures forall d :: d in dirs ==> |d| < n
  {
    if dirs == {} {
      n := 0;
    } else {
      var d :| d in dirs;
      n := LengthBound(dirs - {d});
      if |d| >= n {
        n := |d| + 1;
      }
    }
  }

  /** The next number can be raised by typing a numbered name that nothing else has a part of. */
  lemma FillerExists(dirs: set<string>, n: nat, rest: string) returns (filler: string)
    requires CanCompose(dirs, n, rest) && n >= 2
    requires forall d :: d in dirs && IsTask(d) ==> NumberIn(d) < n - 1
    ensures IsSlug(filler) && IsTask(filler) && Matches(dirs, filler) == {} && Places(dirs, filler, New(filler))
    ensures Highest(dirs + {filler}, n - 1) && CanCompose(dirs + {filler}, n, rest)
  {
    hide Pad3, NumberOf;
    var length := LengthBound(dirs + {rest});
    var word := seq(length + 1, _ => 'x');
    filler := Pad3(n - 1) + "-" + word;
    Pad3Value(n - 1);
    NameReadsBack(n - 1, word);
    Pad3Safe(n - 1, word);
    assert forall d :: d in dirs ==> |d| < length;
    assert forall d :: d in dirs && IsTask(d) ==> |TaskDir(d).value.slug| < length;
    assert rest in dirs + {rest} && |rest| < length;
    assert filler !in dirs && Matches(dirs, filler) == {};
    FillerIsAlone(dirs, filler, rest);
  }

  lemma Pad3Safe(n: nat, word: string)
    requires n < 1000 && forall i :: 0 <= i < |word| ==> word[i] == 'x'
    ensures IsSlug(Pad3(n) + "-" + word)
  {
  }

  lemma FillerIsAlone(dirs: set<string>, filler: string, rest: string)
    requires IsTask(filler) && TaskDir(filler).value.slug != rest && filler != rest
    requires forall d :: d in dirs && IsTask(d) ==> NumberIn(d) < NumberIn(filler)
    requires forall d :: d in dirs && IsTask(d) ==> TaskDir(d).value.slug != TaskDir(filler).value.slug
    requires Matches(dirs, rest) == {}
    ensures !(exists d :: d in dirs && Shares(d, filler))
    ensures Highest(dirs + {filler}, NumberIn(filler)) && Matches(dirs + {filler}, rest) == {}
  {
    hide TaskDir, NumberOf;
  }

  // ----- what has to be typed -----

  lemma NothingInFront(left: string, name: string)
    requires left <= name && All(left, Space) && name != "" && IsDigit(name[0])
    ensures left == ""
  {
  }

  /** A name that starts with a digit is cut at its end only. */
  lemma CutAtEnd(name: string)
    requires name != "" && IsDigit(name[0])
    ensures WithoutSuffix(Strip(name), ".md") <= name
    ensures Normalize(name) == var s := WithoutSuffix(Strip(name), ".md"); if s == "" then None else Some(s)
  {
    var left, right := TrimSplit(name, Space);
    NothingInFront(left, name);
    var s := WithoutSuffix(Strip(name), ".md");
    assert s <= name;
    assert s != "" ==> s[0] == name[0];
    assert "PLAN-"[0] == 'P' && "PLAN"[0] == 'P';
  }

  /** What is cut starts with a blank or a dot. */
  lemma CutBehind(name: string)
    requires name != "" && IsDigit(name[0])
    ensures var s := WithoutSuffix(Strip(name), ".md");
            && (s == name <==> Trimmed(name, Space) && !EndsWith(name, ".md"))
            && (s != name && s <= name ==> name[|s|] == '.' || IsSpace(name[|s|]))
  {
    var left, right := TrimSplit(name, Space);
    TrimTrimmed(name, Space);
    NothingInFront(left, name);
    var core := Strip(name);
    assert name == core + right;
    if EndsWith(core, ".md") {
      assert core[|core| - 3] == core[|core| - 3..][0] == '.';
    } else if right != "" {
      assert name[|core|] == right[0];
    }
  }

  /** A task's own directory name normalises to itself exactly if no blank and no `.md` is at its end. */
  lemma OwnNameNormal(name: string)
    requires IsTask(name)
    ensures Normalize(name) == Some(name) <==> Trimmed(name, Space) && !EndsWith(name, ".md")
    ensures Normalize(name).Some? && Normalize(name) != Some(name) ==>
              var s := Normalize(name).value;
              |s| < |name| && s <= name && !IsDigit(name[|s|]) && name[|s|] != '-'
  {
    hide WithoutSuffix, Strip, Trimmed, EndsWith, Normalize;
    CutAtEnd(name);
    CutBehind(name);
  }

  /** So exactly those names find their own directory as typed; for the others the lookup is made with
      another name. */
  lemma OwnNameFinds(dirs: set<string>, name: string)
    requires IsTask(name) && name in dirs
    ensures Normalize(name).Some? && Finds(dirs, Normalize(name).value, One(name)) <==>
            Trimmed(name, Space) && !EndsWith(name, ".md")
  {
    hide Normalize, Trimmed, EndsWith, Finds, IsDigit;
    OwnNameNormal(name);
    if Normalize(name) == Some(name) {
      OwnNameIsFound(dirs, name);
    } else if Normalize(name).Some? {
      OtherNameMisses(dirs, name, Normalize(name).value);
    }
  }

  lemma OwnNameIsFound(dirs: set<string>, name: string)
    requires name in dirs
    ensures Finds(dirs, name, One(name))
  {
  }

  /** A cut name is not the verb slug, since what was cut is no part of a repeated number. */
  lemma OtherNameMisses(dirs: set<string>, name: string, s: string)
    requires IsTask(name) && |s| < |name| && s <= name && !IsDigit(name[|s|]) && name[|s|] != '-'
    ensures !Finds(dirs, s, One(name))
  {
    hide TaskDir, IsDigit;
    if Finds(dirs, s, One(name)) {
      assert name in Matches(dirs, s);
      DigitsRepeat(name, |s|);
      assert false;
    }
  }

  /** If the verb slug is itself the beginning of the name, the name repeats its number to the end. */
  lemma {:induction false} DigitsRepeat(name: string, j: nat)
    requires IsTask(name) && TaskDir(name).value.slug <= name && j < |TaskDir(name).value.slug| + 4
    ensures IsDigit(name[j]) || name[j] == '-'
  {
    if j >= 4 {
      var verb := TaskDir(name).value.slug;
      assert name[j] == name[4..][j - 4] == verb[j - 4] == name[j - 4];
      DigitsRepeat(name, j - 4);
    }
  }

  /** The bare call: exactly what is written like nothing, or like the singleton. */
  lemma BareNames(raw: string)
    ensures Normalize(raw) == None <==>
            Strip(raw) in {"", ".md", "PLAN", "PLAN.md", "PLAN-", "PLAN-.md", "PLAN-PLAN", "PLAN-PLAN.md"}
  {
    hide Strip, WithoutSuffix, WithoutPrefix;
    var s := Strip(raw);
    SuffixOff(s);
    PrefixOff(WithoutSuffix(s, ".md"));
  }

  lemma SuffixOff(s: string)
    ensures WithoutSuffix(s, ".md") in {"", "PLAN", "PLAN-", "PLAN-PLAN"} <==>
            s in {"", ".md", "PLAN", "PLAN.md", "PLAN-", "PLAN-.md", "PLAN-PLAN", "PLAN-PLAN.md"}
  {
    hide WithoutSuffix;
    var t := WithoutSuffix(s, ".md");
    SuffixSplit(s);
    WithSuffix("");
    WithSuffix("PLAN");
    WithSuffix("PLAN-");
    WithSuffix("PLAN-PLAN");
    assert "" + ".md" == ".md" && "PLAN" + ".md" == "PLAN.md";
    assert "PLAN-" + ".md" == "PLAN-.md" && "PLAN-PLAN" + ".md" == "PLAN-PLAN.md";
  }

  lemma SuffixSplit(s: string)
    ensures s == WithoutSuffix(s, ".md") || s == WithoutSuffix(s, ".md") + ".md"
  {
    assert EndsWith(s, ".md") ==> s == s[..|s| - 3] + ".md";
  }

  lemma WithSuffix(t: string)
    ensures WithoutSuffix(t + ".md", ".md") == t
    ensures t == "" || t[|t| - 1] != 'd' ==> WithoutSuffix(t, ".md") == t
  {
    SuffixCut(t);
    EndsMd(t);
  }

  lemma PrefixOff(t: string)
    ensures WithoutPrefix(t, "PLAN-") in {"", "PLAN"} <==> t in {"", "PLAN", "PLAN-", "PLAN-PLAN"}
  {
    assert "PLAN-" <= t ==> t == "PLAN-" + t[5..];
    assert "PLAN-" + "PLAN" == "PLAN-PLAN" && "PLAN-" + "" == "PLAN-";
    assert "PLAN-PLAN"[..5] == "PLAN-" && "PLAN-PLAN"[5..] == "PLAN" && "PLAN-"[5..] == "";
  }

  /** The slug, the file name and the two stems all name the same plan. */
  lemma FourSpellings(name: string)
    requires name != "" && name != "PLAN" && Trimmed(name, Space) && !EndsWith(name, ".md") && !("PLAN-" <= name)
    ensures Normalize(name) == Normalize("PLAN-" + name) == Normalize(name + ".md")
         == Normalize("PLAN-" + name + ".md") == Some(name)
  {
    hide Normalize;
    SpelledAs(name, name);
    SpelledAs("PLAN-" + name, name);
    SpelledAs(name + ".md", name);
    SpelledAs("PLAN-" + name + ".md", name);
  }

  lemma SpelledAs(raw: string, name: string)
    requires name != "" && name != "PLAN" && Trimmed(name, Space) && !EndsWith(name, ".md") && !("PLAN-" <= name)
    requires raw in {name, "PLAN-" + name, name + ".md", "PLAN-" + name + ".md"}
    ensures Normalize(raw) == Some(name)
  {
    hide Trim;
    assert Trimmed(raw, Space) by {
      assert !IsSpace('P') && !IsSpace('d');
      assert raw[0] == 'P' || raw[0] == name[0];
      assert raw[|raw| - 1] == 'd' || raw[|raw| - 1] == name[|name| - 1];
    }
    TrimTrimmed(raw, Space);
    SuffixCut(name);
    SuffixCut("PLAN-" + name);
    NoSuffixBehind(name);
    assert ("PLAN-" + name)[5..] == name;
  }

  lemma SuffixCut(t: string)
    ensures WithoutSuffix(t + ".md", ".md") == t
    ensures !EndsWith(t, ".md") ==> WithoutSuffix(t, ".md") == t
  {
    assert (t + ".md")[|t|..] == ".md" && (t + ".md")[..|t|] == t;
  }

  lemma NoSuffixBehind(name: string)
    requires name != "" && !EndsWith(name, ".md")
    ensures !EndsWith("PLAN-" + name, ".md")
  {
    EndsMd(name);
    EndsMd("PLAN-" + name);
  }

  lemma EndsMd(s: string)
    ensures EndsWith(s, ".md") <==> |s| >= 3 && s[|s| - 3] == '.' && s[|s| - 2] == 'm' && s[|s| - 1] == 'd'
  {
    if |s| >= 3 {
      var tail := s[|s| - 3..];
      assert tail[0] == s[|s| - 3] && tail[1] == s[|s| - 2] && tail[2] == s[|s| - 1];
    }
  }

  /** Written as a file name, `PLAN-<name>.md`, every name reaches its directory. */
  lemma FileNameNormal(name: string)
    requires name != "" && name != "PLAN"
    ensures Normalize("PLAN-" + name + ".md") == Some(name)
  {
    var raw := "PLAN-" + name + ".md";
    assert raw[0] == 'P' && raw[|raw| - 1] == 'd';
    TrimTrimmed(raw, Space);
    assert raw[|raw| - 3..] == ".md";
    assert raw[..|raw| - 3] == "PLAN-" + name;
  }
}
