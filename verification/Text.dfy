/** String primitives: substring search, trimming, splitting on a separator character. */
module Text {

  datatype Option<+T> = None | Some(value: T)

  // ----- searching -----

  predicate OccursAt(text: string, pat: string, i: nat) {
    i + |pat| <= |text| && text[i..i + |pat|] == pat
  }

  /** The first occurrence at or after `from`. */
  predicate FirstAt(text: string, pat: string, from: nat, i: nat) {
    from <= i && OccursAt(text, pat, i) && forall j :: from <= j < i ==> !OccursAt(text, pat, j)
  }

  lemma FindExists(text: string, pat: string, from: nat, i: nat)
    requires from <= i && OccursAt(text, pat, i)
    ensures exists k: nat :: k <= |text| && FirstAt(text, pat, from, k)
    decreases i
  {
    if j: nat :| from <= j < i && OccursAt(text, pat, j) {
      FindExists(text, pat, from, j);
    } else {
      assert FirstAt(text, pat, from, i);
    }
  }

  function Find(text: string, pat: string, from: nat): (r: Option<nat>)
    ensures r.Some? ==> FirstAt(text, pat, from, r.value)
    ensures r.None? ==> forall j :: from <= j ==> !OccursAt(text, pat, j)
  {
    assert forall i: nat :: from <= i && OccursAt(text, pat, i) ==>
             exists k: nat :: k <= |text| && FirstAt(text, pat, from, k) by {
      forall i: nat | from <= i && OccursAt(text, pat, i)
        ensures exists k: nat :: k <= |text| && FirstAt(text, pat, from, k)
      {
        FindExists(text, pat, from, i);
      }
    }
    if exists i: nat :: i <= |text| && FirstAt(text, pat, from, i) then
      var i: nat :| i <= |text| && FirstAt(text, pat, from, i); Some(i)
    else None
  }

  predicate Contains(text: string, pat: string) {
    Find(text, pat, 0).Some?
  }

  /** `Find` is determined by what it means. */
  lemma FindIs(text: string, pat: string, from: nat, i: nat)
    requires from <= i && OccursAt(text, pat, i)
    requires forall j :: from <= j < i ==> !OccursAt(text, pat, j)
    ensures Find(text, pat, from) == Some(i)
  {
  }

  lemma OccursChars(text: string, pat: string, i: nat)
    ensures OccursAt(text, pat, i) <==> i + |pat| <= |text| && forall k :: i <= k < i + |pat| ==> text[k] == pat[k - i]
  {
  }

  /** Occurrences inside a factor are occurrences inside the whole text. */
  lemma OccursInFactor(pre: string, mid: string, post: string, pat: string, i: nat)
    requires i + |pat| <= |mid|
    ensures OccursAt(pre + mid + post, pat, |pre| + i) <==> OccursAt(mid, pat, i)
  {
  }

  lemma FindInFactor(pre: string, mid: string, post: string, pat: string, from: nat, p: nat)
    requires Find(mid, pat, from) == Some(p)
    ensures Find(pre + mid + post, pat, |pre| + from) == Some(|pre| + p)
  {
    OccursInFactor(pre, mid, post, pat, p);
    forall j | |pre| + from <= j < |pre| + p ensures !OccursAt(pre + mid + post, pat, j) {
      OccursInFactor(pre, mid, post, pat, j - |pre|);
    }
    FindIs(pre + mid + post, pat, |pre| + from, |pre| + p);
  }

  /** A first occurrence that ends inside a common prefix is a first occurrence in both texts. */
  lemma FindInPrefix(a: string, b: string, n: nat, pat: string, from: nat, i: nat)
    requires n <= |a| && n <= |b| && a[..n] == b[..n]
    requires Find(a, pat, from) == Some(i) && i + |pat| <= n
    ensures Find(b, pat, from) == Some(i)
  {
    forall j | from <= j <= i ensures OccursAt(b, pat, j) <==> OccursAt(a, pat, j) {
      assert b[j..j + |pat|] == b[..n][j..j + |pat|] == a[..n][j..j + |pat|] == a[j..j + |pat|];
    }
    FindIs(b, pat, from, i);
  }

  /** A pattern without `sep` never straddles a `sep` of the text. */
  lemma OccursAvoids(text: string, pat: string, i: nat, sep: char, k: nat)
    requires OccursAt(text, pat, i) && Free(pat, sep)
    requires k < |text| && text[k] == sep
    ensures !(i <= k < i + |pat|)
  {
  }

  // ----- trimming -----

  datatype CharClass = Space | Slash | Newline | SlashStar

  /** Python's `str.isspace`, which is also what `\s` matches in a text pattern. */
  predicate IsSpace(c: char) {
    || ('\U{0009}' <= c <= '\U{000D}') || ('\U{001C}' <= c <= ' ')
    || c == '\U{0085}' || c == '\U{00A0}' || c == '\U{1680}' || ('\U{2000}' <= c <= '\U{200A}')
    || c == '\U{2028}' || c == '\U{2029}' || c == '\U{202F}' || c == '\U{205F}' || c == '\U{3000}'
  }

  /** The characters Python's `strip()` takes off, one by one. */
  lemma SpaceTable(c: char)
    ensures IsSpace(c) <==> c in {
      '\t', '\n', '\U{000B}', '\U{000C}', '\r', '\U{001C}', '\U{001D}', '\U{001E}', '\U{001F}', ' ',
      '\U{0085}', '\U{00A0}', '\U{1680}', '\U{2000}', '\U{2001}', '\U{2002}', '\U{2003}', '\U{2004}', '\U{2005}',
      '\U{2006}', '\U{2007}', '\U{2008}', '\U{2009}', '\U{200A}', '\U{2028}', '\U{2029}', '\U{202F}', '\U{205F}',
      '\U{3000}'}
  {
  }

  predicate In(c: char, cls: CharClass) {
    match cls
    case Space => IsSpace(c)
    case Slash => c == '/'
    case Newline => c == '\n'
    case SlashStar => c == '/' || c == '*'
  }

  predicate All(s: string, cls: CharClass) {
    forall i :: 0 <= i < |s| ==> In(s[i], cls)
  }

  function TrimLeft(s: string, cls: CharClass): string {
    if s != [] && In(s[0], cls) then TrimLeft(s[1..], cls) else s
  }

  function TrimRight(s: string, cls: CharClass): string {
    if s != [] && In(s[|s| - 1], cls) then TrimRight(s[..|s| - 1], cls) else s
  }

  /** `s.strip()`, `s.strip("/")`, `s.strip("\n")`. */
  function Trim(s: string, cls: CharClass): string {
    TrimRight(TrimLeft(s, cls), cls)
  }

  function Strip(s: string): string {
    Trim(s, Space)
  }

  /** No character of the class at either end. */
  predicate Trimmed(s: string, cls: CharClass) {
    s == [] || (!In(s[0], cls) && !In(s[|s| - 1], cls))
  }

  lemma {:induction false} TrimLeftSplit(s: string, cls: CharClass) returns (left: string)
    ensures s == left + TrimLeft(s, cls) && All(left, cls)
    ensures TrimLeft(s, cls) == [] || !In(TrimLeft(s, cls)[0], cls)
  {
    if s != [] && In(s[0], cls) {
      var rest := TrimLeftSplit(s[1..], cls);
      left := [s[0]] + rest;
      assert s == [s[0]] + s[1..];
    } else {
      left := [];
    }
  }

  lemma {:induction false} TrimRightSplit(s: string, cls: CharClass) returns (right: string)
    ensures s == TrimRight(s, cls) + right && All(right, cls)
    ensures TrimRight(s, cls) == [] || !In(TrimRight(s, cls)[|TrimRight(s, cls)| - 1], cls)
  {
    if s != [] && In(s[|s| - 1], cls) {
      var rest := TrimRightSplit(s[..|s| - 1], cls);
      right := rest + [s[|s| - 1]];
      assert s == s[..|s| - 1] + [s[|s| - 1]];
    } else {
      right := [];
    }
  }

  /** Trimming removes a run of the class at each end and nothing else. */
  lemma TrimSplit(s: string, cls: CharClass) returns (left: string, right: string)
    ensures s == left + Trim(s, cls) + right && All(left, cls) && All(right, cls)
    ensures Trimmed(Trim(s, cls), cls)
  {
    left := TrimLeftSplit(s, cls);
    var t := TrimLeft(s, cls);
    right := TrimRightSplit(t, cls);
    var m := Trim(s, cls);
    assert t == m + right;
    if m != [] {
      assert m[0] == t[0];
    }
    assert s == left + (m + right) == left + m + right;
  }

  lemma {:induction false} TrimLeftRun(left: string, s: string, cls: CharClass)
    requires All(left, cls)
    ensures TrimLeft(left + s, cls) == TrimLeft(s, cls)
  {
    if left == [] {
      assert left + s == s;
    } else {
      assert (left + s)[1..] == left[1..] + s;
      assert (left + s)[0] == left[0];
      TrimLeftRun(left[1..], s, cls);
    }
  }

  lemma {:induction false} TrimRightRun(s: string, right: string, cls: CharClass)
    requires All(right, cls)
    ensures TrimRight(s + right, cls) == TrimRight(s, cls)
  {
    if right == [] {
      assert s + right == s;
    } else {
      var init := right[..|right| - 1];
      assert (s + right)[..|s + right| - 1] == s + init;
      assert (s + right)[|s + right| - 1] == right[|right| - 1];
      TrimRightRun(s, init, cls);
    }
  }

  /** A trimmed core between two runs of the class is what trimming returns. */
  lemma TrimIs(left: string, core: string, right: string, cls: CharClass)
    requires All(left, cls) && All(right, cls) && Trimmed(core, cls)
    ensures Trim(left + core + right, cls) == core
  {
    assert left + core + right == left + (core + right);
    TrimLeftRun(left, core + right, cls);
    if core == [] {
      assert core + right == right + [];
      TrimLeftRun(right, [], cls);
    } else {
      TrimRightRun(core, right, cls);
    }
  }

  lemma TrimTrimmed(s: string, cls: CharClass)
    ensures Trim(s, cls) == s <==> Trimmed(s, cls)
  {
    if Trimmed(s, cls) {
      TrimIs([], s, [], cls);
      assert [] + s + [] == s;
    } else {
      var left, right := TrimSplit(s, cls);
    }
  }

  // ----- splitting -----

  predicate Free(s: string, sep: char) {
    forall i :: 0 <= i < |s| ==> s[i] != sep
  }

  lemma FreeConcat(a: string, b: string, sep: char)
    ensures Free(a + b, sep) <==> Free(a, sep) && Free(b, sep)
  {
    if Free(a + b, sep) {
      assert forall i :: 0 <= i < |a| ==> a[i] == (a + b)[i];
      assert forall i :: 0 <= i < |b| ==> b[i] == (a + b)[|a| + i];
    }
  }

  /** `text.split(sep)` for a one-character separator: never empty. */
  function Split(text: string, sep: char): (r: seq<string>)
    ensures |r| >= 1
  {
    if text == [] then [[]]
    else
      var rest := Split(text[1..], sep);
      if text[0] == sep then [[]] + rest
      else [[text[0]] + rest[0]] + rest[1..]
  }

  /** `sep.join(parts)`. */
  function Join(parts: seq<string>, sep: char): string
    requires |parts| >= 1
  {
    if |parts| == 1 then parts[0] else parts[0] + [sep] + Join(parts[1..], sep)
  }

  lemma {:induction false} SplitParts(text: string, sep: char)
    ensures forall i :: 0 <= i < |Split(text, sep)| ==> Free(Split(text, sep)[i], sep)
  {
    if text != [] {
      SplitParts(text[1..], sep);
    }
  }

  lemma {:induction false} JoinSplit(text: string, sep: char)
    ensures Join(Split(text, sep), sep) == text
  {
    if text != [] {
      var rest := Split(text[1..], sep);
      JoinSplit(text[1..], sep);
      assert text == [text[0]] + text[1..];
      if text[0] == sep {
        assert ([[]] + rest)[1..] == rest;
      } else {
        var first := [text[0]] + rest[0];
        assert ([first] + rest[1..])[1..] == rest[1..];
        if |rest| > 1 {
          assert [text[0]] + (rest[0] + [sep] + Join(rest[1..], sep)) == first + [sep] + Join(rest[1..], sep);
        }
      }
    }
  }

  lemma {:induction false} SplitFree(part: string, sep: char)
    requires Free(part, sep)
    ensures Split(part, sep) == [part]
  {
    if part != [] {
      SplitFree(part[1..], sep);
      assert part == [part[0]] + part[1..];
    }
  }

  lemma {:induction false} SplitCons(part: string, rest: string, sep: char)
    requires Free(part, sep)
    ensures Split(part + [sep] + rest, sep) == [part] + Split(rest, sep)
  {
    var text := part + [sep] + rest;
    if part == [] {
      assert text == [sep] + rest;
      assert text[1..] == rest;
    } else {
      assert text[1..] == part[1..] + [sep] + rest;
      SplitCons(part[1..], rest, sep);
      assert part == [part[0]] + part[1..];
    }
  }

  lemma {:induction false} SplitJoin(parts: seq<string>, sep: char)
    requires |parts| >= 1 && forall i :: 0 <= i < |parts| ==> Free(parts[i], sep)
    ensures Split(Join(parts, sep), sep) == parts
  {
    if |parts| == 1 {
      SplitFree(parts[0], sep);
    } else {
      SplitJoin(parts[1..], sep);
      SplitCons(parts[0], Join(parts[1..], sep), sep);
    }
  }

  lemma {:induction false} JoinConcat(a: seq<string>, b: seq<string>, sep: char)
    requires |a| >= 1 && |b| >= 1
    ensures Join(a + b, sep) == Join(a, sep) + [sep] + Join(b, sep)
  {
    if |a| == 1 {
      assert (a + b)[1..] == b;
    } else {
      assert (a + b)[1..] == a[1..] + b;
      JoinConcat(a[1..], b, sep);
    }
  }

  lemma SplitConcat(a: string, b: string, sep: char)
    ensures Split(a + [sep] + b, sep) == Split(a, sep) + Split(b, sep)
  {
    hide Split, Join;
    var parts := Split(a, sep) + Split(b, sep);
    SplitParts(a, sep);
    SplitParts(b, sep);
    JoinSplit(a, sep);
    JoinSplit(b, sep);
    JoinConcat(Split(a, sep), Split(b, sep), sep);
    SplitJoin(parts, sep);
  }

  predicate EndsWith(s: string, suffix: string) {
    |suffix| <= |s| && s[|s| - |suffix|..] == suffix
  }

  function Replace(s: string, from: char, to: char): (r: string)
    ensures |r| == |s| && forall i :: 0 <= i < |s| ==> r[i] == if s[i] == from then to else s[i]
  {
    seq(|s|, i requires 0 <= i < |s| => if s[i] == from then to else s[i])
  }

  // ----- decimal numbers, in ASCII digits -----

  predicate IsDigit(c: char) {
    '0' <= c <= '9'
  }

  function DigitChar(d: nat): (c: char)
    requires d < 10
    ensures IsDigit(c)
  {
    '0' + d as char
  }

  function DigitValue(c: char): nat
    requires IsDigit(c)
  {
    (c - '0') as nat
  }

  function Decimal(n: nat): (s: string)
    ensures AllDigits(s)
  {
    if n < 10 then [DigitChar(n)] else Decimal(n / 10) + [DigitChar(n % 10)]
  }

  /** `\d+`. */
  predicate AllDigits(s: string) {
    s != "" && forall i :: 0 <= i < |s| ==> IsDigit(s[i])
  }

  /** `int(s)`. */
  function IntOf(s: string): nat
    requires AllDigits(s)
  {
    if |s| == 1 then DigitValue(s[0]) else 10 * IntOf(s[..|s| - 1]) + DigitValue(s[|s| - 1])
  }

  lemma {:induction false} IntOfDecimal(n: nat)
    ensures IntOf(Decimal(n)) == n
  {
    if n >= 10 {
      IntOfDecimal(n / 10);
      var s := Decimal(n);
      assert s[..|s| - 1] == Decimal(n / 10);
    }
  }
}
