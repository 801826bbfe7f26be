/** `render_line` of scripts/alias_backfill.py and a reader of the two flow-list forms it writes. */
module AliasLine {
  import opened Text
  import AliasText

  const OPEN := "aliases: ["
  const STRUCTURE: set<char> := {'[', ']', '{', '}', ',', '?', '#', '\n', '\r', '\t'}

  predicate IsAlnum(c: char) {
    'A' <= c <= 'Z' || 'a' <= c <= 'z' || '0' <= c <= '9'
  }

  /** `_plain_safe`. */
  predicate PlainSafe(alias: string) {
    && alias != "" && IsAlnum(alias[0])
    && (forall i :: 1 <= i < |alias| ==> alias[i] !in STRUCTURE)
    && !Contains(alias, ": ") && !Contains(alias, " #")
  }

  function ReplaceChar(s: string, c: char, repl: string): string {
    if s == "" then "" else (if s[0] == c then repl else [s[0]]) + ReplaceChar(s[1..], c, repl)
  }

  /** `a.replace("\\", "\\\\").replace('"', '\\"')`. */
  function Escape(alias: string): string {
    ReplaceChar(ReplaceChar(alias, '\\', "\\\\"), '"', "\\\"")
  }

  function JoinStr(parts: seq<string>, sep: string): string {
    if |parts| == 0 then "" else if |parts| == 1 then parts[0] else parts[0] + sep + JoinStr(parts[1..], sep)
  }

  function EscapeAll(aliases: seq<string>): (r: seq<string>)
    ensures |r| == |aliases| && forall i :: 0 <= i < |r| ==> r[i] == Escape(aliases[i])
  {
    seq(|aliases|, i requires 0 <= i < |aliases| => Escape(aliases[i]))
  }

  predicate AllPlain(aliases: seq<string>) {
    forall i :: 0 <= i < |aliases| ==> PlainSafe(aliases[i])
  }

  function RenderLine(aliases: seq<string>): string {
    if AllPlain(aliases) then OPEN + JoinStr(aliases, ", ") + "]"
    else OPEN + "\"" + JoinStr(EscapeAll(aliases), "\", \"") + "\"]"
  }

  // ----- a reader -----

  function SplitPlain(s: string): seq<string>
    decreases |s|
  {
    match Find(s, ", ", 0)
    case None => [s]
    case Some(i) => [s[..i]] + SplitPlain(s[i + 2..])
  }

  datatype Scanned = Scanned(value: string, rest: string)

  /** A double-quoted scalar behind its opening quote: up to the first quote no backslash escapes. */
  function ScanQuoted(s: string): Option<Scanned> {
    if s == "" then None
    else if s[0] == '"' then Some(Scanned("", s[1..]))
    else
      var skip := if s[0] == '\\' then 1 else 0;
      if skip >= |s| then None
      else
        match ScanQuoted(s[skip + 1..])
        case None => None
        case Some(sc) => Some(Scanned([s[skip]] + sc.value, sc.rest))
  }

  lemma {:induction false} ScanShrinks(s: string)
    ensures ScanQuoted(s).Some? ==> |ScanQuoted(s).value.rest| < |s|
  {
    if s != "" && s[0] != '"' {
      var skip := if s[0] == '\\' then 1 else 0;
      if skip < |s| {
        ScanShrinks(s[skip + 1..]);
      }
    }
  }

  /** Quoted scalars separated by a comma and a blank. */
  function ReadQuoted(s: string): Option<seq<string>>
    decreases |s|
  {
    if s == "" || s[0] != '"' then None else
      ScanShrinks(s[1..]);
      match ScanQuoted(s[1..])
      case None => None
      case Some(sc) =>
        if sc.rest == "" then Some([sc.value])
        else if |sc.rest| >= 2 && sc.rest[..2] == ", " then
          match ReadQuoted(sc.rest[2..])
          case None => None
          case Some(values) => Some([sc.value] + values)
        else None
  }

  const INDICATORS: set<char> :=
    {'-', '?', ':', ',', '[', ']', '{', '}', '#', '&', '*', '!', '|', '>', '\'', '"', '%', '@', '`'}

  /** A plain scalar of a flow list that is read as it stands: it does not start with an indicator, holds no
      structure, no colon in front of a blank or the end, no `#` behind a blank, and no blank at an end. */
  ghost predicate PlainScalar(s: string) {
    && s != "" && s[0] !in INDICATORS
    && (forall i :: 0 <= i < |s| ==> s[i] !in {',', '[', ']', '{', '}', '\n', '\r'})
    && (forall i :: 0 <= i < |s| && s[i] == ':' ==> i + 1 < |s| && s[i + 1] !in {' ', '\t'})
    && (forall i :: 0 < i < |s| && s[i] == '#' ==> s[i - 1] !in {' ', '\t'})
    && s[0] !in {' ', '\t'} && s[|s| - 1] !in {' ', '\t'}
  }

  ghost predicate AllScalars(values: seq<string>) {
    forall i :: 0 <= i < |values| ==> PlainScalar(values[i])
  }

  ghost function ReadPlain(s: string): Option<seq<string>> {
    if AllScalars(SplitPlain(s)) then Some(SplitPlain(s)) else None
  }

  ghost function ReadLine(line: string): Option<seq<string>> {
    if OccursAt(line, "aliases: [", 0) && |line| > 10 && line[|line| - 1] == ']' then
      var inner := line[10..|line| - 1];
      if inner != "" && inner[0] == '"' then ReadQuoted(inner) else ReadPlain(inner)
    else None
  }

  // ----- the plain form -----

  lemma {:induction false} SplitJoinPlain(aliases: seq<string>)
    requires |aliases| >= 1 && AllPlain(aliases)
    ensures SplitPlain(JoinStr(aliases, ", ")) == aliases
    ensures var s := JoinStr(aliases, ", "); s != "" && s[0] != '"'
  {
    var a, s := aliases[0], JoinStr(aliases, ", ");
    assert forall i :: 0 <= i < |a| ==> a[i] != ',';
    if |aliases| == 1 {
      NoComma(a);
    } else {
      var rest := JoinStr(aliases[1..], ", ");
      SplitJoinPlain(aliases[1..]);
      FirstComma(a, rest);
      assert s == a + ", " + rest;
      assert s[..|a|] == a && s[|a| + 2..] == rest;
      assert [a] + aliases[1..] == aliases;
    }
  }

  lemma NoComma(a: string)
    requires Free(a, ',')
    ensures Find(a, ", ", 0).None?
  {
    forall j: nat | j < |a| ensures !OccursAt(a, ", ", j) {
      assert a[j] != ',';
      OccursChars(a, ", ", j);
    }
  }

  lemma FirstComma(a: string, rest: string)
    requires Free(a, ',')
    ensures Find(a + ", " + rest, ", ", 0) == Some(|a|)
  {
    var s := a + ", " + rest;
    assert s[|a|..|a| + 2] == ", ";
    forall j | 0 <= j < |a| ensures !OccursAt(s, ", ", j) {
      OccursChars(s, ", ", j);
      assert s[j] == a[j];
    }
    FindIs(s, ", ", 0, |a|);
  }

  // ----- the quoted form -----

  /** One character at a time: a backslash in front of each backslash and each quote. */
  function EscapeChar(c: char): string {
    if c == '\\' then "\\\\" else if c == '"' then "\\\"" else [c]
  }

  lemma {:induction false} ReplaceCharConcat(a: string, b: string, c: char, repl: string)
    ensures ReplaceChar(a + b, c, repl) == ReplaceChar(a, c, repl) + ReplaceChar(b, c, repl)
  {
    if a == "" {
      assert a + b == b;
    } else {
      assert (a + b)[1..] == a[1..] + b;
      ReplaceCharConcat(a[1..], b, c, repl);
    }
  }

  lemma EscapeStep(s: string)
    requires s != ""
    ensures Escape(s) == EscapeChar(s[0]) + Escape(s[1..])
  {
    var first := if s[0] == '\\' then "\\\\" else [s[0]];
    ReplaceCharConcat(first, ReplaceChar(s[1..], '\\', "\\\\"), '"', "\\\"");
    if s[0] == '\\' {
      assert first[1..] == "\\" && first[1..][1..] == "";
      assert ReplaceChar(first[1..], '"', "\\\"") == "\\";
    } else {
      assert first[1..] == "";
    }
  }

  lemma EscapeEmpty()
    ensures Escape("") == ""
  {
  }

  lemma {:induction false} ScanEscaped(a: string, rest: string)
    ensures ScanQuoted(Escape(a) + "\"" + rest) == Some(Scanned(a, rest))
  {
    hide Escape;
    var s := Escape(a) + "\"" + rest;
    if a == "" {
      EscapeEmpty();
      assert s == "\"" + rest;
      assert s[1..] == rest;
    } else {
      EscapeStep(a);
      ScanEscaped(a[1..], rest);
      var tail := Escape(a[1..]) + "\"" + rest;
      assert s == EscapeChar(a[0]) + tail;
      assert s[|EscapeChar(a[0])|..] == tail;
      assert a == [a[0]] + a[1..];
    }
  }

  lemma ReadLast(a: string)
    ensures ReadQuoted("\"" + Escape(a) + "\"") == Some([a])
  {
    var s := "\"" + Escape(a) + "\"";
    assert s[1..] == Escape(a) + "\"" + "";
    ScanEscaped(a, "");
  }

  lemma ReadNext(a: string, inner: string, values: seq<string>)
    requires ReadQuoted(inner) == Some(values)
    ensures ReadQuoted("\"" + Escape(a) + "\", " + inner) == Some([a] + values)
  {
    var s, rest := "\"" + Escape(a) + "\", " + inner, ", " + inner;
    assert s[1..] == Escape(a) + "\"" + rest;
    ScanEscaped(a, rest);
    ScanShrinks(s[1..]);
    assert rest[..2] == ", " && rest[2..] == inner;
  }

  lemma {:induction false} ReadJoinQuoted(aliases: seq<string>)
    requires |aliases| >= 1
    ensures ReadQuoted("\"" + JoinStr(EscapeAll(aliases), "\", \"") + "\"") == Some(aliases)
  {
    if |aliases| == 1 {
      ReadLast(aliases[0]);
      assert aliases == [aliases[0]];
    } else {
      var tail := JoinStr(EscapeAll(aliases[1..]), "\", \"");
      var inner := "\"" + tail + "\"";
      ReadJoinQuoted(aliases[1..]);
      ReadNext(aliases[0], inner, aliases[1..]);
      assert EscapeAll(aliases)[1..] == EscapeAll(aliases[1..]);
      QuoteJoin(Escape(aliases[0]), tail);
      assert [aliases[0]] + aliases[1..] == aliases;
    }
  }

  lemma QuoteJoin(first: string, tail: string)
    ensures "\"" + (first + "\", \"" + tail) + "\"" == "\"" + first + "\", " + ("\"" + tail + "\"")
  {
  }

  // ----- main results -----

  /** What the regular expression and the two tests let through, from the characters. */
  ghost predicate WrittenPlain(a: string) {
    && a != "" && ('A' <= a[0] <= 'Z' || 'a' <= a[0] <= 'z' || '0' <= a[0] <= '9')
    && (forall i :: 1 <= i < |a| ==> a[i] !in {'[', ']', '{', '}', ',', '?', '#', '\n', '\r', '\t'})
    && forall i :: 0 <= i && i + 1 < |a| ==> !(a[i] == ':' && a[i + 1] == ' ')
  }

  lemma PlainSafeIs(a: string)
    ensures PlainSafe(a) <==> WrittenPlain(a)
  {
    hide Find;
    HoldsPair(a, ": ");
    HoldsPair(a, " #");
    assert Contains(a, ": ") <==> exists i :: 0 <= i && i + 1 < |a| && a[i] == ':' && a[i + 1] == ' ';
    assert Contains(a, " #") <==> exists i :: 0 <= i && i + 1 < |a| && a[i] == ' ' && a[i + 1] == '#';
  }

  lemma HoldsPair(s: string, pair: string)
    requires |pair| == 2
    ensures Contains(s, pair) <==> exists i :: 0 <= i && i + 1 < |s| && s[i] == pair[0] && s[i + 1] == pair[1]
  {
    forall i: nat ensures OccursAt(s, pair, i) <==> i + 1 < |s| && s[i] == pair[0] && s[i + 1] == pair[1] {
      if i + 1 < |s| {
        assert s[i..i + 2] == [s[i], s[i + 1]] && pair == [pair[0], pair[1]];
      }
    }
    if Contains(s, pair) {
      var i := Find(s, pair, 0).value;
      assert OccursAt(s, pair, i) && s[i] == pair[0] && s[i + 1] == pair[1];
    } else {
      forall i: nat | i + 1 < |s| ensures !(s[i] == pair[0] && s[i + 1] == pair[1]) {
        assert !OccursAt(s, pair, i);
      }
    }
  }

  /** An alias let through is read as it stands unless it ends in a blank or a colon. */
  lemma WrittenPlainReads(a: string)
    requires WrittenPlain(a)
    ensures PlainScalar(a) <==> a[|a| - 1] != ' ' && a[|a| - 1] != ':'
  {
  }

  /** The list is written plain exactly if every alias is let through. */
  lemma PlainFormIs(aliases: seq<string>)
    requires |aliases| >= 1
    ensures |RenderLine(aliases)| > 10
    ensures RenderLine(aliases)[10] != '"' <==> forall i :: 0 <= i < |aliases| ==> WrittenPlain(aliases[i])
  {
    hide PlainSafe;
    forall i | 0 <= i < |aliases| ensures PlainSafe(aliases[i]) <==> WrittenPlain(aliases[i]) {
      PlainSafeIs(aliases[i]);
    }
    if AllPlain(aliases) {
      SplitJoinPlain(aliases);
    }
  }

  /** The reader takes a rendered list of aliases back apart, in either form, exactly if it is quoted or no
      alias ends in a blank or a colon. */
  lemma RenderRoundTrip(aliases: seq<string>)
    requires |aliases| >= 1
    ensures |RenderLine(aliases)| > 10
    ensures ReadLine(RenderLine(aliases)) == Some(aliases) <==>
            || RenderLine(aliases)[10] == '"'
            || forall i :: 0 <= i < |aliases| ==> aliases[i] != "" && aliases[i][|aliases[i]| - 1] !in {' ', ':'}
  {
    hide ReadLine, JoinStr, EscapeAll, SplitPlain, ReadQuoted, PlainSafe, PlainScalar, WrittenPlain;
    PlainFormIs(aliases);
    forall i | 0 <= i < |aliases| ensures PlainSafe(aliases[i]) <==> WrittenPlain(aliases[i]) {
      PlainSafeIs(aliases[i]);
    }
    if AllPlain(aliases) {
      SplitJoinPlain(aliases);
      ReadInner(JoinStr(aliases, ", "));
      forall i | 0 <= i < |aliases|
        ensures aliases[i] != ""
        ensures PlainScalar(aliases[i]) <==> aliases[i][|aliases[i]| - 1] !in {' ', ':'}
      {
        NotEmptyPlain(aliases[i]);
        WrittenPlainReads(aliases[i]);
      }
    } else {
      ReadJoinQuoted(aliases);
      var inner := "\"" + JoinStr(EscapeAll(aliases), "\", \"") + "\"";
      ReadInner(inner);
      assert RenderLine(aliases) == OPEN + inner + "]";
    }
  }

  lemma NotEmptyPlain(a: string)
    requires WrittenPlain(a)
    ensures a != ""
  {
  }

  lemma ReadInner(inner: string)
    requires inner != ""
    ensures ReadLine(OPEN + inner + "]") == if inner[0] == '"' then ReadQuoted(inner) else ReadPlain(inner)
  {
  }

  lemma {:induction false} ReplaceCharFree(s: string, c: char, repl: string, sep: char)
    requires Free(s, sep) && Free(repl, sep)
    ensures Free(ReplaceChar(s, c, repl), sep)
  {
    if s != "" {
      ReplaceCharFree(s[1..], c, repl, sep);
      assert s[0] != sep;
    }
  }

  lemma {:induction false} JoinStrFree(parts: seq<string>, repl: string, sep: char)
    requires (forall i :: 0 <= i < |parts| ==> Free(parts[i], sep)) && Free(repl, sep)
    ensures Free(JoinStr(parts, repl), sep)
  {
    if |parts| > 1 {
      JoinStrFree(parts[1..], repl, sep);
    }
  }

  /** The rendered text is one line, and it starts with the key. */
  lemma RenderIsOneLine(aliases: seq<string>)
    requires forall i :: 0 <= i < |aliases| ==> Free(aliases[i], '\n')
    ensures Free(RenderLine(aliases), '\n') && OccursAt(RenderLine(aliases), AliasText.KEY, 0)
  {
    JoinStrFree(aliases, ", ", '\n');
    forall i | 0 <= i < |aliases| ensures Free(EscapeAll(aliases)[i], '\n') {
      ReplaceCharFree(aliases[i], '\\', "\\\\", '\n');
      ReplaceCharFree(ReplaceChar(aliases[i], '\\', "\\\\"), '"', "\\\"", '\n');
    }
    JoinStrFree(EscapeAll(aliases), "\", \"", '\n');
    assert RenderLine(aliases)[0..8] == AliasText.KEY;
  }
}
