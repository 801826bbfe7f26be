/** scripts/merge-managed-section.py: inserting or replacing a marker-delimited section. */
module ManagedSection {
  import opened Text

  datatype Action = Created | Appended | Replaced
  datatype Merged = Merged(text: string, action: Action)

  /** The two tokens a marker name turns into. */
  datatype Tokens = Tokens(begin: string, end: string)

  /** The matched section, from the start of BEGIN to just past END and its optional newline. */
  datatype Span = Span(start: nat, end: nat)

  /** A marker is a token: it holds neither a line break nor the start of a comment. */
  predicate IsToken(marker: string) {
    Free(marker, '\n') && Free(marker, '<')
  }

  function TokensOf(marker: string): Tokens {
    Tokens("<!-- " + marker + ":BEGIN", "<!-- " + marker + ":END -->")
  }

  const MANAGED_BY := " — managed by agentm; "
  const DO_NOT_EDIT := "do not edit between "
  const THESE_MARKERS := "these markers "
  const REFRESHED := "(refreshed on install --update) -->"
  const BEGIN_TAIL := MANAGED_BY + (DO_NOT_EDIT + (THESE_MARKERS + REFRESHED))

  function BeginLine(marker: string): string {
    TokensOf(marker).begin + BEGIN_TAIL + "\n\n"
  }

  function BuildBlock(marker: string, body: string): string {
    BeginLine(marker) + Strip(body) + "\n\n" + TokensOf(marker).end + "\n"
  }

  /** `\n?` after the END token. */
  function PastNewline(text: string, i: nat): nat {
    if i < |text| && text[i] == '\n' then i + 1 else i
  }

  /** `section_regex(marker).search(text)`: the first BEGIN, lazily extended to the first END after it. */
  function Section(text: string, tok: Tokens): (r: Option<Span>)
    ensures r.Some? ==> r.value.start <= r.value.end <= |text|
  {
    match Find(text, tok.begin, 0)
    case None => None
    case Some(i) =>
      match Find(text, tok.end, i + |tok.begin|)
      case None => None
      case Some(j) => Some(Span(i, PastNewline(text, j + |tok.end|)))
  }

  /** Trying only the first BEGIN loses nothing: any BEGIN with an END behind it gives a match, and
      no match starts further left. */
  lemma SectionSearchComplete(text: string, tok: Tokens, i: nat, j: nat)
    requires OccursAt(text, tok.begin, i)
    requires i + |tok.begin| <= j && OccursAt(text, tok.end, j)
    ensures Section(text, tok).Some? && Section(text, tok).value.start <= i
  {
  }

  /** The first END behind the BEGIN at `start` is at `j`, and `end` is behind it and its line break, if it has one. */
  ghost predicate EndsAt(text: string, tok: Tokens, start: nat, j: nat, end: nat) {
    && FirstAt(text, tok.end, start + |tok.begin|, j)
    && end == j + |tok.end| + (if j + |tok.end| < |text| && text[j + |tok.end|] == '\n' then 1 else 0)
  }

  /** What a section is, in any text: from the first BEGIN to the first END behind it. */
  lemma SectionMeans(text: string, tok: Tokens)
    ensures Section(text, tok).Some? ==>
              var span := Section(text, tok).value;
              FirstAt(text, tok.begin, 0, span.start) && exists j: nat :: EndsAt(text, tok, span.start, j, span.end)
  {
    if Section(text, tok).Some? {
      var start := Find(text, tok.begin, 0).value;
      var j := Find(text, tok.end, start + |tok.begin|).value;
      assert EndsAt(text, tok, start, j, PastNewline(text, j + |tok.end|));
    }
  }

  function Separator(existing: string): string {
    if EndsWith(existing, "\n\n") then "" else if EndsWith(existing, "\n") then "\n" else "\n\n"
  }

  function Merge(existing: string, block: string, tok: Tokens): Merged {
    match Section(existing, tok)
    case Some(span) => Merged(existing[..span.start] + block + existing[span.end..], Replaced)
    case None =>
      if Strip(existing) != "" then Merged(existing + Separator(existing) + block, Appended)
      else Merged(block, Created)
  }

  /** A BEGIN that no END follows. */
  predicate OrphanBegin(text: string, tok: Tokens) {
    Contains(text, tok.begin) && Section(text, tok).None?
  }

  // ----- blocks, as the search sees them -----

  ghost predicate LineTokens(tok: Tokens) {
    && tok.begin != "" && tok.end != "" && Free(tok.begin, '\n') && Free(tok.end, '\n')
    && !IsSpace(tok.begin[0])
  }

  /** A block opens with BEGIN, closes with END and a newline, and its first END starts at `p`. */
  ghost predicate IsBlock(block: string, tok: Tokens, p: nat) {
    && OccursAt(block, tok.begin, 0) && |tok.begin| <= p
    && Find(block, tok.end, 0) == Some(p) && p + |tok.end| < |block|
    && block[|block| - 1] == '\n'
  }

  /** The first END is the block's own closing one. */
  ghost predicate OwnEnd(block: string, tok: Tokens, p: nat) {
    p + |tok.end| + 1 == |block|
  }

  /** In a text whose first BEGIN is a block's, the section runs up to that block's first END. */
  lemma SectionAtBlock(text: string, pre: string, block: string, post: string, tok: Tokens, p: nat)
    requires text == pre + block + post && IsBlock(block, tok, p)
    requires Find(text, tok.begin, 0) == Some(|pre|)
    ensures Section(text, tok) == Some(Span(|pre|, PastNewline(text, |pre| + p + |tok.end|)))
  {
    FindIs(block, tok.end, |tok.begin|, p);
    FindInFactor(pre, block, post, tok.end, |tok.begin|, p);
  }

  /** Merging again is a no-op exactly when the block's first END is its own. */
  lemma Remerge(text: string, pre: string, block: string, post: string, tok: Tokens, p: nat)
    requires text == pre + block + post && IsBlock(block, tok, p)
    requires Find(text, tok.begin, 0) == Some(|pre|)
    ensures Merge(text, block, tok).text == text <==> OwnEnd(block, tok, p)
    ensures OwnEnd(block, tok, p) ==> Section(text, tok) == Some(Span(|pre|, |pre| + |block|))
  {
    SectionAtBlock(text, pre, block, post, tok, p);
    EndOfBlock(text, pre, block, post, tok, p);
    ReplaceTail(text, pre, block, post, PastNewline(text, |pre| + p + |tok.end|));
  }

  lemma EndOfBlock(text: string, pre: string, block: string, post: string, tok: Tokens, p: nat)
    requires text == pre + block + post && IsBlock(block, tok, p)
    ensures PastNewline(text, |pre| + p + |tok.end|) <= |pre| + |block|
    ensures PastNewline(text, |pre| + p + |tok.end|) == |pre| + |block| <==> OwnEnd(block, tok, p)
  {
  }

  lemma ReplaceTail(text: string, pre: string, block: string, post: string, end: nat)
    requires text == pre + block + post && |pre| <= end <= |pre| + |block|
    ensures text[..|pre|] + block + text[end..] == text <==> end == |pre| + |block|
  {
  }

  // ----- the three ways to merge -----

  /** Replacing keeps the first BEGIN where it was. */
  lemma ReplacedBegin(existing: string, block: string, tok: Tokens, span: Span)
    requires Section(existing, tok) == Some(span) && OccursAt(block, tok.begin, 0)
    ensures Find(existing[..span.start] + block + existing[span.end..], tok.begin, 0) == Some(span.start)
  {
    var text := existing[..span.start] + block + existing[span.end..];
    var n := span.start + |tok.begin|;
    assert existing[span.start..n] == tok.begin == block[..|tok.begin|];
    assert existing[..n] == existing[..span.start] + tok.begin;
    assert text[..n] == existing[..span.start] + tok.begin;
    FindInPrefix(existing, text, n, tok.begin, 0, span.start);
  }

  /** A token without line breaks that starts before the appended text ends inside the old text. */
  lemma NoStraddle(existing: string, rest: string, pat: string, k: nat)
    requires existing != "" && Free(pat, '\n') && pat != ""
    requires k < |existing + Separator(existing)| && OccursAt(existing + Separator(existing) + rest, pat, k)
    ensures k + |pat| <= |existing| && OccursAt(existing, pat, k)
  {
    var pre := existing + Separator(existing);
    var text := pre + rest;
    assert text[|pre| - 1] == pre[|pre| - 1] == '\n';
    OccursAvoids(text, pat, k, '\n', |pre| - 1);
    if |Separator(existing)| > 0 {
      assert text[|existing|] == '\n';
      OccursAvoids(text, pat, k, '\n', |existing|);
    }
    assert text[k..k + |pat|] == existing[k..k + |pat|];
  }

  /** Without a BEGIN in front, the first BEGIN after appending is the block's. */
  lemma AppendedBegin(existing: string, block: string, tok: Tokens)
    requires LineTokens(tok) && existing != "" && !Contains(existing, tok.begin)
    requires OccursAt(block, tok.begin, 0)
    ensures Find(existing + Separator(existing) + block, tok.begin, 0) == Some(|existing + Separator(existing)|)
  {
    var pre := existing + Separator(existing);
    var text := pre + block;
    assert text[|pre|..|pre| + |tok.begin|] == block[..|tok.begin|];
    forall k | 0 <= k < |pre| ensures !OccursAt(text, tok.begin, k) {
      if OccursAt(text, tok.begin, k) {
        NoStraddle(existing, block, tok.begin, k);
      }
    }
    FindIs(text, tok.begin, 0, |pre|);
  }

  /** A blank text holds no token. */
  lemma BlankHasNoBegin(existing: string, tok: Tokens)
    requires LineTokens(tok) && Strip(existing) == ""
    ensures !Contains(existing, tok.begin)
  {
    var left, right := TrimSplit(existing, Space);
    assert existing == left + right;
    assert All(existing, Space);
    forall i: nat | i < |existing| ensures !OccursAt(existing, tok.begin, i) {
      assert In(existing[i], Space);
      OccursChars(existing, tok.begin, i);
    }
  }

  /** After an orphan BEGIN the first END of the appended text is the first END of the block. */
  lemma FirstEndPastOrphan(existing: string, block: string, tok: Tokens, i: nat, p: nat)
    requires LineTokens(tok) && existing != "" && IsBlock(block, tok, p)
    requires Find(existing, tok.end, i).None? && i <= |existing|
    ensures Find(existing + Separator(existing) + block, tok.end, i) == Some(|existing + Separator(existing)| + p)
  {
    var pre := existing + Separator(existing);
    var text := pre + block;
    assert pre + block + "" == text;
    FindInFactor(pre, block, "", tok.end, 0, p);
    forall k | i <= k < |pre| + p ensures !OccursAt(text, tok.end, k) {
      if k < |pre| && OccursAt(text, tok.end, k) {
        NoStraddle(existing, block, tok.end, k);
      }
    }
    FindIs(text, tok.end, i, |pre| + p);
  }

  /** With an orphan BEGIN the first merge appends; the second one finds the section open at the orphan, so
      that the text behind the orphan is swallowed and the block moves up to where it stood, with what is
      left of the appended block behind the first END. */
  lemma OrphanBreaks(existing: string, block: string, tok: Tokens, p: nat)
    requires LineTokens(tok) && OrphanBegin(existing, tok) && IsBlock(block, tok, p)
    ensures var once := existing + Separator(existing) + block;
            && Merge(existing, block, tok) == Merged(once, Appended)
            && Merge(once, block, tok)
               == Merged(existing[..FirstBegin(existing, tok)] + block + block[PastNewline(block, p + |tok.end|)..],
                         Replaced)
            && Merge(once, block, tok).text != once
  {
    hide Separator, IsBlock, LineTokens, PastNewline, Strip, OccursAt, Find;
    if Strip(existing) == "" {
      BlankHasNoBegin(existing, tok);
    }
    NotEmpty(existing, tok);
    var i := FirstBegin(existing, tok);
    var pre := existing + Separator(existing);
    FirstBeginStays(existing, pre + block, tok, i);
    FirstEndPastOrphan(existing, block, tok, i + |tok.begin|, p);
    BlockAtOrphan(pre, block, tok, i, p);
    assert (pre + block)[..i] == existing[..i];
  }

  lemma NotEmpty(existing: string, tok: Tokens)
    requires LineTokens(tok) && OrphanBegin(existing, tok)
    ensures existing != "" && FirstBegin(existing, tok) < |existing|
    ensures Find(existing, tok.begin, 0) == Some(FirstBegin(existing, tok))
    ensures Find(existing, tok.end, FirstBegin(existing, tok) + |tok.begin|).None?
  {
  }

  function FirstBegin(text: string, tok: Tokens): (i: nat)
    requires Contains(text, tok.begin)
    ensures i + |tok.begin| <= |text|
  {
    Find(text, tok.begin, 0).value
  }

  lemma FirstBeginStays(existing: string, text: string, tok: Tokens, i: nat)
    requires Find(existing, tok.begin, 0) == Some(i) && existing <= text
    ensures Find(text, tok.begin, 0) == Some(i) && i <= i + |tok.begin| <= |existing|
  {
    assert text[..|existing|] == existing[..|existing|];
    FindInPrefix(existing, text, |existing|, tok.begin, 0, i);
  }

  /** If putting the block at `i` changed nothing, its END would come too early. */
  lemma BlockAtOrphan(pre: string, block: string, tok: Tokens, i: nat, p: nat)
    requires IsBlock(block, tok, p) && i < |pre|
    requires Find(pre + block, tok.begin, 0) == Some(i)
    requires Find(pre + block, tok.end, i + |tok.begin|) == Some(|pre| + p)
    ensures Merge(pre + block, block, tok)
         == Merged((pre + block)[..i] + block + block[PastNewline(block, p + |tok.end|)..], Replaced)
    ensures Merge(pre + block, block, tok).text != pre + block
  {
    var text := pre + block;
    var end := Section(text, tok).value.end;
    assert end == |pre| + PastNewline(block, p + |tok.end|);
    assert text[end..] == block[end - |pre|..];
    var again := text[..i] + block + text[end..];
    OccursInFactor(text[..i], block, text[end..], tok.end, p);
    assert OccursAt(again, tok.end, i + p);
    assert !OccursAt(text, tok.end, i + p);
  }

  /** Where the block sits after one merge, and what surrounds it. */
  lemma MergeLayout(existing: string, block: string, tok: Tokens) returns (pre: string, post: string)
    requires LineTokens(tok) && OccursAt(block, tok.begin, 0) && !OrphanBegin(existing, tok)
    ensures Merge(existing, block, tok).text == pre + block + post
    ensures Find(pre + block + post, tok.begin, 0) == Some(|pre|)
    ensures match Section(existing, tok)
            case Some(span) => pre == existing[..span.start] && post == existing[span.end..]
            case None => post == "" && pre == if Strip(existing) == "" then "" else existing + Separator(existing)
  {
    if Section(existing, tok).Some? {
      var span := Section(existing, tok).value;
      pre, post := existing[..span.start], existing[span.end..];
      ReplacedBegin(existing, block, tok, span);
    } else if Strip(existing) != "" {
      pre, post := existing + Separator(existing), "";
      assert existing != "";
      AppendedBegin(existing, block, tok);
      assert pre + block + post == pre + block;
    } else {
      pre, post := "", "";
      assert pre + block + post == block;
      FindIs(block, tok.begin, 0, 0);
    }
  }

  // ----- the blocks BuildBlock writes -----

  lemma BeginTailFree(c: char)
    requires c == '\n' || c == '<'
    ensures Free(BEGIN_TAIL, c)
  {
    FreeConcat(THESE_MARKERS, REFRESHED, c);
    FreeConcat(DO_NOT_EDIT, THESE_MARKERS + REFRESHED, c);
    FreeConcat(MANAGED_BY, DO_NOT_EDIT + (THESE_MARKERS + REFRESHED), c);
  }

  lemma TokensAreLines(marker: string)
    requires IsToken(marker)
    ensures LineTokens(TokensOf(marker))
  {
  }

  /** Where the END token that `BuildBlock` appends starts. */
  function TailEnd(marker: string, body: string): nat {
    |BeginLine(marker)| + |Strip(body)| + 2
  }

  lemma BlockShape(head: string, s: string, end: string)
    ensures var b := head + s + "\n\n" + end + "\n";
            && |b| == |head| + |s| + 2 + |end| + 1
            && OccursAt(b, end, |head| + |s| + 2)
            && b[|b| - 1] == '\n' && b[..|head|] == head && b[|head|..|head| + |s|] == s
            && b[|head| + |s|] == '\n' && b[|head| + |s| + 1] == '\n'
  {
  }

  /** A block, letter by letter. */
  lemma BlockSpelled(marker: string, body: string)
    ensures BuildBlock(marker, body)
         == ("<!-- " + marker + ":BEGIN")
            + (" — managed by agentm; "
               + ("do not edit between " + ("these markers " + "(refreshed on install --update) -->")))
            + "\n\n" + Strip(body) + "\n\n" + ("<!-- " + marker + ":END -->") + "\n"
  {
  }

  /** No END token starts inside the BEGIN line or the blank line after it. */
  lemma NoEndInBeginLine(marker: string, rest: string, k: nat)
    requires IsToken(marker) && k < |BeginLine(marker)|
    ensures !OccursAt(BeginLine(marker) + rest, TokensOf(marker).end, k)
  {
    var b, e := BeginLine(marker) + rest, TokensOf(marker).end;
    OccursChars(b, e, k);
    if k == 0 {
      var n := 6 + |marker|;
      assert b[n] == 'B' && e[n] == 'E';
    } else {
      BeginTailFree('<');
      assert b[k] != '<' && e[0] == '<';
    }
  }

  /** Past the BEGIN line, an END before the final one lies wholly inside the body. */
  lemma EndInBody(head: string, s: string, end: string, k: nat)
    requires Free(end, '\n') && end != "" && |head| <= k < |head| + |s| + 2
    ensures OccursAt(head + s + "\n\n" + end + "\n", end, k) <==> OccursAt(s, end, k - |head|)
  {
    var b := head + s + "\n\n" + end + "\n";
    BlockShape(head, s, end);
    if k - |head| + |end| <= |s| {
      assert b[k..k + |end|] == s[k - |head|..k - |head| + |end|];
    } else if OccursAt(b, end, k) {
      OccursAvoids(b, end, k, '\n', |head| + |s|);
      OccursAvoids(b, end, k, '\n', |head| + |s| + 1);
    }
  }

  /** A built block is a block, and its first END is its own unless the body brings one. */
  lemma BuiltBlock(marker: string, body: string) returns (p: nat)
    requires IsToken(marker)
    ensures IsBlock(BuildBlock(marker, body), TokensOf(marker), p)
    ensures |BeginLine(marker)| <= p <= TailEnd(marker, body)
    ensures OwnEnd(BuildBlock(marker, body), TokensOf(marker), p) <==> p == TailEnd(marker, body)
    ensures p == TailEnd(marker, body) <==> !Contains(Strip(body), TokensOf(marker).end)
  {
    var head, s, tok := BeginLine(marker), Strip(body), TokensOf(marker);
    var b := BuildBlock(marker, body);
    BlockShape(head, s, tok.end);
    TokensAreLines(marker);
    assert b[..|tok.begin|] == tok.begin;
    p := FirstEnd(marker, body);
  }

  lemma FirstEnd(marker: string, body: string) returns (p: nat)
    requires IsToken(marker)
    ensures Find(BuildBlock(marker, body), TokensOf(marker).end, 0) == Some(p)
    ensures |BeginLine(marker)| <= p <= TailEnd(marker, body)
    ensures p == TailEnd(marker, body) <==> !Contains(Strip(body), TokensOf(marker).end)
  {
    hide BeginLine, Strip, TokensOf, Find, OccursAt, Contains;
    var head, s, e := BeginLine(marker), Strip(body), TokensOf(marker).end;
    TokensAreLines(marker);
    forall k | 0 <= k < |head| ensures !OccursAt(head + s + "\n\n" + e + "\n", e, k) {
      NoEndInBeginLine(marker, s + "\n\n" + e + "\n", k);
      assert head + s + "\n\n" + e + "\n" == head + (s + "\n\n" + e + "\n");
    }
    p := FirstEndIn(head, s, e);
  }

  lemma FirstEndIn(head: string, s: string, e: string) returns (p: nat)
    requires Free(e, '\n') && e != ""
    requires forall k :: 0 <= k < |head| ==> !OccursAt(head + s + "\n\n" + e + "\n", e, k)
    ensures Find(head + s + "\n\n" + e + "\n", e, 0) == Some(p)
    ensures |head| <= p <= |head| + |s| + 2
    ensures p == |head| + |s| + 2 <==> !Contains(s, e)
  {
    hide OccursAt;
    BlockShape(head, s, e);
    p := Find(head + s + "\n\n" + e + "\n", e, 0).value;
    if Contains(s, e) {
      EndInBody(head, s, e, |head| + Find(s, e, 0).value);
    } else if p < |head| + |s| + 2 {
      EndInBody(head, s, e, p);
    }
  }

  // ----- main results -----

  /** Re-running the installer is a no-op exactly when the body has no END token of its own and the
      target had no BEGIN without an END. */
  lemma MergeIdempotent(existing: string, body: string, marker: string)
    requires IsToken(marker)
    ensures var block, tok := BuildBlock(marker, body), TokensOf(marker);
            var once := Merge(existing, block, tok).text;
            Merge(once, block, tok).text == once
            <==> !Contains(Strip(body), tok.end) && !OrphanBegin(existing, tok)
  {
    var block, tok := BuildBlock(marker, body), TokensOf(marker);
    var p := BuiltBlock(marker, body);
    TokensAreLines(marker);
    if OrphanBegin(existing, tok) {
      OrphanBreaks(existing, block, tok, p);
      assert Merge(existing, block, tok).text == existing + Separator(existing) + block;
    } else {
      var pre, post := MergeLayout(existing, block, tok);
      Remerge(pre + block + post, pre, block, post, tok, p);
    }
  }

  /** What surrounds the block afterwards, against what surrounded the section before. */
  ghost predicate Preserved(existing: string, tok: Tokens, before: string, after: string) {
    match Section(existing, tok)
    case Some(span) => before == existing[..span.start] && after == existing[span.end..]
    case None => after == "" && (Strip(existing) != "" ==> Follows(existing, before))
  }

  /** The old text, filled up with just as many newlines as make it end in a blank line. */
  ghost predicate Follows(existing: string, before: string) {
    && existing <= before && (forall i :: |existing| <= i < |before| ==> before[i] == '\n')
    && EndsWith(before, "\n\n")
    && (before == existing || |before| == |existing| + 1 || !EndsWith(existing, "\n"))
    && (before == existing || !EndsWith(existing, "\n\n")) && |before| <= |existing| + 2
  }

  /** The section of a text that starts at `start` and is that long. */
  ghost predicate SectionIs(text: string, tok: Tokens, start: nat, length: nat) {
    Section(text, tok) == Some(Span(start, start + length))
  }

  /** One merge, whatever the target: the block replaces the section where it stands, or follows the old
      text and a blank line, and all else is as it was. The block is what the next search takes for the
      section exactly when the body has no END and no orphan BEGIN stands in front. */
  lemma OutsidePreserved(existing: string, body: string, marker: string) returns (before: string, after: string)
    requires IsToken(marker)
    ensures var block, tok := BuildBlock(marker, body), TokensOf(marker);
            && Merge(existing, block, tok).text == before + block + after
            && Preserved(existing, tok, before, after)
            && (SectionIs(before + block + after, tok, |before|, |block|)
                <==> !Contains(Strip(body), tok.end) && !OrphanBegin(existing, tok))
  {
    hide BuildBlock, TokensOf, TailEnd, BeginLine, Merge, Section, Contains, OrphanBegin, IsBlock, LineTokens, Strip;
    var block, tok := BuildBlock(marker, body), TokensOf(marker);
    var p := BuiltBlock(marker, body);
    TokensAreLines(marker);
    if OrphanBegin(existing, tok) {
      before, after := BehindOrphan(existing, block, tok, p);
    } else {
      before, after := InPlace(existing, block, tok, p);
    }
  }

  lemma BehindOrphan(existing: string, block: string, tok: Tokens, p: nat) returns (before: string, after: string)
    requires LineTokens(tok) && OrphanBegin(existing, tok) && IsBlock(block, tok, p)
    ensures Merge(existing, block, tok).text == before + block + after && Preserved(existing, tok, before, after)
    ensures !SectionIs(before + block + after, tok, |before|, |block|)
  {
    hide Merge, Separator, IsBlock, LineTokens, Follows, Strip, Section, Find, Contains, OccursAt;
    OrphanBreaks(existing, block, tok, p);
    NotEmpty(existing, tok);
    SeparatorIsNewlines(existing);
    before, after := existing + Separator(existing), "";
    assert before + block + after == before + block;
    FirstBeginStays(existing, before + block, tok, FirstBegin(existing, tok));
    if SectionIs(before + block, tok, |before|, |block|) {
      SectionStarts(before + block, tok, FirstBegin(existing, tok), |before|, |block|);
    }
  }

  lemma SectionStarts(text: string, tok: Tokens, i: nat, start: nat, length: nat)
    requires Find(text, tok.begin, 0) == Some(i) && SectionIs(text, tok, start, length)
    ensures start == i
  {
  }

  lemma InPlace(existing: string, block: string, tok: Tokens, p: nat) returns (before: string, after: string)
    requires LineTokens(tok) && !OrphanBegin(existing, tok) && IsBlock(block, tok, p)
    ensures Merge(existing, block, tok).text == before + block + after && Preserved(existing, tok, before, after)
    ensures SectionIs(before + block + after, tok, |before|, |block|) <==> OwnEnd(block, tok, p)
  {
    hide Merge, Section, Find, OccursAt, LineTokens, OrphanBegin, Follows, PastNewline, Separator, Strip, OwnEnd;
    SeparatorIsNewlines(existing);
    before, after := MergeLayout(existing, block, tok);
    SectionAtBlock(before + block + after, before, block, after, tok, p);
    EndOfBlock(before + block + after, before, block, after, tok, p);
  }

  lemma SeparatorIsNewlines(existing: string)
    ensures Follows(existing, existing + Separator(existing))
  {
  }

  /** The one text that is not preserved: a target holding only blanks is overwritten. */
  lemma BlankTargetIsDropped(existing: string, body: string, marker: string)
    requires IsToken(marker) && Strip(existing) == ""
    ensures var block, tok := BuildBlock(marker, body), TokensOf(marker);
            Merge(existing, block, tok) == Merged(block, Created)
            && (existing != "" ==> !(existing <= block))
  {
    var block, tok := BuildBlock(marker, body), TokensOf(marker);
    TokensAreLines(marker);
    BlankHasNoBegin(existing, tok);
    var p := BuiltBlock(marker, body);
    var left, right := TrimSplit(existing, Space);
    assert existing == left + right;
    if existing != "" {
      assert IsSpace(existing[0]);
      assert block[0] == tok.begin[0];
    }
  }
}
