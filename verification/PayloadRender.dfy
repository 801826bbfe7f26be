/** scripts/payload_render.py: rendering the payload and reading it back out of its copies. */
module PayloadRender {
  import opened Text
  import opened ManagedSection

  const MARKER := "AGENTMEMORY"
  const ANTIGRAVITY_FRONTMATTER := "---\ntrigger: always_on\n---\n\n"

  // ----- rendering -----

  predicate StartsWith(s: string, p: string) {
    OccursAt(s, p, 0)
  }

  /** The lookahead `(?!\s*\/?payload:)`: what follows the opening of the comment is a payload marker. */
  predicate IsPayloadMarker(afterOpen: string) {
    var rest := TrimLeft(afterOpen, Space);
    StartsWith(rest, "payload:") || StartsWith(rest, "/payload:")
  }

  /** `_LEADING_COMMENT.sub("", text, count=1)`. */
  function DropLeadingComment(text: string): string {
    if StartsWith(text, "<!--") && !IsPayloadMarker(text[4..]) then
      match Find(text, "-->", 4)
      case None => text
      case Some(k) => TrimLeft(text[k + 3..], Space)
    else text
  }

  /** `re.sub(r"\n{3,}", "\n\n", s)`. */
  function CollapseBlankLines(s: string): string {
    if s == "" then ""
    else if |s| >= 3 && s[0] == s[1] == s[2] == '\n' then CollapseBlankLines(s[1..])
    else [s[0]] + CollapseBlankLines(s[1..])
  }

  function Render(template: string): string {
    Trim(CollapseBlankLines(DropLeadingComment(template)), Newline) + "\n"
  }

  /** A leading comment that is no payload marker is dropped with the blanks behind it, up to its first
      closing; the text after it is kept whole. */
  lemma HeaderDropped(header: string, blanks: string, body: string)
    requires Find(header + "-->", "-->", 0) == Some(|header|) && !IsPayloadMarker(header + "-->" + blanks + body)
    requires All(blanks, Space) && (body == "" || !IsSpace(body[0]))
    ensures DropLeadingComment("<!--" + header + "-->" + blanks + body) == body
  {
    hide IsPayloadMarker, Find;
    var text := "<!--" + header + "-->" + blanks + body;
    assert text[0..4] == "<!--" && text[4..] == header + "-->" + blanks + body;
    HeaderEnd(text, header, blanks + body);
    assert text[4 + |header| + 3..] == blanks + body;
    TrimLeftRun(blanks, body, Space);
    assert body == "" || !In(body[0], Space);
  }

  /** A payload marker behind the opening: blanks, a slash or not, and the word. */
  lemma PayloadMarkerIs(afterOpen: string)
    ensures IsPayloadMarker(afterOpen) <==>
            exists blanks, rest :: All(blanks, Space)
              && (afterOpen == blanks + "payload:" + rest || afterOpen == blanks + "/payload:" + rest)
  {
    var left := TrimLeftSplit(afterOpen, Space);
    var core := TrimLeft(afterOpen, Space);
    if IsPayloadMarker(afterOpen) {
      var n := if StartsWith(core, "payload:") then 8 else 9;
      assert core == core[..n] + core[n..];
      assert afterOpen == left + core[..n] + core[n..];
    }
    forall blanks, rest, word |
      All(blanks, Space) && word in {"payload:", "/payload:"} && afterOpen == blanks + word + rest
      ensures IsPayloadMarker(afterOpen)
    {
      assert !IsSpace('p') && !IsSpace('/');
      assert afterOpen == blanks + (word + rest);
      TrimLeftRun(blanks, word + rest, Space);
      assert (word + rest)[0] == word[0];
      assert core == word + rest;
      assert (word + rest)[..|word|] == word;
    }
  }

  /** Any other text is kept: without a comment in front, with one that is not closed, or with a marker. */
  lemma OtherTextKept(text: string)
    requires !OccursAt(text, "<!--", 0) || IsPayloadMarker(text[4..]) || Find(text, "-->", 4).None?
    ensures DropLeadingComment(text) == text
  {
  }

  lemma HeaderEnd(text: string, header: string, rest: string)
    requires text == "<!--" + header + "-->" + rest && Find(header + "-->", "-->", 0) == Some(|header|)
    ensures Find(text, "-->", 4) == Some(4 + |header|)
  {
    FindInFactor("<!--", header + "-->", rest, "-->", 0, |header|);
    assert text == "<!--" + (header + "-->") + rest;
  }

  /** No two blank lines in a row. */
  ghost predicate SingleSpaced(s: string) {
    forall i :: 0 <= i && i + 2 < |s| ==> !Triple(s, i)
  }

  ghost predicate Triple(s: string, i: nat)
    requires i + 2 < |s|
  {
    s[i] == '\n' && s[i + 1] == '\n' && s[i + 2] == '\n'
  }

  /** How a collapsed text starts: its leading newline run, cut off at two. */
  lemma {:induction false} CollapseStart(s: string)
    ensures var r := CollapseBlankLines(s);
            && (r == "" <==> s == "")
            && (r != "" ==> r[0] == s[0])
            && (|r| >= 2 && r[0] == '\n' && r[1] == '\n' ==> |s| >= 2 && s[0] == '\n' && s[1] == '\n')
            && (|s| >= 2 && s[0] == '\n' && s[1] == '\n' ==> |r| >= 2 && r[0] == '\n' && r[1] == '\n')
  {
    if s != "" {
      CollapseStart(s[1..]);
    }
  }

  lemma {:induction false} CollapseSingleSpaced(s: string)
    ensures SingleSpaced(CollapseBlankLines(s))
  {
    if s != "" {
      CollapseSingleSpaced(s[1..]);
      CollapseStart(s[1..]);
      var rest := CollapseBlankLines(s[1..]);
      if !(|s| >= 3 && s[0] == s[1] == s[2] == '\n') {
        var r := [s[0]] + rest;
        forall i | 0 <= i && i + 2 < |r| ensures !Triple(r, i) {
          if i > 0 {
            assert !Triple(rest, i - 1);
          }
        }
      }
    }
  }

  /** A run of `n` newlines becomes two at most, and every other character stays. */
  lemma {:induction false} CollapseRun(n: nat, rest: string)
    requires rest == "" || rest[0] != '\n'
    ensures CollapseBlankLines(seq(n, _ => '\n') + rest)
         == seq(if n < 2 then n else 2, _ => '\n') + CollapseBlankLines(rest)
    ensures rest != "" ==> CollapseBlankLines(rest) == [rest[0]] + CollapseBlankLines(rest[1..])
  {
    var s := seq(n, _ => '\n') + rest;
    if n == 0 {
      assert s == rest;
    } else {
      CollapseRun(n - 1, rest);
      assert s[1..] == seq(n - 1, _ => '\n') + rest;
      assert s == ['\n'] + s[1..];
    }
  }

  /** A text already single-spaced passes through. */
  lemma {:induction false} CollapseFixpoint(s: string)
    requires SingleSpaced(s)
    ensures CollapseBlankLines(s) == s
  {
    if s != "" {
      forall i | 0 <= i && i + 2 < |s[1..]| ensures !Triple(s[1..], i) {
        assert !Triple(s, i + 1);
      }
      assert |s| >= 3 ==> !Triple(s, 0);
      CollapseFixpoint(s[1..]);
      assert s == [s[0]] + s[1..];
    }
  }

  function WithoutNewlines(s: string): string {
    if s == "" then "" else (if s[0] == '\n' then "" else [s[0]]) + WithoutNewlines(s[1..])
  }

  /** Collapsing takes nothing but newlines out. */
  lemma {:induction false} CollapseKeepsText(s: string)
    ensures WithoutNewlines(CollapseBlankLines(s)) == WithoutNewlines(s)
  {
    if s != "" {
      CollapseKeepsText(s[1..]);
      var rest := CollapseBlankLines(s[1..]);
      assert ([s[0]] + rest)[1..] == rest;
    }
  }

  /** A template that is a header comment over a tidy body renders to that body and one newline. */
  lemma RenderOfTidyTemplate(header: string, blanks: string, body: string)
    requires Find(header + "-->", "-->", 0) == Some(|header|) && !IsPayloadMarker(header + "-->" + blanks + body)
    requires All(blanks, Space) && (body == "" || !IsSpace(body[0]))
    requires SingleSpaced(body) && Trimmed(body, Newline)
    ensures Render("<!--" + header + "-->" + blanks + body) == body + "\n"
  {
    hide Find, IsPayloadMarker, DropLeadingComment;
    HeaderDropped(header, blanks, body);
    CollapseFixpoint(body);
    TrimTrimmed(body, Newline);
  }

  /** Every rendered body is single-spaced, starts with text and ends in exactly one newline. */
  lemma RenderShape(template: string)
    ensures var out := Render(template);
            && SingleSpaced(out)
            && out[|out| - 1] == '\n' && Trimmed(out[..|out| - 1], Newline)
  {
    var collapsed := CollapseBlankLines(DropLeadingComment(template));
    CollapseSingleSpaced(DropLeadingComment(template));
    var left, right := TrimSplit(collapsed, Newline);
    var core := Trim(collapsed, Newline);
    var out := core + "\n";
    assert out[..|out| - 1] == core;
    forall i | 0 <= i && i + 2 < |out| ensures !Triple(out, i) {
      if i + 2 < |core| {
        assert !Triple(collapsed, |left| + i);
      }
    }
  }

  // ----- reading the managed section back -----

  const COMMENT_END := "-->\n"

  /** Where the searched-for text lies: from behind the BEGIN comment's line to the END token. */
  function ReadSpan(text: string, tok: Tokens): (r: Option<Span>)
    ensures r.Some? ==> r.value.start <= r.value.end <= |text|
  {
    match Find(text, tok.begin, 0)
    case None => None
    case Some(i) => SpanFrom(text, tok, i + |tok.begin|)
  }

  function SpanFrom(text: string, tok: Tokens, from: nat): (r: Option<Span>)
    ensures r.Some? ==> r.value.start <= r.value.end <= |text|
  {
    match Find(text, COMMENT_END, from)
    case None => None
    case Some(k) =>
      match Find(text, tok.end, k + |COMMENT_END|)
      case None => None
      case Some(q) => Some(Span(k + |COMMENT_END|, q))
  }

  /** `managed_section`. */
  function ReadSection(text: string, tok: Tokens): Option<string> {
    match ReadSpan(text, tok)
    case None => None
    case Some(span) => Some(Group(text, span.start, span.end))
  }

  function Group(text: string, g: nat, q: nat): string
    requires g <= q <= |text|
  {
    Trim(text[g..GroupEnd(text, g, q)], Newline) + "\n"
  }

  /** The lazy group stops before a newline that directly precedes END. */
  function GroupEnd(text: string, g: nat, q: nat): (e: nat)
    requires g <= q <= |text|
    ensures g <= e <= q
  {
    if g < q && text[q - 1] == '\n' then q - 1 else q
  }

  /** What is read out of any text: from behind the first BEGIN and the first comment's end after it up to the
      first END after that, without the newlines at its ends, and one newline; nothing if one of them is missing. */
  lemma ReadSectionIs(text: string, tok: Tokens, i: nat, k: nat, q: nat)
    ensures Find(text, tok.begin, 0).None? ==> ReadSection(text, tok).None?
    ensures Find(text, tok.begin, 0) == Some(i) && Find(text, "-->\n", i + |tok.begin|).None? ==>
              ReadSection(text, tok).None?
    ensures Find(text, tok.begin, 0) == Some(i) && Find(text, "-->\n", i + |tok.begin|) == Some(k) ==>
              && (Find(text, tok.end, k + 4).None? ==> ReadSection(text, tok).None?)
              && (Find(text, tok.end, k + 4) == Some(q) ==>
                    k + 4 <= q <= |text| && ReadSection(text, tok) == Some(Trim(text[k + 4..q], Newline) + "\n"))
  {
    if Find(text, tok.begin, 0) == Some(i) && Find(text, "-->\n", i + |tok.begin|) == Some(k)
       && Find(text, tok.end, k + 4) == Some(q) {
      var e := GroupEnd(text, k + 4, q);
      if e < q {
        assert text[k + 4..q] == text[k + 4..e] + "\n";
        NewlineOff(text[k + 4..e]);
      }
    }
  }

  lemma NewlineOff(s: string)
    ensures Trim(s + "\n", Newline) == Trim(s, Newline)
  {
    var left, right := TrimSplit(s, Newline);
    var core := Trim(s, Newline);
    assert s + "\n" == left + core + (right + "\n");
    TrimIs(left, core, right + "\n", Newline);
  }

  lemma MarkerIsToken()
    ensures IsToken(MARKER)
  {
  }

  lemma BeginLineEnds(rest: string)
    ensures Find(BeginLine(MARKER) + rest, COMMENT_END, 0) == Some(|BeginLine(MARKER)| - 5)
  {
    BeginTailFree('\n');
    MarkerIsToken();
    TokensAreLines(MARKER);
    TailEndsComment();
    CommentLine(TokensOf(MARKER).begin, BEGIN_TAIL, rest);
    assert BeginLine(MARKER) == TokensOf(MARKER).begin + BEGIN_TAIL + "\n\n";
  }

  lemma TailEndsComment()
    ensures |BEGIN_TAIL| >= 3 && BEGIN_TAIL[|BEGIN_TAIL| - 3..] == "-->"
  {
  }

  /** In a line that ends a comment, that is the first place where a comment ends together with its line. */
  lemma CommentLine(head: string, tail: string, rest: string)
    requires Free(head, '\n') && Free(tail, '\n') && |tail| >= 3 && tail[|tail| - 3..] == "-->"
    ensures Find(head + tail + "\n\n" + rest, COMMENT_END, 0) == Some(|head| + |tail| - 3)
  {
    var line := head + tail;
    var b, k := line + "\n\n" + rest, |line| - 3;
    FreeConcat(head, tail, '\n');
    assert line[k..] == tail[|tail| - 3..];
    assert b[k..k + 4] == line[k..] + "\n" == COMMENT_END;
    forall j | 0 <= j < k ensures !OccursAt(b, COMMENT_END, j) {
      OccursChars(b, COMMENT_END, j);
      assert b[j + 3] == line[j + 3] != '\n';
    }
    FindIs(b, COMMENT_END, 0, k);
  }

  /** The three searches of `ReadSection`, carried from the block to a text that holds it. */
  lemma SearchesInText(text: string, pre: string, block: string, post: string, tok: Tokens, k: nat, p: nat)
    requires text == pre + block + post && |tok.begin| <= k && k + 4 <= p
    requires Find(block, COMMENT_END, |tok.begin|) == Some(k) && Find(block, tok.end, 0) == Some(p)
    ensures Find(text, COMMENT_END, |pre| + |tok.begin|) == Some(|pre| + k)
    ensures Find(text, tok.end, |pre| + k + 4) == Some(|pre| + p)
  {
    FindInFactor(pre, block, post, COMMENT_END, |tok.begin|, k);
    FindIs(block, tok.end, k + 4, p);
    FindInFactor(pre, block, post, tok.end, k + 4, p);
  }

  /** What `ReadSection` returns for a text whose first BEGIN belongs to a block: the block's text
      from its first line on, up to its first END. */
  lemma ReadBlock(text: string, pre: string, block: string, post: string, tok: Tokens, k: nat, p: nat)
    requires text == pre + block + post && |tok.begin| <= k && k + 4 <= p <= |block|
    requires Find(text, tok.begin, 0) == Some(|pre|)
    requires Find(block, COMMENT_END, |tok.begin|) == Some(k) && Find(block, tok.end, 0) == Some(p)
    ensures ReadSection(text, tok) == Some(Group(block, k + 4, p))
  {
    hide Find, OccursAt, Group;
    SearchesInText(text, pre, block, post, tok, k, p);
    ReadAt(text, tok, |pre|, |pre| + k, |pre| + p);
    SameGroup(text, pre, block, post, k + 4, p);
  }

  lemma ReadAt(text: string, tok: Tokens, i: nat, k: nat, q: nat)
    requires Find(text, tok.begin, 0) == Some(i)
    requires Find(text, COMMENT_END, i + |tok.begin|) == Some(k)
    requires Find(text, tok.end, k + 4) == Some(q)
    ensures ReadSpan(text, tok) == Some(Span(k + 4, q))
  {
  }

  lemma SameGroup(text: string, pre: string, block: string, post: string, g: nat, p: nat)
    requires text == pre + block + post && g <= p <= |block|
    ensures Group(text, |pre| + g, |pre| + p) == Group(block, g, p)
  {
    assert p > 0 ==> text[|pre| + p - 1] == block[p - 1];
    assert text[|pre| + g..GroupEnd(text, |pre| + g, |pre| + p)] == block[g..GroupEnd(block, g, p)];
  }

  /** The group in front of the block's own END is the body between two newlines. */
  lemma OwnGroup(head: string, s: string, end: string)
    requires |head| > 0 && head[|head| - 1] == '\n' && Trimmed(s, Space)
    ensures Group(head + s + "\n\n" + end + "\n", |head| - 1, |head| + |s| + 2) == s + "\n"
  {
    var b := head + s + "\n\n" + end + "\n";
    assert b[|head| - 1..|head| + |s| + 1] == "\n" + s + "\n";
    assert b[|head| + |s| + 1] == '\n';
    TrimIs("\n", s, "\n", Newline);
  }

  /** What is read back never holds an END token, whatever the text. */
  lemma ReadHasNoEnd(text: string, tok: Tokens)
    requires Free(tok.end, '\n') && tok.end != "" && ReadSection(text, tok).Some?
    ensures !Contains(ReadSection(text, tok).value, tok.end)
  {
    hide Trim, Group, Free;
    var span := ReadSpan(text, tok).value;
    GroupHasNoEnd(text, tok.end, span.start, span.end);
  }

  lemma GroupHasNoEnd(text: string, end: string, g: nat, q: nat)
    requires Free(end, '\n') && end != "" && g <= q <= |text|
    requires forall j :: g <= j < q ==> !OccursAt(text, end, j)
    ensures !Contains(Group(text, g, q), end)
  {
    var e := GroupEnd(text, g, q);
    var left, right := TrimSplit(text[g..e], Newline);
    var core := Trim(text[g..e], Newline);
    forall j: nat ensures !OccursAt(core + "\n", end, j) {
      if j + |end| <= |core| {
        assert text == (text[..g] + left) + core + (right + text[e..]);
        assert core + "\n" == "" + core + "\n";
        OccursInFactor(text[..g] + left, core, right + text[e..], end, j);
        OccursInFactor("", core, "\n", end, j);
        assert !OccursAt(text, end, g + |left| + j);
      } else {
        LastIsNoEnd(core, end, j);
      }
    }
  }

  lemma LastIsNoEnd(core: string, end: string, j: nat)
    requires Free(end, '\n') && j + |end| > |core| && end != ""
    ensures !OccursAt(core + "\n", end, j)
  {
    if OccursAt(core + "\n", end, j) {
      OccursAvoids(core + "\n", end, j, '\n', |core|);
    }
  }

  lemma BlockLineEnds(body: string)
    ensures Find(BuildBlock(MARKER, body), COMMENT_END, 0) == Some(|BeginLine(MARKER)| - 5)
    ensures |TokensOf(MARKER).begin| <= |BeginLine(MARKER)| - 5
  {
    var rest := Strip(body) + "\n\n" + TokensOf(MARKER).end + "\n";
    assert BuildBlock(MARKER, body) == BeginLine(MARKER) + rest;
    BeginLineEnds(rest);
  }

  // ----- with a BEGIN that no END follows -----

  /** Where the text behind an orphan BEGIN is searched for a comment's end: the old text and the newlines
      that will follow it. */
  function OldCommentEnd(existing: string, tok: Tokens): Option<nat>
    requires OrphanBegin(existing, tok)
  {
    Find(existing + Separator(existing), COMMENT_END, FirstBegin(existing, tok) + |tok.begin|)
  }

  /** A comment ends behind the orphan BEGIN, so that what is read back starts in the old text. */
  predicate CommentBehindOrphan(existing: string, tok: Tokens) {
    OrphanBegin(existing, tok) && OldCommentEnd(existing, tok).Some?
  }

  /** A comment's end does not straddle a line break. */
  lemma CommentEndStays(pre: string, rest: string, k: nat)
    requires pre != "" && pre[|pre| - 1] == '\n' && k < |pre|
    ensures OccursAt(pre + rest, COMMENT_END, k) <==> OccursAt(pre, COMMENT_END, k)
  {
    OccursChars(pre + rest, COMMENT_END, k);
    OccursChars(pre, COMMENT_END, k);
    if k + 4 > |pre| {
      assert (pre + rest)[|pre| - 1] == '\n' && COMMENT_END[|pre| - 1 - k] != '\n';
    }
  }

  /** The first comment's end behind a place in the old text: there, or else the block's own line. */
  lemma FirstCommentEnd(pre: string, block: string, from: nat, c: nat)
    requires pre != "" && pre[|pre| - 1] == '\n' && from <= |pre|
    requires Find(block, COMMENT_END, 0) == Some(c)
    ensures Find(pre + block, COMMENT_END, from)
         == if Find(pre, COMMENT_END, from).Some? then Find(pre, COMMENT_END, from) else Some(|pre| + c)
    ensures Find(pre, COMMENT_END, from).Some? ==> from <= Find(pre, COMMENT_END, from).value <= |pre| - 4
  {
    var text := pre + block;
    forall k | from <= k < |pre| ensures OccursAt(text, COMMENT_END, k) <==> OccursAt(pre, COMMENT_END, k) {
      CommentEndStays(pre, block, k);
    }
    match Find(pre, COMMENT_END, from) {
      case Some(k) =>
        assert k < |pre|;
        FindIs(text, COMMENT_END, from, k);
      case None =>
        assert pre + block + "" == text;
        FindInFactor(pre, block, "", COMMENT_END, 0, c);
        FindIs(text, COMMENT_END, from, |pre| + c);
    }
  }

  /** Where the text read back starts, if the block's own comment ends at `c`. */
  function OldStart(existing: string, tok: Tokens, c: nat): nat
    requires OrphanBegin(existing, tok)
  {
    match OldCommentEnd(existing, tok)
    case Some(k) => k + 4
    case None => |existing + Separator(existing)| + c + 4
  }

  lemma EndsInNewline(existing: string)
    requires existing != ""
    ensures var pre := existing + Separator(existing); pre != "" && pre[|pre| - 1] == '\n'
  {
  }

  lemma OrphanMeans(existing: string, tok: Tokens)
    requires LineTokens(tok) && OrphanBegin(existing, tok)
    ensures existing != "" && Contains(existing, tok.begin)
    ensures Find(existing, tok.begin, 0) == Some(FirstBegin(existing, tok))
    ensures Find(existing, tok.end, FirstBegin(existing, tok) + |tok.begin|).None?
  {
  }

  lemma LaterFind(text: string, pat: string, from: nat, later: nat, i: nat)
    requires from <= later <= i && Find(text, pat, from) == Some(i)
    ensures Find(text, pat, later) == Some(i)
  {
    FindIs(text, pat, later, i);
  }

  /** Reading behind an orphan: from the first comment's end there or from the block's own line, up to the
      block's first END. */
  lemma ReadPastOrphan(existing: string, block: string, tok: Tokens, c: nat, p: nat)
    requires LineTokens(tok) && OrphanBegin(existing, tok) && IsBlock(block, tok, p)
    requires Find(block, COMMENT_END, 0) == Some(c) && c + 4 <= p
    ensures var pre := existing + Separator(existing);
            && ReadSpan(pre + block, tok) == Some(Span(OldStart(existing, tok, c), |pre| + p))
            && (OldCommentEnd(existing, tok).Some? ==> OldStart(existing, tok, c) <= |pre|)
  {
    hide Separator, OrphanBegin, Section, Find, OccursAt, IsBlock, LineTokens;
    var pre := existing + Separator(existing);
    OrphanMeans(existing, tok);
    var i := FirstBegin(existing, tok);
    EndsInNewline(existing);
    FirstBeginStays(existing, pre + block, tok, i);
    FirstCommentEnd(pre, block, i + |tok.begin|, c);
    FirstEndPastOrphan(existing, block, tok, i + |tok.begin|, p);
    var start := OldStart(existing, tok, c);
    LaterFind(pre + block, tok.end, i + |tok.begin|, start, |pre| + p);
    ReadAt(pre + block, tok, i, start - 4, |pre| + p);
  }

  lemma ExtractOrphan(existing: string, block: string, tok: Tokens, c: nat, p: nat)
    requires LineTokens(tok) && OrphanBegin(existing, tok) && IsBlock(block, tok, p)
    requires Find(block, COMMENT_END, 0) == Some(c) && c + 4 <= p
    ensures var pre := existing + Separator(existing);
            && Merge(existing, block, tok).text == pre + block
            && (CommentBehindOrphan(existing, tok) ==> OldStart(existing, tok, c) <= |pre|)
            && ReadSection(pre + block, tok)
               == Some(if CommentBehindOrphan(existing, tok)
                       then Group(pre + block, OldStart(existing, tok, c), |pre| + p)
                       else Group(block, c + 4, p))
  {
    hide Separator, Merge, Group, LineTokens, OrphanBegin, Find;
    var pre := existing + Separator(existing);
    OrphanBreaks(existing, block, tok, p);
    ReadPastOrphan(existing, block, tok, c, p);
    if !CommentBehindOrphan(existing, tok) {
      assert pre + block + "" == pre + block;
      SameGroup(pre + block, pre, block, "", c + 4, p);
    }
  }

  lemma ExtractPlain(existing: string, block: string, tok: Tokens, c: nat, p: nat)
    requires LineTokens(tok) && !OrphanBegin(existing, tok) && IsBlock(block, tok, p)
    requires Find(block, COMMENT_END, 0) == Some(c) && |tok.begin| <= c && c + 4 <= p
    ensures ReadSection(Merge(existing, block, tok).text, tok) == Some(Group(block, c + 4, p))
  {
    hide Separator, Merge, Group, LineTokens;
    var before, after := MergeLayout(existing, block, tok);
    FindIs(block, COMMENT_END, |tok.begin|, c);
    ReadBlock(before + block + after, before, block, after, tok, c, p);
  }

  // ----- main results -----

  /** What the merged file reads back as, for every target: the block's text behind its BEGIN line, up to
      the block's first END; with an orphan BEGIN and a comment's end behind it, everything from there. */
  lemma ExtractAfterMerge(existing: string, body: string) returns (p: nat)
    ensures |BeginLine(MARKER)| <= p <= TailEnd(MARKER, body) < |BuildBlock(MARKER, body)|
    ensures p == TailEnd(MARKER, body) <==> !Contains(Strip(body), TokensOf(MARKER).end)
    ensures var block, pre, tok := BuildBlock(MARKER, body), existing + Separator(existing), TokensOf(MARKER);
            var once, start := Merge(existing, block, tok).text, |BeginLine(MARKER)| - 1;
            if CommentBehindOrphan(existing, tok)
            then once == pre + block && OldStart(existing, tok, start - 4) <= |pre|
                 && ReadSection(once, tok) == Some(Group(once, OldStart(existing, tok, start - 4), |pre| + p))
            else ReadSection(once, tok) == Some(Group(block, start, p))
  {
    hide BuildBlock, TailEnd, BeginLine, TokensOf, Merge, ReadSection, LineTokens, Separator, Find, Group, OldStart;
    var block, tok := BuildBlock(MARKER, body), TokensOf(MARKER);
    MarkerIsToken();
    TokensAreLines(MARKER);
    p := BuiltBlock(MARKER, body);
    BlockLineEnds(body);
    BlockHoldsTail(body);
    var c := |BeginLine(MARKER)| - 5;
    if OrphanBegin(existing, tok) {
      ExtractOrphan(existing, block, tok, c, p);
    } else {
      ExtractPlain(existing, block, tok, c, p);
    }
  }

  lemma BlockHoldsTail(body: string)
    ensures TailEnd(MARKER, body) < |BuildBlock(MARKER, body)|
    ensures |BeginLine(MARKER)| >= 6
  {
  }

  /** Characters outside the class at `i` and `j` stay, with all between them. */
  lemma TrimHolds(s: string, cls: CharClass, i: nat, j: nat) returns (left: nat)
    requires i <= j < |s| && !In(s[i], cls) && !In(s[j], cls)
    ensures left <= i && j < left + |Trim(s, cls)| <= |s|
    ensures Trim(s, cls) == s[left..left + |Trim(s, cls)|]
  {
    var before, after := TrimSplit(s, cls);
    left := |before|;
    var core := Trim(s, cls);
    assert s[left..left + |core|] == core;
    assert forall k :: 0 <= k < left ==> s[k] == before[k] && In(s[k], cls);
    assert forall k :: left + |core| <= k < |s| ==> s[k] == after[k - left - |core|] && In(s[k], cls);
  }

  /** What is read back is at least as long, between its blanks, as what stands between two characters. */
  lemma ReadHolds(group: string, i: nat, j: nat)
    requires i <= j < |group| && !IsSpace(group[i]) && !IsSpace(group[j])
    ensures |Strip(Trim(group, Newline) + "\n")| > j - i
  {
    var left := TrimHolds(group, Newline, i, j);
    var core := Trim(group, Newline);
    assert core[i - left] == group[i] && core[j - left] == group[j];
    assert (core + "\n")[i - left] == group[i] && (core + "\n")[j - left] == group[j];
    var more := TrimHolds(core + "\n", Space, i - left, j - left);
  }

  /** Read back from in front of the block, the BEGIN line comes along, and that is more than the body. */
  lemma MoreThanBody(once: string, pre: string, head: string, s: string, end: string, g: nat)
    requires once == pre + (head + s + "\n\n" + end + "\n") && g <= |pre|
    requires head != "" && !IsSpace(head[0]) && (s != "" ==> !IsSpace(s[|s| - 1]))
    ensures |Strip(Group(once, g, |pre| + |head| + |s| + 2))| > |s|
  {
    hide Strip, Trim, IsSpace;
    var block := head + s + "\n\n" + end + "\n";
    BlockShape(head, s, end);
    var q := |pre| + |head| + |s| + 2;
    var group := once[g..GroupEnd(once, g, q)];
    var i := |pre| - g;
    var j := if s == "" then i else i + |head| + |s| - 1;
    assert group[i] == once[|pre|] == block[0] == head[0];
    assert s != "" ==> group[j] == once[|pre| + |head| + |s| - 1] == block[|head| + |s| - 1] == s[|s| - 1];
    ReadHolds(group, i, j);
  }

  lemma BodyEnds(body: string)
    ensures Strip(body) != "" ==> !IsSpace(Strip(body)[|Strip(body)| - 1])
  {
    var left, right := TrimSplit(body, Space);
  }

  /** The parity comparison, for every target and every body: the merged file gives the body back exactly
      when the body has no END token and is a blank-trimmed text with one newline after it, and the target
      had no orphan BEGIN with a comment's end behind it. */
  lemma ParityHolds(existing: string, body: string)
    ensures var tok := TokensOf(MARKER);
            ReadSection(Merge(existing, BuildBlock(MARKER, body), tok).text, tok) == Some(body)
            <==> !Contains(Strip(body), tok.end) && body == Strip(body) + "\n" && !CommentBehindOrphan(existing, tok)
  {
    hide BuildBlock, TailEnd, OrphanBegin, OldCommentEnd, ReadSection, Merge, Group, Strip, BeginLine, Separator,
         Contains;
    var block, tok := BuildBlock(MARKER, body), TokensOf(MARKER);
    var once := Merge(existing, block, tok).text;
    var p := ExtractAfterMerge(existing, body);
    if p < TailEnd(MARKER, body) {
      MarkerIsToken();
      TokensAreLines(MARKER);
      ReadHasNoEnd(once, tok);
      EndInStripped(body, tok.end);
    } else if CommentBehindOrphan(existing, tok) {
      BlockHoldsTail(body);
      BodyEnds(body);
      BlockParts(body);
      MoreThanBody(once, existing + Separator(existing), BeginLine(MARKER), Strip(body), tok.end,
                   OldStart(existing, tok, |BeginLine(MARKER)| - 5));
    } else {
      ParityOwn(body);
    }
  }

  lemma BlockParts(body: string)
    ensures BuildBlock(MARKER, body) == BeginLine(MARKER) + Strip(body) + "\n\n" + TokensOf(MARKER).end + "\n"
    ensures TailEnd(MARKER, body) == |BeginLine(MARKER)| + |Strip(body)| + 2
    ensures BeginLine(MARKER) != "" && !IsSpace(BeginLine(MARKER)[0])
  {
  }

  lemma EndInStripped(body: string, end: string)
    ensures Contains(Strip(body), end) ==> Contains(body, end)
  {
    var left, right := TrimSplit(body, Space);
    if Contains(Strip(body), end) {
      FindInFactor(left, Strip(body), right, end, 0, Find(Strip(body), end, 0).value);
    }
  }

  lemma ParityOwn(body: string)
    requires TailEnd(MARKER, body) <= |BuildBlock(MARKER, body)|
    ensures Group(BuildBlock(MARKER, body), |BeginLine(MARKER)| - 1, TailEnd(MARKER, body)) == Strip(body) + "\n"
  {
    var left, right := TrimSplit(body, Space);
    OwnGroup(BeginLine(MARKER), Strip(body), TokensOf(MARKER).end);
  }

  /** For instance an orphan BEGIN whose comment ends on its own line. */
  lemma OrphanExample(existing: string)
    requires existing == TokensOf(MARKER).begin + " -->\n"
    ensures CommentBehindOrphan(existing, TokensOf(MARKER))
  {
    var tok := TokensOf(MARKER);
    FindIs(existing, tok.begin, 0, 0);
    assert |tok.end| > 5;
    var pre := existing + Separator(existing);
    assert pre[|tok.begin| + 1..|tok.begin| + 5] == COMMENT_END;
    assert OccursAt(pre, COMMENT_END, |tok.begin| + 1);
  }

  /** For a rendered body the second condition says: no blank at either end besides the newline. */
  lemma RenderedParity(template: string)
    ensures var out := Render(template);
            out == Strip(out) + "\n" <==> Trimmed(out[..|out| - 1], Space)
  {
    var out := Render(template);
    var core := out[..|out| - 1];
    assert out == "" + core + "\n";
    if Trimmed(core, Space) {
      TrimIs("", core, "\n", Space);
    } else {
      TrimTrimmed(core, Space);
      if out == Strip(out) + "\n" {
        assert core == Strip(out);
        var left, right := TrimSplit(out, Space);
      }
    }
  }

  // ----- the Antigravity rule -----

  function AntigravityRule(body: string): string {
    ANTIGRAVITY_FRONTMATTER + body
  }

  /** `strip_frontmatter` of payload_render: the block and every blank after it. */
  function StripRule(text: string): string {
    if !StartsWith(text, "---\n") then text else
      match Find(text, "\n---\n", 4)
      case None => text
      case Some(k) => TrimLeft(text[k + 5..], Space)
  }

  /** `strip_frontmatter` of merge-managed-section: the block alone. */
  function StripBlock(text: string): string {
    if !StartsWith(text, "---\n") then text else
      match Find(text, "\n---\n", 4)
      case None => text
      case Some(k) => text[k + 5..]
  }

  /** A text without a closed block in front is left alone by both. */
  lemma NoBlockKept(text: string)
    requires !OccursAt(text, "---\n", 0) || Find(text, "\n---\n", 4).None?
    ensures StripRule(text) == text && StripBlock(text) == text
  {
  }

  /** A closed block comes off, up to its first closing: by the one with the blanks behind it, by the other alone. */
  lemma BlockStripped(head: string, rest: string)
    requires Find(head + "\n---\n", "\n---\n", 0) == Some(|head|)
    ensures StripBlock("---\n" + head + "\n---\n" + rest) == rest
    ensures StripRule("---\n" + head + "\n---\n" + rest) == TrimLeft(rest, Space)
  {
    hide TrimLeft;
    var text := "---\n" + head + "\n---\n" + rest;
    assert text == "---\n" + (head + "\n---\n") + rest;
    FindInFactor("---\n", head + "\n---\n", rest, "\n---\n", 0, |head|);
    assert text[..4] == "---\n" && text[4 + |head| + 5..] == rest;
  }

  /** What stands in front of a rule, letter by letter. */
  lemma RuleSpelled(body: string)
    ensures AntigravityRule(body) == "---\ntrigger: always_on\n---\n\n" + body && MARKER == "AGENTMEMORY"
  {
  }

  lemma RuleFrontmatter(body: string)
    ensures StartsWith(AntigravityRule(body), "---\n")
    ensures Find(AntigravityRule(body), "\n---\n", 4) == Some(22)
    ensures AntigravityRule(body)[27..] == "\n" + body
  {
    var text := AntigravityRule(body);
    assert text[0..4] == "---\n";
    assert text[22..27] == "\n---\n";
    forall j | 4 <= j < 22 ensures !OccursAt(text, "\n---\n", j) {
      OccursChars(text, "\n---\n", j);
      assert text[j] != '\n';
    }
    FindIs(text, "\n---\n", 4, 22);
  }

  /** The rule gives its body back exactly when the body does not start with a blank. */
  lemma RuleRoundTrip(body: string)
    ensures StripRule(AntigravityRule(body)) == body <==> body == "" || !IsSpace(body[0])
  {
    RuleFrontmatter(body);
    TrimLeftRun("\n", body, Space);
    var left := TrimLeftSplit(body, Space);
    if body != "" && IsSpace(body[0]) {
      assert In(body[0], Space);
      var rest := TrimLeftSplit(body[1..], Space);
    }
  }

  /** Merging the tracked rule with its frontmatter dropped writes the same block as merging the body. */
  lemma RuleMergesLikeBody(body: string, marker: string)
    ensures BuildBlock(marker, StripBlock(AntigravityRule(body))) == BuildBlock(marker, body)
  {
    RuleFrontmatter(body);
    TrimLeftRun("\n", body, Space);
  }
}
