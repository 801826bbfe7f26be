/** The text edits of scripts/alias_backfill.py: adding one `aliases:` line and taking it out again. */
module AliasText {
  import opened Text

  // ----- frontmatter -----

  predicate FenceBlank(c: char) {
    c == ' ' || c == '\t' || c == '\r'
  }

  /** `[ \t\r]*\n` from `i`, the newline standing at `n`. */
  predicate FenceTo(text: string, i: nat, n: nat) {
    i <= n < |text| && text[n] == '\n' && forall k :: i <= k < n ==> FenceBlank(text[k])
  }

  predicate FenceEnds(text: string, i: nat) {
    exists n: nat :: n < |text| && FenceTo(text, i, n)
  }

  /** `\n---[ \t\r]*\n` at `e`. */
  predicate Closes(text: string, e: nat) {
    OccursAt(text, "\n---", e) && FenceEnds(text, e + 4)
  }

  predicate FirstClose(text: string, from: nat, e: nat) {
    from <= e && Closes(text, e) && forall j :: from <= j < e ==> !Closes(text, j)
  }

  /** Group 1 of `FRONTMATTER_RE`: behind the opening fence, up to the first closing one. */
  predicate IsFront(text: string, g: nat, e: nat) {
    && OccursAt(text, "---", 0) && g >= 1 && FenceTo(text, 3, g - 1)
    && FirstClose(text, g, e)
  }

  datatype Head = Head(start: nat, end: nat)

  function Front(text: string): (r: Option<Head>)
    ensures r.Some? ==> IsFront(text, r.value.start, r.value.end) && r.value.start <= r.value.end <= |text|
    ensures r.None? ==> forall g: nat, e: nat :: !IsFront(text, g, e)
  {
    assert forall g: nat, e: nat :: IsFront(text, g, e) ==> g <= |text| && e <= |text|;
    if exists g: nat, e: nat :: g <= |text| && e <= |text| && IsFront(text, g, e) then
      var g: nat, e: nat :| g <= |text| && e <= |text| && IsFront(text, g, e); Some(Head(g, e))
    else None
  }

  lemma FrontIs(text: string, g: nat, e: nat)
    requires IsFront(text, g, e)
    ensures Front(text) == Some(Head(g, e))
  {
  }

  /** A text with a block in front, cut up: an opening fence, the block, a closing fence, the rest. */
  ghost predicate Framed(text: string, open: string, head: string, close: string, rest: string) {
    && (forall i :: 0 <= i < |open| ==> open[i] in {' ', '\t', '\r'})
    && (forall i :: 0 <= i < |close| ==> close[i] in {' ', '\t', '\r'})
    && text == "---" + open + "\n" + head + "\n---" + close + "\n" + rest
  }

  lemma FramedIsClosed(text: string, open: string, head: string, close: string, rest: string)
    requires Framed(text, open, head, close, rest)
    ensures var g := |open| + 4;
            OccursAt(text, "---", 0) && FenceTo(text, 3, g - 1) && Closes(text, g + |head|)
            && text[g..g + |head|] == head
  {
    var g := |open| + 4;
    var e := g + |head|;
    var n := e + 4 + |close|;
    FramedParts(text, open, head, close, rest);
    assert forall k :: 3 <= k < g - 1 ==> text[k] == text[3..g - 1][k - 3];
    assert forall k :: e + 4 <= k < n ==> text[k] == text[e + 4..n][k - e - 4];
    assert FenceTo(text, e + 4, n);
  }

  lemma FramedParts(text: string, open: string, head: string, close: string, rest: string)
    requires text == "---" + open + "\n" + head + "\n---" + close + "\n" + rest
    ensures var g := |open| + 4;
            var e := g + |head|;
            var n := e + 4 + |close|;
            && text[..3] == "---" && text[3..g - 1] == open && text[g - 1] == '\n' && text[g..e] == head
            && text[e..e + 4] == "\n---" && text[e + 4..n] == close && n < |text| && text[n] == '\n'
  {
  }

  lemma ClosedIsFramed(text: string, g: nat, e: nat) returns (open: string, close: string, rest: string)
    requires OccursAt(text, "---", 0) && g >= 1 && FenceTo(text, 3, g - 1) && g <= e && Closes(text, e)
    ensures e <= |text| && Framed(text, open, text[g..e], close, rest) && |open| + 4 == g
  {
    var n: nat :| n < |text| && FenceTo(text, e + 4, n);
    open, close, rest := text[3..g - 1], text[e + 4..n], text[n + 1..];
    assert text == text[..3] + text[3..g - 1] + text[g - 1..g] + text[g..e] + text[e..e + 4] + text[e + 4..n]
                   + text[n..n + 1] + text[n + 1..];
    assert text[g - 1..g] == "\n" && text[n..n + 1] == "\n";
  }

  /** The block is found exactly where the text is cut up like that, with as short a block as can be. */
  lemma FrontIsFramed(text: string)
    ensures Front(text).Some? <==> exists open, head, close, rest :: Framed(text, open, head, close, rest)
    ensures Front(text).Some? ==>
              var h := Front(text).value;
              && (exists open, close, rest ::
                    Framed(text, open, text[h.start..h.end], close, rest) && |open| + 4 == h.start)
              && forall open, head, close, rest :: Framed(text, open, head, close, rest) && |open| + 4 == h.start ==>
                   |head| >= h.end - h.start
  {
    if Front(text).Some? {
      var h := Front(text).value;
      var open, close, rest := ClosedIsFramed(text, h.start, h.end);
    }
    forall open, head, close, rest | Framed(text, open, head, close, rest)
      ensures Front(text).Some? && (|open| + 4 == Front(text).value.start ==>
                                    |head| >= Front(text).value.end - Front(text).value.start)
    {
      FramedIsClosed(text, open, head, close, rest);
      var e := FirstCloseFrom(text, |open| + 4, |open| + 4 + |head|);
      FrontIs(text, |open| + 4, e);
    }
  }

  lemma {:induction false} FirstCloseFrom(text: string, g: nat, e: nat) returns (first: nat)
    requires g <= e && Closes(text, e)
    ensures FirstClose(text, g, first) && first <= e
    decreases e
  {
    if j: nat :| g <= j < e && Closes(text, j) {
      first := FirstCloseFrom(text, g, j);
    } else {
      first := e;
    }
  }

  const KEY := "aliases:"

  /** `ALIASES_KEY_RE`: a line of the block that starts with the key. */
  predicate HasKey(head: string) {
    exists p: nat :: p <= |head| && KeyAt(head, p)
  }

  predicate KeyAt(head: string, p: nat) {
    OccursAt(head, KEY, p) && (p == 0 || head[p - 1] == '\n')
  }

  /** The key stands at the beginning of a line. */
  lemma HasKeyIs(head: string)
    ensures HasKey(head) <==>
            exists before, after :: head == before + "aliases:" + after
                                    && (before == "" || before[|before| - 1] == '\n')
  {
    if HasKey(head) {
      var p: nat :| p <= |head| && KeyAt(head, p);
      assert head == head[..p] + "aliases:" + head[p + 8..];
    }
    forall before, after | head == before + "aliases:" + after && (before == "" || before[|before| - 1] == '\n')
      ensures HasKey(head)
    {
      assert head[|before|..|before| + 8] == "aliases:";
      assert KeyAt(head, |before|);
    }
  }

  // ----- inserting a line -----

  /** Appending `line` as the last line of the block that ends at `e`. */
  function WithLine(raw: string, e: nat, line: string): string
    requires e <= |raw|
  {
    raw[..e] + ("\n" + line) + raw[e..]
  }

  /** `raw.replace(pat, "", 1)`. */
  function RemoveFirst(raw: string, pat: string): string {
    match Find(raw, pat, 0)
    case None => raw
    case Some(i) => raw[..i] + raw[i + |pat|..]
  }

  lemma FenceHasNoBreak(text: string, g: nat, j: nat)
    requires OccursAt(text, "---", 0) && g >= 1 && FenceTo(text, 3, g - 1) && j < g - 1
    ensures text[j] != '\n'
  {
  }

  /** The first place where a line break and the key follow each other is the inserted one: in front
      of it they would have been a key of the old block. */
  lemma InsertedIsFirst(raw: string, g: nat, e: nat, line: string)
    requires IsFront(raw, g, e) && !HasKey(raw[g..e]) && OccursAt(line, KEY, 0)
    ensures Find(WithLine(raw, e, line), "\n" + line, 0) == Some(e)
  {
    var after := WithLine(raw, e, line);
    assert after[e..e + |"\n" + line|] == "\n" + line;
    forall j | 0 <= j < e ensures !OccursAt(after, "\n" + line, j) {
      if OccursAt(after, "\n" + line, j) {
        LineStartsWithKey(after, line, j);
        NoEarlierKey(raw, after, g, e, j);
      }
    }
    FindIs(after, "\n" + line, 0, e);
  }

  lemma LineStartsWithKey(text: string, line: string, j: nat)
    requires OccursAt(line, KEY, 0) && OccursAt(text, "\n" + line, j)
    ensures text[j] == '\n' && OccursAt(text, KEY, j + 1)
  {
    var n := j + 1 + |line|;
    assert text[j..n] == "\n" + line;
    assert text[j] == text[j..n][0];
    assert text[j + 1..n] == text[j..n][1..] == line;
    assert text[j + 1..j + 1 + |KEY|] == text[j + 1..n][..|KEY|];
  }

  lemma NoEarlierKey(raw: string, after: string, g: nat, e: nat, j: nat)
    requires IsFront(raw, g, e) && e <= |after| && raw[..e] == after[..e] && e < |after| && after[e] == '\n'
    requires j < e && after[j] == '\n' && OccursAt(after, KEY, j + 1)
    ensures HasKey(raw[g..e])
  {
    OccursAvoids(after, KEY, j + 1, '\n', e);
    assert raw[j] == raw[..e][j] == after[..e][j];
    if j < g - 1 {
      FenceHasNoBreak(raw, g, j);
    }
    var head, p := raw[g..e], j + 1 - g;
    assert head == after[..e][g..];
    assert head[p..p + |KEY|] == after[j + 1..j + 1 + |KEY|];
    assert p > 0 ==> head[p - 1] == raw[j];
    assert KeyAt(head, p);
  }

  /** Taking the first such line out restores every byte. */
  lemma RemoveInserted(raw: string, g: nat, e: nat, line: string)
    requires IsFront(raw, g, e) && !HasKey(raw[g..e]) && OccursAt(line, KEY, 0)
    ensures RemoveFirst(WithLine(raw, e, line), "\n" + line) == raw
  {
    InsertedIsFirst(raw, g, e, line);
    var after := WithLine(raw, e, line);
    assert after[..e] == raw[..e] && after[e + |"\n" + line|..] == raw[e..];
  }

  // ----- the frontmatter of the edited note -----

  /** Two texts with a common prefix that ends in a line break close at the same places in it. */
  lemma ClosesInPrefix(a: string, b: string, n: nat, j: nat)
    requires n < |a| && n < |b| && a[..n + 1] == b[..n + 1] && a[n] == '\n'
    requires j < n && Closes(a, j)
    ensures Closes(b, j)
  {
    OccursAvoidsTail(a, j, n);
    var m: nat :| m < |a| && FenceTo(a, j + 4, m);
    assert m <= n;
    assert forall k :: 0 <= k <= n ==> a[k] == a[..n + 1][k] == b[..n + 1][k] == b[k];
    assert b[j..j + 4] == b[..n + 1][j..j + 4] == a[..n + 1][j..j + 4] == a[j..j + 4];
    assert FenceTo(b, j + 4, m);
  }

  lemma OccursAvoidsTail(a: string, j: nat, n: nat)
    requires OccursAt(a, "\n---", j) && j < n < |a| && a[n] == '\n'
    ensures j + 4 <= n
  {
  }

  /** A common suffix closes at corresponding places. */
  lemma ClosesInSuffix(a: string, b: string, i: nat, j: nat)
    requires i <= |a| && j <= |b| && a[i..] == b[j..] && Closes(a, i)
    ensures Closes(b, j)
  {
    var m: nat :| m < |a| && FenceTo(a, i + 4, m);
    assert forall k :: i <= k < |a| ==> a[k] == a[i..][k - i];
    assert forall k :: j <= k < |b| ==> b[k] == b[j..][k - j];
    assert b[j..j + 4] == b[j..][..4] == a[i..][..4] == a[i..i + 4];
    assert FenceTo(b, j + 4, m - i + j);
  }

  /** The added line neither opens nor closes a fence: the block grows by exactly that line. */
  lemma InsertedFront(raw: string, g: nat, e: nat, line: string)
    requires IsFront(raw, g, e) && Free(line, '\n') && OccursAt(line, KEY, 0)
    ensures IsFront(WithLine(raw, e, line), g, e + 1 + |line|)
    ensures WithLine(raw, e, line)[g..e + 1 + |line|] == raw[g..e] + "\n" + line
  {
    var after, end := WithLine(raw, e, line), e + 1 + |line|;
    assert raw[e] == raw[e..e + 4][0] == '\n';
    assert after[..e + 1] == raw[..e + 1];
    assert after[end..] == raw[e..];
    OpeningKept(raw, after, g, e);
    ClosesInSuffix(raw, after, e, end);
    forall j | g <= j < end ensures !Closes(after, j) {
      if Closes(after, j) {
        NoCloseInLine(after, e, line, j);
        ClosesInPrefix(after, raw, e, j);
      }
    }
  }

  lemma OpeningKept(raw: string, after: string, g: nat, e: nat)
    requires IsFront(raw, g, e) && e < |raw| && e < |after| && raw[..e + 1] == after[..e + 1]
    ensures OccursAt(after, "---", 0) && FenceTo(after, 3, g - 1)
  {
  }

  lemma NoCloseInLine(after: string, e: nat, line: string, j: nat)
    requires e + 1 + |line| <= |after| && after[e] == '\n' && after[e + 1..e + 1 + |line|] == line
    requires Free(line, '\n') && OccursAt(line, KEY, 0)
    requires j < e + 1 + |line| && Closes(after, j)
    ensures j < e
  {
    OccursChars(after, "\n---", j);
    assert after[j] == '\n' && after[j + 1] == '-';
    assert forall k :: 0 <= k < |line| ==> after[e + 1..e + 1 + |line|][k] == line[k];
    assert forall k :: e < k < e + 1 + |line| ==> after[k] == line[k - e - 1];
    assert line[0] == line[..|KEY|][0] == 'a';
    assert after[e + 1] == 'a';
  }

  /** A note this job has written: it has a block, and the block has the key. */
  predicate Sealed(text: string) {
    match Front(text)
    case None => false
    case Some(h) => HasKey(text[h.start..h.end])
  }

  lemma InsertedSealed(raw: string, g: nat, e: nat, line: string)
    requires IsFront(raw, g, e) && Free(line, '\n') && OccursAt(line, KEY, 0)
    ensures Sealed(WithLine(raw, e, line))
  {
    InsertedFront(raw, g, e, line);
    var after := WithLine(raw, e, line);
    FrontIs(after, g, e + 1 + |line|);
    var head := raw[g..e] + "\n" + line;
    var p := e - g + 1;
    assert head[p..p + |KEY|] == line[0..|KEY|];
    assert KeyAt(head, p);
  }

  /** `created_prefix`. */
  function CreatedPrefix(line: string): string {
    "---\n" + line + "\n---\n\n"
  }

  lemma CreatedFront(raw: string, line: string)
    requires Free(line, '\n')
    ensures IsFront(CreatedPrefix(line) + raw, 4, 4 + |line|)
    ensures (CreatedPrefix(line) + raw)[4..4 + |line|] == line
  {
    var text, e := CreatedPrefix(line) + raw, 4 + |line|;
    assert text[0..3] == "---" && text[e..e + 4] == "\n---" && text[e + 4] == '\n';
    assert FenceTo(text, 3, 3) && FenceTo(text, e + 4, e + 4);
    assert text[4..e] == line;
    forall j | 4 <= j < e ensures !Closes(text, j) {
      OccursChars(text, "\n---", j);
      assert text[j] == text[4..e][j - 4];
    }
  }

  lemma CreatedSealed(raw: string, line: string)
    requires Free(line, '\n') && OccursAt(line, KEY, 0)
    ensures Sealed(CreatedPrefix(line) + raw)
  {
    CreatedFront(raw, line);
    FrontIs(CreatedPrefix(line) + raw, 4, 4 + |line|);
    assert KeyAt(line, 0);
  }

  // ----- the two operations and their undo -----

  datatype Op = Insert | Create

  /** `insert_aliases` / `create_frontmatter_block`; None is the `ValueError`. */
  function Edit(op: Op, raw: string, line: string): Option<string> {
    match op
    case Insert =>
      (match Front(raw)
       case None => None
       case Some(h) => if HasKey(raw[h.start..h.end]) then None else Some(WithLine(raw, h.end, line)))
    case Create =>
      if Front(raw).Some? then None else Some(CreatedPrefix(line) + raw)
  }

  /** What `revert` computes from a note it finds unchanged. */
  function Undo(op: Op, current: string, line: string): string {
    match op
    case Insert => RemoveFirst(current, "\n" + line)
    case Create => if CreatedPrefix(line) <= current then current[|CreatedPrefix(line)|..] else current
  }

  /** Undoing an edit restores every byte, for either operation. */
  lemma EditUndo(op: Op, raw: string, line: string)
    requires OccursAt(line, KEY, 0) && Edit(op, raw, line).Some?
    ensures Undo(op, Edit(op, raw, line).value, line) == raw
    ensures |Edit(op, raw, line).value| > |raw|
  {
    match op {
      case Insert =>
        var h := Front(raw).value;
        RemoveInserted(raw, h.start, h.end, line);
      case Create =>
        assert (CreatedPrefix(line) + raw)[|CreatedPrefix(line)|..] == raw;
    }
  }

  /** A second edit of an edited note is refused, whichever operations they are. */
  lemma EditOnce(op: Op, raw: string, line: string, again: Op, other: string)
    requires OccursAt(line, KEY, 0) && Free(line, '\n') && Edit(op, raw, line).Some?
    ensures Sealed(Edit(op, raw, line).value)
    ensures Edit(again, Edit(op, raw, line).value, other).None?
  {
    match op {
      case Insert =>
        var h := Front(raw).value;
        InsertedSealed(raw, h.start, h.end, line);
      case Create => CreatedSealed(raw, line);
    }
  }
}
