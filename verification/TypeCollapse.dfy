/** scripts/migrate_type_collapse.py: planning and applying the line edits of one note. */
module TypeCollapse {
  import opened Text

  // ----- reading frontmatter lines -----

  datatype Field = Field(line: nat, key: string, value: string)

  predicate IsFence(line: string) {
    Strip(line) == "---"
  }

  /** A line of the block that counts: not blank, not indented, no comment, no list item, and with a colon. */
  function ParseLine(line: nat, raw: string): (r: Option<Field>)
    ensures r.Some? ==> r.value.line == line
  {
    if raw == "" || raw[0] == ' ' || raw[0] == '\t' || raw[0] == '#' || raw[0] == '-' then None
    else
      match Find(raw, ":", 0)
      case None => None
      case Some(c) => Some(Field(line, Strip(raw[..c]), Strip(raw[c + 1..])))
  }

  /** Exactly the lines that carry a field: the first colon divides key and value, blanks around both dropped. */
  lemma ParseLineIs(line: nat, raw: string, f: Field)
    ensures ParseLine(line, raw) == Some(f) <==>
            && raw != "" && raw[0] !in {' ', '\t', '#', '-'}
            && exists key, value ::
                 raw == key + ":" + value && Free(key, ':') && f == Field(line, Strip(key), Strip(value))
  {
    hide Strip;
    forall key, value | raw == key + ":" + value && Free(key, ':')
      ensures Find(raw, ":", 0) == Some(|key|) && raw[..|key|] == key && raw[|key| + 1..] == value
    {
      FirstColon(key, value);
    }
    match Find(raw, ":", 0) {
      case None =>
      case Some(c) => SplitAtColon(raw, c);
    }
  }

  lemma FirstColon(key: string, value: string)
    requires Free(key, ':')
    ensures Find(key + ":" + value, ":", 0) == Some(|key|)
  {
    var raw := key + ":" + value;
    assert raw[|key|..|key| + 1] == ":";
    forall j | 0 <= j < |key| ensures !OccursAt(raw, ":", j) {
      assert raw[j] == key[j] && raw[j..j + 1] == [key[j]];
    }
    FindIs(raw, ":", 0, |key|);
  }

  lemma SplitAtColon(raw: string, c: nat)
    requires Find(raw, ":", 0) == Some(c)
    ensures c < |raw| && raw == raw[..c] + ":" + raw[c + 1..] && Free(raw[..c], ':')
  {
    forall j | 0 <= j < c ensures raw[j] != ':' {
      assert !OccursAt(raw, ":", j);
      OccursChars(raw, ":", j);
    }
  }

  /** A fence is three dashes, blanks around them or not. */
  lemma FenceIs(line: string)
    ensures IsFence(line) <==> exists l, r :: All(l, Space) && All(r, Space) && line == l + "---" + r
  {
    if IsFence(line) {
      var l, r := TrimSplit(line, Space);
      assert line == l + "---" + r;
    }
    forall l, r | All(l, Space) && All(r, Space) && line == l + "---" + r ensures IsFence(line) {
      assert Trimmed("---", Space) by {
        assert !IsSpace('-');
      }
      TrimIs(l, "---", r, Space);
    }
  }

  function LinesOf(text: string): seq<string> {
    Split(text, '\n')
  }

  /** The first line from `i` on, in front of the closing fence, that carries `key`. */
  function FirstKey(lines: seq<string>, i: nat, key: string): (r: Option<Field>)
    ensures r.Some? ==> i <= r.value.line < |lines| && r.value.key == key
    ensures r.Some? ==> ParseLine(r.value.line, lines[r.value.line]) == r && !IsFence(lines[r.value.line])
    ensures r.Some? ==> forall j :: i <= j < r.value.line ==> !IsFence(lines[j])
    decreases |lines| - i
  {
    if i >= |lines| || IsFence(lines[i]) then None
    else
      var f := ParseLine(i, lines[i]);
      if f.Some? && f.value.key == key then f else FirstKey(lines, i + 1, key)
  }

  predicate Opens(lines: seq<string>) {
    |lines| >= 2 && lines[0] == "---"
  }

  function Lookup(lines: seq<string>, key: string): Option<Field> {
    if Opens(lines) then FirstKey(lines, 1, key) else None
  }

  /** `text.startswith("---\n")` is the same as a first line of three dashes with a line after it. */
  lemma OpensIs(text: string)
    ensures OccursAt(text, "---\n", 0) <==> Opens(LinesOf(text))
  {
    var lines := LinesOf(text);
    JoinSplit(text, '\n');
    SplitParts(text, '\n');
    if Opens(lines) {
      assert text == "---" + ['\n'] + Join(lines[1..], '\n');
      assert text[0..4] == "---\n";
    }
    if OccursAt(text, "---\n", 0) {
      assert text == "---" + ['\n'] + text[4..];
      SplitCons("---", text[4..], '\n');
    }
  }

  // ----- planning -----

  datatype Rules = Rules(memoryTypes: set<string>, recordKinds: set<string>, deprecations: map<string, string>)

  /** `rules.resolve_deprecated(value) or value`. */
  function Current(rules: Rules, value: string): string {
    if value in rules.deprecations && rules.deprecations[value] != "" then rules.deprecations[value] else value
  }

  /** The field a registered value belongs under. */
  function FieldFor(rules: Rules, value: string): Option<string> {
    if value in rules.memoryTypes then Some("type")
    else if value in rules.recordKinds then Some("kind")
    else None
  }

  const STATUS_MAP: map<string, string> :=
    map["inbox" := "unfiled", "promoted" := "active", "parked" := "unfiled", "evergreen" := "active"]

  datatype Edit = Edit(line: nat, before: string, after: string)

  datatype Plan = BothFields | Unregistered(value: string) | Edits(edits: seq<Edit>)

  function LeadingBlanks(s: string): string {
    TrimLeftLength(s);
    s[..|s| - |TrimLeft(s, Space)|]
  }

  /** `rewrite_line`. */
  function RewriteLine(raw: string, value: string, newField: string, newValue: string): string {
    var after := match Find(raw, ":", 0) case None => "" case Some(c) => raw[c + 1..];
    var stripped := Strip(after);
    newField + ":" + LeadingBlanks(after) + newValue + (if |value| <= |stripped| then stripped[|value|..] else "")
  }

  lemma TrimLeftLength(s: string)
    ensures |TrimLeft(s, Space)| <= |s|
  {
  }

  /** What the vocabulary field needs. */
  function VocabPlan(lines: seq<string>, rules: Rules, f: Field): Plan
    requires f.line < |lines|
  {
    if f.value == "" then Edits([])
    else
      var v := Current(rules, f.value);
      match FieldFor(rules, v)
      case None => Unregistered(f.value)
      case Some(field) =>
        if field == f.key && v == f.value then Edits([])
        else Edits([Edit(f.line, lines[f.line], RewriteLine(lines[f.line], f.value, field, v))])
  }

  function StatusEdits(lines: seq<string>, s: Option<Field>): seq<Edit>
    requires s.Some? ==> s.value.line < |lines|
  {
    if s.Some? && s.value.value in STATUS_MAP
    then [Edit(s.value.line, lines[s.value.line],
               RewriteLine(lines[s.value.line], s.value.value, "status", STATUS_MAP[s.value.value]))]
    else []
  }

  function PlanLines(lines: seq<string>, rules: Rules): Plan {
    var t, k := Lookup(lines, "type"), Lookup(lines, "kind");
    if t.Some? && k.Some? then BothFields
    else
      var vocab := if t.Some? then VocabPlan(lines, rules, t.value)
                   else if k.Some? then VocabPlan(lines, rules, k.value)
                   else Edits([]);
      if vocab.Edits? then Edits(vocab.edits + StatusEdits(lines, Lookup(lines, "status"))) else vocab
  }

  /** The loop of `plan_note` over what `frontmatter_lines` yields: the first line of each key. */
  method CollectFields(lines: seq<string>) returns (type_: Option<Field>, kind: Option<Field>, status: Option<Field>)
    requires |lines| >= 1
    ensures type_ == FirstKey(lines, 1, "type") && kind == FirstKey(lines, 1, "kind")
            && status == FirstKey(lines, 1, "status")
  {
    hide ParseLine, IsFence;
    type_, kind, status := None, None, None;
    var i := 1;
    while i < |lines| && !IsFence(lines[i])
      invariant 1 <= i <= |lines|
      invariant FirstKey(lines, 1, "type") == if type_.Some? then type_ else FirstKey(lines, i, "type")
      invariant FirstKey(lines, 1, "kind") == if kind.Some? then kind else FirstKey(lines, i, "kind")
      invariant FirstKey(lines, 1, "status") == if status.Some? then status else FirstKey(lines, i, "status")
    {
      var f := ParseLine(i, lines[i]);
      if f.Some? {
        if f.value.key == "type" && type_.None? {
          type_ := f;
        } else if f.value.key == "kind" && kind.None? {
          kind := f;
        } else if f.value.key == "status" && status.None? {
          status := f;
        }
      }
      i := i + 1;
    }
  }

  /** `plan_note`. */
  method PlanNote(text: string, rules: Rules) returns (plan: Plan)
    ensures plan == PlanLines(LinesOf(text), rules)
  {
    hide FirstKey, RewriteLine, LinesOf, ParseLine, IsFence;
    var lines := LinesOf(text);
    var type_: Option<Field>, kind: Option<Field>, status: Option<Field> := None, None, None;
    OpensIs(text);
    if OccursAt(text, "---\n", 0) {
      type_, kind, status := CollectFields(lines);
    }
    if type_.Some? && kind.Some? {
      return BothFields;
    }
    var edits := [];
    if type_.Some? || kind.Some? {
      var f := if type_.Some? then type_.value else kind.value;
      if f.value != "" {
        var newValue := Current(rules, f.value);
        var newField;
        if newValue in rules.memoryTypes {
          newField := "type";
        } else if newValue in rules.recordKinds {
          newField := "kind";
        } else {
          return Unregistered(f.value);
        }
        if !(newField == f.key && newValue == f.value) {
          edits := [Edit(f.line, lines[f.line], RewriteLine(lines[f.line], f.value, newField, newValue))];
        }
      }
    }
    plan := Edits(edits + StatusEdits(lines, status));
  }

  // ----- applying -----

  function ApplyEdits(lines: seq<string>, edits: seq<Edit>): (r: Option<seq<string>>)
    ensures r.Some? ==> |r.value| == |lines|
    decreases |edits|
  {
    if edits == [] then Some(lines)
    else
      var e := edits[0];
      if e.line >= |lines| || lines[e.line] != e.before then None
      else ApplyEdits(lines[e.line := e.after], edits[1..])
  }

  class NoteFile {
    var text: string

    constructor (text: string)
      ensures this.text == text
    {
      this.text := text;
    }

    /** `apply_note`: every planned line still has to be what the plan saw; then all are replaced and the
        file is written once. */
    method ApplyNote(edits: seq<Edit>) returns (ok: bool)
      modifies this
      ensures ok <==> ApplyEdits(LinesOf(old(text)), edits).Some?
      ensures text == if ok then Join(ApplyEdits(LinesOf(old(text)), edits).value, '\n') else old(text)
    {
      var lines := LinesOf(text);
      for i := 0 to |edits|
        invariant |lines| >= 1
        invariant ApplyEdits(LinesOf(text), edits) == ApplyEdits(lines, edits[i..])
      {
        assert edits[i..][0] == edits[i] && edits[i..][1..] == edits[i + 1..];
        if edits[i].line >= |lines| || lines[edits[i].line] != edits[i].before {
          return false;
        }
        lines := lines[edits[i].line := edits[i].after];
      }
      text := Join(lines, '\n');
      ok := true;
    }
  }

  // ----- what a rewritten line reads back as -----

  /** A register entry: a trimmed word on one line. */
  predicate Plain(v: string) {
    v != "" && Trimmed(v, Space) && Free(v, '\n')
  }

  predicate IsFieldName(key: string) {
    key == "type" || key == "kind" || key == "status"
  }

  lemma FieldNameFacts(key: string)
    requires IsFieldName(key)
    ensures Plain(key) && Strip(key) == key && Free(key, ':')
    ensures key[0] != ' ' && key[0] != '\t' && key[0] != '#' && key[0] != '-'
  {
  }

  lemma StripKeepsFirst(s: string)
    requires s != "" && !IsSpace(s[0])
    ensures Strip(s) != "" && Strip(s)[0] == s[0]
  {
    assert !In(s[0], Space);
    var right := TrimRightSplit(s, Space);
    assert TrimLeft(s, Space) == s;
    assert TrimRight(s, Space) == "" ==> right == s;
  }

  lemma LeadingBlanksAll(s: string)
    ensures All(LeadingBlanks(s), Space)
    ensures |LeadingBlanks(s)| <= |s| && s[..|LeadingBlanks(s)|] == LeadingBlanks(s)
  {
    var left := TrimLeftSplit(s, Space);
    assert s[..|s| - |TrimLeft(s, Space)|] == left;
  }

  /** The blanks between the colon and the value. */
  ghost predicate BlanksOf(raw: string, value: string, blanks: string) {
    exists key, right :: Free(key, ':') && All(blanks, Space) && All(right, Space)
      && raw == key + ":" + blanks + value + right
  }

  lemma BlanksAreLeading(after: string)
    requires Strip(after) != ""
    ensures var n := |LeadingBlanks(after)|;
            && n + |Strip(after)| <= |after| && after[n..n + |Strip(after)|] == Strip(after)
            && All(after[n + |Strip(after)|..], Space)
  {
    var left := TrimLeftSplit(after, Space);
    var rest := TrimLeft(after, Space);
    var right := TrimRightSplit(rest, Space);
    assert after == left + Strip(after) + right;
  }

  lemma BlanksInLine(raw: string, key: string, after: string)
    requires raw == key + ":" + after && Free(key, ':') && Strip(after) != ""
    ensures BlanksOf(raw, Strip(after), LeadingBlanks(after))
  {
    hide Strip, LeadingBlanks;
    BlanksAreLeading(after);
    LeadingBlanksAll(after);
    var blanks, value := LeadingBlanks(after), Strip(after);
    var right := after[|blanks| + |value|..];
    assert after == blanks + value + right;
    assert raw == key + ":" + blanks + value + right;
  }

  /** The text `rewrite_line` builds: the new key, the blanks of the old line, the new value, and nothing else. */
  lemma RewriteIs(line: nat, raw: string, f: Field, newField: string, newValue: string) returns (blanks: string)
    requires ParseLine(line, raw) == Some(f) && Free(raw, '\n')
    ensures RewriteLine(raw, f.value, newField, newValue) == newField + ":" + blanks + newValue
    ensures All(blanks, Space) && Free(blanks, '\n')
    ensures f.value != "" ==> BlanksOf(raw, f.value, blanks)
  {
    var c := Find(raw, ":", 0).value;
    SplitAtColon(raw, c);
    var after := raw[c + 1..];
    blanks := LeadingBlanks(after);
    LeadingBlanksAll(after);
    assert forall i :: 0 <= i < |blanks| ==> blanks[i] == raw[c + 1 + i];
    if f.value != "" {
      BlanksInLine(raw, raw[..c], after);
    }
    assert f.value[|f.value|..] == "";
    assert RewriteLine(raw, f.value, newField, newValue) == newField + ":" + blanks + newValue + "";
  }

  lemma FieldLineParses(line: nat, key: string, blanks: string, value: string)
    requires IsFieldName(key) && Plain(value) && All(blanks, Space) && Free(blanks, '\n')
    ensures var raw := key + ":" + blanks + value;
            ParseLine(line, raw) == Some(Field(line, key, value)) && !IsFence(raw) && Free(raw, '\n')
  {
    hide Find, OccursAt;
    var raw := key + ":" + blanks + value;
    FieldNameFacts(key);
    assert raw == key + ":" + (blanks + value);
    FirstColon(key, blanks + value);
    assert raw[..|key|] == key && raw[|key| + 1..] == blanks + value + "";
    TrimIs(blanks, value, "", Space);
    assert raw[0] == key[0];
    StripKeepsFirst(raw);
  }

  /** A rewritten line carries the new field with the new value and is no fence. */
  lemma RewriteParses(line: nat, raw: string, f: Field, newField: string, newValue: string)
    requires ParseLine(line, raw) == Some(f) && Free(raw, '\n')
    requires IsFieldName(newField) && Plain(newValue)
    ensures var out := RewriteLine(raw, f.value, newField, newValue);
            ParseLine(line, out) == Some(Field(line, newField, newValue)) && !IsFence(out) && Free(out, '\n')
  {
    hide RewriteLine, ParseLine, IsFence;
    var blanks := RewriteIs(line, raw, f, newField, newValue);
    FieldLineParses(line, newField, blanks, newValue);
  }

  // ----- looking a key up in lines of which one changed -----

  predicate Carries(lines: seq<string>, j: nat, key: string)
    requires j < |lines|
  {
    ParseLine(j, lines[j]).Some? && ParseLine(j, lines[j]).value.key == key
  }

  ghost predicate NoFence(lines: seq<string>, i: nat, n: nat)
    requires n <= |lines|
  {
    forall j :: i <= j < n ==> !IsFence(lines[j])
  }

  ghost predicate NoCarrier(lines: seq<string>, i: nat, n: nat, key: string)
    requires n <= |lines|
  {
    forall j :: i <= j < n ==> !Carries(lines, j, key)
  }

  lemma {:induction false} FirstKeySkips(lines: seq<string>, i: nat, n: nat, key: string)
    requires i <= n <= |lines| && NoFence(lines, i, n) && NoCarrier(lines, i, n, key)
    ensures FirstKey(lines, i, key) == FirstKey(lines, n, key)
    decreases n - i
  {
    hide ParseLine, IsFence;
    if i < n {
      assert !Carries(lines, i, key);
      FirstKeySkips(lines, i + 1, n, key);
    }
  }

  /** In front of a found key, or of any line before the fence when there is none, nothing carries it. */
  lemma {:induction false} BeforeFirstKey(lines: seq<string>, i: nat, n: nat, key: string)
    requires i <= n <= |lines| && NoFence(lines, i, n)
    requires FirstKey(lines, i, key).None? || n <= FirstKey(lines, i, key).value.line
    ensures NoCarrier(lines, i, n, key)
    decreases n - i
  {
    hide ParseLine, IsFence;
    if i < n {
      BeforeFirstKey(lines, i + 1, n, key);
    }
  }

  lemma {:induction false} FirstKeyTail(lines: seq<string>, other: seq<string>, i: nat, key: string)
    requires |lines| == |other| && forall j :: i <= j < |lines| ==> lines[j] == other[j]
    ensures FirstKey(lines, i, key) == FirstKey(other, i, key)
    decreases |lines| - i
  {
    hide ParseLine, IsFence;
    if i < |lines| {
      FirstKeyTail(lines, other, i + 1, key);
    }
  }

  /** Rewriting line `p` from one field to another, neither of them a fence. */
  ghost predicate Rewritten(lines: seq<string>, out: seq<string>, p: nat, was: Field, now: Field) {
    && 1 <= p < |lines| == |out|
    && (forall j :: 0 <= j < |lines| && j != p ==> out[j] == lines[j])
    && ParseLine(p, lines[p]) == Some(was) && ParseLine(p, out[p]) == Some(now)
    && !IsFence(lines[p]) && !IsFence(out[p])
  }

  lemma {:induction false} OtherKeyKept(lines: seq<string>, out: seq<string>, p: nat, was: Field, now: Field, i: nat,
                                        key: string)
    requires Rewritten(lines, out, p, was, now) && was.key != key && now.key != key
    ensures FirstKey(out, i, key) == FirstKey(lines, i, key)
    decreases |lines| - i
  {
    hide ParseLine, IsFence;
    if i < |lines| {
      OtherKeyKept(lines, out, p, was, now, i + 1, key);
    }
  }

  lemma SameBefore(lines: seq<string>, out: seq<string>, p: nat, was: Field, now: Field, key: string)
    requires Rewritten(lines, out, p, was, now) && NoFence(lines, 1, p) && NoCarrier(lines, 1, p, key)
    ensures NoFence(out, 1, p) && NoCarrier(out, 1, p, key)
  {
    hide ParseLine, IsFence;
    forall j | 1 <= j < p ensures !IsFence(out[j]) && !Carries(out, j, key) {
      assert out[j] == lines[j] && !Carries(lines, j, key) && !IsFence(lines[j]);
    }
  }

  /** The rewritten line is the first to carry its new key, if the old lines had none in front of it. */
  lemma NewKeyFound(lines: seq<string>, out: seq<string>, p: nat, was: Field, now: Field)
    requires Rewritten(lines, out, p, was, now) && FirstKey(lines, 1, was.key) == Some(was) && was.line == p
    requires now.key == was.key || FirstKey(lines, 1, now.key).None?
    ensures FirstKey(out, 1, now.key) == Some(now)
  {
    hide ParseLine, IsFence;
    BeforeFirstKey(lines, 1, p, now.key);
    SameBefore(lines, out, p, was, now, now.key);
    FirstKeySkips(out, 1, p, now.key);
    ParsedKey(out, p, now);
  }

  lemma ParsedKey(lines: seq<string>, p: nat, f: Field)
    requires p < |lines| && ParseLine(p, lines[p]) == Some(f) && !IsFence(lines[p])
    ensures FirstKey(lines, p, f.key) == Some(f)
  {
  }

  /** After a rename, the old key is found on the next line that carries it. */
  lemma OldKeyMovesOn(lines: seq<string>, out: seq<string>, p: nat, was: Field, now: Field)
    requires Rewritten(lines, out, p, was, now) && FirstKey(lines, 1, was.key) == Some(was) && was.line == p
    requires now.key != was.key
    ensures FirstKey(out, 1, was.key) == FirstKey(lines, p + 1, was.key)
  {
    hide ParseLine, IsFence;
    BeforeFirstKey(lines, 1, p, was.key);
    SameBefore(lines, out, p, was, now, was.key);
    assert !Carries(out, p, was.key);
    FirstKeySkips(out, 1, p + 1, was.key);
    FirstKeyTail(out, lines, p + 1, was.key);
  }

  // ----- when planning again finds nothing -----

  ghost predicate WellFormedRules(rules: Rules) {
    forall v :: v in rules.memoryTypes || v in rules.recordKinds ==> Plain(v)
  }

  ghost predicate Lines(lines: seq<string>) {
    |lines| >= 1 && forall i :: 0 <= i < |lines| ==> Free(lines[i], '\n')
  }

  function VocabField(lines: seq<string>): Option<Field> {
    if Lookup(lines, "type").Some? then Lookup(lines, "type") else Lookup(lines, "kind")
  }

  predicate BothKeys(lines: seq<string>) {
    Lookup(lines, "type").Some? && Lookup(lines, "kind").Some?
  }

  /** A current value under its own field. */
  predicate CleanField(rules: Rules, f: Field) {
    f.value == "" || (Current(rules, f.value) == f.value && FieldFor(rules, f.value) == Some(f.key))
  }

  predicate CleanVocab(lines: seq<string>, rules: Rules) {
    !BothKeys(lines) && (VocabField(lines).Some? ==> CleanField(rules, VocabField(lines).value))
  }

  predicate CleanStatus(lines: seq<string>) {
    Lookup(lines, "status").Some? ==> Lookup(lines, "status").value.value !in STATUS_MAP
  }

  lemma NothingToDo(lines: seq<string>, rules: Rules)
    ensures PlanLines(lines, rules) == Edits([]) <==> CleanVocab(lines, rules) && CleanStatus(lines)
  {
  }

  lemma LookupKeys(lines: seq<string>)
    ensures forall key :: Lookup(lines, key).Some? ==>
              Lookup(lines, key).value.key == key && 1 <= Lookup(lines, key).value.line < |lines|
  {
  }

  /** The condition on the note and the rules: the replacement value is not itself retired, and if the
      field is renamed, no later line of the block carries the old field name. */
  predicate Settled(lines: seq<string>, rules: Rules) {
    VocabField(lines).Some? ==>
      var f := VocabField(lines).value;
      f.value == "" ||
      (var v := Current(rules, f.value);
       Current(rules, v) == v
       && (FieldFor(rules, v) == Some(f.key) || FirstKey(lines, f.line + 1, f.key).None?))
  }

  /** The vocabulary field is renamed, and a later line of the block carries its old name. */
  predicate RepeatsRenamed(lines: seq<string>, rules: Rules) {
    VocabField(lines).Some? &&
    var f := VocabField(lines).value;
    && f.value != "" && FieldFor(rules, Current(rules, f.value)) != Some(f.key)
    && FirstKey(lines, f.line + 1, f.key).Some?
  }

  /** A planned edit of the field `f`: the line it is on now reads `key: value`. */
  ghost predicate EditOf(lines: seq<string>, e: Edit, f: Field, key: string, value: string) {
    && 1 <= f.line < |lines| && e.line == f.line && e.before == lines[f.line]
    && e.after == RewriteLine(lines[f.line], f.value, key, value)
    && IsFieldName(key) && Plain(value) && Lookup(lines, f.key) == Some(f)
  }

  lemma EditRewrites(lines: seq<string>, e: Edit, f: Field, key: string, value: string)
    requires Lines(lines) && EditOf(lines, e, f, key, value)
    ensures Rewritten(lines, lines[f.line := e.after], f.line, f, Field(f.line, key, value))
    ensures Lines(lines[f.line := e.after]) && Opens(lines) && Opens(lines[f.line := e.after])
    ensures FirstKey(lines, 1, f.key) == Some(f)
  {
    hide ParseLine, IsFence, RewriteLine, FirstKey;
    RewriteParses(f.line, lines[f.line], f, key, value);
  }

  lemma VocabEditOf(lines: seq<string>, rules: Rules, f: Field) returns (e: Edit, key: string, value: string)
    requires WellFormedRules(rules) && PlanLines(lines, rules).Edits?
    requires VocabField(lines) == Some(f) && !CleanField(rules, f)
    ensures EditOf(lines, e, f, key, value) && (key == "type" || key == "kind")
    ensures value == Current(rules, f.value) && FieldFor(rules, value) == Some(key) && f.value != ""
    ensures PlanLines(lines, rules).edits == [e] + StatusEdits(lines, Lookup(lines, "status"))
    ensures e.line == f.line < |lines| && e.before == lines[f.line]
  {
    hide FirstKey, RewriteLine, StatusEdits, Plain;
    LookupKeys(lines);
    value := Current(rules, f.value);
    key := FieldFor(rules, value).value;
    e := Edit(f.line, lines[f.line], RewriteLine(lines[f.line], f.value, key, value));
  }

  /** After the vocabulary edit, the vocabulary is clean exactly when the note was settled; the status
      line is where it was. */
  lemma VocabStep(lines: seq<string>, rules: Rules, f: Field, e: Edit, key: string, value: string)
    requires Lines(lines) && VocabField(lines) == Some(f) && !BothKeys(lines) && f.value != ""
    requires (f.key == "type" || f.key == "kind") && (key == "type" || key == "kind")
    requires EditOf(lines, e, f, key, value)
    requires value == Current(rules, f.value) && FieldFor(rules, value) == Some(key)
    ensures CleanVocab(lines[f.line := e.after], rules) <==> Settled(lines, rules)
    ensures BothKeys(lines[f.line := e.after]) <==> RepeatsRenamed(lines, rules)
    ensures Lookup(lines[f.line := e.after], key) == Some(Field(f.line, key, value))
    ensures Lookup(lines[f.line := e.after], "status") == Lookup(lines, "status")
  {
    hide ParseLine, IsFence, RewriteLine, FirstKey, Plain;
    var out, now := lines[f.line := e.after], Field(f.line, key, value);
    EditRewrites(lines, e, f, key, value);
    OtherKeyKept(lines, out, f.line, f, now, 1, "status");
    NewKeyFound(lines, out, f.line, f, now);
    if key == f.key {
      var other := if key == "type" then "kind" else "type";
      OtherKeyKept(lines, out, f.line, f, now, 1, other);
      assert Lookup(out, other).None?;
    } else {
      OldKeyMovesOn(lines, out, f.line, f, now);
    }
  }

  lemma StatusStep(lines: seq<string>, rules: Rules, f: Field)
    requires Lines(lines) && Lookup(lines, "status") == Some(f) && f.value in STATUS_MAP
    ensures var e := StatusEdits(lines, Some(f))[0];
            && EditOf(lines, e, f, "status", STATUS_MAP[f.value])
            && var out := lines[f.line := e.after];
            && Lines(out) && CleanStatus(out) && (CleanVocab(out, rules) <==> CleanVocab(lines, rules))
               && (BothKeys(out) <==> BothKeys(lines))
               && Lookup(out, "type") == Lookup(lines, "type") && Lookup(out, "kind") == Lookup(lines, "kind")
               && Lookup(out, "status") == Some(Field(f.line, "status", STATUS_MAP[f.value]))
  {
    hide ParseLine, IsFence, RewriteLine, FirstKey;
    LookupKeys(lines);
    var e := StatusEdits(lines, Some(f))[0];
    var value := STATUS_MAP[f.value];
    StatusValuesPlain(f.value);
    EditRewrites(lines, e, f, "status", value);
    var out, now := lines[f.line := e.after], Field(f.line, "status", value);
    NewKeyFound(lines, out, f.line, f, now);
    OtherKeyKept(lines, out, f.line, f, now, 1, "type");
    OtherKeyKept(lines, out, f.line, f, now, 1, "kind");
  }

  lemma StatusValuesPlain(value: string)
    requires value in STATUS_MAP
    ensures Plain(STATUS_MAP[value]) && STATUS_MAP[value] !in STATUS_MAP
  {
  }

  lemma FieldToEdit(lines: seq<string>, rules: Rules) returns (f: Field)
    requires PlanLines(lines, rules).Edits? && !CleanVocab(lines, rules)
    ensures VocabField(lines) == Some(f) && !CleanField(rules, f) && !BothKeys(lines)
    ensures (f.key == "type" || f.key == "kind") && Lookup(lines, f.key) == Some(f) && f.line in FieldLines(lines)
  {
    hide FirstKey, RewriteLine, Lookup;
    LookupKeys(lines);
    f := VocabField(lines).value;
  }

  /** The vocabulary half of applying a plan. */
  lemma AfterVocab(lines: seq<string>, rules: Rules) returns (mid: seq<string>)
    requires Lines(lines) && WellFormedRules(rules) && PlanLines(lines, rules).Edits?
    ensures Lines(mid) && |mid| == |lines| && (CleanVocab(mid, rules) <==> Settled(lines, rules))
    ensures BothKeys(mid) <==> RepeatsRenamed(lines, rules)
    ensures VocabField(lines).Some? ==> VocabWritten(rules, VocabField(lines).value, mid)
    ensures VocabField(lines).None? ==> VocabField(mid).None?
    ensures VocabField(lines).Some? ==> VocabField(lines).value.key == "type" || VocabField(lines).value.key == "kind"
    ensures Lookup(mid, "status") == Lookup(lines, "status")
    ensures ApplyEdits(lines, PlanLines(lines, rules).edits) == ApplyEdits(mid, StatusEdits(mid, Lookup(mid, "status")))
    ensures Changed(lines, mid) <= FieldLines(lines)
  {
    hide FirstKey, RewriteLine, Lookup, StatusEdits, ApplyEdits, Plain, PlanLines, CleanVocab, Settled, VocabField,
         EditOf, BothKeys, RepeatsRenamed, VocabWritten, Rewritten, Lines, FieldLines, Current, FieldFor,
         CleanField, WellFormedRules;
    LookupKeys(lines);
    VocabKey(lines);
    if CleanVocab(lines, rules) {
      mid := lines;
      CleanIsSettled(lines, rules);
      if VocabField(lines).Some? {
        CleanIsWritten(lines, rules, VocabField(lines).value);
      }
    } else {
      var f := FieldToEdit(lines, rules);
      var e, key, value := VocabEditOf(lines, rules, f);
      EditRewrites(lines, e, f, key, value);
      VocabStep(lines, rules, f, e, key, value);
      mid := lines[f.line := e.after];
      EditIsWritten(rules, f, mid, key, value);
      StatusLineKept(lines, mid, f, Lookup(lines, "status"));
      ApplyFirst(lines, e, StatusEdits(lines, Lookup(lines, "status")));
    }
  }

  lemma VocabKey(lines: seq<string>)
    ensures VocabField(lines).Some? ==>
              var f := VocabField(lines).value; (f.key == "type" || f.key == "kind") && Lookup(lines, f.key) == Some(f)
  {
    hide FirstKey;
    LookupKeys(lines);
  }

  lemma CleanIsWritten(lines: seq<string>, rules: Rules, f: Field)
    requires CleanVocab(lines, rules) && VocabField(lines) == Some(f) && Lookup(lines, f.key) == Some(f)
    ensures VocabWritten(rules, f, lines)
  {
    hide Lookup, Current, CalledToday;
    LookupKeys(lines);
    CurrentIs(rules, f.value, f.value);
  }

  lemma EditIsWritten(rules: Rules, f: Field, out: seq<string>, key: string, value: string)
    requires f.value != "" && value == Current(rules, f.value) && FieldFor(rules, value) == Some(key)
    requires Lookup(out, key) == Some(Field(f.line, key, value))
    ensures VocabWritten(rules, f, out)
  {
    hide Lookup, Current, CalledToday;
    CurrentIs(rules, f.value, value);
  }

  lemma CleanIsSettled(lines: seq<string>, rules: Rules)
    requires CleanVocab(lines, rules) && PlanLines(lines, rules).Edits?
    ensures Settled(lines, rules) && !BothKeys(lines) && !RepeatsRenamed(lines, rules)
    ensures PlanLines(lines, rules).edits == StatusEdits(lines, Lookup(lines, "status"))
  {
  }

  lemma ApplyFirst(lines: seq<string>, e: Edit, rest: seq<Edit>)
    requires e.line < |lines| && lines[e.line] == e.before
    ensures ApplyEdits(lines, [e] + rest) == ApplyEdits(lines[e.line := e.after], rest)
  {
  }

  /** The status line is another line than the vocabulary line, so its planned edit is the same. */
  lemma StatusLineKept(lines: seq<string>, mid: seq<string>, f: Field, st: Option<Field>)
    requires f.line < |lines| == |mid| && f.key != "status" && Lookup(lines, f.key) == Some(f)
    requires st == Lookup(lines, "status") == Lookup(mid, "status")
    requires forall j :: 0 <= j < |lines| && j != f.line ==> mid[j] == lines[j]
    ensures StatusEdits(mid, st) == StatusEdits(lines, st)
  {
  }

  function Changed(lines: seq<string>, out: seq<string>): set<nat>
    requires |lines| == |out|
  {
    set i: nat | i < |lines| && lines[i] != out[i]
  }

  /** The lines a plan may touch: the first `type`, `kind` and `status` lines of the block. */
  function FieldLines(lines: seq<string>): set<nat> {
    set key | key in {"type", "kind", "status"} && Lookup(lines, key).Some? :: Lookup(lines, key).value.line
  }

  /** Applying a plan succeeds on the note it was made for, keeps the number of lines, changes no line
      but the planned ones, and leaves a note on which planning again finds nothing exactly when the
      note was settled, and which is refused for carrying both fields exactly when the vocabulary field
      was renamed and a later line carries its old name. */
  lemma ReplanAfterApply(lines: seq<string>, rules: Rules) returns (out: seq<string>)
    requires Lines(lines) && WellFormedRules(rules) && PlanLines(lines, rules).Edits?
    ensures ApplyEdits(lines, PlanLines(lines, rules).edits) == Some(out)
    ensures Lines(out) && |out| == |lines| && Changed(lines, out) <= FieldLines(lines)
    ensures PlanLines(out, rules) == Edits([]) <==> Settled(lines, rules)
    ensures PlanLines(out, rules) == BothFields <==> RepeatsRenamed(lines, rules)
  {
    hide FirstKey, RewriteLine, Lookup, PlanLines, CleanVocab, Settled, RepeatsRenamed, BothKeys, Plain;
    var mid := AfterVocab(lines, rules);
    var st := Lookup(mid, "status");
    if CleanStatus(mid) {
      out := mid;
    } else {
      StatusStep(mid, rules, st.value);
      var e := StatusEdits(mid, st)[0];
      out := mid[st.value.line := e.after];
      ApplyFirst(mid, e, []);
      assert [e] + [] == StatusEdits(mid, st);
      assert st.value.line in FieldLines(lines);
    }
    NothingToDo(out, rules);
    BothIsRefused(out, rules);
  }

  lemma BothIsRefused(lines: seq<string>, rules: Rules)
    ensures PlanLines(lines, rules) == BothFields <==> BothKeys(lines)
  {
  }

  /** The same for the whole file: what `apply_note` writes splits back into exactly those lines. */
  lemma ApplyThenReplan(text: string, rules: Rules)
    requires WellFormedRules(rules) && PlanLines(LinesOf(text), rules).Edits?
    ensures var applied := ApplyEdits(LinesOf(text), PlanLines(LinesOf(text), rules).edits);
            && applied.Some? && |applied.value| >= 1
            && LinesOf(Join(applied.value, '\n')) == applied.value
            && (PlanLines(LinesOf(Join(applied.value, '\n')), rules) == Edits([]) <==> Settled(LinesOf(text), rules))
            && (PlanLines(LinesOf(Join(applied.value, '\n')), rules) == BothFields <==>
                RepeatsRenamed(LinesOf(text), rules))
  {
    hide PlanLines, ApplyEdits, Settled, RepeatsRenamed, Join, LinesOf;
    LinesAreLines(text);
    var out := ReplanAfterApply(LinesOf(text), rules);
    BackToLines(out);
  }

  lemma LinesAreLines(text: string)
    ensures Lines(LinesOf(text))
  {
    SplitParts(text, '\n');
  }

  lemma BackToLines(lines: seq<string>)
    requires Lines(lines)
    ensures LinesOf(Join(lines, '\n')) == lines
  {
    SplitJoin(lines, '\n');
  }

  /** What a note looks like once planning finds nothing: one vocabulary field, a memory type under
      `type` and any other record kind under `kind`, and no retired status. */
  ghost predicate Collapsed(lines: seq<string>, rules: Rules) {
    var t, k, st := Lookup(lines, "type"), Lookup(lines, "kind"), Lookup(lines, "status");
    && !(t.Some? && k.Some?)
    && (t.Some? ==> t.value.value == "" || t.value.value in rules.memoryTypes)
    && (k.Some? ==> k.value.value == "" || (k.value.value in rules.recordKinds && k.value.value !in rules.memoryTypes))
    && (st.Some? ==> st.value.value != "inbox" && st.value.value != "promoted"
                     && st.value.value != "parked" && st.value.value != "evergreen")
  }

  lemma NothingToDoIsCollapsed(lines: seq<string>, rules: Rules)
    requires PlanLines(lines, rules) == Edits([])
    ensures Collapsed(lines, rules)
  {
    hide FirstKey, Lookup, RewriteLine;
    LookupKeys(lines);
    NothingToDo(lines, rules);
  }

  // ----- what is written, from the rules themselves -----

  /** What the contract calls this value today: what it is mapped to, or else what it is. */
  ghost predicate CalledToday(rules: Rules, was: string, now: string) {
    if exists v :: (was, v) in rules.deprecations.Items && v != "" then (was, now) in rules.deprecations.Items
    else now == was
  }

  lemma CurrentIs(rules: Rules, was: string, now: string)
    ensures CalledToday(rules, was, now) <==> now == Current(rules, was)
  {
    if exists v :: (was, v) in rules.deprecations.Items && v != "" {
      assert was in rules.deprecations;
    } else if was in rules.deprecations {
      assert (was, rules.deprecations[was]) in rules.deprecations.Items;
    }
  }

  /** A note is refused exactly if it has both fields, or its one field has a value that the contract, under
      today's name, knows neither as a memory type nor as a record kind. */
  lemma RefusedExactly(lines: seq<string>, rules: Rules, value: string, now: string)
    requires CalledToday(rules, value, now)
    ensures PlanLines(lines, rules) == BothFields <==> BothKeys(lines)
    ensures PlanLines(lines, rules) == Unregistered(value) <==>
            && !BothKeys(lines) && VocabField(lines).Some? && VocabField(lines).value.value == value != ""
            && now !in rules.memoryTypes + rules.recordKinds
  {
    hide Lookup, Current;
    CurrentIs(rules, value, now);
  }

  /** What the line of the vocabulary field reads afterwards: today's value, as `type` if it is a memory type
      and as `kind` if it is only a record kind. A field without a value stays. */
  ghost predicate VocabWritten(rules: Rules, f: Field, out: seq<string>) {
    if f.value == "" then Lookup(out, f.key) == Some(f)
    else exists now ::
      && CalledToday(rules, f.value, now)
      && (now in rules.memoryTypes ==> Lookup(out, "type") == Some(Field(f.line, "type", now)))
      && (now !in rules.memoryTypes ==>
            now in rules.recordKinds && Lookup(out, "kind") == Some(Field(f.line, "kind", now)))
  }

  predicate StatusBecomes(was: string, now: string) {
    match was
    case "inbox" => now == "unfiled"
    case "parked" => now == "unfiled"
    case "promoted" => now == "active"
    case "evergreen" => now == "active"
    case _ => now == was
  }

  ghost predicate StatusWritten(lines: seq<string>, out: seq<string>) {
    match Lookup(lines, "status")
    case None => Lookup(out, "status").None?
    case Some(f) =>
      exists now :: StatusBecomes(f.value, now) && Lookup(out, "status") == Some(Field(f.line, "status", now))
  }

  /** The applied note. */
  lemma WhatIsWritten(lines: seq<string>, rules: Rules, out: seq<string>)
    requires Lines(lines) && WellFormedRules(rules) && PlanLines(lines, rules).Edits?
    requires ApplyEdits(lines, PlanLines(lines, rules).edits) == Some(out)
    ensures VocabField(lines).Some? ==> VocabWritten(rules, VocabField(lines).value, out)
    ensures VocabField(lines).None? ==> VocabField(out).None?
    ensures StatusWritten(lines, out)
  {
    hide FirstKey, RewriteLine, Lookup, PlanLines, Plain, StatusEdits, Settled, RepeatsRenamed, CleanVocab,
         VocabWritten,
         BothKeys, Lines, STATUS_MAP;
    var mid := AfterVocab(lines, rules);
    var st := Lookup(mid, "status");
    if CleanStatus(mid) {
      StatusStays(lines, mid);
    } else {
      LookupKeys(mid);
      OneStatusEdit(mid, st);
      StatusStep(mid, rules, st.value);
      var e := StatusEdits(mid, st)[0];
      ApplyFirst(mid, e, []);
      SameVocab(rules, mid, out, VocabField(lines));
      StatusMoves(st.value.value);
    }
  }

  lemma OneStatusEdit(lines: seq<string>, st: Option<Field>)
    requires st.Some? && st.value.line < |lines| && st.value.value in STATUS_MAP
    ensures |StatusEdits(lines, st)| == 1 && StatusEdits(lines, st) == [StatusEdits(lines, st)[0]] + []
  {
  }

  lemma StatusMoves(value: string)
    ensures StatusBecomes(value, if value in STATUS_MAP then STATUS_MAP[value] else value)
  {
  }

  lemma StatusStays(lines: seq<string>, out: seq<string>)
    requires Lookup(out, "status") == Lookup(lines, "status") && CleanStatus(out)
    ensures StatusWritten(lines, out)
    ensures StatusEdits(out, Lookup(out, "status")) == []
  {
    hide FirstKey;
    if Lookup(lines, "status").Some? {
      LookupKeys(lines);
      StatusMoves(Lookup(lines, "status").value.value);
    }
  }

  lemma SameVocab(rules: Rules, mid: seq<string>, out: seq<string>, f: Option<Field>)
    requires Lookup(out, "type") == Lookup(mid, "type") && Lookup(out, "kind") == Lookup(mid, "kind")
    requires f.Some? ==> f.value.key == "type" || f.value.key == "kind"
    ensures f.Some? && VocabWritten(rules, f.value, mid) ==> VocabWritten(rules, f.value, out)
    ensures VocabField(out) == VocabField(mid)
  {
    hide Lookup;
  }

  // ----- when the condition holds, and when it does not -----

  /** A deprecation map whose results are not retired themselves settles every note that carries its
      vocabulary field once; the two registers need not be disjoint, and a repeated `status` is harmless. */
  lemma SettledByRules(lines: seq<string>, rules: Rules)
    requires forall v :: v in rules.deprecations ==> rules.deprecations[v] !in rules.deprecations
    requires VocabField(lines).Some? ==>
               var f := VocabField(lines).value; FirstKey(lines, f.line + 1, f.key).None?
    ensures Settled(lines, rules)
  {
  }

  ghost predicate FirstCarrier(lines: seq<string>, i: nat, key: string) {
    1 <= i < |lines| && Carries(lines, i, key) && NoCarrier(lines, 1, i, key)
  }

  lemma FirstCarrierFound(lines: seq<string>, i: nat, key: string)
    requires Opens(lines) && i < |lines| && NoFence(lines, 1, i + 1) && FirstCarrier(lines, i, key)
    ensures Lookup(lines, key) == ParseLine(i, lines[i])
  {
    hide ParseLine, IsFence;
    FirstKeySkips(lines, 1, i, key);
    assert !IsFence(lines[i]);
    ParsedKey(lines, i, ParseLine(i, lines[i]).value);
  }

  /** Exactly the lines a plan may touch: in front of the closing fence, the first ones to carry a field. */
  lemma FieldLinesInsideBlock(lines: seq<string>, i: nat)
    ensures i in FieldLines(lines) <==>
            && Opens(lines) && 1 <= i < |lines| && NoFence(lines, 1, i + 1)
            && exists key :: key in {"type", "kind", "status"} && FirstCarrier(lines, i, key)
  {
    hide ParseLine, IsFence;
    if i in FieldLines(lines) {
      var key :| key in {"type", "kind", "status"} && Lookup(lines, key).Some? && Lookup(lines, key).value.line == i;
      BeforeFirstKey(lines, 1, i, key);
      assert FirstCarrier(lines, i, key);
    }
    if Opens(lines) && 1 <= i < |lines| && NoFence(lines, 1, i + 1) {
      forall key | key in {"type", "kind", "status"} && FirstCarrier(lines, i, key) ensures i in FieldLines(lines) {
        FirstCarrierFound(lines, i, key);
      }
    }
  }

  /** Without a closing fence that is every line of the body as well: a retired status there is edited. */
  lemma UnclosedBodyIsEdited(lines: seq<string>, rules: Rules, i: nat)
    requires Opens(lines) && NoFence(lines, 1, |lines|) && FirstCarrier(lines, i, "status")
    requires ParseLine(i, lines[i]).value.value in STATUS_MAP && PlanLines(lines, rules).Edits?
    ensures exists e :: e in PlanLines(lines, rules).edits && e.line == i
  {
    hide ParseLine, IsFence, RewriteLine;
    FirstCarrierFound(lines, i, "status");
    var e := StatusEdits(lines, Lookup(lines, "status"))[0];
    assert e.line == i && e in PlanLines(lines, rules).edits;
  }

  lemma DashesFence()
    ensures IsFence("---")
  {
  }

  lemma FieldLine(lines: seq<string>, i: nat, key: string, value: string)
    requires i < |lines| && IsFieldName(key) && Plain(value) && lines[i] == key + ":" + " " + value
    ensures ParseLine(i, lines[i]) == Some(Field(i, key, value)) && !IsFence(lines[i]) && Free(lines[i], '\n')
  {
    FieldLineParses(i, key, " ", value);
  }

  /** For instance a note that repeats `kind`: the first line becomes `type`, the second stays `kind`, and
      the second plan refuses the note for carrying both. */
  lemma RepeatedKindIsNotSettled(lines: seq<string>, rules: Rules) returns (out: seq<string>)
    requires rules == Rules({"a"}, {"b"}, map[])
    requires lines == ["---", "kind:" + " " + "a", "kind:" + " " + "b", "---"]
    ensures PlanLines(lines, rules).Edits? && ApplyEdits(lines, PlanLines(lines, rules).edits) == Some(out)
    ensures PlanLines(out, rules) == BothFields
  {
    hide ParseLine, IsFence, FirstKey, RewriteLine, ApplyEdits;
    DashesFence();
    FieldLine(lines, 1, "kind", "a");
    FieldLine(lines, 2, "kind", "b");
    KeysOfExample(lines);
    out := ReplanAfterApply(lines, rules);
  }

  lemma KeysOfExample(lines: seq<string>)
    requires |lines| == 4 && IsFence(lines[3])
    requires ParseLine(1, lines[1]) == Some(Field(1, "kind", "a")) && !IsFence(lines[1])
    requires ParseLine(2, lines[2]) == Some(Field(2, "kind", "b")) && !IsFence(lines[2])
    ensures FirstKey(lines, 1, "kind") == Some(Field(1, "kind", "a"))
    ensures FirstKey(lines, 2, "kind") == Some(Field(2, "kind", "b"))
    ensures FirstKey(lines, 1, "type").None? && FirstKey(lines, 1, "status").None?
  {
  }
}
