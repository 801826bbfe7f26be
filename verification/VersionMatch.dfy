/** scripts/capability_version_match.py: does an installed version satisfy a declared range? */
module VersionMatch {
  import opened Text

  type Version = seq<nat>

  datatype Op = Compatible | Equal | NotEqual | AtMost | AtLeast | Below | Above

  datatype Range = Range(op: Op, version: Version)

  // ----- the comparisons of the source -----

  /** Python's `a < b` on tuples: at the first difference, or `a` is a proper prefix. */
  predicate TupleLt(a: Version, b: Version) {
    if b == [] then false
    else if a == [] then true
    else a[0] < b[0] || (a[0] == b[0] && TupleLt(a[1..], b[1..]))
  }

  /** The version with as many zeros behind it as `length` asks for. */
  function Pad(t: Version, length: nat): (r: Version) {
    t + seq(Max(|t|, length) - |t|, _ => 0)
  }

  /** `_pad`: at least the length, the parts of `t` first, nothing but zeros behind them, and so the same version. */
  method PadLoop(t: Version, length: nat) returns (r: Version)
    ensures |r| == Max(|t|, length) && t <= r
    ensures forall i :: |t| <= i < |r| ==> r[i] == 0
    ensures r == Pad(t, length) && Same(r, t)
  {
    r := t;
    while |r| < length
      invariant |t| <= |r| <= Max(|t|, length) && t <= r
      invariant forall i :: |t| <= i < |r| ==> r[i] == 0
    {
      r := r + [0];
    }
  }

  /** Drop the last part and increment the one before it. */
  function Upper(req: Version): (r: Version)
    requires |req| >= 2
    ensures |r| == |req| - 1
  {
    req[..|req| - 2] + [req[|req| - 2] + 1]
  }

  function Max(a: nat, b: nat): nat {
    if a < b then b else a
  }

  /** The body of `satisfies` once both sides are parsed. */
  predicate SatisfiesOp(op: Op, installed: Version, req: Version) {
    if op == Compatible then
      |req| >= 2
      && !TupleLt(Pad(installed, |req|), Pad(req, |req|))
      && TupleLt(Pad(installed, |req|), Pad(Upper(req), |req|))
    else
      var depth := Max(|installed|, |req|);
      var a, b := Pad(installed, depth), Pad(req, depth);
      match op
      case AtLeast => !TupleLt(a, b)
      case Above => TupleLt(b, a)
      case AtMost => !TupleLt(b, a)
      case Below => TupleLt(a, b)
      case Equal => a == b
      case NotEqual => a != b
      case Compatible => false
  }

  // ----- what versions mean: numbers followed by zeros without end -----

  function Part(v: Version, i: nat): nat {
    if i < |v| then v[i] else 0
  }

  ghost predicate SameUpTo(a: Version, b: Version, n: nat) {
    forall j :: 0 <= j < n ==> Part(a, j) == Part(b, j)
  }

  ghost predicate LessAt(a: Version, b: Version, i: nat) {
    Part(a, i) < Part(b, i) && SameUpTo(a, b, i)
  }

  ghost predicate Less(a: Version, b: Version) {
    exists i: nat :: LessAt(a, b, i)
  }

  ghost predicate Same(a: Version, b: Version) {
    forall i: nat :: Part(a, i) == Part(b, i)
  }

  /** Any two versions are the same or differ first at some part. */
  lemma {:induction false} Differ(a: Version, b: Version, n: nat) returns (i: nat)
    ensures i <= n && SameUpTo(a, b, i)
    ensures i == n || Part(a, i) != Part(b, i)
  {
    if n == 0 {
      i := 0;
    } else {
      i := Differ(a, b, n - 1);
      if i == n - 1 && Part(a, i) == Part(b, i) {
        i := n;
      }
    }
  }

  lemma Asymmetric(a: Version, b: Version, k: nat, l: nat)
    requires LessAt(a, b, k)
    ensures !LessAt(b, a, l)
  {
  }

  lemma Trichotomy(a: Version, b: Version)
    ensures Less(a, b) || Same(a, b) || Less(b, a)
    ensures !(Less(a, b) && Less(b, a)) && !(Less(a, b) && Same(a, b)) && !(Less(b, a) && Same(a, b))
  {
    var n := Max(|a|, |b|);
    var i := Differ(a, b, n);
    if i < n {
      assert LessAt(a, b, i) || LessAt(b, a, i);
    } else {
      assert Same(a, b);
    }
    if Less(a, b) {
      var k: nat :| LessAt(a, b, k);
      forall l: nat ensures !LessAt(b, a, l) {
        Asymmetric(a, b, k, l);
      }
    }
  }

  lemma LessTransitive(a: Version, b: Version, c: Version)
    requires Less(a, b) && Less(b, c)
    ensures Less(a, c)
  {
    var k: nat :| LessAt(a, b, k);
    var l: nat :| LessAt(b, c, l);
    assert LessAt(a, c, if k < l then k else l);
  }

  // ----- the comparisons compute that meaning -----

  lemma PadSame(t: Version, length: nat)
    ensures Same(Pad(t, length), t)
  {
  }

  lemma SameIsSame(a: Version, b: Version, c: Version, d: Version)
    requires Same(a, c) && Same(b, d)
    ensures Less(a, b) <==> Less(c, d)
    ensures Same(a, b) <==> Same(c, d)
  {
    if Less(a, b) {
      var i: nat :| LessAt(a, b, i);
      assert LessAt(c, d, i);
    }
    if Less(c, d) {
      var i: nat :| LessAt(c, d, i);
      assert LessAt(a, b, i);
    }
  }

  lemma TailLess(a: Version, b: Version)
    requires a != [] && b != [] && a[0] == b[0]
    ensures Less(a[1..], b[1..]) <==> Less(a, b)
  {
    assert forall i: nat :: Part(a[1..], i) == Part(a, i + 1) && Part(b[1..], i) == Part(b, i + 1);
    if Less(a[1..], b[1..]) {
      var i: nat :| LessAt(a[1..], b[1..], i);
      forall j | 0 <= j < i + 1 ensures Part(a, j) == Part(b, j) {
        assert j > 0 ==> Part(a[1..], j - 1) == Part(b[1..], j - 1);
      }
      assert LessAt(a, b, i + 1);
    }
    if Less(a, b) {
      var i: nat :| LessAt(a, b, i);
      assert i > 0;
      forall j | 0 <= j < i - 1 ensures Part(a[1..], j) == Part(b[1..], j) {
        assert Part(a, j + 1) == Part(b, j + 1);
      }
      assert LessAt(a[1..], b[1..], i - 1);
    }
  }

  /** Tuple comparison is the meaning as long as the left side is not the shorter one. */
  lemma {:induction false} TupleLtMeans(a: Version, b: Version)
    requires |a| >= |b|
    ensures TupleLt(a, b) <==> Less(a, b)
  {
    if b == [] {
      assert forall i: nat :: Part(b, i) == 0;
    } else if a[0] == b[0] {
      TupleLtMeans(a[1..], b[1..]);
      TailLess(a, b);
    } else if a[0] < b[0] {
      assert LessAt(a, b, 0);
    } else {
      forall i: nat ensures !LessAt(a, b, i) {
        assert i > 0 ==> Part(a, 0) != Part(b, 0);
      }
    }
  }

  lemma PaddedLt(a: Version, b: Version, m: nat, n: nat)
    requires |Pad(a, m)| >= |Pad(b, n)|
    ensures TupleLt(Pad(a, m), Pad(b, n)) <==> Less(a, b)
  {
    TupleLtMeans(Pad(a, m), Pad(b, n));
    PadSame(a, m);
    PadSame(b, n);
    SameIsSame(Pad(a, m), Pad(b, n), a, b);
  }

  lemma PaddedEq(a: Version, b: Version, n: nat)
    requires |a| <= n && |b| <= n
    ensures Pad(a, n) == Pad(b, n) <==> Same(a, b)
  {
    PadSame(a, n);
    PadSame(b, n);
    SameIsSame(Pad(a, n), Pad(b, n), a, b);
    if Same(Pad(a, n), Pad(b, n)) {
      forall i | 0 <= i < n ensures Pad(a, n)[i] == Pad(b, n)[i] {
        assert Part(Pad(a, n), i) == Part(Pad(b, n), i);
      }
    }
  }

  // ----- main results -----

  /** What a range asks for. */
  ghost predicate InRange(r: Range, v: Version) {
    match r.op
    case AtLeast => !Less(v, r.version)
    case Above => Less(r.version, v)
    case AtMost => !Less(r.version, v)
    case Below => Less(v, r.version)
    case Equal => Same(v, r.version)
    case NotEqual => !Same(v, r.version)
    case Compatible => |r.version| >= 2 && !Less(v, r.version) && SameUpTo(v, r.version, |r.version| - 1)
  }

  /** Below the incremented bound and not below the version itself: that is to have all its parts but the last. */
  lemma BoundIsPrefix(v: Version, req: Version)
    requires |req| >= 2 && !Less(v, req)
    ensures Less(v, Upper(req)) <==> SameUpTo(v, req, |req| - 1)
  {
    var last := |req| - 2;
    assert forall i: nat :: i < last ==> Part(Upper(req), i) == Part(req, i);
    var i := Differ(v, req, last + 1);
    if i <= last {
      assert Part(v, i) > Part(req, i) by {
        assert !LessAt(v, req, i);
      }
      forall j: nat ensures !LessAt(v, Upper(req), j) {
        if LessAt(v, Upper(req), j) {
          NotLessBeyond(v, req, i, j);
        }
      }
    } else {
      assert LessAt(v, Upper(req), last);
    }
  }

  lemma NotLessBeyond(v: Version, req: Version, i: nat, j: nat)
    requires i + 2 <= |req| && SameUpTo(v, req, i) && Part(v, i) > Part(req, i)
    ensures !LessAt(v, Upper(req), j)
  {
    if j == i {
      assert Part(Upper(req), i) <= Part(req, i) + 1;
    } else if j > i && SameUpTo(v, Upper(req), j) {
      assert i == |req| - 2;
      assert Part(Upper(req), j) == 0;
    }
  }

  /** Every operator computes its meaning. The compatible release `~= V.N`, whose branch compares with an
      incremented bound of another length, means `>= V.N, == V.*` (PEP 440, section "Compatible release"). */
  lemma SatisfiesIsInRange(op: Op, installed: Version, req: Version)
    ensures SatisfiesOp(op, installed, req) <==> InRange(Range(op, req), installed)
  {
    if op == Compatible {
      if |req| >= 2 {
        PaddedLt(installed, req, |req|, |req|);
        PaddedLt(installed, Upper(req), |req|, |req|);
        if !Less(installed, req) {
          BoundIsPrefix(installed, req);
        }
      }
    } else {
      var depth := Max(|installed|, |req|);
      PaddedLt(installed, req, depth, depth);
      PaddedLt(req, installed, depth, depth);
      PaddedEq(installed, req, depth);
    }
  }

  /** The compatible release, part by part; with fewer than two parts it accepts nothing. */
  lemma CompatibleIsPrefix(v: Version, req: Version)
    ensures SatisfiesOp(Compatible, v, req) <==>
            |req| >= 2 && !SatisfiesOp(Below, v, req) && forall i: nat :: i < |req| - 1 ==> Part(v, i) == req[i]
  {
    hide SatisfiesOp;
    SatisfiesIsInRange(Compatible, v, req);
    SatisfiesIsInRange(Below, v, req);
    assert forall i: nat :: i < |req| ==> Part(req, i) == req[i];
  }

  /** Versions equal up to trailing zeros satisfy the same ranges. */
  lemma InstalledZerosIrrelevant(op: Op, a: Version, b: Version, req: Version)
    requires Same(a, b)
    ensures SatisfiesOp(op, a, req) <==> SatisfiesOp(op, b, req)
  {
    SatisfiesIsInRange(op, a, req);
    SatisfiesIsInRange(op, b, req);
    SameIsSame(a, req, b, req);
    SameIsSame(req, a, req, b);
    assert forall i: nat :: Part(a, i) == Part(b, i);
  }

  ghost predicate SameAnswers(op: Op, p: Version, q: Version) {
    forall v: Version :: SatisfiesOp(op, v, p) <==> SatisfiesOp(op, v, q)
  }

  /** The bound of the longer of two equal declarations is still inside the shorter one. */
  lemma UpperSplits(p: Version, q: Version)
    requires Same(p, q) && 2 <= |q| && |p| < |q|
    ensures |p| >= 2 ==> SatisfiesOp(Compatible, Upper(q), p)
    ensures !SatisfiesOp(Compatible, Upper(q), q) && SatisfiesOp(Compatible, q, q)
  {
    hide SatisfiesOp;
    SatisfiesIsInRange(Compatible, Upper(q), p);
    SatisfiesIsInRange(Compatible, Upper(q), q);
    SatisfiesIsInRange(Compatible, q, q);
    Trichotomy(Upper(q), Upper(q));
    Trichotomy(q, q);
    assert LessAt(q, Upper(q), |q| - 2);
    if |p| >= 2 {
      assert LessAt(p, Upper(q), |q| - 2);
      Trichotomy(p, Upper(q));
      assert LessAt(Upper(q), Upper(p), |p| - 2);
    }
  }

  /** Behind `~=` trailing zeros of the declared version say how far the release may move: two equal
      declarations accept the same versions exactly if they have equally many parts (or one or none,
      where nothing is accepted). */
  lemma CompatibleReadsZeros(p: Version, q: Version)
    requires Same(p, q)
    ensures SameAnswers(Compatible, p, q) <==> |p| == |q| || (|p| < 2 && |q| < 2)
  {
    if |p| == |q| {
      assert forall i: nat :: Part(p, i) == Part(q, i);
      assert forall i :: 0 <= i < |p| ==> p[i] == Part(p, i) && q[i] == Part(q, i);
      assert p == q;
    } else if |p| < |q| && |q| >= 2 {
      UpperSplits(p, q);
    } else if |q| < |p| && |p| >= 2 {
      UpperSplits(q, p);
    }
  }

  /** For every operator: exactly when the trailing zeros of the declared version do not matter. */
  lemma RequiredZerosIrrelevant(op: Op, p: Version, q: Version)
    requires Same(p, q)
    ensures SameAnswers(op, p, q) <==> op != Compatible || |p| == |q| || (|p| < 2 && |q| < 2)
  {
    if op == Compatible {
      CompatibleReadsZeros(p, q);
    } else {
      forall v: Version ensures SatisfiesOp(op, v, p) <==> SatisfiesOp(op, v, q) {
        hide SatisfiesOp;
        SatisfiesIsInRange(op, v, p);
        SatisfiesIsInRange(op, v, q);
        SameIsSame(v, p, v, q);
        SameIsSame(p, v, q, v);
      }
    }
  }

  /** For instance `~= 1.2` and `~= 1.2.0`, which differ on 1.9. */
  lemma OneTwoZero()
    ensures Same([1, 2], [1, 2, 0]) && !SameAnswers(Compatible, [1, 2], [1, 2, 0])
    ensures SatisfiesOp(Compatible, [1, 9], [1, 2]) && !SatisfiesOp(Compatible, [1, 9], [1, 2, 0])
  {
    CompatibleReadsZeros([1, 2], [1, 2, 0]);
    SatisfiesIsInRange(Compatible, [1, 9], [1, 2]);
    SatisfiesIsInRange(Compatible, [1, 9], [1, 2, 0]);
    assert forall i: nat :: !LessAt([1, 9], [1, 2], i);
    assert Part([1, 9], 1) != Part([1, 2, 0], 1);
  }

  /** Of the answers to `<`, `==` and `>` exactly one is yes, and the other operators but `~=` follow
      from them. */
  lemma OneAnswerHolds(a: Version, b: Version)
    ensures SatisfiesOp(Below, a, b) || SatisfiesOp(Equal, a, b) || SatisfiesOp(Above, a, b)
    ensures !(SatisfiesOp(Below, a, b) && SatisfiesOp(Equal, a, b))
    ensures !(SatisfiesOp(Below, a, b) && SatisfiesOp(Above, a, b))
    ensures !(SatisfiesOp(Equal, a, b) && SatisfiesOp(Above, a, b))
    ensures SatisfiesOp(AtMost, a, b) <==> SatisfiesOp(Below, a, b) || SatisfiesOp(Equal, a, b)
    ensures SatisfiesOp(AtLeast, a, b) <==> SatisfiesOp(Above, a, b) || SatisfiesOp(Equal, a, b)
    ensures SatisfiesOp(NotEqual, a, b) <==> SatisfiesOp(Below, a, b) || SatisfiesOp(Above, a, b)
    ensures SatisfiesOp(Above, a, b) <==> SatisfiesOp(Below, b, a)
  {
    hide SatisfiesOp;
    forall op: Op {
      SatisfiesIsInRange(op, a, b);
    }
    SatisfiesIsInRange(Below, b, a);
    Trichotomy(a, b);
  }

  /** The answers order the versions: `<` is transitive, and so is `<=`. */
  lemma AnswersTransitive(a: Version, b: Version, c: Version)
    ensures SatisfiesOp(Below, a, b) && SatisfiesOp(Below, b, c) ==> SatisfiesOp(Below, a, c)
    ensures SatisfiesOp(AtMost, a, b) && SatisfiesOp(AtMost, b, c) ==> SatisfiesOp(AtMost, a, c)
  {
    hide SatisfiesOp;
    SatisfiesIsInRange(Below, a, b);
    SatisfiesIsInRange(Below, b, c);
    SatisfiesIsInRange(Below, a, c);
    SatisfiesIsInRange(AtMost, a, b);
    SatisfiesIsInRange(AtMost, b, c);
    SatisfiesIsInRange(AtMost, a, c);
    if Less(a, b) && Less(b, c) {
      LessTransitive(a, b, c);
    }
    if Less(c, a) && !Less(b, a) && !Less(c, b) {
      Trichotomy(a, b);
      if Less(a, b) {
        LessTransitive(c, a, b);
      } else {
        SameIsSame(c, a, c, b);
      }
    }
  }

  // ----- the strings -----

  /** `_VER_RE` on a stripped string: one to four dot-separated runs of digits. */
  function ParseVersion(text: string): Option<Version> {
    var parts := Split(Strip(text), '.');
    if |parts| <= 4 && forall i :: 0 <= i < |parts| ==> AllDigits(parts[i])
    then Some(seq(|parts|, i requires 0 <= i < |parts| => IntOf(parts[i])))
    else None
  }

  function OpText(op: Op): string {
    match op
    case Compatible => "~="
    case Equal => "=="
    case NotEqual => "!="
    case AtMost => "<="
    case AtLeast => ">="
    case Below => "<"
    case Above => ">"
  }

  /** The alternatives of `_OP_RE`, in order. */
  function ReadOp(s: string): Option<(Op, string)> {
    if |s| >= 2 && s[1] == '=' && s[0] == '~' then Some((Compatible, s[2..]))
    else if |s| >= 2 && s[1] == '=' && s[0] == '=' then Some((Equal, s[2..]))
    else if |s| >= 2 && s[1] == '=' && s[0] == '!' then Some((NotEqual, s[2..]))
    else if |s| >= 2 && s[1] == '=' && s[0] == '<' then Some((AtMost, s[2..]))
    else if |s| >= 2 && s[1] == '=' && s[0] == '>' then Some((AtLeast, s[2..]))
    else if |s| >= 1 && s[0] == '<' then Some((Below, s[1..]))
    else if |s| >= 1 && s[0] == '>' then Some((Above, s[1..]))
    else None
  }

  function ParseRange(text: string): Option<Range> {
    match ReadOp(Strip(text))
    case None => None
    case Some((op, rest)) =>
      match ParseVersion(rest)
      case None => None
      case Some(v) => Some(Range(op, v))
  }

  /** `satisfies`. */
  predicate Satisfies(installed: Option<string>, range: string) {
    installed.Some? && installed.value != "" && range != ""
    && ParseVersion(installed.value).Some? && ParseRange(range).Some?
    && SatisfiesOp(ParseRange(range).value.op, ParseVersion(installed.value).value, ParseRange(range).value.version)
  }

  /** A version as it is written. */
  function Written(v: Version): string
    requires |v| >= 1
  {
    Join(seq(|v|, i requires 0 <= i < |v| => Decimal(v[i])), '.')
  }

  lemma {:induction false} JoinEnds(parts: seq<string>)
    requires |parts| >= 1 && forall i :: 0 <= i < |parts| ==> AllDigits(parts[i])
    ensures var s := Join(parts, '.'); s != "" && IsDigit(s[0]) && IsDigit(s[|s| - 1])
  {
    if |parts| > 1 {
      JoinEnds(parts[1..]);
      var s := Join(parts, '.');
      assert s[0] == parts[0][0];
    }
  }

  /** Reading a written version, blanks around it or not, gives it back. */
  lemma ParseWritten(left: string, v: Version, right: string)
    requires 1 <= |v| <= 4 && All(left, Space) && All(right, Space)
    ensures ParseVersion(left + Written(v) + right) == Some(v)
    ensures Written(v) != "" && IsDigit(Written(v)[0]) && IsDigit(Written(v)[|Written(v)| - 1])
  {
    var parts := seq(|v|, i requires 0 <= i < |v| => Decimal(v[i]));
    JoinEnds(parts);
    TrimIs(left, Written(v), right, Space);
    forall i | 0 <= i < |parts| ensures Free(parts[i], '.') && IntOf(parts[i]) == v[i] {
      assert AllDigits(parts[i]);
      IntOfDecimal(v[i]);
    }
    SplitJoin(parts, '.');
    assert seq(|parts|, i requires 0 <= i < |parts| => IntOf(parts[i])) == v;
  }

  /** A text that holds a version: one to four runs of digits between dots, blanks around them or not. */
  ghost predicate VersionText(text: string, left: string, parts: seq<string>, right: string, v: Version) {
    && All(left, Space) && All(right, Space) && 1 <= |parts| == |v| <= 4
    && (forall i :: 0 <= i < |parts| ==> AllDigits(parts[i]) && IntOf(parts[i]) == v[i])
    && text == left + Join(parts, '.') + right
  }

  ghost predicate HoldsVersion(text: string, v: Version) {
    exists left, parts, right :: VersionText(text, left, parts, right, v)
  }

  lemma ParseHeld(text: string, left: string, parts: seq<string>, right: string, v: Version)
    requires VersionText(text, left, parts, right, v)
    ensures ParseVersion(text) == Some(v)
    ensures Join(parts, '.') != "" && IsDigit(Join(parts, '.')[0])
    ensures IsDigit(Join(parts, '.')[|Join(parts, '.')| - 1])
  {
    JoinEnds(parts);
    TrimIs(left, Join(parts, '.'), right, Space);
    forall i | 0 <= i < |parts| ensures Free(parts[i], '.') {
      assert AllDigits(parts[i]);
    }
    SplitJoin(parts, '.');
    assert seq(|parts|, i requires 0 <= i < |parts| => IntOf(parts[i])) == v;
  }

  /** Exactly the texts that hold a version are parsed, to that version; everything else is refused. */
  lemma ParseVersionIs(text: string, v: Version)
    ensures ParseVersion(text) == Some(v) <==> HoldsVersion(text, v)
  {
    if ParseVersion(text) == Some(v) {
      var left, right := TrimSplit(text, Space);
      JoinSplit(Strip(text), '.');
      assert VersionText(text, left, Split(Strip(text), '.'), right, v);
    }
    if HoldsVersion(text, v) {
      var left, parts, right :| VersionText(text, left, parts, right, v);
      ParseHeld(text, left, parts, right, v);
    }
  }

  lemma ReadOpText(s: string)
    ensures ReadOp(s).Some? ==> var (op, rest) := ReadOp(s).value; s == OpText(op) + rest
    ensures ReadOp(s).None? ==> forall op: Op :: !(OpText(op) <= s)
  {
    if ReadOp(s).Some? {
      var (op, rest) := ReadOp(s).value;
      assert s == s[..|OpText(op)|] + rest;
    }
  }

  /** A text that holds a range: an operator and a version, blanks anywhere around them or not. */
  ghost predicate RangeText(text: string, blanks: string, op: Op, rest: string, req: Version) {
    All(blanks, Space) && text == blanks + OpText(op) + rest && HoldsVersion(rest, req)
  }

  ghost predicate HoldsRange(text: string, range: Range) {
    exists blanks, rest :: RangeText(text, blanks, range.op, rest, range.version)
  }

  lemma ParseHeldRange(text: string, blanks: string, op: Op, rest: string, req: Version)
    requires RangeText(text, blanks, op, rest, req)
    ensures ParseRange(text) == Some(Range(op, req))
  {
    hide ParseVersion, ReadOp, Trim, IntOf;
    var left, parts, right :| VersionText(rest, left, parts, right, req);
    ParseHeld(rest, left, parts, right, req);
    var core := OpText(op) + (left + Join(parts, '.'));
    assert text == blanks + core + right;
    assert core[|core| - 1] == Join(parts, '.')[|Join(parts, '.')| - 1];
    assert !In(core[0], Space) && !In(core[|core| - 1], Space);
    TrimIs(blanks, core, right, Space);
    ReadWrittenOp(op, left, Join(parts, '.'));
    assert VersionText(left + Join(parts, '.'), left, parts, "", req);
    ParseVersionIs(left + Join(parts, '.'), req);
  }

  lemma HoldsBlanks(text: string, blanks: string, v: Version)
    requires HoldsVersion(text, v) && All(blanks, Space)
    ensures HoldsVersion(text + blanks, v)
  {
    var left, parts, right :| VersionText(text, left, parts, right, v);
    var core := Join(parts, '.');
    assert left + core + right + blanks == left + core + (right + blanks);
    assert VersionText(text + blanks, left, parts, right + blanks, v);
  }

  lemma ParseRangeIs(text: string, range: Range)
    ensures ParseRange(text) == Some(range) <==> HoldsRange(text, range)
  {
    hide ParseVersion, ReadOp, HoldsVersion, Trim, OpText;
    if ParseRange(text) == Some(range) {
      var left, right := TrimSplit(text, Space);
      ReadOpText(Strip(text));
      var rest := ReadOp(Strip(text)).value.1;
      ParseVersionIs(rest, range.version);
      HoldsBlanks(rest, right, range.version);
      assert RangeText(text, left, range.op, rest + right, range.version) by {
        assert left + (OpText(range.op) + rest) + right == left + OpText(range.op) + (rest + right);
      }
    }
    if HoldsRange(text, range) {
      var blanks, rest :| RangeText(text, blanks, range.op, rest, range.version);
      ParseHeldRange(text, blanks, range.op, rest, range.version);
    }
  }

  /** End to end, for any two strings or none: yes exactly if one holds a version, the other a range, and the
      version is in the range. */
  lemma SatisfiesIff(installed: Option<string>, range: string)
    ensures Satisfies(installed, range) <==>
            installed.Some? && exists v, r :: HoldsVersion(installed.value, v) && HoldsRange(range, r) && InRange(r, v)
  {
    hide ParseVersion, ParseRange, InRange, SatisfiesOp, HoldsVersion, HoldsRange;
    forall v: Version, r: Range | installed.Some?
      ensures HoldsVersion(installed.value, v) <==> ParseVersion(installed.value) == Some(v)
      ensures HoldsRange(range, r) <==> ParseRange(range) == Some(r)
      ensures InRange(r, v) <==> SatisfiesOp(r.op, v, r.version)
    {
      ParseVersionIs(installed.value, v);
      ParseRangeIs(range, r);
      SatisfiesIsInRange(r.op, v, r.version);
    }
    EmptyHoldsNothing();
  }

  lemma EmptyHoldsNothing()
    ensures ParseVersion("").None? && ParseRange("").None?
  {
    assert Strip("") == "" && Split("", '.') == [""];
    assert !AllDigits(Split("", '.')[0]);
  }

  lemma ReadWrittenOp(op: Op, blanks: string, rest: string)
    requires rest != "" && IsDigit(rest[0]) && All(blanks, Space)
    ensures ReadOp(OpText(op) + (blanks + rest)) == Some((op, blanks + rest))
  {
  }

  /** End to end: for a written version and a written range, with any blanks between operator and
      version, the answer is the meaning of the range. */
  lemma SatisfiesMeaning(installed: Version, op: Op, blanks: string, req: Version)
    requires 1 <= |installed| <= 4 && 1 <= |req| <= 4 && All(blanks, Space)
    ensures Satisfies(Some(Written(installed)), OpText(op) + (blanks + Written(req)))
            <==> InRange(Range(op, req), installed)
  {
    hide ParseVersion, Written, InRange, SatisfiesOp, ReadOp;
    ParseWritten("", installed, "");
    assert "" + Written(installed) + "" == Written(installed);
    ParseWritten(blanks, req, "");
    assert blanks + Written(req) + "" == blanks + Written(req);
    var range := OpText(op) + (blanks + Written(req));
    assert range[|range| - 1] == Written(req)[|Written(req)| - 1];
    TrimTrimmed(range, Space);
    ReadWrittenOp(op, blanks, Written(req));
    SatisfiesIsInRange(op, installed, req);
  }
}
