/** scripts/governs_resolver.py and its commit-time gate scripts/check-governs-index.py. `fnmatch` stays
    a parameter: results about patterns without glob characters do not depend on it. */
module Governs {
  import opened Text
  import opened Sorting

  datatype GovernsEntry = GovernsEntry(pattern: string, design: string, area: Option<string>)
  datatype Owner = Owner(design: string, area: Option<string>)
  datatype Resolution = Governed(owner: Owner) | Greenfield | Overlap

  type FnMatch = (string, string) -> bool

  // ----- matching -----

  /** `s.strip().strip("/")`. */
  function Norm(s: string): string {
    Trim(Strip(s), Slash)
  }

  predicate HasGlob(p: string) {
    exists i :: 0 <= i < |p| && (p[i] == '*' || p[i] == '?' || p[i] == '[')
  }

  /** `t` is the path `p` or lies below it. */
  predicate PathPrefix(p: string, t: string) {
    t == p || p + "/" <= t
  }

  /** `_specificity`; -1 is "no match". */
  function Specificity(pattern: string, target: string, fnmatch: FnMatch): int {
    var p, t := Norm(pattern), Norm(target);
    if p == "" then -1
    else if PathPrefix(p, t) then |p|
    else if HasGlob(p) && (fnmatch(t, p) || fnmatch(t, TrimRight(p, SlashStar) + "/*")) then |TrimRight(p, SlashStar)|
    else -1
  }

  /** Blanks come off first, then slashes. */
  lemma NormOf(left: string, a: string, core: string, b: string, right: string)
    requires All(left, Space) && All(right, Space) && All(a, Slash) && All(b, Slash)
    requires Trimmed(a + core + b, Space) && Trimmed(core, Slash)
    ensures Norm(left + (a + core + b) + right) == core
  {
    TrimIs(left, a + core + b, right, Space);
    TrimIs(a, core, b, Slash);
  }

  /** What a pattern scores, globs included: a match by path scores its length, a match by `fnmatch`, of the
      pattern or of everything below it, the length without the slashes and stars at its end. */
  lemma SpecificityIs(pattern: string, target: string, fnmatch: FnMatch, stem: string, tail: string)
    requires Norm(pattern) == stem + tail
    requires (forall i :: 0 <= i < |tail| ==> tail[i] in {'/', '*'})
    requires stem == "" || stem[|stem| - 1] !in {'/', '*'}
    ensures var p, t := Norm(pattern), Norm(target);
            Specificity(pattern, target, fnmatch) ==
            if p == "" then -1
            else if t == p || p + "/" <= t then |p|
            else if '*' !in p && '?' !in p && '[' !in p then -1
            else if fnmatch(t, p) || fnmatch(t, stem + "/*") then |stem|
            else -1
  {
    TrimRightRun(stem, tail, SlashStar);
    assert All(tail, SlashStar);
    assert TrimRight(stem, SlashStar) == stem;
  }

  /** Matching is by whole path components: `src/a` does not own `src/ab`. */
  lemma PathPrefixIsComponents(p: string, t: string)
    ensures PathPrefix(p, t) <==> Split(p, '/') <= Split(t, '/')
  {
    var a, b := Split(p, '/'), Split(t, '/');
    JoinSplit(p, '/');
    JoinSplit(t, '/');
    if p + "/" <= t {
      var rest := t[|p| + 1..];
      assert t == p + ['/'] + rest;
      SplitConcat(p, rest, '/');
    }
    if a <= b && a != b {
      var rest := b[|a|..];
      assert b == a + rest;
      JoinConcat(a, rest, '/');
      assert t[..|p| + 1] == p + "/";
    }
  }

  // ----- the resolver -----

  ghost predicate IsArea(entries: seq<GovernsEntry>, target: string) {
    exists e :: e in entries && e.area == Some(target)
  }

  ghost predicate IsTop(entries: seq<GovernsEntry>, e: GovernsEntry, target: string, fnmatch: FnMatch) {
    && e in entries && Specificity(e.pattern, target, fnmatch) >= 0
    && forall o :: o in entries ==> Specificity(o.pattern, target, fnmatch) <= Specificity(e.pattern, target, fnmatch)
  }

  function OwnerOf(e: GovernsEntry): Owner {
    Owner(e.design, e.area)
  }

  /** The first design, by name, that declares the area. */
  ghost predicate FirstOfArea(entries: seq<GovernsEntry>, area: string, design: string) {
    && (exists e :: e in entries && e.area == Some(area) && e.design == design)
    && forall e :: e in entries && e.area == Some(area) ==> StrLe(design, e.design)
  }

  /** What the path branch answers: the one owner of the most specific matches, if there is one. */
  ghost predicate ResolvesPath(entries: seq<GovernsEntry>, target: string, fnmatch: FnMatch, r: Resolution) {
    match r
    case Greenfield => forall e :: e in entries ==> Specificity(e.pattern, target, fnmatch) < 0
    case Governed(owner) =>
      && (exists e :: IsTop(entries, e, target, fnmatch) && OwnerOf(e) == owner)
      && forall e :: IsTop(entries, e, target, fnmatch) ==> OwnerOf(e) == owner
    case Overlap =>
      exists e, o ::
        IsTop(entries, e, target, fnmatch) && IsTop(entries, o, target, fnmatch) && OwnerOf(e) != OwnerOf(o)
  }

  ghost predicate Resolves(entries: seq<GovernsEntry>, raw: string, fnmatch: FnMatch, r: Resolution) {
    var target := Strip(raw);
    if target == "" then r == Greenfield
    else if IsArea(entries, target) then
      r.Governed? && r.owner.area == Some(target) && FirstOfArea(entries, target, r.owner.design)
    else ResolvesPath(entries, Replace(target, '\\', '/'), fnmatch, r)
  }

  /** `resolve_governing_design` over the index `entries`. */
  method ResolveGoverningDesign(entries: seq<GovernsEntry>, raw: string, fnmatch: FnMatch) returns (r: Resolution)
    ensures Resolves(entries, raw, fnmatch, r)
    ensures r.Governed? ==> exists e :: e in entries && e.design == r.owner.design && e.area == r.owner.area
    ensures r.Overlap? ==> exists e, o :: e in entries && o in entries && (e.design != o.design || e.area != o.area)
  {
    hide Specificity, Strip;
    var target := Strip(raw);
    if target == "" {
      return Greenfield;
    }
    var first := FirstDesign(entries, target);
    if first.Some? {
      return Governed(Owner(first.value, Some(target)));
    }
    r := ResolvePath(entries, Replace(target, '\\', '/'), fnmatch);
  }

  /** The area branch: `sorted(...)[0]` of the designs that declare the area, if any does. */
  method FirstDesign(entries: seq<GovernsEntry>, area: string) returns (first: Option<string>)
    ensures first.Some? <==> IsArea(entries, area)
    ensures first.Some? ==> FirstOfArea(entries, area, first.value)
  {
    first := None;
    for i := 0 to |entries|
      invariant first.Some? <==> IsArea(entries[..i], area)
      invariant first.Some? ==> FirstOfArea(entries[..i], area, first.value)
    {
      assert entries[..i + 1] == entries[..i] + [entries[i]];
      var e := entries[i];
      assert e in entries[..i + 1];
      if e.area == Some(area) {
        if first.Some? {
          StrLeTotal(first.value, e.design);
          if !StrLe(first.value, e.design) {
            forall o | o in entries[..i] && o.area == Some(area) ensures StrLe(e.design, o.design) {
              StrLeTransitive(e.design, first.value, o.design);
            }
            StrLeTotal(e.design, e.design);
            first := Some(e.design);
          }
        } else {
          StrLeTotal(e.design, e.design);
          first := Some(e.design);
        }
      }
    }
    assert entries[..|entries|] == entries;
  }

  /** The path branch: collect matches, take the highest score, then the set of its owners. */
  method ResolvePath(entries: seq<GovernsEntry>, target: string, fnmatch: FnMatch) returns (r: Resolution)
    ensures ResolvesPath(entries, target, fnmatch, r)
  {
    hide Specificity;
    var best := -1;
    var top: set<Owner> := {};
    for i := 0 to |entries|
      invariant best >= -1
      invariant forall e :: e in entries[..i] ==>
                  Specificity(e.pattern, target, fnmatch) <= best || Specificity(e.pattern, target, fnmatch) < 0
      invariant best < 0 ==> top == {}
      invariant best >= 0 ==> top != {}
      invariant forall o :: o in top <==>
                  best >= 0 && exists e ::
                    e in entries[..i] && Specificity(e.pattern, target, fnmatch) == best && OwnerOf(e) == o
    {
      assert entries[..i + 1] == entries[..i] + [entries[i]];
      var e := entries[i];
      var spec := Specificity(e.pattern, target, fnmatch);
      assert e in entries[..i + 1];
      if spec >= 0 {
        if spec > best {
          best, top := spec, {OwnerOf(e)};
        } else if spec == best {
          top := top + {OwnerOf(e)};
        }
      }
    }
    assert entries[..|entries|] == entries;
    if best < 0 {
      return Greenfield;
    }
    r := PickOwner(entries, target, fnmatch, best, top);
  }

  method PickOwner(ghost entries: seq<GovernsEntry>, ghost target: string, ghost fnmatch: FnMatch, ghost best: int,
                   top: set<Owner>)
    returns (r: Resolution)
    requires top != {} && best >= 0
    requires forall e :: e in entries ==> Specificity(e.pattern, target, fnmatch) <= best
    requires forall o :: o in top <==>
               exists e :: e in entries && Specificity(e.pattern, target, fnmatch) == best && OwnerOf(e) == o
    ensures ResolvesPath(entries, target, fnmatch, r)
  {
    hide Specificity;
    var owner :| owner in top;
    ghost var e :| e in entries && Specificity(e.pattern, target, fnmatch) == best && OwnerOf(e) == owner;
    assert IsTop(entries, e, target, fnmatch);
    if other :| other in top && other != owner {
      ghost var o :| o in entries && Specificity(o.pattern, target, fnmatch) == best && OwnerOf(o) == other;
      assert IsTop(entries, o, target, fnmatch);
      return Overlap;
    }
    forall o | IsTop(entries, o, target, fnmatch) ensures OwnerOf(o) == owner {
      assert Specificity(o.pattern, target, fnmatch) == best;
      assert OwnerOf(o) in top;
    }
    return Governed(owner);
  }

  // ----- the gate -----

  ghost function Designs(entries: seq<GovernsEntry>, pattern: string): set<string> {
    set e | e in entries && e.pattern == pattern :: e.design
  }

  /** `find_overlaps`. */
  method FindOverlaps(entries: seq<GovernsEntry>) returns (overlaps: map<string, set<string>>)
    ensures forall p :: p in overlaps <==> p != "" && |Designs(entries, p)| > 1
    ensures forall p :: p in overlaps ==> overlaps[p] == Designs(entries, p)
    ensures overlaps == map[] <==> GateClean(entries)
  {
    var byPattern: map<string, set<string>> := map[];
    for i := 0 to |entries|
      invariant forall p :: p in byPattern <==> p != "" && Designs(entries[..i], p) != {}
      invariant forall p :: p in byPattern ==> byPattern[p] == Designs(entries[..i], p)
    {
      var e := entries[i];
      DesignsStep(entries, i);
      if e.pattern != "" {
        var seen := if e.pattern in byPattern then byPattern[e.pattern] else {};
        byPattern := byPattern[e.pattern := seen + {e.design}];
      }
    }
    assert entries[..|entries|] == entries;
    overlaps := map p | p in byPattern && |byPattern[p]| > 1 :: byPattern[p];
  }

  lemma DesignsStep(entries: seq<GovernsEntry>, i: nat)
    requires i < |entries|
    ensures forall p :: Designs(entries[..i + 1], p)
                     == Designs(entries[..i], p) + (if entries[i].pattern == p then {entries[i].design} else {})
  {
  }

  // ----- the answer is a function of the set of entries -----

  lemma ResolutionUnique(entries: seq<GovernsEntry>, others: seq<GovernsEntry>, raw: string, fnmatch: FnMatch,
                         r: Resolution, q: Resolution)
    requires forall e :: e in entries <==> e in others
    requires Resolves(entries, raw, fnmatch, r) && Resolves(others, raw, fnmatch, q)
    ensures r == q
  {
    hide Specificity, Norm;
    var target := Strip(raw);
    var path := Replace(target, '\\', '/');
    assert forall e :: IsTop(entries, e, path, fnmatch) <==> IsTop(others, e, path, fnmatch);
    if IsArea(entries, target) && target != "" {
      StrLeAntisymmetric(r.owner.design, q.owner.design);
    }
  }

  // ----- glob-free patterns: the longest path prefix wins -----

  ghost predicate GlobFree(entries: seq<GovernsEntry>) {
    forall e :: e in entries ==> !HasGlob(Norm(e.pattern))
  }

  /** `e`'s pattern names an ancestor of the target, or the target itself. */
  predicate Owns(e: GovernsEntry, target: string) {
    Norm(e.pattern) != "" && PathPrefix(Norm(e.pattern), Norm(target))
  }

  lemma SpecificityGlobFree(e: GovernsEntry, target: string, fnmatch: FnMatch)
    requires !HasGlob(Norm(e.pattern))
    ensures Specificity(e.pattern, target, fnmatch) == if Owns(e, target) then |Norm(e.pattern)| else -1
  {
  }

  /** Two owning patterns of one length are the same path. */
  lemma SameLengthSamePath(p: string, q: string, t: string)
    requires PathPrefix(p, t) && PathPrefix(q, t) && |p| == |q|
    ensures p == q
  {
    assert p == t[..|p|] && q == t[..|q|];
  }

  /** The most specific matches are the entries on the longest owning path. */
  ghost predicate IsLongest(entries: seq<GovernsEntry>, path: string, target: string) {
    && (exists e :: e in entries && Owns(e, target) && Norm(e.pattern) == path)
    && forall e :: e in entries && Owns(e, target) ==> |Norm(e.pattern)| <= |path|
  }

  lemma TopIsLongest(entries: seq<GovernsEntry>, path: string, target: string, fnmatch: FnMatch, e: GovernsEntry)
    requires GlobFree(entries) && IsLongest(entries, path, target) && e in entries
    ensures IsTop(entries, e, target, fnmatch) <==> Norm(e.pattern) == path
  {
    hide Norm, HasGlob, Specificity, PathPrefix;
    forall o | o in entries
      ensures Specificity(o.pattern, target, fnmatch) == if Owns(o, target) then |Norm(o.pattern)| else -1
    {
      SpecificityGlobFree(o, target, fnmatch);
    }
    var l :| l in entries && Owns(l, target) && Norm(l.pattern) == path;
    if IsTop(entries, e, target, fnmatch) {
      SameLengthSamePath(Norm(e.pattern), path, Norm(target));
    }
  }

  lemma LongestExists(entries: seq<GovernsEntry>, target: string, fnmatch: FnMatch, e: GovernsEntry)
    requires GlobFree(entries) && IsTop(entries, e, target, fnmatch)
    ensures IsLongest(entries, Norm(e.pattern), target)
  {
  }

  /** Without globs the path branch is longest-path-prefix match: greenfield when no pattern owns the
      target, overlap exactly when the longest owning path is stamped by two owners. */
  lemma LongestPrefixMatch(entries: seq<GovernsEntry>, target: string, fnmatch: FnMatch, r: Resolution)
    requires GlobFree(entries) && ResolvesPath(entries, target, fnmatch, r)
    ensures r == Greenfield <==> forall e :: e in entries ==> !Owns(e, target)
    ensures r != Greenfield ==> exists path :: IsLongest(entries, path, target)
    ensures forall path :: IsLongest(entries, path, target) ==>
      && (r == Overlap <==> exists e, o :: e in entries && o in entries
                              && Norm(e.pattern) == path == Norm(o.pattern) && OwnerOf(e) != OwnerOf(o))
      && (r.Governed? ==> forall e :: e in entries && Norm(e.pattern) == path ==> OwnerOf(e) == r.owner)
  {
    hide Norm, HasGlob, Specificity, Owns;
    forall e | e in entries
      ensures Specificity(e.pattern, target, fnmatch) == if Owns(e, target) then |Norm(e.pattern)| else -1
    {
      SpecificityGlobFree(e, target, fnmatch);
    }
    if r != Greenfield {
      var e :| IsTop(entries, e, target, fnmatch);
      LongestExists(entries, target, fnmatch, e);
    }
    forall path, e | IsLongest(entries, path, target) && e in entries
      ensures IsTop(entries, e, target, fnmatch) <==> Norm(e.pattern) == path
    {
      TopIsLongest(entries, path, target, fnmatch, e);
    }
  }

  // ----- where the gate and the resolver agree -----

  /** `build_index` reads one `area:` per design. */
  ghost predicate OneAreaEach(entries: seq<GovernsEntry>) {
    forall e, o :: e in entries && o in entries && e.design == o.design ==> e.area == o.area
  }

  ghost predicate GateClean(entries: seq<GovernsEntry>) {
    forall p :: p != "" ==> |Designs(entries, p)| <= 1
  }

  /** What the gate looks for: two designs under one spelling. */
  predicate SameSpelling(e: GovernsEntry, o: GovernsEntry) {
    e.design != o.design && e.pattern == o.pattern && e.pattern != ""
  }

  /** What the resolver trips over: two designs on one path. A backslash is on no path, since those of the
      target become slashes. */
  predicate SamePath(e: GovernsEntry, o: GovernsEntry) {
    && e.design != o.design && Norm(e.pattern) == Norm(o.pattern)
    && Norm(e.pattern) != "" && Free(Norm(e.pattern), '\\')
  }

  ghost predicate NoSameSpelling(entries: seq<GovernsEntry>) {
    forall e, o :: e in entries && o in entries ==> !SameSpelling(e, o)
  }

  ghost predicate NoSamePath(entries: seq<GovernsEntry>) {
    forall e, o :: e in entries && o in entries ==> !SamePath(e, o)
  }

  /** No target whatever gets "overlap". */
  ghost predicate NeverOverlaps(entries: seq<GovernsEntry>, fnmatch: FnMatch) {
    forall raw :: !Resolves(entries, raw, fnmatch, Overlap)
  }

  lemma GateIsSpelling(entries: seq<GovernsEntry>)
    ensures GateClean(entries) <==> NoSameSpelling(entries)
  {
    if GateClean(entries) {
      forall e, o | e in entries && o in entries ensures !SameSpelling(e, o) {
        assert e.design in Designs(entries, e.pattern);
        assert e.pattern == o.pattern ==> o.design in Designs(entries, e.pattern);
        OneOrNone(Designs(entries, e.pattern), e.design, o.design);
      }
    }
    if NoSameSpelling(entries) {
      forall p | p != "" ensures |Designs(entries, p)| <= 1 {
        if Designs(entries, p) != {} {
          var d :| d in Designs(entries, p);
          assert Designs(entries, p) <= {d};
          SmallSet(Designs(entries, p), d);
        }
      }
    }
  }

  lemma OneOrNone(s: set<string>, a: string, b: string)
    ensures a in s && b in s && a != b ==> |s| > 1
  {
    if a in s && b in s && a != b {
      assert |s - {a, b}| + |{a, b}| == |s|;
    }
  }

  lemma SmallSet(s: set<string>, x: string)
    requires s <= {x}
    ensures |s| <= 1
  {
    assert s == {} || s == {x};
  }

  lemma NormFacts(s: string)
    ensures Trimmed(Norm(s), Slash) && |Norm(s)| <= |s|
    ensures Free(s, '\\') ==> Free(Norm(s), '\\')
  {
    var a, b := TrimSplit(s, Space);
    var c, d := TrimSplit(Strip(s), Slash);
    assert s == (a + c) + Norm(s) + (d + b);
    FreeConcat(a + c, Norm(s), '\\');
    FreeConcat(a + c + Norm(s), d + b, '\\');
  }

  /** An entry that owns a target without backslashes has none in its path. */
  lemma OwnerIsFree(e: GovernsEntry, target: string)
    requires Owns(e, target) && Free(target, '\\')
    ensures Free(Norm(e.pattern), '\\')
  {
    hide Norm;
    NormFacts(target);
    var p, t := Norm(e.pattern), Norm(target);
    assert p <= t;
    assert forall i :: 0 <= i < |p| ==> p[i] == t[i];
  }

  lemma TopOwns(entries: seq<GovernsEntry>, target: string, fnmatch: FnMatch, e: GovernsEntry)
    requires GlobFree(entries) && IsTop(entries, e, target, fnmatch)
    ensures Norm(e.pattern) != "" && Owns(e, target)
  {
  }

  /** Without two designs on one path no target gets "overlap". */
  lemma DistinctPathsNoOverlap(entries: seq<GovernsEntry>, raw: string, fnmatch: FnMatch)
    requires GlobFree(entries) && OneAreaEach(entries) && NoSamePath(entries)
    ensures !Resolves(entries, raw, fnmatch, Overlap)
  {
    hide Norm, HasGlob, Specificity, PathPrefix, Owns;
    var target := Replace(Strip(raw), '\\', '/');
    forall e, o | IsTop(entries, e, target, fnmatch) && IsTop(entries, o, target, fnmatch)
      ensures OwnerOf(e) == OwnerOf(o)
    {
      LongestExists(entries, target, fnmatch, e);
      TopIsLongest(entries, Norm(e.pattern), target, fnmatch, o);
      TopOwns(entries, target, fnmatch, e);
      OwnerIsFree(e, target);
      assert !SamePath(e, o);
    }
  }

  /** Longer than every pattern and every area of the index. */
  function Longest(entries: seq<GovernsEntry>): (n: nat)
    ensures forall e :: e in entries ==> |e.pattern| <= n && (e.area.Some? ==> |e.area.value| <= n)
  {
    if entries == [] then 0 else
      var e := entries[0];
      assert entries == [e] + entries[1..];
      |e.pattern| + (if e.area.Some? then |e.area.value| else 0) + Longest(entries[1..])
  }

  function Below(entries: seq<GovernsEntry>, path: string): string {
    path + "/" + seq(Longest(entries) + 1, _ => 'z')
  }

  /** A target below `path` that no stamped path and no area can equal; the slash in front guards a blank
      the path may start with. */
  function ProbeBelow(entries: seq<GovernsEntry>, path: string): string {
    "/" + Below(entries, path)
  }

  lemma ProbeReads(entries: seq<GovernsEntry>, path: string)
    requires path != "" && Trimmed(path, Slash) && Free(path, '\\')
    ensures var t := ProbeBelow(entries, path);
            && Strip(t) == t && Replace(t, '\\', '/') == t && Norm(t) == Below(entries, path)
            && t != "" && |t| > Longest(entries)
  {
    var below := Below(entries, path);
    var t := ProbeBelow(entries, path);
    assert t[0] == '/' && t[|t| - 1] == 'z';
    TrimTrimmed(t, Space);
    assert below[0] == path[0] && below[|below| - 1] == 'z';
    TrimIs("/", below, "", Slash);
    assert "/" + below + "" == t;
    assert Free(t, '\\');
    assert Replace(t, '\\', '/') == t;
  }

  lemma ProbeNotArea(entries: seq<GovernsEntry>, t: string)
    requires |t| > Longest(entries)
    ensures !IsArea(entries, t)
  {
  }

  /** The probe's longest owning path is `path`. */
  lemma ProbeLongest(entries: seq<GovernsEntry>, path: string, e: GovernsEntry, target: string)
    requires e in entries && Norm(e.pattern) == path != "" && Norm(target) == Below(entries, path)
    ensures IsLongest(entries, path, target)
  {
    hide Norm, HasGlob;
    var t := Below(entries, path);
    assert t[..|path| + 1] == path + "/";
    assert Owns(e, target);
    forall o | o in entries && Owns(o, target) ensures |Norm(o.pattern)| <= |path| {
      var p := Norm(o.pattern);
      NormFacts(o.pattern);
      assert |p| < |t|;
      assert t[|p|] == (p + "/")[|p|] == '/';
      assert forall i :: |path| < i < |t| ==> t[i] == 'z';
    }
  }

  lemma OverlapAtProbe(entries: seq<GovernsEntry>, fnmatch: FnMatch, e: GovernsEntry, o: GovernsEntry)
    requires GlobFree(entries) && e in entries && o in entries && SamePath(e, o)
    ensures Resolves(entries, ProbeBelow(entries, Norm(e.pattern)), fnmatch, Overlap)
  {
    hide Norm, HasGlob, Specificity, PathPrefix, ProbeBelow, Longest, Below;
    var path := Norm(e.pattern);
    var t := ProbeBelow(entries, path);
    NormFacts(e.pattern);
    ProbeReads(entries, path);
    ProbeNotArea(entries, t);
    ProbeLongest(entries, path, e, t);
    TopIsLongest(entries, path, t, fnmatch, e);
    TopIsLongest(entries, path, t, fnmatch, o);
  }

  /** For patterns without globs, spelled in any way: some target gets "overlap" exactly when two designs
      are on one path, and the gate speaks exactly when two designs use one spelling. */
  lemma OverlapIsSamePath(entries: seq<GovernsEntry>, fnmatch: FnMatch)
    requires GlobFree(entries) && OneAreaEach(entries)
    ensures NeverOverlaps(entries, fnmatch) <==> NoSamePath(entries)
    ensures GateClean(entries) <==> NoSameSpelling(entries)
  {
    hide Resolves, Designs, GlobFree, SamePath, GateClean, NoSameSpelling;
    GateIsSpelling(entries);
    if NoSamePath(entries) {
      forall raw ensures !Resolves(entries, raw, fnmatch, Overlap) {
        DistinctPathsNoOverlap(entries, raw, fnmatch);
      }
    } else {
      var e, o :| e in entries && o in entries && SamePath(e, o);
      OverlapAtProbe(entries, fnmatch, e, o);
    }
  }

  /** So the gate's answer is wrong in exactly two ways: it passes an index in which two designs spell one
      path differently and none the same, and it refuses one in which designs share only spellings that
      are on no path. */
  lemma GateMatchesResolver(entries: seq<GovernsEntry>, fnmatch: FnMatch)
    requires GlobFree(entries) && OneAreaEach(entries)
    ensures GateClean(entries) && !NeverOverlaps(entries, fnmatch) <==>
            && NoSameSpelling(entries)
            && exists e, o :: e in entries && o in entries && SamePath(e, o) && e.pattern != o.pattern
    ensures !GateClean(entries) && NeverOverlaps(entries, fnmatch) <==>
            && NoSamePath(entries)
            && exists e, o :: e in entries && o in entries && SameSpelling(e, o) && OnNoPath(e.pattern)
    ensures Tidy(entries) ==> (GateClean(entries) <==> NeverOverlaps(entries, fnmatch))
  {
    hide Norm, GlobFree, GateClean, NeverOverlaps;
    OverlapIsSamePath(entries, fnmatch);
    forall e, o | SamePath(e, o) ensures e.pattern != "" {
      NormFacts(e.pattern);
    }
  }

  /** Nothing is left of the pattern but slashes and blanks, or it has a backslash. */
  predicate OnNoPath(pattern: string) {
    Norm(pattern) == "" || !Free(Norm(pattern), '\\')
  }

  /** Patterns as they should be stamped: already stripped and without a backslash. */
  ghost predicate Tidy(entries: seq<GovernsEntry>) {
    forall e :: e in entries ==> Norm(e.pattern) == e.pattern && Free(e.pattern, '\\')
  }

  /** For instance two designs that stamp `p` and `p/`. */
  lemma UntidyPatternsSlipThrough(p: string, a: string, b: string, fnmatch: FnMatch)
    requires p != "" && Norm(p) == p && !HasGlob(p) && Free(p, '\\') && a != b
    ensures var entries := [GovernsEntry(p, a, None), GovernsEntry(p + "/", b, None)];
            GateClean(entries) && Resolves(entries, ProbeBelow(entries, p), fnmatch, Overlap)
  {
    hide HasGlob, Resolves, ProbeBelow, Designs;
    var e, o := GovernsEntry(p, a, None), GovernsEntry(p + "/", b, None);
    NormOfSlashed(p);
    GateIsSpelling([e, o]);
    OverlapAtProbe([e, o], fnmatch, e, o);
  }

  lemma NormOfSlashed(p: string)
    requires p != "" && Norm(p) == p
    ensures Norm(p + "/") == p
  {
    var l, r := TrimSplit(p, Space);
    var a, b := TrimSplit(Strip(p), Slash);
    assert |l| == 0 && |r| == 0;
    TrimTrimmed(p, Space);
    TrimTrimmed(p, Slash);
    TrimTrimmed(p + "/", Space);
    TrimIs("", p, "/", Slash);
    assert "" + p + "/" == p + "/";
  }
}
