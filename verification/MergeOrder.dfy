/** `build_merge_order` of scripts/merge_order.py: levels, the size tie-break, the final order. */
module MergeOrder {
  import opened Sorting
  import opened DependencyGraph
  import opened Kahn

  datatype Plan = Plan(slug: string, dependsOn: seq<string>, tasksDone: nat, tasksTotal: nat, finished: bool)

  /** The changed-line count of a worker branch, or no answer from git. */
  datatype Size = Lines(count: nat) | Unknown

  // ----- levels -----

  /** A dependency chain that ends in `slug`, earliest dependency first. */
  ghost predicate Chain(nodes: set<string>, deps: Deps, chain: seq<string>, slug: string) {
    && |chain| >= 1 && chain[|chain| - 1] == slug && slug in nodes
    && forall i, j :: 0 <= i && j == i + 1 < |chain| ==> DependsOn(nodes, deps, chain[j], chain[i])
  }

  /** The longest chain ending in `slug` has `level` steps. */
  ghost predicate IsLevel(nodes: set<string>, deps: Deps, slug: string, level: nat) {
    && (exists chain :: Chain(nodes, deps, chain, slug) && |chain| == level + 1)
    && forall chain :: Chain(nodes, deps, chain, slug) ==> |chain| <= level + 1
  }

  ghost function LevelOf(nodes: set<string>, deps: Deps, slug: string): nat {
    if exists n: nat :: IsLevel(nodes, deps, slug, n) then
      var n: nat :| IsLevel(nodes, deps, slug, n); n
    else 0
  }

  lemma ChainExtends(nodes: set<string>, deps: Deps, chain: seq<string>, dep: string, slug: string)
    requires Chain(nodes, deps, chain, dep) && DependsOn(nodes, deps, slug, dep)
    ensures Chain(nodes, deps, chain + [slug], slug)
  {
  }

  lemma ChainShrinks(nodes: set<string>, deps: Deps, chain: seq<string>, slug: string)
    requires Chain(nodes, deps, chain, slug) && |chain| >= 2
    ensures Chain(nodes, deps, chain[..|chain| - 1], chain[|chain| - 2])
    ensures DependsOn(nodes, deps, slug, chain[|chain| - 2])
  {
  }

  /** A dependency sits on a strictly lower level. */
  lemma DependencyIsLower(nodes: set<string>, deps: Deps, slug: string, dep: string, n: nat, m: nat)
    requires DependsOn(nodes, deps, slug, dep)
    requires IsLevel(nodes, deps, slug, n) && IsLevel(nodes, deps, dep, m)
    ensures m < n
  {
    var chain :| Chain(nodes, deps, chain, dep) && |chain| == m + 1;
    ChainExtends(nodes, deps, chain, dep, slug);
  }

  /** One past the highest dependency level, or 0 without dependencies, is the longest chain. */
  lemma LevelStep(nodes: set<string>, deps: Deps, slug: string, level: nat)
    requires slug in nodes
    requires forall d :: DependsOn(nodes, deps, slug, d) ==> exists m: nat :: m < level && IsLevel(nodes, deps, d, m)
    requires level > 0 ==> exists d :: DependsOn(nodes, deps, slug, d) && IsLevel(nodes, deps, d, level - 1)
    ensures IsLevel(nodes, deps, slug, level)
  {
    if level == 0 {
      assert Chain(nodes, deps, [slug], slug);
    } else {
      var d :| DependsOn(nodes, deps, slug, d) && IsLevel(nodes, deps, d, level - 1);
      var chain :| Chain(nodes, deps, chain, d) && |chain| == level;
      ChainExtends(nodes, deps, chain, d, slug);
    }
    forall chain | Chain(nodes, deps, chain, slug) ensures |chain| <= level + 1 {
      if |chain| >= 2 {
        ChainShrinks(nodes, deps, chain, slug);
        var m: nat :| m < level && IsLevel(nodes, deps, chain[|chain| - 2], m);
      }
    }
  }

  ghost predicate LevelsKnown(nodes: set<string>, deps: Deps, done: set<string>, levels: map<string, nat>) {
    && (forall s :: s in levels <==> s in done)
    && forall s :: s in levels ==> IsLevel(nodes, deps, s, levels[s])
  }

  ghost predicate OnePastHighest(ds: seq<string>, levels: map<string, nat>, level: nat) {
    && (forall d :: d in ds && d in levels ==> levels[d] < level)
    && (level > 0 ==> exists d :: d in ds && d in levels && levels[d] == level - 1)
  }

  /** `max(dep_levels) + 1 if dep_levels else 0`, over the dependencies that have a level. */
  method NextLevel(ds: seq<string>, levels: map<string, nat>) returns (level: nat)
    ensures OnePastHighest(ds, levels, level)
  {
    level := 0;
    for i := 0 to |ds|
      invariant forall d :: d in ds[..i] && d in levels ==> levels[d] < level
      invariant level > 0 ==> exists d :: d in ds && d in levels && levels[d] == level - 1
    {
      assert ds[..i + 1] == ds[..i] + [ds[i]];
      if ds[i] in levels && levels[ds[i]] >= level {
        level := levels[ds[i]] + 1;
      }
    }
    assert ds[..|ds|] == ds;
  }

  lemma NextLevelIsLongest(nodes: set<string>, deps: Deps, done: set<string>, levels: map<string, nat>, slug: string,
                           level: nat)
    requires slug in nodes && done <= nodes && LevelsKnown(nodes, deps, done, levels)
    requires DepsWithin(nodes, deps, done, slug)
    requires OnePastHighest(DepsOf(deps, slug), levels, level)
    ensures LevelsKnown(nodes, deps, done + {slug}, levels[slug := level])
  {
    hide IsLevel;
    forall d | DependsOn(nodes, deps, slug, d)
      ensures exists m: nat :: m < level && IsLevel(nodes, deps, d, m)
    {
      assert d in levels && IsLevel(nodes, deps, d, levels[d]);
    }
    if level > 0 {
      var d :| d in DepsOf(deps, slug) && d in levels && levels[d] == level - 1;
      assert DependsOn(nodes, deps, slug, d);
    }
    LevelStep(nodes, deps, slug, level);
  }

  lemma OrderPrefix(nodes: set<string>, deps: Deps, order: seq<string>, i: nat)
    requires Topological(nodes, deps, order) && i < |order|
    ensures order[i] in nodes && Elements(order[..i]) <= nodes
    ensures DepsWithin(nodes, deps, Elements(order[..i]), order[i])
    ensures Elements(order[..i + 1]) == Elements(order[..i]) + {order[i]}
  {
  }

  /** The `level_map` loop over the topological order computes longest-chain lengths. */
  method Levels(ghost nodes: set<string>, deps: Deps, order: seq<string>) returns (levels: map<string, nat>)
    requires Topological(nodes, deps, order)
    ensures LevelsKnown(nodes, deps, nodes, levels)
  {
    levels := map[];
    for i := 0 to |order|
      invariant LevelsKnown(nodes, deps, Elements(order[..i]), levels)
    {
      var level := NextLevel(DepsOf(deps, order[i]), levels);
      OrderPrefix(nodes, deps, order, i);
      NextLevelIsLongest(nodes, deps, Elements(order[..i]), levels, order[i], level);
      levels := levels[order[i] := level];
    }
    assert order[..|order|] == order;
    assert Elements(order) == nodes;
  }

  // ----- the sort key -----

  datatype Key = Key(level: nat, size: Size, slug: string)

  /** Tuple comparison of `(level, 0, size, slug)` and `(level, 1, slug)`. */
  predicate KeyLe(a: Key, b: Key) {
    if a.level != b.level then a.level < b.level
    else if a.size.Lines? && b.size.Lines? && a.size.count != b.size.count then a.size.count < b.size.count
    else if a.size.Lines? != b.size.Lines? then a.size.Lines?
    else StrLe(a.slug, b.slug)
  }

  const KEY_ORDER: (Key, Key) -> bool := (a, b) => KeyLe(a, b)

  lemma KeyOrder()
    ensures TotalOrder(KEY_ORDER)
  {
    StringOrder();
    forall a: string, b: string ensures StrLe(a, b) || StrLe(b, a) { StrLeTotal(a, b); }
    forall a, b | KeyLe(a, b) && KeyLe(b, a) ensures a == b { StrLeAntisymmetric(a.slug, b.slug); }
    forall a, b, c | KeyLe(a, b) && KeyLe(b, c) ensures KeyLe(a, c) {
      if StrLe(a.slug, b.slug) && StrLe(b.slug, c.slug) {
        StrLeTransitive(a.slug, b.slug, c.slug);
      }
    }
  }

  function SizeOf(sizes: map<string, nat>, slug: string): Size {
    if slug in sizes then Lines(sizes[slug]) else Unknown
  }

  ghost function KeyOf(nodes: set<string>, deps: Deps, sizes: map<string, nat>, slug: string): Key {
    Key(LevelOf(nodes, deps, slug), SizeOf(sizes, slug), slug)
  }

  /** The recommended order: every finished plan once, by longest chain, then known diff size, then slug. */
  ghost predicate Recommended(nodes: set<string>, deps: Deps, sizes: map<string, nat>, order: seq<string>) {
    && NoDup(order)
    && (forall s :: s in order <==> s in nodes)
    && forall i, j :: 0 <= i < j < |order| ==>
         KeyLe(KeyOf(nodes, deps, sizes, order[i]), KeyOf(nodes, deps, sizes, order[j]))
  }

  /** What the tie-break promises between two plans on one level: a known diff before an unknown one,
      the smaller known diff first, and the slug deciding the rest. */
  lemma TieBreak(nodes: set<string>, deps: Deps, sizes: map<string, nat>, order: seq<string>, i: nat, j: nat)
    requires Recommended(nodes, deps, sizes, order) && i < j < |order|
    requires LevelOf(nodes, deps, order[i]) == LevelOf(nodes, deps, order[j])
    ensures order[j] in sizes ==> order[i] in sizes && sizes[order[i]] <= sizes[order[j]]
    ensures (order[i] in sizes <==> order[j] in sizes) && (order[i] in sizes ==> sizes[order[i]] == sizes[order[j]]) ==>
      StrLe(order[i], order[j])
  {
  }

  /** Across levels the lower one goes first. */
  lemma LevelsAscend(nodes: set<string>, deps: Deps, sizes: map<string, nat>, order: seq<string>, i: nat, j: nat)
    requires Recommended(nodes, deps, sizes, order) && i < j < |order|
    ensures LevelOf(nodes, deps, order[i]) <= LevelOf(nodes, deps, order[j])
  {
  }

  /** Re-sorting by level keeps every dependency in front of the plans that need it. */
  lemma RecommendedIsTopological(nodes: set<string>, deps: Deps, sizes: map<string, nat>, order: seq<string>)
    requires Recommended(nodes, deps, sizes, order)
    requires forall s :: s in nodes ==> IsLevel(nodes, deps, s, LevelOf(nodes, deps, s))
    ensures Topological(nodes, deps, order)
  {
    forall i | 0 <= i < |order| ensures DepsWithin(nodes, deps, Elements(order[..i]), order[i]) {
      forall d | DependsOn(nodes, deps, order[i], d) ensures d in Elements(order[..i]) {
        DependencyIsLower(nodes, deps, order[i], d, LevelOf(nodes, deps, order[i]), LevelOf(nodes, deps, d));
        assert d in order;
        var k :| 0 <= k < |order| && order[k] == d;
        assert k < i;
        assert d == order[..i][k];
      }
    }
  }

  /** The order is a function of the set of finished plans, their dependencies and their sizes. */
  lemma RecommendedUnique(nodes: set<string>, deps: Deps, sizes: map<string, nat>, a: seq<string>, b: seq<string>)
    requires Recommended(nodes, deps, sizes, a) && Recommended(nodes, deps, sizes, b)
    ensures a == b
  {
    NoDupPermutation(a, b);
    SameElements(a, b);
    RecommendedSameFrom(nodes, deps, sizes, a, b, 0);
  }

  lemma {:induction false} RecommendedSameFrom(nodes: set<string>, deps: Deps, sizes: map<string, nat>,
                                               a: seq<string>, b: seq<string>, k: nat)
    requires Recommended(nodes, deps, sizes, a) && Recommended(nodes, deps, sizes, b)
    requires k <= |a| == |b| && a[..k] == b[..k]
    ensures a == b
    decreases |a| - k
  {
    if k < |a| {
      var i := LaterIndex(nodes, deps, sizes, a, b, k);
      var j := LaterIndex(nodes, deps, sizes, b, a, k);
      KeyOrder();
      assert KEY_ORDER(KeyOf(nodes, deps, sizes, a[k]), KeyOf(nodes, deps, sizes, b[k]));
      assert KEY_ORDER(KeyOf(nodes, deps, sizes, b[k]), KeyOf(nodes, deps, sizes, a[k]));
      assert a[..k + 1] == a[..k] + [a[k]] && b[..k + 1] == b[..k] + [b[k]];
      RecommendedSameFrom(nodes, deps, sizes, a, b, k + 1);
    } else {
      assert a[..k] == a && b[..k] == b;
    }
  }

  /** `b[k]` sits at `k` or later in `a`, so `a[k]`'s key is no greater. */
  lemma LaterIndex(nodes: set<string>, deps: Deps, sizes: map<string, nat>, a: seq<string>, b: seq<string>, k: nat)
    returns (i: nat)
    requires Recommended(nodes, deps, sizes, a) && Recommended(nodes, deps, sizes, b)
    requires k < |a| == |b| && a[..k] == b[..k]
    ensures k <= i < |a| && a[i] == b[k]
    ensures KeyLe(KeyOf(nodes, deps, sizes, a[k]), KeyOf(nodes, deps, sizes, b[k]))
  {
    assert b[k] in b && b[k] in a;
    forall m | 0 <= m < k ensures a[m] != b[k] {
      assert a[m] == a[..k][m] == b[..k][m] == b[m];
    }
    i :| 0 <= i < |a| && a[i] == b[k];
    StrLeTotal(a[k], a[k]);
  }

  // ----- putting it together -----

  /** Finished: every step checked, at least one step, and the plan not closed yet. */
  predicate IsFinished(p: Plan) {
    !p.finished && p.tasksTotal > 0 && p.tasksDone == p.tasksTotal
  }

  function Finished(plans: seq<Plan>): (r: seq<Plan>)
    ensures forall p :: p in r <==> p in plans && IsFinished(p)
  {
    if plans == [] then [] else
      assert plans == [plans[0]] + plans[1..];
      (if IsFinished(plans[0]) then [plans[0]] else []) + Finished(plans[1..])
  }

  function Slugs(plans: seq<Plan>): (r: seq<string>)
    ensures |r| == |plans| && forall i :: 0 <= i < |r| ==> r[i] == plans[i].slug
  {
    seq(|plans|, i requires 0 <= i < |plans| => plans[i].slug)
  }

  /** `{p.slug: p.depends_on for p in finished}`: on a repeated slug the last one wins. */
  function DepMap(plans: seq<Plan>): (r: Deps)
    ensures r.Keys == Elements(Slugs(plans))
  {
    if plans == [] then map[] else
      var init, last := plans[..|plans| - 1], plans[|plans| - 1];
      assert Slugs(plans) == Slugs(init) + [last.slug];
      DepMap(init)[last.slug := last.dependsOn]
  }

  /** The plans to land, from their fields: not closed, at least one task, and every task done. */
  ghost predicate ToLand(plans: seq<Plan>, slug: string) {
    exists p :: p in plans && p.slug == slug && p.finished == false && 1 <= p.tasksTotal == p.tasksDone
  }

  ghost predicate Lands(p: Plan) {
    p.finished == false && 1 <= p.tasksTotal == p.tasksDone
  }

  /** The plan to land that a slug stands for: the last one that has it. */
  ghost predicate StandsFor(plans: seq<Plan>, k: nat, slug: string) {
    && k < |plans| && Lands(plans[k]) && plans[k].slug == slug
    && forall j :: k < j < |plans| && Lands(plans[j]) ==> plans[j].slug != slug
  }

  /** One plan to land names another as its dependency. */
  ghost predicate Needs(plans: seq<Plan>, slug: string, dep: string) {
    ToLand(plans, dep) && exists k: nat :: StandsFor(plans, k, slug) && dep in plans[k].dependsOn
  }

  /** Some plans to land wait for each other, and this is one of them. */
  ghost predicate OnHold(plans: seq<Plan>, slug: string) {
    exists waiting: set<string> :: slug in waiting && WaitTogether(plans, waiting)
  }

  ghost predicate WaitTogether(plans: seq<Plan>, waiting: set<string>) {
    forall s :: s in waiting ==> exists d :: d in waiting && Needs(plans, s, d)
  }

  /** `Finished` keeps the order, so the last plan with a slug is still the last. */
  lemma {:induction false} LastFinished(plans: seq<Plan>, k: nat, slug: string)
    requires StandsFor(plans, k, slug)
    ensures slug in DepMap(Finished(plans)) && DepMap(Finished(plans))[slug] == plans[k].dependsOn
  {
    var i := LastInFinished(plans, k, slug);
    DepMapLookup(Finished(plans), i);
  }

  lemma {:induction false} LastInFinished(plans: seq<Plan>, k: nat, slug: string) returns (i: nat)
    requires StandsFor(plans, k, slug)
    ensures var todo := Finished(plans);
            i < |todo| && todo[i] == plans[k] && forall j :: i < j < |todo| ==> todo[j].slug != slug
    decreases |plans|
  {
    var rest := Finished(plans[1..]);
    if k == 0 {
      i := 0;
      forall j | 0 <= j < |rest| ensures rest[j].slug != slug {
        assert rest[j] in rest;
        var m :| 0 <= m < |plans[1..]| && plans[1..][m] == rest[j];
        assert plans[m + 1] == rest[j];
      }
    } else {
      assert StandsFor(plans[1..], k - 1, slug);
      i := LastInFinished(plans[1..], k - 1, slug);
      if IsFinished(plans[0]) {
        i := i + 1;
      }
    }
  }

  lemma {:induction false} StandsForExists(plans: seq<Plan>, slug: string) returns (k: nat)
    requires ToLand(plans, slug)
    ensures StandsFor(plans, k, slug)
  {
    var last := plans[|plans| - 1];
    if Lands(last) && last.slug == slug {
      k := |plans| - 1;
    } else {
      var init := plans[..|plans| - 1];
      var p :| p in plans && p.slug == slug && p.finished == false && 1 <= p.tasksTotal == p.tasksDone;
      assert p in init;
      k := StandsForExists(init, slug);
    }
  }

  /** What the two dictionaries make of the plans: an in-set dependency is one that a plan to land names and
      that is to land itself. */
  lemma DependsOnIs(plans: seq<Plan>, slug: string, dep: string)
    ensures DependsOn(Elements(Slugs(Finished(plans))), DepMap(Finished(plans)), slug, dep) <==> Needs(plans, slug, dep)
  {
    hide ToLand, Finished, Slugs, DepMap;
    NodesAreToLand(plans, slug);
    NodesAreToLand(plans, dep);
    if ToLand(plans, slug) {
      var k := StandsForExists(plans, slug);
      LastFinished(plans, k, slug);
      forall m: nat | StandsFor(plans, m, slug) ensures m == k {
      }
    }
    forall k: nat | StandsFor(plans, k, slug) ensures ToLand(plans, slug) {
      StandsIsToLand(plans, k, slug);
    }
  }

  lemma StandsIsToLand(plans: seq<Plan>, k: nat, slug: string)
    requires StandsFor(plans, k, slug)
    ensures ToLand(plans, slug)
  {
    assert plans[k] in plans;
  }

  lemma NodesAreToLand(plans: seq<Plan>, slug: string)
    ensures slug in Elements(Slugs(Finished(plans))) <==> ToLand(plans, slug)
  {
    var todo := Finished(plans);
    if ToLand(plans, slug) {
      var p :| p in plans && p.slug == slug && p.finished == false && 1 <= p.tasksTotal == p.tasksDone;
      var i :| 0 <= i < |todo| && todo[i] == p;
      assert Slugs(todo)[i] == slug;
    }
    if slug in Slugs(todo) {
      var i :| 0 <= i < |todo| && Slugs(todo)[i] == slug;
      assert todo[i] in todo;
    }
  }

  lemma StuckIsOnHold(plans: seq<Plan>, deps: Deps, nodes: set<string>, left: set<string>, slug: string)
    requires nodes == Elements(Slugs(Finished(plans))) && deps == DepMap(Finished(plans))
    requires LargestStuck(nodes, deps, left)
    ensures slug in left <==> OnHold(plans, slug)
  {
    hide Slugs, Finished, DepMap, Elements, Needs, DependsOn;
    forall s, d ensures DependsOn(nodes, deps, s, d) <==> Needs(plans, s, d) {
      DependsOnIs(plans, s, d);
    }
    if slug in left {
      StuckWaits(plans, deps, nodes, left);
    }
    forall waiting: set<string> | WaitTogether(plans, waiting) ensures waiting <= left {
      WaitingIsStuck(plans, deps, nodes, waiting);
    }
  }

  lemma StuckWaits(plans: seq<Plan>, deps: Deps, nodes: set<string>, left: set<string>)
    requires (forall s, d :: DependsOn(nodes, deps, s, d) <==> Needs(plans, s, d)) && Stuck(nodes, deps, left)
    ensures WaitTogether(plans, left)
  {
    hide Needs, DependsOn;
    forall s | s in left ensures exists d :: d in left && Needs(plans, s, d) {
      assert Waits(nodes, deps, left, s);
    }
  }

  lemma WaitingIsStuck(plans: seq<Plan>, deps: Deps, nodes: set<string>, waiting: set<string>)
    requires (forall s, d :: DependsOn(nodes, deps, s, d) <==> Needs(plans, s, d)) && WaitTogether(plans, waiting)
    ensures Stuck(nodes, deps, waiting)
  {
    hide Needs;
    forall s | s in waiting ensures Waits(nodes, deps, waiting, s) && s in nodes {
      var d :| d in waiting && Needs(plans, s, d);
      assert DependsOn(nodes, deps, s, d);
    }
  }

  ghost predicate DistinctToLand(plans: seq<Plan>) {
    forall i, j :: 0 <= i < j < |plans| && Lands(plans[i]) && Lands(plans[j]) ==> plans[i].slug != plans[j].slug
  }

  ghost predicate ClosedWalk(plans: seq<Plan>, walk: seq<string>) {
    && |walk| >= 2 && walk[0] == walk[|walk| - 1]
    && forall i, j :: 0 <= i && j == i + 1 < |walk| ==> Needs(plans, walk[i], walk[j])
  }

  lemma {:induction false} DistinctIs(plans: seq<Plan>)
    ensures NoDup(Slugs(Finished(plans))) <==> DistinctToLand(plans)
  {
    hide Slugs, NoDup, DistinctToLand, ToLand, Elements, IsFinished;
    if plans == [] {
      NothingDistinct();
    } else {
      var rest := plans[1..];
      DistinctIs(rest);
      NodesAreToLand(rest, plans[0].slug);
      FinishedCons(plans);
      if IsFinished(plans[0]) {
        ConsDistinct(plans[0].slug, Slugs(Finished(rest)));
        FirstDistinct(plans);
      } else {
        SkippedDistinct(plans);
      }
    }
  }

  lemma NothingDistinct()
    ensures NoDup(Slugs(Finished([]))) && DistinctToLand([])
  {
  }

  lemma FinishedCons(plans: seq<Plan>)
    requires plans != []
    ensures var rest := Finished(plans[1..]);
            if IsFinished(plans[0]) then Slugs(Finished(plans)) == [plans[0].slug] + Slugs(rest)
            else Finished(plans) == rest
    ensures forall s :: s in Elements(Slugs(Finished(plans[1..]))) <==> s in Slugs(Finished(plans[1..]))
  {
    hide Slugs, IsFinished;
    var rest := Finished(plans[1..]);
    if IsFinished(plans[0]) {
      assert Finished(plans) == [plans[0]] + rest;
      SlugsCons(plans[0], rest);
    } else {
      assert Finished(plans) == [] + rest == rest;
    }
  }

  lemma SlugsCons(p: Plan, rest: seq<Plan>)
    ensures Slugs([p] + rest) == [p.slug] + Slugs(rest)
  {
    hide Slugs;
    var all := [p] + rest;
    forall i | 0 <= i < |all| ensures Slugs(all)[i] == ([p.slug] + Slugs(rest))[i] {
      assert i > 0 ==> all[i] == rest[i - 1];
    }
  }

  lemma ConsDistinct(x: string, rest: seq<string>)
    ensures NoDup([x] + rest) <==> NoDup(rest) && x !in rest
  {
    if NoDup([x] + rest) {
      assert forall i :: 0 <= i < |rest| ==> ([x] + rest)[i + 1] == rest[i];
      assert ([x] + rest)[0] == x;
    }
  }

  lemma FirstDistinct(plans: seq<Plan>)
    requires plans != [] && IsFinished(plans[0])
    ensures DistinctToLand(plans) <==> DistinctToLand(plans[1..]) && !ToLand(plans[1..], plans[0].slug)
  {
    var rest := plans[1..];
    assert forall i :: 0 <= i < |rest| ==> rest[i] == plans[i + 1];
    if DistinctToLand(rest) && !ToLand(rest, plans[0].slug) {
      forall i, j | 0 <= i < j < |plans| && Lands(plans[i]) && Lands(plans[j]) ensures plans[i].slug != plans[j].slug {
        assert plans[j] == rest[j - 1];
        if i > 0 {
          assert plans[i] == rest[i - 1];
        }
      }
    }
  }

  lemma SkippedDistinct(plans: seq<Plan>)
    requires plans != [] && !IsFinished(plans[0])
    ensures DistinctToLand(plans) <==> DistinctToLand(plans[1..])
  {
    var rest := plans[1..];
    if DistinctToLand(rest) {
      forall i, j | 0 <= i < j < |plans| && Lands(plans[i]) && Lands(plans[j]) ensures plans[i].slug != plans[j].slug {
        assert plans[j] == rest[j - 1] && plans[i] == rest[i - 1];
      }
    }
  }

  lemma CycleIs(plans: seq<Plan>)
    ensures HasCycle(Elements(Slugs(Finished(plans))), DepMap(Finished(plans))) <==>
            exists walk :: ClosedWalk(plans, walk)
  {
    var nodes, deps := Elements(Slugs(Finished(plans))), DepMap(Finished(plans));
    forall s, d ensures DependsOn(nodes, deps, s, d) <==> Needs(plans, s, d) {
      DependsOnIs(plans, s, d);
    }
    SameWalks(plans, nodes, deps);
  }

  lemma SameWalks(plans: seq<Plan>, nodes: set<string>, deps: Deps)
    requires forall s, d :: DependsOn(nodes, deps, s, d) <==> Needs(plans, s, d)
    ensures HasCycle(nodes, deps) <==> exists walk :: ClosedWalk(plans, walk)
  {
    hide Needs;
    if walk :| Cycle(nodes, deps, walk) {
      assert ClosedWalk(plans, walk);
    }
    if walk :| ClosedWalk(plans, walk) {
      forall i | 0 <= i < |walk| ensures walk[i] in nodes {
        var k := if i + 1 < |walk| then i else 0;
        assert DependsOn(nodes, deps, walk[k], walk[k + 1]);
      }
      assert Cycle(nodes, deps, walk);
    }
  }

  lemma NeededIsEarlier(plans: seq<Plan>, order: seq<string>, i: nat, dep: string)
    requires Topological(Elements(Slugs(Finished(plans))), DepMap(Finished(plans)), order)
    requires i < |order| && Needs(plans, order[i], dep)
    ensures dep in order[..i]
  {
    hide Slugs, Finished, DepMap, Needs, DependsOn;
    DependsOnIs(plans, order[i], dep);
  }

  method BuildMergeOrder(plans: seq<Plan>, sizes: map<string, nat>) returns (r: Outcome)
    ensures r.Ordered? <==> DistinctToLand(plans) && !exists walk :: ClosedWalk(plans, walk)
    ensures r.Ordered? ==> forall s :: s in r.order <==> ToLand(plans, s)
    ensures r.Ordered? ==> forall i, d :: 0 <= i < |r.order| && Needs(plans, r.order[i], d) ==> d in r.order[..i]
    ensures r.CycleDetected? ==> forall s :: s in r.remaining <==> OnHold(plans, s)
    ensures var todo := Finished(plans);
            var nodes, deps := Elements(Slugs(todo)), DepMap(todo);
            && (r.Ordered? <==> NoDup(Slugs(todo)) && !HasCycle(nodes, deps))
            && (r.Ordered? ==> Recommended(nodes, deps, sizes, r.order) && Topological(nodes, deps, r.order))
            && (r.CycleDetected? ==>
                  LargestStuck(nodes, deps, Elements(r.remaining)) && SortedBy(r.remaining, STRING_ORDER))
  {
    hide Recommended, Topological, LargestStuck, HasCycle, NoDup, ToLand, OnHold, Needs, SortedBy,
         DistinctToLand, ClosedWalk;
    DistinctIs(plans);
    CycleIs(plans);
    var todo := Finished(plans);
    var slugs := Slugs(todo);
    forall s ensures s in Elements(slugs) <==> ToLand(plans, s) {
      NodesAreToLand(plans, s);
    }
    var deps := DepMap(todo);
    ghost var nodes := Elements(slugs);
    if todo == [] {
      NothingToLand(slugs, nodes, deps, sizes);
      return Ordered([]);
    }
    r := TopoSort(slugs, deps);
    if r.Ordered? {
      var levels := Levels(nodes, deps, r.order);
      var order := ByKey(nodes, deps, sizes, levels, r.order);
      RecommendedIsTopological(nodes, deps, sizes, order);
      SameAsNodes(nodes, deps, sizes, order);
      forall i, d | 0 <= i < |order| && Needs(plans, order[i], d) ensures d in order[..i] {
        NeededIsEarlier(plans, order, i, d);
      }
      r := Ordered(order);
    } else {
      forall s ensures s in r.remaining <==> OnHold(plans, s) {
        StuckIsOnHold(plans, deps, nodes, Elements(r.remaining), s);
      }
    }
  }

  lemma SameAsNodes(nodes: set<string>, deps: Deps, sizes: map<string, nat>, order: seq<string>)
    requires Recommended(nodes, deps, sizes, order)
    ensures forall s :: s in order <==> s in nodes
  {
  }

  lemma NothingToLand(slugs: seq<string>, nodes: set<string>, deps: Deps, sizes: map<string, nat>)
    requires slugs == [] && nodes == Elements(slugs)
    ensures NoDup(slugs) && !HasCycle(nodes, deps)
    ensures Recommended(nodes, deps, sizes, []) && Topological(nodes, deps, [])
  {
    assert nodes == {};
    assert Topological(nodes, deps, []);
    CycleExcludesOrder(nodes, deps, []);
  }

  /** `sorted(topo_order, key=_sort_key)`; the slug is part of the key, so no two keys are equal. */
  method ByKey(ghost nodes: set<string>, ghost deps: Deps, sizes: map<string, nat>, levels: map<string, nat>,
               topo: seq<string>)
    returns (order: seq<string>)
    requires Topological(nodes, deps, topo) && LevelsKnown(nodes, deps, nodes, levels)
    ensures Recommended(nodes, deps, sizes, order)
    ensures forall s :: s in nodes ==> IsLevel(nodes, deps, s, LevelOf(nodes, deps, s))
  {
    LevelsAreLevelOf(nodes, deps, levels);
    assert forall s :: s in topo ==> s in levels;
    var keys := seq(|topo|, i requires 0 <= i < |topo| => Key(levels[topo[i]], SizeOf(sizes, topo[i]), topo[i]));
    assert forall i :: 0 <= i < |topo| ==> topo[i] in nodes;
    var sorted := SortKeys(keys, topo);
    order := seq(|sorted|, i requires 0 <= i < |sorted| => sorted[i].slug);
    KeysToSlugs(nodes, deps, sizes, topo, keys, sorted, order);
  }

  lemma LevelsAreLevelOf(nodes: set<string>, deps: Deps, levels: map<string, nat>)
    requires LevelsKnown(nodes, deps, nodes, levels)
    ensures forall s :: s in nodes ==> levels[s] == LevelOf(nodes, deps, s)
    ensures forall s :: s in nodes ==> IsLevel(nodes, deps, s, LevelOf(nodes, deps, s))
  {
  }

  method SortKeys(keys: seq<Key>, ghost topo: seq<string>) returns (sorted: seq<Key>)
    requires NoDup(topo) && |keys| == |topo| && forall i :: 0 <= i < |topo| ==> keys[i].slug == topo[i]
    ensures SortedBy(sorted, KEY_ORDER) && NoDup(sorted)
    ensures forall k :: k in keys <==> k in sorted
  {
    sorted := Sort(keys, KEY_ORDER);
    KeyOrder();
    SortSorted(keys, KEY_ORDER);
    PermutationNoDup(keys, sorted);
    SameElements(keys, sorted);
  }

  lemma KeysToSlugs(nodes: set<string>, deps: Deps, sizes: map<string, nat>, topo: seq<string>,
                    keys: seq<Key>, sorted: seq<Key>, order: seq<string>)
    requires |keys| == |topo| && forall i :: 0 <= i < |topo| ==> keys[i] == KeyOf(nodes, deps, sizes, topo[i])
    requires forall s :: s in topo <==> s in nodes
    requires SortedBy(sorted, KEY_ORDER) && NoDup(sorted) && (forall k :: k in keys <==> k in sorted)
    requires |order| == |sorted| && forall i :: 0 <= i < |sorted| ==> order[i] == sorted[i].slug
    ensures Recommended(nodes, deps, sizes, order)
  {
    forall i | 0 <= i < |sorted| ensures sorted[i] == KeyOf(nodes, deps, sizes, order[i]) && order[i] in nodes {
      assert sorted[i] in keys;
      var k :| 0 <= k < |keys| && keys[k] == sorted[i];
      assert topo[k] in nodes;
    }
    forall s | s in nodes ensures s in order {
      var k :| 0 <= k < |topo| && topo[k] == s;
      assert keys[k] in sorted;
      var i :| 0 <= i < |sorted| && sorted[i] == keys[k];
      assert order[i] == s;
    }
    forall i, j | 0 <= i < j < |order|
      ensures order[i] != order[j]
      ensures KeyLe(KeyOf(nodes, deps, sizes, order[i]), KeyOf(nodes, deps, sizes, order[j]))
    {
      assert KEY_ORDER(sorted[i], sorted[j]);
    }
  }

  // ----- input order does not matter -----

  /** On a repeated slug the last plan's dependencies count. */
  lemma {:induction false} DepMapLookup(plans: seq<Plan>, k: nat)
    requires k < |plans| && forall j :: k < j < |plans| ==> plans[j].slug != plans[k].slug
    ensures plans[k].slug in DepMap(plans) && DepMap(plans)[plans[k].slug] == plans[k].dependsOn
  {
    var init := plans[..|plans| - 1];
    if k < |init| {
      DepMapLookup(init, k);
    }
  }

  /** Listing the same finished plans in another order, among any unfinished ones, recommends the
      same merge order. */
  lemma InputOrderIrrelevant(plans: seq<Plan>, others: seq<Plan>, sizes: map<string, nat>, a: seq<string>,
                             b: seq<string>)
    requires forall p :: IsFinished(p) ==> (p in plans <==> p in others)
    requires NoDup(Slugs(Finished(plans))) && NoDup(Slugs(Finished(others)))
    requires Recommended(Elements(Slugs(Finished(plans))), DepMap(Finished(plans)), sizes, a)
    requires Recommended(Elements(Slugs(Finished(others))), DepMap(Finished(others)), sizes, b)
    ensures a == b
  {
    hide Recommended, NoDup, DepMap, Slugs;
    var p, q := Finished(plans), Finished(others);
    assert forall x :: x in p <==> x in q;
    SlugsSubset(p, q);
    SlugsSubset(q, p);
    SameDepMap(p, q);
    RecommendedUnique(Elements(Slugs(p)), DepMap(p), sizes, a, b);
  }

  lemma SameDepMap(p: seq<Plan>, q: seq<Plan>)
    requires forall x :: x in p <==> x in q
    requires NoDup(Slugs(p)) && NoDup(Slugs(q)) && Elements(Slugs(p)) == Elements(Slugs(q))
    ensures DepMap(p) == DepMap(q)
  {
    hide DepMap, NoDup;
    var deps, deps' := DepMap(p), DepMap(q);
    forall s | s in deps ensures s in deps' && deps[s] == deps'[s] {
      var i :| 0 <= i < |p| && Slugs(p)[i] == s;
      assert p[i] in q;
      var j :| 0 <= j < |q| && q[j] == p[i];
      LastOfItsSlug(p, i);
      LastOfItsSlug(q, j);
      DepMapLookup(p, i);
      DepMapLookup(q, j);
    }
  }

  lemma LastOfItsSlug(plans: seq<Plan>, k: nat)
    requires NoDup(Slugs(plans)) && k < |plans|
    ensures forall j :: k < j < |plans| ==> plans[j].slug != plans[k].slug
  {
    forall j | k < j < |plans| ensures plans[j].slug != plans[k].slug {
      assert Slugs(plans)[j] != Slugs(plans)[k];
    }
  }

  lemma SlugsSubset(p: seq<Plan>, q: seq<Plan>)
    requires forall x :: x in p ==> x in q
    ensures Elements(Slugs(p)) <= Elements(Slugs(q))
  {
    forall s | s in Slugs(p) ensures s in Slugs(q) {
      var i :| 0 <= i < |p| && Slugs(p)[i] == s;
      assert p[i] in q;
      var j :| 0 <= j < |q| && q[j] == p[i];
      assert Slugs(q)[j] == s;
    }
  }
}
