/** The specification side of the merge order: what the `depends_on` map means once it is
    restricted to the finished plans, and the facts Kahn's algorithm relies on. */
module DependencyGraph {
  import opened Sorting

  type Deps = map<string, seq<string>>

  /** `depends_on.get(slug, [])`. */
  function DepsOf(deps: Deps, slug: string): seq<string> {
    if slug in deps then deps[slug] else []
  }

  /** `dep` is a dependency of `slug` that is itself in the finished set. */
  ghost predicate DependsOn(nodes: set<string>, deps: Deps, slug: string, dep: string) {
    slug in nodes && dep in nodes && slug in deps && dep in deps[slug]
  }

  ghost predicate DepsWithin(nodes: set<string>, deps: Deps, done: set<string>, slug: string) {
    forall d :: DependsOn(nodes, deps, slug, d) ==> d in done
  }

  ghost predicate Ready(nodes: set<string>, deps: Deps, done: set<string>, slug: string) {
    slug in nodes && slug !in done && DepsWithin(nodes, deps, done, slug)
  }

  /** A permutation of the finished plans with every in-set dependency earlier. */
  ghost predicate Topological(nodes: set<string>, deps: Deps, order: seq<string>) {
    && NoDup(order)
    && (forall s :: s in order <==> s in nodes)
    && forall i :: 0 <= i < |order| ==> DepsWithin(nodes, deps, Elements(order[..i]), order[i])
  }

  /** A closed walk along dependencies; a self-dependency is the walk of length one. */
  ghost predicate Cycle(nodes: set<string>, deps: Deps, walk: seq<string>) {
    |walk| >= 2 && walk[0] == walk[|walk| - 1] && Walk(nodes, deps, walk)
  }

  ghost predicate Walk(nodes: set<string>, deps: Deps, walk: seq<string>) {
    && (forall i :: 0 <= i < |walk| ==> walk[i] in nodes)
    && forall i, j :: 0 <= i && j == i + 1 < |walk| ==> DependsOn(nodes, deps, walk[i], walk[j])
  }

  ghost predicate HasCycle(nodes: set<string>, deps: Deps) {
    exists walk :: Cycle(nodes, deps, walk)
  }

  /** Every member waits for another member, so none of them can ever be emitted. */
  ghost predicate Stuck(nodes: set<string>, deps: Deps, waiting: set<string>) {
    && waiting <= nodes
    && forall s {:trigger Waits(nodes, deps, waiting, s)} :: s in waiting ==> Waits(nodes, deps, waiting, s)
  }

  ghost predicate Waits(nodes: set<string>, deps: Deps, waiting: set<string>, s: string) {
    exists d :: d in waiting && DependsOn(nodes, deps, s, d)
  }

  /** Python's comparison of two lists of strings. */
  predicate ListLe(a: seq<string>, b: seq<string>) {
    a == [] || (b != [] && (if a[0] == b[0] then ListLe(a[1..], b[1..]) else StrLe(a[0], b[0])))
  }

  lemma {:induction false} ListLeMeans(a: seq<string>, b: seq<string>)
    ensures ListLe(a, b) <==> a <= b || exists i: nat :: FirstDifference(a, b, i) && StrLe(a[i], b[i])
  {
    if a != [] && b != [] && a[0] == b[0] {
      ListLeMeans(a[1..], b[1..]);
      assert a == [a[0]] + a[1..] && b == [b[0]] + b[1..];
      assert a <= b <==> a[1..] <= b[1..];
      ShiftDifference(a, b);
    } else if a != [] && b != [] {
      assert FirstDifference(a, b, 0);
    }
  }

  // ----- cycles, stuck sets and topological orders -----

  /** Following a waiting-for edge forever inside a finite set must come back. */
  lemma {:induction false} StuckWalk(nodes: set<string>, deps: Deps, waiting: set<string>, walk: seq<string>)
    requires Stuck(nodes, deps, waiting)
    requires |walk| >= 1 && Walk(nodes, deps, walk) && Elements(walk) <= waiting
    ensures HasCycle(nodes, deps)
    decreases waiting - Elements(walk)
  {
    var last := walk[|walk| - 1];
    assert last in Elements(walk);
    assert Waits(nodes, deps, waiting, last);
    var d :| d in waiting && DependsOn(nodes, deps, last, d);
    var longer := walk + [d];
    assert Walk(nodes, deps, longer);
    if d in walk {
      var k :| 0 <= k < |walk| && walk[k] == d;
      var loop := longer[k..];
      assert Cycle(nodes, deps, loop);
    } else {
      assert Elements(longer) == Elements(walk) + {d};
      assert d in waiting - Elements(walk);
      StuckWalk(nodes, deps, waiting, longer);
    }
  }

  lemma StuckHasCycle(nodes: set<string>, deps: Deps, waiting: set<string>)
    requires Stuck(nodes, deps, waiting) && waiting != {}
    ensures HasCycle(nodes, deps)
  {
    var s :| s in waiting;
    assert Elements([s]) == {s};
    StuckWalk(nodes, deps, waiting, [s]);
  }

  lemma CycleIsStuck(nodes: set<string>, deps: Deps, walk: seq<string>)
    requires Cycle(nodes, deps, walk)
    ensures Stuck(nodes, deps, Elements(walk))
  {
    forall s | s in Elements(walk)
      ensures Waits(nodes, deps, Elements(walk), s)
    {
      var k :| 0 <= k < |walk| && walk[k] == s;
      var n := if k + 1 < |walk| then k + 1 else 1;
      assert DependsOn(nodes, deps, s, walk[n]);
      assert walk[n] in Elements(walk);
    }
  }

  /** Nothing that waits in a stuck set appears in a sequence whose dependencies come first. */
  lemma {:induction false} StuckNeverPlaced(nodes: set<string>, deps: Deps, order: seq<string>,
                                            waiting: set<string>, n: nat)
    requires Stuck(nodes, deps, waiting)
    requires forall i :: 0 <= i < |order| ==> DepsWithin(nodes, deps, Elements(order[..i]), order[i])
    requires n <= |order|
    ensures Elements(order[..n]) !! waiting
  {
    if n > 0 {
      StuckNeverPlaced(nodes, deps, order, waiting, n - 1);
      var s := order[n - 1];
      assert DepsWithin(nodes, deps, Elements(order[..n - 1]), s);
      assert !Waits(nodes, deps, waiting, s);
      assert order[..n] == order[..n - 1] + [s];
    }
  }

  /** A finished set with a cycle has no topological order at all. */
  lemma CycleExcludesOrder(nodes: set<string>, deps: Deps, order: seq<string>)
    requires Topological(nodes, deps, order)
    ensures !HasCycle(nodes, deps)
  {
    if HasCycle(nodes, deps) {
      var walk :| Cycle(nodes, deps, walk);
      CycleIsStuck(nodes, deps, walk);
      assert walk[0] in Elements(order) && walk[0] in Elements(walk) && order[..|order|] == order;
      StuckNeverPlaced(nodes, deps, order, Elements(walk), |order|);
    }
  }

  // ----- the greedy order -----

  /** Each element is the least one ready when it is emitted. */
  ghost predicate Greedy(nodes: set<string>, deps: Deps, order: seq<string>) {
    forall i :: 0 <= i < |order| ==> GreedyAt(nodes, deps, Elements(order[..i]), order[i])
  }

  ghost predicate GreedyAt(nodes: set<string>, deps: Deps, done: set<string>, slug: string) {
    && Ready(nodes, deps, done, slug)
    && forall t :: Ready(nodes, deps, done, t) ==> StrLe(slug, t)
  }

  lemma GreedyExtends(nodes: set<string>, deps: Deps, order: seq<string>, slug: string)
    requires Greedy(nodes, deps, order) && GreedyAt(nodes, deps, Elements(order), slug)
    ensures Greedy(nodes, deps, order + [slug])
  {
    var longer := order + [slug];
    forall i | 0 <= i < |longer| ensures GreedyAt(nodes, deps, Elements(longer[..i]), longer[i]) {
      if i < |order| {
        assert longer[..i] == order[..i];
      } else {
        assert longer[..i] == order;
      }
    }
  }

  lemma GreedyNoDup(nodes: set<string>, deps: Deps, order: seq<string>)
    requires Greedy(nodes, deps, order)
    ensures NoDup(order) && Elements(order) <= nodes
  {
  }

  lemma GreedyIsTopological(nodes: set<string>, deps: Deps, order: seq<string>)
    requires Greedy(nodes, deps, order) && Elements(order) == nodes
    ensures Topological(nodes, deps, order)
  {
  }

  /** Where two orders first differ, the other order's choice was ready too. */
  lemma {:induction false} GreedyLeastFrom(nodes: set<string>, deps: Deps, order: seq<string>, other: seq<string>,
                                           k: nat)
    requires Greedy(nodes, deps, order) && Topological(nodes, deps, other)
    requires k <= |order| && k <= |other| && order[..k] == other[..k]
    requires |order| == |other|
    ensures ListLe(order[k..], other[k..])
    decreases |order| - k
  {
    if k < |order| {
      if order[k] == other[k] {
        assert order[..k + 1] == order[..k] + [order[k]] && other[..k + 1] == other[..k] + [other[k]];
        GreedyLeastFrom(nodes, deps, order, other, k + 1);
        assert order[k..][1..] == order[k + 1..] && other[k..][1..] == other[k + 1..];
      } else {
        NotYetPlaced(other, k);
        assert Ready(nodes, deps, Elements(order[..k]), other[k]);
        assert GreedyAt(nodes, deps, Elements(order[..k]), order[k]);
      }
    }
  }

  lemma NotYetPlaced(s: seq<string>, k: nat)
    requires NoDup(s) && k < |s|
    ensures s[k] !in Elements(s[..k])
  {
  }

  /** The greedy order is the lexicographically least topological order. */
  lemma GreedyIsLeast(nodes: set<string>, deps: Deps, order: seq<string>, other: seq<string>)
    requires Greedy(nodes, deps, order) && Topological(nodes, deps, order) && Topological(nodes, deps, other)
    ensures ListLe(order, other)
  {
    NoDupPermutation(order, other);
    SameElements(order, other);
    GreedyLeastFrom(nodes, deps, order, other, 0);
    assert order[0..] == order && other[0..] == other;
  }
}
