/** `_topo_sort` of scripts/merge_order.py: Kahn's algorithm with a sorted ready list. */
module Kahn {
  import opened Sorting
  import opened DependencyGraph

  /** The returned list, or the `ValueError` with its sorted list of plans left over. */
  datatype Outcome = Ordered(order: seq<string>) | CycleDetected(remaining: seq<string>)

  /** One in-set `depends_on` occurrence: `dep` must land before `slug`. */
  datatype Edge = Edge(dep: string, slug: string)

  // ----- counting edges -----

  /** How many occurrences still hold `slug` back once `done` has been emitted. */
  ghost function Pending(edges: seq<Edge>, slug: string, done: set<string>): nat {
    if edges == [] then 0 else
      var last := edges[|edges| - 1];
      Pending(edges[..|edges| - 1], slug, done) + (if last.slug == slug && last.dep !in done then 1 else 0)
  }

  /** The adjacency list of `dep`, in the order it was filled. */
  ghost function Dependents(edges: seq<Edge>, dep: string): seq<string> {
    if edges == [] then [] else
      var last := edges[|edges| - 1];
      Dependents(edges[..|edges| - 1], dep) + (if last.dep == dep then [last.slug] else [])
  }

  lemma SnocEdge(edges: seq<Edge>, e: Edge, s: string)
    ensures Pending(edges + [e], s, {}) == Pending(edges, s, {}) + (if e.slug == s then 1 else 0)
    ensures Dependents(edges + [e], s) == Dependents(edges, s) + (if e.dep == s then [e.slug] else [])
  {
  }

  lemma {:induction false} PendingZero(edges: seq<Edge>, slug: string, done: set<string>)
    ensures Pending(edges, slug, done) == 0 <==> forall e :: e in edges && e.slug == slug ==> e.dep in done
  {
    if edges != [] {
      var init, last := edges[..|edges| - 1], edges[|edges| - 1];
      assert edges == init + [last];
      PendingZero(init, slug, done);
    }
  }

  lemma {:induction false} PendingEmit(edges: seq<Edge>, slug: string, done: set<string>, node: string)
    requires node !in done
    ensures Pending(edges, slug, done)
         == Pending(edges, slug, done + {node}) + multiset(Dependents(edges, node))[slug]
  {
    if edges != [] {
      PendingEmit(edges[..|edges| - 1], slug, done, node);
    }
  }

  lemma {:induction false} DependentsMember(edges: seq<Edge>, dep: string, slug: string)
    requires slug in Dependents(edges, dep)
    ensures Edge(dep, slug) in edges
  {
    var init, last := edges[..|edges| - 1], edges[|edges| - 1];
    assert edges == init + [last];
    if slug in Dependents(init, dep) {
      DependentsMember(init, dep, slug);
    } else {
      assert last == Edge(dep, slug);
    }
  }

  /** The edges are exactly the in-set dependencies. */
  ghost predicate EdgesOf(edges: seq<Edge>, nodes: set<string>, deps: Deps) {
    forall e :: e in edges <==> DependsOn(nodes, deps, e.slug, e.dep)
  }

  lemma PendingZeroIsReady(edges: seq<Edge>, nodes: set<string>, deps: Deps, done: set<string>, slug: string)
    requires EdgesOf(edges, nodes, deps)
    ensures Pending(edges, slug, done) == 0 <==> DepsWithin(nodes, deps, done, slug)
  {
    PendingZero(edges, slug, done);
    if Pending(edges, slug, done) == 0 {
      forall d | DependsOn(nodes, deps, slug, d) ensures d in done {
        assert Edge(d, slug) in edges;
      }
    }
  }

  // ----- building the graph -----

  ghost predicate Tables(keys: seq<string>, edges: seq<Edge>, inDegree: map<string, int>,
                         dependents: map<string, seq<string>>) {
    && (forall s :: s in keys ==> s in inDegree && inDegree[s] == Pending(edges, s, {}))
    && (forall s :: s in keys ==> s in dependents && dependents[s] == Dependents(edges, s))
    && (forall s :: s in inDegree ==> s in keys)
  }

  /** Two dictionaries keyed by slug; `keys` is their insertion order. */
  method InitialTables(slugs: seq<string>)
    returns (keys: seq<string>, inDegree: map<string, int>, dependents: map<string, seq<string>>)
    ensures NoDup(keys) && Elements(keys) == Elements(slugs)
    ensures Tables(keys, [], inDegree, dependents)
  {
    keys, inDegree, dependents := [], map[], map[];
    for i := 0 to |slugs|
      invariant NoDup(keys) && Elements(keys) == Elements(slugs[..i])
      invariant Tables(keys, [], inDegree, dependents)
    {
      assert slugs[..i + 1] == slugs[..i] + [slugs[i]];
      if slugs[i] !in inDegree {
        assert Elements(keys + [slugs[i]]) == Elements(keys) + {slugs[i]};
        keys := keys + [slugs[i]];
      }
      inDegree := inDegree[slugs[i] := 0];
      dependents := dependents[slugs[i] := []];
    }
    assert slugs[..|slugs|] == slugs;
  }

  method AddEdge(keys: seq<string>, ghost edges: seq<Edge>, inDegree0: map<string, int>,
                 dependents0: map<string, seq<string>>, dep: string, slug: string)
    returns (inDegree: map<string, int>, dependents: map<string, seq<string>>)
    requires Tables(keys, edges, inDegree0, dependents0) && dep in inDegree0 && slug in inDegree0
    ensures Tables(keys, edges + [Edge(dep, slug)], inDegree, dependents)
  {
    dependents := dependents0[dep := dependents0[dep] + [slug]];
    inDegree := inDegree0[slug := inDegree0[slug] + 1];
    forall s | s in keys
      ensures inDegree[s] == Pending(edges + [Edge(dep, slug)], s, {})
      ensures dependents[s] == Dependents(edges + [Edge(dep, slug)], s)
    {
      SnocEdge(edges, Edge(dep, slug), s);
    }
  }

  /** The in-set occurrences in one plan's list. */
  ghost function EdgesInto(nodes: set<string>, slug: string, ds: seq<string>): seq<Edge> {
    if ds == [] then [] else
      var last := ds[|ds| - 1];
      EdgesInto(nodes, slug, ds[..|ds| - 1]) + (if last in nodes then [Edge(last, slug)] else [])
  }

  /** The occurrences in all lists, plan after plan. */
  ghost function EdgeList(nodes: set<string>, deps: Deps, slugs: seq<string>): seq<Edge> {
    if slugs == [] then [] else
      var last := slugs[|slugs| - 1];
      EdgeList(nodes, deps, slugs[..|slugs| - 1]) + EdgesInto(nodes, last, DepsOf(deps, last))
  }

  /** Each dependency is an edge as often as it is written, for each time its plan is listed. */
  ghost predicate EveryOccurrence(edges: seq<Edge>, deps: Deps, slugs: seq<string>) {
    forall d, s :: multiset(edges)[Edge(d, s)] ==
                   if d in slugs && s in deps then multiset(slugs)[s] * multiset(deps[s])[d] else 0
  }

  lemma {:induction false} CountInto(nodes: set<string>, slug: string, ds: seq<string>, d: string, s: string)
    ensures multiset(EdgesInto(nodes, slug, ds))[Edge(d, s)] ==
            if d in nodes && s == slug then multiset(ds)[d] else 0
  {
    if ds != [] {
      var init, last := ds[..|ds| - 1], ds[|ds| - 1];
      assert ds == init + [last];
      CountInto(nodes, slug, init, d, s);
    }
  }

  lemma {:induction false} CountEdges(nodes: set<string>, deps: Deps, slugs: seq<string>, d: string, s: string)
    ensures multiset(EdgeList(nodes, deps, slugs))[Edge(d, s)] ==
            if d in nodes then multiset(slugs)[s] * multiset(DepsOf(deps, s))[d] else 0
  {
    hide EdgesInto, DepsOf;
    if slugs != [] {
      var init, last := slugs[..|slugs| - 1], slugs[|slugs| - 1];
      CountEdges(nodes, deps, init, d, s);
      CountInto(nodes, last, DepsOf(deps, last), d, s);
      ConcatCount(EdgeList(nodes, deps, init), EdgesInto(nodes, last, DepsOf(deps, last)), Edge(d, s));
      SnocCount(slugs, s, multiset(DepsOf(deps, s))[d]);
    }
  }

  lemma ConcatCount<T>(a: seq<T>, b: seq<T>, x: T)
    ensures multiset(a + b)[x] == multiset(a)[x] + multiset(b)[x]
  {
  }

  lemma SnocCount(s: seq<string>, x: string, k: nat)
    requires s != []
    ensures multiset(s)[x] * k == multiset(s[..|s| - 1])[x] * k + (if x == s[|s| - 1] then k else 0)
  {
    var init, last := s[..|s| - 1], s[|s| - 1];
    assert s == init + [last];
    assert multiset(s)[x] == multiset(init)[x] + (if x == last then 1 else 0);
  }

  lemma KeysOfTables(keys: seq<string>, edges: seq<Edge>, inDegree: map<string, int>,
                     dependents: map<string, seq<string>>)
    requires Tables(keys, edges, inDegree, dependents)
    ensures forall s :: s in inDegree <==> s in Elements(keys)
  {
  }

  lemma EdgeSeen(nodes: set<string>, slug: string, ds: seq<string>, j: nat)
    requires j < |ds|
    ensures EdgesInto(nodes, slug, ds[..j + 1])
         == EdgesInto(nodes, slug, ds[..j]) + (if ds[j] in nodes then [Edge(ds[j], slug)] else [])
  {
    assert ds[..j + 1][..j] == ds[..j];
  }

  lemma SlugSeen(nodes: set<string>, deps: Deps, slugs: seq<string>, i: nat)
    requires i < |slugs|
    ensures EdgeList(nodes, deps, slugs[..i + 1])
         == EdgeList(nodes, deps, slugs[..i]) + EdgesInto(nodes, slugs[i], DepsOf(deps, slugs[i]))
  {
    assert slugs[..i + 1][..i] == slugs[..i];
  }

  lemma AllSeen(edges: seq<Edge>, deps: Deps, slugs: seq<string>)
    requires edges == EdgeList(Elements(slugs), deps, slugs)
    ensures EdgesOf(edges, Elements(slugs), deps) && EveryOccurrence(edges, deps, slugs)
  {
    forall d, s
      ensures multiset(edges)[Edge(d, s)] ==
              if d in slugs && s in deps then multiset(slugs)[s] * multiset(deps[s])[d] else 0
    {
      CountEdges(Elements(slugs), deps, slugs, d, s);
    }
    forall e ensures e in edges <==> DependsOn(Elements(slugs), deps, e.slug, e.dep) {
      EdgeIsDependency(edges, deps, slugs, e.dep, e.slug);
    }
  }

  lemma EdgeIsDependency(edges: seq<Edge>, deps: Deps, slugs: seq<string>, d: string, s: string)
    requires EveryOccurrence(edges, deps, slugs)
    ensures Edge(d, s) in edges <==> DependsOn(Elements(slugs), deps, s, d)
  {
    var n, k := multiset(slugs)[s], multiset(DepsOf(deps, s))[d];
    assert s in slugs <==> n > 0;
    assert d in DepsOf(deps, s) <==> k > 0;
    assert Edge(d, s) in edges <==> multiset(edges)[Edge(d, s)] > 0;
    if n > 0 && k > 0 {
      assert n * k > 0;
    }
  }

  method BuildGraph(slugs: seq<string>, deps: Deps)
    returns (keys: seq<string>, inDegree: map<string, int>, dependents: map<string, seq<string>>,
             ghost edges: seq<Edge>)
    ensures NoDup(keys) && Elements(keys) == Elements(slugs)
    ensures Tables(keys, edges, inDegree, dependents)
    ensures EdgesOf(edges, Elements(slugs), deps) && EveryOccurrence(edges, deps, slugs)
  {
    hide Tables, EdgesOf, EveryOccurrence, EdgeList, EdgesInto, NoDup;
    keys, inDegree, dependents := InitialTables(slugs);
    edges := [];
    ghost var nodes := Elements(slugs);
    NothingSeen(nodes, deps);
    for i := 0 to |slugs|
      invariant Tables(keys, edges, inDegree, dependents)
      invariant edges == EdgeList(nodes, deps, slugs[..i])
    {
      NoneSeen(nodes, slugs[i]);
      var ds := DepsOf(deps, slugs[i]);
      for j := 0 to |ds|
        invariant Tables(keys, edges, inDegree, dependents)
        invariant edges == EdgeList(nodes, deps, slugs[..i]) + EdgesInto(nodes, slugs[i], ds[..j])
      {
        EdgeSeen(nodes, slugs[i], ds, j);
        KeysOfTables(keys, edges, inDegree, dependents);
        if ds[j] in inDegree {
          assert slugs[i] in nodes;
          inDegree, dependents := AddEdge(keys, edges, inDegree, dependents, ds[j], slugs[i]);
          edges := edges + [Edge(ds[j], slugs[i])];
        }
      }
      assert ds[..|ds|] == ds;
      SlugSeen(nodes, deps, slugs, i);
    }
    assert slugs[..|slugs|] == slugs;
    AllSeen(edges, deps, slugs);
  }

  lemma NothingSeen(nodes: set<string>, deps: Deps)
    ensures EdgeList(nodes, deps, []) == []
  {
  }

  lemma NoneSeen(nodes: set<string>, slug: string)
    ensures EdgesInto(nodes, slug, []) == []
  {
  }

  // ----- the main loop -----

  /** Between two pops: in-degrees count what is not emitted yet, the queue is the sorted ready list. */
  ghost predicate Counts(nodes: set<string>, edges: seq<Edge>, inDegree: map<string, int>, done: set<string>,
                         rest: seq<string>) {
    && (forall s :: s in nodes ==> s in inDegree && inDegree[s] == Pending(edges, s, done) + multiset(rest)[s])
    && (forall s :: s in done ==> s in nodes && inDegree[s] == 0)
  }

  ghost predicate QueueOk(nodes: set<string>, inDegree: map<string, int>, done: set<string>, queue: seq<string>)
    requires forall s :: s in nodes ==> s in inDegree
  {
    && NoDup(queue) && SortedBy(queue, STRING_ORDER)
    && forall s :: s in queue <==> s in nodes && s !in done && inDegree[s] == 0
  }

  /** `queue.append(slug); queue.sort()`. */
  function Enqueue(queue: seq<string>, slug: string): (r: seq<string>)
  {
    Sort(queue + [slug], STRING_ORDER)
  }

  lemma EnqueueOk(queue: seq<string>, slug: string)
    requires NoDup(queue) && slug !in queue
    ensures NoDup(Enqueue(queue, slug)) && SortedBy(Enqueue(queue, slug), STRING_ORDER)
    ensures forall s :: s in Enqueue(queue, slug) <==> s in queue || s == slug
  {
    StringOrder();
    SortSorted(queue + [slug], STRING_ORDER);
    PermutationNoDup(queue + [slug], Enqueue(queue, slug));
    SameElements(queue + [slug], Enqueue(queue, slug));
  }

  /** The inner loop: one decrement for each occurrence of the emitted node. */
  method Release(ghost nodes: set<string>, ghost edges: seq<Edge>, ghost done: set<string>,
                 released: seq<string>, inDegree0: map<string, int>, queue0: seq<string>)
    returns (inDegree: map<string, int>, queue: seq<string>)
    requires Counts(nodes, edges, inDegree0, done, released)
    requires QueueOk(nodes, inDegree0, done, queue0)
    requires forall s :: s in released ==> s in nodes
    ensures Counts(nodes, edges, inDegree, done, [])
    ensures QueueOk(nodes, inDegree, done, queue)
  {
    inDegree, queue := inDegree0, queue0;
    assert released[0..] == released;
    for k := 0 to |released|
      invariant Counts(nodes, edges, inDegree, done, released[k..])
      invariant QueueOk(nodes, inDegree, done, queue)
    {
      var s := released[k];
      assert s in nodes;
      assert released[k..] == [s] + released[k + 1..];
      assert multiset(released[k..]) == multiset{s} + multiset(released[k + 1..]);
      assert inDegree[s] >= 1;
      inDegree := inDegree[s := inDegree[s] - 1];
      if inDegree[s] == 0 {
        EnqueueOk(queue, s);
        queue := Enqueue(queue, s);
      }
    }
    assert released[|released|..] == [];
  }

  lemma PopHead(queue: seq<string>)
    requires |queue| > 0 && NoDup(queue) && SortedBy(queue, STRING_ORDER)
    ensures NoDup(queue[1..]) && SortedBy(queue[1..], STRING_ORDER)
    ensures forall s :: s in queue[1..] <==> s in queue && s != queue[0]
    ensures forall s :: s in queue ==> StrLe(queue[0], s)
  {
    StringOrder();
    assert queue == [queue[0]] + queue[1..];
    forall s | s in queue ensures StrLe(queue[0], s) {
      var i :| 0 <= i < |queue| && queue[i] == s;
      assert i > 0 ==> STRING_ORDER(queue[0], queue[i]);
      StrLeTotal(s, s);
    }
  }

  /** Emitting the queue's head turns "pending after `done`" into "pending after one more", plus
      the head's adjacency list still to be worked off. */
  lemma EmitHead(nodes: set<string>, edges: seq<Edge>, deps: Deps, inDegree: map<string, int>, done: set<string>,
                 node: string)
    requires EdgesOf(edges, nodes, deps) && Counts(nodes, edges, inDegree, done, [])
    requires node in nodes && node !in done && inDegree[node] == 0
    ensures Counts(nodes, edges, inDegree, done + {node}, Dependents(edges, node))
    ensures forall s :: s in Dependents(edges, node) ==> s in nodes
  {
    forall s | s in nodes
      ensures inDegree[s] == Pending(edges, s, done + {node}) + multiset(Dependents(edges, node))[s]
    {
      PendingEmit(edges, s, done, node);
    }
    forall s | s in Dependents(edges, node) ensures s in nodes {
      DependentsMember(edges, node, s);
      assert DependsOn(nodes, deps, s, node);
    }
  }

  /** The head of the queue is the least ready plan. */
  lemma HeadIsGreedy(nodes: set<string>, edges: seq<Edge>, deps: Deps, inDegree: map<string, int>,
                     result: seq<string>, queue: seq<string>)
    requires EdgesOf(edges, nodes, deps) && Counts(nodes, edges, inDegree, Elements(result), [])
    requires QueueOk(nodes, inDegree, Elements(result), queue) && |queue| > 0
    requires Greedy(nodes, deps, result)
    ensures Greedy(nodes, deps, result + [queue[0]])
  {
    PopHead(queue);
    assert queue[0] in queue;
    forall s | s in nodes ensures inDegree[s] == 0 <==> DepsWithin(nodes, deps, Elements(result), s) {
      PendingZeroIsReady(edges, nodes, deps, Elements(result), s);
    }
    assert GreedyAt(nodes, deps, Elements(result), queue[0]);
    GreedyExtends(nodes, deps, result, queue[0]);
  }

  /** When the queue runs dry, what is left over is the largest set of plans waiting on each other. */
  lemma LeftoverIsStuck(nodes: set<string>, edges: seq<Edge>, deps: Deps, inDegree: map<string, int>,
                        result: seq<string>)
    requires EdgesOf(edges, nodes, deps) && Counts(nodes, edges, inDegree, Elements(result), [])
    requires QueueOk(nodes, inDegree, Elements(result), [])
    requires Greedy(nodes, deps, result)
    ensures LargestStuck(nodes, deps, nodes - Elements(result))
  {
    var left := nodes - Elements(result);
    forall s | s in left ensures Waits(nodes, deps, left, s) {
      assert s !in [];
      assert inDegree[s] != 0;
      PendingZeroIsReady(edges, nodes, deps, Elements(result), s);
      var d :| DependsOn(nodes, deps, s, d) && d !in Elements(result);
      assert d in left;
    }
    forall waiting | Stuck(nodes, deps, waiting) ensures waiting <= left {
      forall i | 0 <= i < |result| ensures DepsWithin(nodes, deps, Elements(result[..i]), result[i]) {
        assert GreedyAt(nodes, deps, Elements(result[..i]), result[i]);
      }
      StuckNeverPlaced(nodes, deps, result, waiting, |result|);
      assert result[..|result|] == result;
    }
  }

  ghost predicate LargestStuck(nodes: set<string>, deps: Deps, left: set<string>) {
    Stuck(nodes, deps, left) && forall waiting :: Stuck(nodes, deps, waiting) ==> waiting <= left
  }

  /** `sorted(set(slugs) - set(result))`. */
  function Remaining(keys: seq<string>, result: seq<string>): seq<string> {
    Sort(Without(keys, result), STRING_ORDER)
  }

  function Without(s: seq<string>, gone: seq<string>): seq<string> {
    if s == [] then [] else (if s[0] in gone then [] else [s[0]]) + Without(s[1..], gone)
  }

  lemma {:induction false} WithoutElements(s: seq<string>, gone: seq<string>)
    ensures forall x :: x in Without(s, gone) <==> x in s && x !in gone
  {
    if s != [] {
      WithoutElements(s[1..], gone);
      assert s == [s[0]] + s[1..];
    }
  }

  lemma RemainingElements(keys: seq<string>, result: seq<string>)
    ensures Elements(Remaining(keys, result)) == Elements(keys) - Elements(result)
    ensures SortedBy(Remaining(keys, result), STRING_ORDER)
  {
    WithoutElements(keys, result);
    SameElements(Without(keys, result), Remaining(keys, result));
    StringOrder();
    SortSorted(Without(keys, result), STRING_ORDER);
  }

  /** `sorted(s for s, deg in in_degree.items() if deg == 0)`. */
  method ReadyAtStart(keys: seq<string>, inDegree: map<string, int>) returns (queue: seq<string>)
    requires NoDup(keys) && forall s :: s in keys <==> s in inDegree
    ensures NoDup(queue) && SortedBy(queue, STRING_ORDER)
    ensures forall s :: s in queue <==> s in inDegree && inDegree[s] == 0
  {
    var ready := [];
    for i := 0 to |keys|
      invariant NoDup(ready)
      invariant forall s :: s in ready <==> s in keys[..i] && inDegree[s] == 0
    {
      assert keys[..i + 1] == keys[..i] + [keys[i]];
      if inDegree[keys[i]] == 0 {
        assert keys[i] !in keys[..i];
        ready := ready + [keys[i]];
      }
    }
    assert keys[..|keys|] == keys;
    queue := Sort(ready, STRING_ORDER);
    StringOrder();
    SortSorted(ready, STRING_ORDER);
    PermutationNoDup(ready, queue);
    SameElements(ready, queue);
  }

  /** The length test at the end of the loop: everything was emitted and nothing was repeated. */
  lemma FullLength(slugs: seq<string>, deps: Deps, result: seq<string>)
    requires Greedy(Elements(slugs), deps, result)
    ensures |result| == |slugs| <==> NoDup(slugs) && Elements(result) == Elements(slugs)
  {
    GreedyNoDup(Elements(slugs), deps, result);
    DistinctCount(slugs);
    DistinctCount(result);
    if Elements(result) != Elements(slugs) {
      ProperSubsetSmaller(Elements(result), Elements(slugs));
    }
  }

  /** Everything is emitted exactly when there is no cycle. */
  lemma EmittedAllIffAcyclic(nodes: set<string>, deps: Deps, result: seq<string>)
    requires Greedy(nodes, deps, result) && Stuck(nodes, deps, nodes - Elements(result))
    ensures Elements(result) == nodes <==> !HasCycle(nodes, deps)
  {
    GreedyNoDup(nodes, deps, result);
    if Elements(result) == nodes {
      GreedyIsTopological(nodes, deps, result);
      CycleExcludesOrder(nodes, deps, result);
    } else {
      ProperSubsetSmaller(Elements(result), nodes);
      StuckHasCycle(nodes, deps, nodes - Elements(result));
    }
  }

  lemma LeastOfAll(nodes: set<string>, deps: Deps, result: seq<string>)
    requires Greedy(nodes, deps, result) && Elements(result) == nodes
    ensures Topological(nodes, deps, result)
    ensures forall other :: Topological(nodes, deps, other) ==> ListLe(result, other)
  {
    GreedyIsTopological(nodes, deps, result);
    forall other | Topological(nodes, deps, other) ensures ListLe(result, other) {
      GreedyIsLeast(nodes, deps, result, other);
    }
  }

  /** The invariant of the main loop. */
  ghost predicate Loop(nodes: set<string>, edges: seq<Edge>, deps: Deps, inDegree: map<string, int>,
                       result: seq<string>, queue: seq<string>) {
    && EdgesOf(edges, nodes, deps)
    && Counts(nodes, edges, inDegree, Elements(result), [])
    && QueueOk(nodes, inDegree, Elements(result), queue)
    && Greedy(nodes, deps, result)
  }

  lemma StartOk(keys: seq<string>, edges: seq<Edge>, deps: Deps, inDegree: map<string, int>,
                dependents: map<string, seq<string>>, queue: seq<string>)
    requires Tables(keys, edges, inDegree, dependents) && NoDup(queue) && SortedBy(queue, STRING_ORDER)
    requires forall s :: s in queue <==> s in inDegree && inDegree[s] == 0
    requires EdgesOf(edges, Elements(keys), deps)
    ensures Loop(Elements(keys), edges, deps, inDegree, [], queue)
    ensures forall s :: s in Elements(keys) ==> s in dependents && dependents[s] == Dependents(edges, s)
  {
    hide NoDup, SortedBy, Pending, EdgesOf;
    assert Elements<string>([]) == {};
  }

  lemma LoopStep(nodes: set<string>, edges: seq<Edge>, deps: Deps, inDegree: map<string, int>, result: seq<string>,
                 queue: seq<string>)
    requires Loop(nodes, edges, deps, inDegree, result, queue) && |queue| > 0
    ensures var done := Elements(result + [queue[0]]);
            && queue[0] in nodes && queue[0] !in Elements(result) && done == Elements(result) + {queue[0]}
            && Counts(nodes, edges, inDegree, done, Dependents(edges, queue[0]))
            && QueueOk(nodes, inDegree, done, queue[1..])
            && Greedy(nodes, deps, result + [queue[0]])
            && forall s :: s in Dependents(edges, queue[0]) ==> s in nodes
  {
    hide Greedy, EdgesOf, NoDup, SortedBy, Pending, Dependents;
    HeadIsGreedy(nodes, edges, deps, inDegree, result, queue);
    PopHead(queue);
    assert queue[0] in queue;
    EmitHead(nodes, edges, deps, inDegree, Elements(result), queue[0]);
    assert Elements(result + [queue[0]]) == Elements(result) + {queue[0]};
  }

  lemma ReleasedOk(nodes: set<string>, edges: seq<Edge>, inDegree: map<string, int>, done: set<string>,
                   adjacent: seq<string>, released: seq<string>)
    requires Counts(nodes, edges, inDegree, done, adjacent) && multiset(released) == multiset(adjacent)
    requires forall s :: s in adjacent ==> s in nodes
    ensures Counts(nodes, edges, inDegree, done, released) && forall s :: s in released ==> s in nodes
  {
    hide Pending;
    SameElements(adjacent, released);
  }

  lemma LoopAgain(nodes: set<string>, edges: seq<Edge>, deps: Deps, inDegree: map<string, int>, result: seq<string>,
                  queue: seq<string>)
    requires EdgesOf(edges, nodes, deps) && Counts(nodes, edges, inDegree, Elements(result), [])
    requires QueueOk(nodes, inDegree, Elements(result), queue) && Greedy(nodes, deps, result)
    ensures Loop(nodes, edges, deps, inDegree, result, queue)
  {
  }

  lemma LoopDone(nodes: set<string>, edges: seq<Edge>, deps: Deps, inDegree: map<string, int>, result: seq<string>)
    requires Loop(nodes, edges, deps, inDegree, result, [])
    ensures Greedy(nodes, deps, result)
    ensures LargestStuck(nodes, deps, nodes - Elements(result)) && Stuck(nodes, deps, nodes - Elements(result))
  {
    hide Greedy, EdgesOf, Counts, QueueOk;
    LeftoverIsStuck(nodes, edges, deps, inDegree, result);
  }

  /** Kahn's algorithm. It returns exactly when the slugs are distinct and their dependencies are
      acyclic, and then returns the least topological order; otherwise it names the largest set of
      plans none of which can be emitted. */
  method TopoSort(slugs: seq<string>, deps: Deps) returns (r: Outcome)
    ensures r.Ordered? <==> NoDup(slugs) && !HasCycle(Elements(slugs), deps)
    ensures r.Ordered? ==> Topological(Elements(slugs), deps, r.order)
    ensures r.Ordered? ==> forall other :: Topological(Elements(slugs), deps, other) ==> ListLe(r.order, other)
    ensures r.CycleDetected? ==>
      LargestStuck(Elements(slugs), deps, Elements(r.remaining)) && SortedBy(r.remaining, STRING_ORDER)
  {
    hide Tables, EdgesOf, Counts, QueueOk, Greedy, NoDup, HasCycle, Topological, LargestStuck, Stuck, ListLe,
         SortedBy, Sort;
    var keys, inDegree, dependents;
    ghost var edges;
    keys, inDegree, dependents, edges := BuildGraph(slugs, deps);
    ghost var nodes := Elements(slugs);
    KeysOfTables(keys, edges, inDegree, dependents);
    var queue := ReadyAtStart(keys, inDegree);
    StartOk(keys, edges, deps, inDegree, dependents, queue);
    var result := [];
    while |queue| > 0
      invariant Loop(nodes, edges, deps, inDegree, result, queue)
      decreases nodes - Elements(result)
    {
      var node := queue[0];
      LoopStep(nodes, edges, deps, inDegree, result, queue);
      result := result + [node];
      var released := Sort(dependents[node], STRING_ORDER);
      ReleasedOk(nodes, edges, inDegree, Elements(result), dependents[node], released);
      inDegree, queue := Release(nodes, edges, Elements(result), released, inDegree, queue[1..]);
      LoopAgain(nodes, edges, deps, inDegree, result, queue);
    }
    assert queue == [];
    LoopDone(nodes, edges, deps, inDegree, result);
    FullLength(slugs, deps, result);
    EmittedAllIffAcyclic(nodes, deps, result);
    if |result| != |slugs| {
      RemainingElements(keys, result);
      return CycleDetected(Remaining(keys, result));
    }
    LeastOfAll(nodes, deps, result);
    return Ordered(result);
  }
}
