/** What the traversal guarantees. For every well-formed arena: the output holds each starting
    node, plus each node whose counter reached its number of parents, and nothing else. When the
    links are consistent and the traversal starts from distinct parentless nodes: no node is
    emitted twice and every node comes after all of its parents. When moreover the graph is
    acyclic and every parentless node is a starting node: every node is emitted exactly once. */
module TraversalProps {
  import opened Common
  import opened Arena
  import opened Traversal

  /** How many times the child lists of the nodes in `order` name `c`. */
  ghost function Arrivals<T>(nodes: seq<Node<T>>, order: seq<nat>, c: nat): nat
    requires IdsBelow(order, |nodes|)
  {
    if order == [] then 0
    else Arrivals(nodes, order[..|order| - 1], c) + Occ(nodes[order[|order| - 1]].children, c)
  }

  /** Invariant of every run: each counter counts the child edges of the emitted nodes that name
      it, and the emitted and learnable nodes together are the starting nodes plus the pushed ids. */
  ghost predicate Accounted<T>(nodes: seq<Node<T>>, init: seq<nat>, w: Walk)
  {
    && IdsBelow(w.order, |nodes|)
    && (forall c :: 0 <= c < |nodes| ==> Count(w.learned, c) == Arrivals(nodes, w.order, c))
    && multiset(w.order) + multiset(w.frontier) == multiset(init) + multiset(Pushed(nodes, w.learned))
  }

  lemma MultisetCancel(a: multiset<nat>, b: multiset<nat>, x: multiset<nat>)
    requires a + x == b + x
    ensures a == b
  {
    forall e ensures a[e] == b[e] {
      assert (a + x)[e] == (b + x)[e];
    }
  }

  lemma AccountedAtStart<T>(nodes: seq<Node<T>>, roots: seq<nat>)
    ensures Accounted(nodes, roots, Walk(roots, map[], []))
  {
    assert Pushed(nodes, map[]) == {};
  }

  lemma StepAccounted<T>(nodes: seq<Node<T>>, cmp: (nat, nat) -> Ordering, init: seq<nat>, w: Walk)
    requires WellFormed(nodes) && IdsBelow(w.frontier, |nodes|) && w.frontier != []
    requires Accounted(nodes, init, w)
    ensures Accounted(nodes, init, Step(nodes, cmp, w))
  {
    var p := Pick(cmp, w.frontier);
    assert p.0 in multiset(w.frontier);
    var kids := nodes[p.0].children;
    ArriveCounts(nodes, kids, p.1, w.learned);
    ArrivePushes(nodes, kids, p.1, w.learned);
    var r := Step(nodes, cmp, w);
    assert r.order == w.order + [p.0];
    assert r.order[..|r.order| - 1] == w.order;
    forall c | 0 <= c < |nodes| ensures Count(r.learned, c) == Arrivals(nodes, r.order, c) {
    }
    var before := multiset(Pushed(nodes, w.learned));
    var after := multiset(Pushed(nodes, r.learned));
    calc {
      multiset(r.order) + multiset(r.frontier) + before;
      multiset(w.order) + multiset{p.0} + (multiset(r.frontier) + before);
      multiset(w.order) + multiset{p.0} + (multiset(p.1) + after);
      multiset(w.order) + multiset(w.frontier) + after;
      multiset(init) + after + before;
    }
    MultisetCancel(multiset(r.order) + multiset(r.frontier), multiset(init) + after, before);
  }

  lemma {:induction false} RunAccounted<T>(nodes: seq<Node<T>>, cmp: (nat, nat) -> Ordering, init: seq<nat>, w: Walk)
    requires WellFormed(nodes) && IdsBelow(w.frontier, |nodes|)
    requires Accounted(nodes, init, w)
    ensures Accounted(nodes, init, Run(nodes, cmp, w))
    decreases Measure(nodes, w)
  {
    if w.frontier != [] {
      StepAccounted(nodes, cmp, init, w);
      RunAccounted(nodes, cmp, init, Step(nodes, cmp, w));
    }
  }

  /** The exact contents of the visiting order on any well-formed arena: every starting entry,
      plus, once each, the nodes with parents whose child-edge arrivals from the emitted nodes
      reached their parent count. A node the counters never bring up to its parent count is left
      out without any error. */
  lemma SortOrderContents<T>(nodes: seq<Node<T>>, cmp: (nat, nat) -> Ordering, roots: seq<nat>)
    requires WellFormed(nodes) && IdsBelow(roots, |nodes|)
    ensures var order := SortOrder(nodes, cmp, roots);
      && IdsBelow(order, |nodes|)
      && multiset(order) == multiset(roots) + multiset(set c | 0 <= c < |nodes| &&
           0 < |nodes[c].parents| <= Arrivals(nodes, order, c))
  {
    var w0 := Walk(roots, map[], []);
    AccountedAtStart(nodes, roots);
    RunAccounted(nodes, cmp, roots, w0);
    var r := Run(nodes, cmp, w0);
    PushedAreReached(nodes, r.learned, r.order);
  }

  lemma PushedAreReached<T>(nodes: seq<Node<T>>, l: map<nat, nat>, order: seq<nat>)
    requires IdsBelow(order, |nodes|)
    requires forall c :: 0 <= c < |nodes| ==> Count(l, c) == Arrivals(nodes, order, c)
    ensures Pushed(nodes, l) ==
      set c | 0 <= c < |nodes| && 0 < |nodes[c].parents| <= Arrivals(nodes, order, c)
  {
  }

  /** Silent omission: a node that does not start on the frontier and whose parent count is not
      met by the child edges of the emitted nodes never appears in the output. */
  lemma UnderLinkedNodeOmitted<T>(nodes: seq<Node<T>>, cmp: (nat, nat) -> Ordering, roots: seq<nat>, c: nat)
    requires WellFormed(nodes) && IdsBelow(roots, |nodes|)
    requires c < |nodes| && c !in roots
    requires Arrivals(nodes, SortOrder(nodes, cmp, roots), c) < |nodes[c].parents|
    ensures c !in SortOrder(nodes, cmp, roots)
  {
    SortOrderContents(nodes, cmp, roots);
    var order := SortOrder(nodes, cmp, roots);
    assert Occ(order, c) == 0;
  }

  /** A parentless node is never pushed by a counter: it is emitted exactly as often as it starts
      on the frontier. */
  lemma ParentlessEmittedAsStarted<T>(nodes: seq<Node<T>>, cmp: (nat, nat) -> Ordering, roots: seq<nat>, c: nat)
    requires WellFormed(nodes) && IdsBelow(roots, |nodes|)
    requires c < |nodes| && nodes[c].parents == []
    ensures Occ(SortOrder(nodes, cmp, roots), c) == Occ(roots, c)
  {
    SortOrderContents(nodes, cmp, roots);
  }

  // ---------------------------------------------------------------------------------------
  // Consistent links, starting from distinct parentless nodes.

  /** How many entries of `ps` lie in `done`. */
  ghost function CountIn(ps: seq<nat>, done: set<nat>): nat
  {
    if ps == [] then 0
    else CountIn(ps[..|ps| - 1], done) + (if ps[|ps| - 1] in done then 1 else 0)
  }

  lemma {:induction false} CountInAdd(ps: seq<nat>, done: set<nat>, x: nat)
    requires x !in done
    ensures CountIn(ps, done + {x}) == CountIn(ps, done) + Occ(ps, x)
  {
    if ps != [] {
      var front := ps[..|ps| - 1];
      assert ps == front + [ps[|ps| - 1]];
      CountInAdd(front, done, x);
    }
  }

  lemma {:induction false} CountInFull(ps: seq<nat>, done: set<nat>)
    ensures CountIn(ps, done) <= |ps|
    ensures CountIn(ps, done) == |ps| <==> forall p :: p in ps ==> p in done
  {
    if ps != [] {
      var front := ps[..|ps| - 1];
      assert ps == front + [ps[|ps| - 1]];
      CountInFull(front, done);
    }
  }

  ghost function Emitted(w: Walk): set<nat>
  {
    set x | x in w.order
  }

  /** Invariant of a run on consistent links: each counter counts the parent entries already
      emitted; every emitted node follows its parents; every learnable node has all its parents
      emitted. */
  ghost predicate Ready<T>(nodes: seq<Node<T>>, w: Walk)
  {
    && IdsBelow(w.order, |nodes|)
    && IdsBelow(w.frontier, |nodes|)
    && CountsEmitted(nodes, w)
    && ParentsBefore(nodes, w)
    && FrontierParentsEmitted(nodes, w)
  }

  /** Each counter counts the parent entries already emitted. */
  ghost predicate CountsEmitted<T>(nodes: seq<Node<T>>, w: Walk)
  {
    forall c :: 0 <= c < |nodes| ==> Count(w.learned, c) == CountIn(nodes[c].parents, Emitted(w))
  }

  /** Every emitted node comes after each of its parents. */
  ghost predicate ParentsBefore<T>(nodes: seq<Node<T>>, w: Walk)
  {
    && IdsBelow(w.order, |nodes|)
    && forall j, p :: 0 <= j < |w.order| && p in nodes[w.order[j]].parents ==> p in w.order[..j]
  }

  /** Every learnable node has all its parents emitted. */
  ghost predicate FrontierParentsEmitted<T>(nodes: seq<Node<T>>, w: Walk)
  {
    && IdsBelow(w.frontier, |nodes|)
    && forall k, p :: 0 <= k < |w.frontier| && p in nodes[w.frontier[k]].parents ==> p in w.order
  }

  /** The traversal starts from distinct parentless nodes (what `parse_characters` hands it). */
  ghost predicate RootsOnly<T>(nodes: seq<Node<T>>, roots: seq<nat>)
  {
    && (forall i, j :: 0 <= i < j < |roots| ==> roots[i] != roots[j])
    && (forall k :: 0 <= k < |roots| ==> roots[k] < |nodes| && nodes[roots[k]].parents == [])
  }

  lemma {:induction false} DistinctOcc(s: seq<nat>, x: nat)
    requires forall i, j :: 0 <= i < j < |s| ==> s[i] != s[j]
    ensures Occ(s, x) <= 1
  {
    if s != [] {
      var front := s[..|s| - 1];
      assert s == front + [s[|s| - 1]];
      DistinctOcc(front, x);
      if s[|s| - 1] == x {
        assert x !in front;
      }
    }
  }

  lemma OccTwice(s: seq<nat>, i: nat, j: nat)
    requires i < j < |s|
    ensures s[i] == s[j] ==> Occ(s, s[i]) >= 2
  {
    assert s == s[..i] + [s[i]] + s[i + 1..j] + [s[j]] + s[j + 1..];
  }

  lemma OccDistinct(s: seq<nat>)
    requires forall x :: Occ(s, x) <= 1
    ensures forall i, j :: 0 <= i < j < |s| ==> s[i] != s[j]
  {
    forall i, j | 0 <= i < j < |s| ensures s[i] != s[j] {
      OccTwice(s, i, j);
    }
  }

  /** Starting from distinct parentless nodes, no id is on the frontier or in the order twice. */
  lemma AtMostOnce<T>(nodes: seq<Node<T>>, init: seq<nat>, w: Walk, x: nat)
    requires Accounted(nodes, init, w) && RootsOnly(nodes, init)
    ensures Occ(w.order, x) + Occ(w.frontier, x) <= 1
  {
    DistinctOcc(init, x);
    if x in init {
      var k :| 0 <= k < |init| && init[k] == x;
      assert x !in Pushed(nodes, w.learned);
    }
    assert (multiset(w.order) + multiset(w.frontier))[x] == (multiset(init) + multiset(Pushed(nodes, w.learned)))[x];
  }

  lemma ReadyAtStart<T>(nodes: seq<Node<T>>, roots: seq<nat>)
    requires RootsOnly(nodes, roots)
    ensures Ready(nodes, Walk(roots, map[], []))
  {
    var w := Walk(roots, map[], []);
    assert Emitted(w) == {};
    forall c | 0 <= c < |nodes| ensures Count(w.learned, c) == CountIn(nodes[c].parents, Emitted(w)) {
      CountInNone(nodes[c].parents);
    }
  }

  lemma {:induction false} CountInNone(ps: seq<nat>)
    ensures CountIn(ps, {}) == 0
  {
    if ps != [] {
      CountInNone(ps[..|ps| - 1]);
    }
  }

  /** One round keeps each counter equal to the number of parent entries already emitted. */
  lemma CountsAfterRound<T>(nodes: seq<Node<T>>, done: set<nat>, l: map<nat, nat>, l': map<nat, nat>, next: nat)
    requires WellFormed(nodes) && Consistent(nodes) && next < |nodes| && next !in done
    requires forall c :: 0 <= c < |nodes| ==> Count(l, c) == CountIn(nodes[c].parents, done)
    requires forall d :: Count(l', d) == Count(l, d) + Occ(nodes[next].children, d)
    ensures forall c :: 0 <= c < |nodes| ==> Count(l', c) == CountIn(nodes[c].parents, done + {next})
  {
    forall c | 0 <= c < |nodes|
      ensures Count(l', c) == CountIn(nodes[c].parents, done + {next})
    {
      CountInAdd(nodes[c].parents, done, next);
    }
  }

  /** The node a round takes off the frontier has not been emitted before. */
  lemma FrontierNotEmitted<T>(nodes: seq<Node<T>>, init: seq<nat>, w: Walk, x: nat)
    requires Accounted(nodes, init, w) && RootsOnly(nodes, init) && x in w.frontier
    ensures x !in Emitted(w)
  {
    AtMostOnce(nodes, init, w, x);
    assert x in multiset(w.frontier);
  }

  /** A round adds one node to the emitted set and the child edges of that node to the
      counters. */
  lemma StepEmits<T>(nodes: seq<Node<T>>, cmp: (nat, nat) -> Ordering, w: Walk) returns (next: nat)
    requires WellFormed(nodes) && IdsBelow(w.frontier, |nodes|) && w.frontier != []
    ensures next < |nodes| && next in w.frontier
    ensures Emitted(Step(nodes, cmp, w)) == Emitted(w) + {next}
    ensures forall d :: Count(Step(nodes, cmp, w).learned, d) == Count(w.learned, d) + Occ(nodes[next].children, d)
  {
    var rest;
    next, rest := StepParts(nodes, cmp, w);
    ArriveCounts(nodes, nodes[next].children, rest, w.learned);
    EmittedSnoc(w, Step(nodes, cmp, w), next);
  }

  lemma EmittedSnoc(w: Walk, w': Walk, x: nat)
    requires w'.order == w.order + [x]
    ensures Emitted(w') == Emitted(w) + {x}
  {
    forall y ensures y in Emitted(w') <==> y in Emitted(w) + {x} {
      assert y in w'.order <==> y in w.order || y == x;
    }
  }

  lemma StepReadyCounts<T>(nodes: seq<Node<T>>, cmp: (nat, nat) -> Ordering, init: seq<nat>, w: Walk)
    requires WellFormed(nodes) && Consistent(nodes) && RootsOnly(nodes, init)
    requires w.frontier != [] && IdsBelow(w.frontier, |nodes|) && Accounted(nodes, init, w)
    requires CountsEmitted(nodes, w)
    ensures CountsEmitted(nodes, Step(nodes, cmp, w))
  {
    var next := StepEmits(nodes, cmp, w);
    FrontierNotEmitted(nodes, init, w, next);
    CountsAfterRound(nodes, Emitted(w), w.learned, Step(nodes, cmp, w).learned, next);
  }

  lemma StepReadyOrder<T>(nodes: seq<Node<T>>, cmp: (nat, nat) -> Ordering, w: Walk)
    requires WellFormed(nodes) && w.frontier != []
    requires ParentsBefore(nodes, w) && FrontierParentsEmitted(nodes, w)
    ensures ParentsBefore(nodes, Step(nodes, cmp, w))
  {
    var next, rest := StepParts(nodes, cmp, w);
    var r := Step(nodes, cmp, w);
    forall j, q | 0 <= j < |r.order| && q in nodes[r.order[j]].parents
      ensures q in r.order[..j]
    {
      if j < |w.order| {
        assert r.order[j] == w.order[j] && r.order[..j] == w.order[..j];
      } else {
        assert r.order[j] == next && r.order[..j] == w.order;
        var k :| 0 <= k < |w.frontier| && w.frontier[k] == next;
      }
    }
  }

  lemma StepReadyFrontier<T>(nodes: seq<Node<T>>, cmp: (nat, nat) -> Ordering, w: Walk)
    requires WellFormed(nodes) && Consistent(nodes) && w.frontier != []
    requires FrontierParentsEmitted(nodes, w) && CountsEmitted(nodes, Step(nodes, cmp, w))
    ensures FrontierParentsEmitted(nodes, Step(nodes, cmp, w))
  {
    var next, rest := StepParts(nodes, cmp, w);
    var kids := nodes[next].children;
    ArriveKeepsFrontier(nodes, kids, rest, w.learned);
    ArriveAppendsPushed(nodes, kids, rest, w.learned);
    var r := Step(nodes, cmp, w);
    forall k, q | 0 <= k < |r.frontier| && q in nodes[r.frontier[k]].parents
      ensures q in r.order
    {
      var x := r.frontier[k];
      if k < |rest| {
        assert x == r.frontier[..|rest|][k] == rest[k];
        assert x in multiset(w.frontier);
        var k' :| 0 <= k' < |w.frontier| && w.frontier[k'] == x;
        assert q in w.order;
      } else {
        assert x in Pushed(nodes, r.learned);
        CountInFull(nodes[x].parents, Emitted(r));
        assert q in Emitted(r);
      }
    }
  }

  lemma StepReady<T>(nodes: seq<Node<T>>, cmp: (nat, nat) -> Ordering, init: seq<nat>, w: Walk)
    requires WellFormed(nodes) && Consistent(nodes) && RootsOnly(nodes, init)
    requires w.frontier != [] && Accounted(nodes, init, w) && Ready(nodes, w)
    ensures Ready(nodes, Step(nodes, cmp, w))
  {
    StepReadyCounts(nodes, cmp, init, w);
    StepReadyOrder(nodes, cmp, w);
    StepReadyFrontier(nodes, cmp, w);
  }

  lemma {:induction false} RunReady<T>(nodes: seq<Node<T>>, cmp: (nat, nat) -> Ordering, init: seq<nat>, w: Walk)
    requires WellFormed(nodes) && Consistent(nodes) && RootsOnly(nodes, init)
    requires Accounted(nodes, init, w) && Ready(nodes, w)
    ensures Ready(nodes, Run(nodes, cmp, w))
    decreases Measure(nodes, w)
  {
    if w.frontier != [] {
      StepReady(nodes, cmp, init, w);
      StepAccounted(nodes, cmp, init, w);
      RunReady(nodes, cmp, init, Step(nodes, cmp, w));
    }
  }

  /** Dependency order on consistent links: no node is emitted twice, and every emitted node
      comes strictly after each of its parents. */
  lemma SortOrderRespectsParents<T>(nodes: seq<Node<T>>, cmp: (nat, nat) -> Ordering, roots: seq<nat>)
    requires WellFormed(nodes) && Consistent(nodes) && RootsOnly(nodes, roots)
    ensures IdsBelow(roots, |nodes|)
    ensures var order := SortOrder(nodes, cmp, roots);
      && IdsBelow(order, |nodes|)
      && (forall i, j :: 0 <= i < j < |order| ==> order[i] != order[j])
      && (forall j, p :: 0 <= j < |order| && p in nodes[order[j]].parents ==> p in order[..j])
  {
    var w0 := Walk(roots, map[], []);
    AccountedAtStart(nodes, roots);
    ReadyAtStart(nodes, roots);
    RunAccounted(nodes, cmp, roots, w0);
    RunReady(nodes, cmp, roots, w0);
    var r := Run(nodes, cmp, w0);
    forall x ensures Occ(r.order, x) <= 1 {
      AtMostOnce(nodes, roots, r, x);
    }
    OccDistinct(r.order);
  }

  // ---------------------------------------------------------------------------------------
  // Acyclic graphs started from all their parentless nodes.

  /** At the end of a run on consistent links, a node of an acyclic graph is emitted when all
      parentless nodes were starting nodes: by induction on its rank, all its parents were. */
  lemma {:induction false} EmittedByRank<T>(nodes: seq<Node<T>>, rank: seq<nat>, init: seq<nat>, w: Walk, c: nat)
    requires Ranked(nodes, rank) && Accounted(nodes, init, w) && Ready(nodes, w) && w.frontier == []
    requires forall i :: 0 <= i < |nodes| && nodes[i].parents == [] ==> i in init
    requires c < |nodes|
    ensures c in w.order
    decreases rank[c]
  {
    assert multiset(w.order) == multiset(init) + multiset(Pushed(nodes, w.learned));
    if nodes[c].parents == [] {
      assert c in multiset(init);
      assert c in multiset(w.order);
    } else {
      forall p | p in nodes[c].parents ensures p in Emitted(w) {
        var k :| 0 <= k < |nodes[c].parents| && nodes[c].parents[k] == p;
        EmittedByRank(nodes, rank, init, w, p);
      }
      CountInFull(nodes[c].parents, Emitted(w));
      assert c in Pushed(nodes, w.learned);
      assert c in multiset(w.order);
    }
  }

  lemma RemoveAt(s: seq<nat>, k: nat) returns (s': seq<nat>)
    requires k < |s|
    ensures |s'| == |s| - 1
    ensures multiset(s) == multiset(s') + multiset{s[k]}
    ensures forall x :: x in s' ==> x in s
  {
    s' := s[..k] + s[k + 1..];
    assert s == s[..k] + [s[k]] + s[k + 1..];
  }

  lemma FirstBelow(s: seq<nat>, n: nat)
    requires IdsBelow(s, n)
    ensures |s| > 0 ==> s[0] < n
  {
  }

  lemma {:induction false} CountIds(s: seq<nat>, n: nat)
    requires IdsBelow(s, n)
    requires forall i :: 0 <= i < n ==> Occ(s, i) == 1
    ensures |s| == n
    decreases n
  {
    if n == 0 {
      FirstBelow(s, n);
    } else {
      assert Occ(s, n - 1) == 1;
      assert n - 1 in multiset(s);
      var k :| 0 <= k < |s| && s[k] == n - 1;
      var s' := RemoveAt(s, k);
      assert forall x :: multiset(s')[x] == multiset(s)[x] - (if x == n - 1 then 1 else 0);
      assert IdsBelow(s', n - 1) by {
        forall j | 0 <= j < |s'| ensures s'[j] < n - 1 {
          assert s'[j] in s';
          var j' :| 0 <= j' < |s| && s[j'] == s'[j];
          assert multiset(s')[s'[j]] > 0;
        }
      }
      forall i | 0 <= i < n - 1 ensures Occ(s', i) == 1 {
        assert Occ(s, i) == 1;
      }
      CountIds(s', n - 1);
    }
  }

  /** On an acyclic graph with consistent links, started from exactly its parentless nodes,
      each node appears once in the visiting order. */
  lemma EmittedOnce<T>(nodes: seq<Node<T>>, cmp: (nat, nat) -> Ordering, roots: seq<nat>, rank: seq<nat>, i: nat)
    requires Ranked(nodes, rank) && Consistent(nodes) && RootsOnly(nodes, roots)
    requires forall i :: 0 <= i < |nodes| && nodes[i].parents == [] ==> i in roots
    requires i < |nodes|
    ensures IdsBelow(SortOrder(nodes, cmp, roots), |nodes|)
    ensures Occ(SortOrder(nodes, cmp, roots), i) == 1
  {
    var w0 := Walk(roots, map[], []);
    AccountedAtStart(nodes, roots);
    ReadyAtStart(nodes, roots);
    RunAccounted(nodes, cmp, roots, w0);
    RunReady(nodes, cmp, roots, w0);
    var r := Run(nodes, cmp, w0);
    EmittedByRank(nodes, rank, roots, r, i);
    AtMostOnce(nodes, roots, r, i);
  }

  /** Completeness: on an acyclic graph with consistent links, started from exactly its
      parentless nodes, the visiting order holds every node exactly once. */
  lemma SortOrderComplete<T>(nodes: seq<Node<T>>, cmp: (nat, nat) -> Ordering, roots: seq<nat>, rank: seq<nat>)
    requires Ranked(nodes, rank) && Consistent(nodes) && RootsOnly(nodes, roots)
    requires forall i :: 0 <= i < |nodes| && nodes[i].parents == [] ==> i in roots
    ensures IdsBelow(roots, |nodes|)
    ensures forall i :: 0 <= i < |nodes| ==> Occ(SortOrder(nodes, cmp, roots), i) == 1
    ensures |SortOrder(nodes, cmp, roots)| == |nodes|
  {
    var order := SortOrder(nodes, cmp, roots);
    forall i | 0 <= i < |nodes| ensures Occ(order, i) == 1 {
      EmittedOnce(nodes, cmp, roots, rank, i);
    }
    SortOrderContents(nodes, cmp, roots);
    CountIds(order, |nodes|);
  }
}
