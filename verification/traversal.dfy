/** The ordering traversal of `Graph::sort_by` as a state machine on values: the frontier of
    learnable nodes, the per-id arrival counters and the visiting order built so far. `Run` is
    the specification the imperative `Graphs.Graph.SortBy` is proved against; the lemmas here
    hold for every well-formed arena, whether or not its links are consistent. */
module Traversal {
  import opened Common
  import opened Sorting
  import opened Arena

  /** The arrival counter of `c` (`parents_learned.entry(c).or_insert(0)`). */
  function Count(learned: map<nat, nat>, c: nat): nat
  {
    if c in learned then learned[c] else 0
  }

  /** The traversal between two rounds. */
  datatype Walk = Walk(frontier: seq<nat>, learned: map<nat, nat>, order: seq<nat>)

  /** One child edge arriving at `c`: bump its counter, and append `c` to the frontier when the
      counter now equals its number of parents. */
  ghost function Visit<T>(nodes: seq<Node<T>>, frontier: seq<nat>, learned: map<nat, nat>, c: nat)
    : (r: (seq<nat>, map<nat, nat>))
    requires c < |nodes|
    ensures r.0 == frontier || r.0 == frontier + [c]
    ensures c in r.1 && r.1[c] == Count(learned, c) + 1
    ensures forall d :: d != c ==> Count(r.1, d) == Count(learned, d)
  {
    var n := Count(learned, c) + 1;
    (if n == |nodes[c].parents| then frontier + [c] else frontier, learned[c := n])
  }

  /** The inner loop over the children of the visited node, in list order. */
  ghost function Arrive<T>(nodes: seq<Node<T>>, kids: seq<nat>, frontier: seq<nat>, learned: map<nat, nat>)
    : (r: (seq<nat>, map<nat, nat>))
    requires IdsBelow(kids, |nodes|)
    ensures frontier <= r.0 && |r.0| <= |frontier| + |kids|
    decreases |kids|
  {
    if kids == [] then (frontier, learned)
    else
      var fl := Arrive(nodes, kids[..|kids| - 1], frontier, learned);
      Visit(nodes, fl.0, fl.1, kids[|kids| - 1])
  }

  /** One more child of the inner loop: `Arrive` over the first `j + 1` children is `Visit` of
      child `j` after `Arrive` over the first `j`. */
  lemma ArriveOneMore<T>(nodes: seq<Node<T>>, kids: seq<nat>, j: nat, frontier: seq<nat>, learned: map<nat, nat>)
    requires IdsBelow(kids, |nodes|) && j < |kids|
    ensures var fl := Arrive(nodes, kids[..j], frontier, learned);
      Arrive(nodes, kids[..j + 1], frontier, learned) == Visit(nodes, fl.0, fl.1, kids[j])
  {
    assert kids[..j + 1][..j] == kids[..j];
  }

  /** Ids whose counter is still below their number of parents. */
  ghost function Pending<T>(nodes: seq<Node<T>>, learned: map<nat, nat>): set<nat>
  {
    set c | 0 <= c < |nodes| && Count(learned, c) < |nodes[c].parents|
  }

  /** Ids that have parents and whose counter has reached their number of parents: exactly the
      ids the inner loop has appended to the frontier so far. */
  ghost function Pushed<T>(nodes: seq<Node<T>>, learned: map<nat, nat>): set<nat>
  {
    set c | 0 <= c < |nodes| && 0 < |nodes[c].parents| <= Count(learned, c)
  }

  /** Frontier size plus pending ids: the round count is bounded by this. */
  ghost function Measure<T>(nodes: seq<Node<T>>, w: Walk): nat
  {
    |w.frontier| + |Pending(nodes, w.learned)|
  }

  lemma VisitFacts<T>(nodes: seq<Node<T>>, f: seq<nat>, l: map<nat, nat>, c: nat)
    requires c < |nodes|
    ensures var fl := Visit(nodes, f, l, c);
      && (forall d :: Count(fl.1, d) == Count(l, d) + (if d == c then 1 else 0))
      && (if Count(l, c) + 1 == |nodes[c].parents| then
            && fl.0 == f + [c]
            && c in Pending(nodes, l) && c !in Pushed(nodes, l)
            && Pending(nodes, fl.1) == Pending(nodes, l) - {c}
            && Pushed(nodes, fl.1) == Pushed(nodes, l) + {c}
          else
            && fl.0 == f
            && Pending(nodes, fl.1) == Pending(nodes, l)
            && Pushed(nodes, fl.1) == Pushed(nodes, l))
  {
    var fl := Visit(nodes, f, l, c);
    var l' := fl.1;
    assert forall d :: Count(l', d) == Count(l, d) + (if d == c then 1 else 0);
    if Count(l, c) + 1 == |nodes[c].parents| {
      assert Pending(nodes, l') == Pending(nodes, l) - {c};
      assert Pushed(nodes, l') == Pushed(nodes, l) + {c};
    } else {
      assert Pending(nodes, l') == Pending(nodes, l);
      assert Pushed(nodes, l') == Pushed(nodes, l);
    }
  }

  /** The inner loop adds to every counter the number of edges arriving at it. */
  lemma {:induction false} ArriveCounts<T>(nodes: seq<Node<T>>, kids: seq<nat>, f: seq<nat>, l: map<nat, nat>)
    requires IdsBelow(kids, |nodes|)
    ensures forall d :: Count(Arrive(nodes, kids, f, l).1, d) == Count(l, d) + Occ(kids, d)
  {
    if kids != [] {
      var front := kids[..|kids| - 1];
      var c := kids[|kids| - 1];
      assert kids == front + [c];
      ArriveCounts(nodes, front, f, l);
      var fl0 := Arrive(nodes, front, f, l);
      VisitFacts(nodes, fl0.0, fl0.1, c);
      forall d ensures Count(Arrive(nodes, kids, f, l).1, d) == Count(l, d) + Occ(kids, d) {
        assert Occ(kids, d) == Occ(front, d) + (if d == c then 1 else 0);
      }
    }
  }

  /** The inner loop keeps the old frontier as a prefix of the new one. */
  lemma {:induction false} ArriveKeepsFrontier<T>(nodes: seq<Node<T>>, kids: seq<nat>, f: seq<nat>, l: map<nat, nat>)
    requires IdsBelow(kids, |nodes|)
    ensures var fl := Arrive(nodes, kids, f, l);
      |f| <= |fl.0| && fl.0[..|f|] == f
  {
    if kids != [] {
      var front := kids[..|kids| - 1];
      var c := kids[|kids| - 1];
      ArriveKeepsFrontier(nodes, front, f, l);
      var fl0 := Arrive(nodes, front, f, l);
      var fl := Arrive(nodes, kids, f, l);
      assert fl == Visit(nodes, fl0.0, fl0.1, c);
      assert fl.0[..|fl0.0|] == fl0.0;
      assert fl.0[..|f|] == fl0.0[..|f|];
    }
  }

  /** The inner loop appends to the frontier exactly the ids that become pushed. */
  lemma {:induction false} ArrivePushes<T>(nodes: seq<Node<T>>, kids: seq<nat>, f: seq<nat>, l: map<nat, nat>)
    requires IdsBelow(kids, |nodes|)
    ensures var fl := Arrive(nodes, kids, f, l);
      && multiset(fl.0) + multiset(Pushed(nodes, l)) == multiset(f) + multiset(Pushed(nodes, fl.1))
      && Pushed(nodes, l) <= Pushed(nodes, fl.1)
  {
    if kids != [] {
      var front := kids[..|kids| - 1];
      var c := kids[|kids| - 1];
      ArrivePushes(nodes, front, f, l);
      var fl0 := Arrive(nodes, front, f, l);
      VisitFacts(nodes, fl0.0, fl0.1, c);
      var fl := Arrive(nodes, kids, f, l);
      assert fl == Visit(nodes, fl0.0, fl0.1, c);
      if Count(fl0.1, c) + 1 == |nodes[c].parents| {
        assert multiset(Pushed(nodes, fl.1)) == multiset(Pushed(nodes, fl0.1)) + multiset{c};
        assert multiset(fl.0) == multiset(fl0.0) + multiset{c};
        calc {
          multiset(fl.0) + multiset(Pushed(nodes, l));
          multiset(fl0.0) + multiset(Pushed(nodes, l)) + multiset{c};
          multiset(f) + multiset(Pushed(nodes, fl0.1)) + multiset{c};
          multiset(f) + multiset(Pushed(nodes, fl.1));
        }
      }
    }
  }

  /** Every id the inner loop appends is pushed afterwards. */
  lemma {:induction false} ArriveAppendsPushed<T>(nodes: seq<Node<T>>, kids: seq<nat>, f: seq<nat>, l: map<nat, nat>)
    requires IdsBelow(kids, |nodes|)
    ensures var fl := Arrive(nodes, kids, f, l);
      && |f| <= |fl.0|
      && (forall k :: |f| <= k < |fl.0| ==> fl.0[k] in Pushed(nodes, fl.1))
  {
    if kids != [] {
      var front := kids[..|kids| - 1];
      var c := kids[|kids| - 1];
      ArriveAppendsPushed(nodes, front, f, l);
      var fl0 := Arrive(nodes, front, f, l);
      VisitFacts(nodes, fl0.0, fl0.1, c);
    }
  }

  /** The inner loop appends only children, so the frontier keeps naming nodes of the arena. */
  lemma {:induction false} ArriveIdsBelow<T>(nodes: seq<Node<T>>, kids: seq<nat>, f: seq<nat>, l: map<nat, nat>)
    requires IdsBelow(kids, |nodes|) && IdsBelow(f, |nodes|)
    ensures IdsBelow(Arrive(nodes, kids, f, l).0, |nodes|)
  {
    if kids != [] {
      ArriveIdsBelow(nodes, kids[..|kids| - 1], f, l);
    }
  }

  /** The inner loop trades one pending id for each id it appends. */
  lemma {:induction false} ArriveMeasure<T>(nodes: seq<Node<T>>, kids: seq<nat>, f: seq<nat>, l: map<nat, nat>)
    requires IdsBelow(kids, |nodes|)
    ensures var fl := Arrive(nodes, kids, f, l);
      |fl.0| + |Pending(nodes, fl.1)| == |f| + |Pending(nodes, l)|
  {
    if kids != [] {
      var front := kids[..|kids| - 1];
      var c := kids[|kids| - 1];
      ArriveMeasure(nodes, front, f, l);
      var fl0 := Arrive(nodes, front, f, l);
      VisitFacts(nodes, fl0.0, fl0.1, c);
    }
  }

  /** One round's selection: sort the frontier, reverse it and pop its last element. */
  ghost function Pick(cmp: (nat, nat) -> Ordering, frontier: seq<nat>): (p: (nat, seq<nat>))
    requires frontier != []
    ensures multiset(p.1) + multiset{p.0} == multiset(frontier)
  {
    var ranked := Reverse(StableSort(frontier, cmp));
    assert ranked == ranked[..|ranked| - 1] + [ranked[|ranked| - 1]];
    (ranked[|ranked| - 1], ranked[..|ranked| - 1])
  }

  /** The popped element is the head of the sorted frontier, so no frontier element is smaller. */
  lemma PickIsLeast(cmp: (nat, nat) -> Ordering, frontier: seq<nat>)
    requires frontier != [] && TotalPreorder(cmp)
    ensures forall y :: y in frontier ==> cmp(Pick(cmp, frontier).0, y) != Greater
  {
    var sorted := StableSort(frontier, cmp);
    assert Reverse(sorted)[|sorted| - 1] == sorted[0];
    StableSortHeadIsLeast(frontier, cmp);
  }

  /** The pick and the rest of the frontier name nodes of the arena. */
  lemma PickIdsBelow(cmp: (nat, nat) -> Ordering, frontier: seq<nat>, n: nat)
    requires frontier != [] && IdsBelow(frontier, n)
    ensures Pick(cmp, frontier).0 < n && IdsBelow(Pick(cmp, frontier).1, n)
  {
    var p := Pick(cmp, frontier);
    assert p.0 in multiset(frontier);
    forall k | 0 <= k < |p.1| ensures p.1[k] < n {
      assert p.1[k] in multiset(p.1);
      assert p.1[k] in multiset(frontier);
    }
  }

  /** One round of the outer loop. */
  ghost function Step<T>(nodes: seq<Node<T>>, cmp: (nat, nat) -> Ordering, w: Walk): (r: Walk)
    requires WellFormed(nodes) && IdsBelow(w.frontier, |nodes|) && w.frontier != []
    ensures IdsBelow(r.frontier, |nodes|)
    ensures IdsBelow(w.order, |nodes|) ==> IdsBelow(r.order, |nodes|)
    ensures Measure(nodes, r) < Measure(nodes, w)
  {
    var p := Pick(cmp, w.frontier);
    PickIdsBelow(cmp, w.frontier, |nodes|);
    var kids := nodes[p.0].children;
    ArriveIdsBelow(nodes, kids, p.1, w.learned);
    ArriveMeasure(nodes, kids, p.1, w.learned);
    var fl := Arrive(nodes, kids, p.1, w.learned);
    Walk(fl.0, fl.1, w.order + [p.0])
  }

  /** The shape of one round: the popped id comes off the frontier, the inner loop runs over its
      child list starting from the rest of the frontier, and the popped id is appended to the order. */
  lemma StepParts<T>(nodes: seq<Node<T>>, cmp: (nat, nat) -> Ordering, w: Walk) returns (next: nat, rest: seq<nat>)
    requires WellFormed(nodes) && IdsBelow(w.frontier, |nodes|) && w.frontier != []
    ensures next < |nodes| && next in w.frontier
    ensures multiset(rest) + multiset{next} == multiset(w.frontier)
    ensures var r := Step(nodes, cmp, w);
      && r.order == w.order + [next]
      && (r.frontier, r.learned) == Arrive(nodes, nodes[next].children, rest, w.learned)
  {
    var p := Pick(cmp, w.frontier);
    next, rest := p.0, p.1;
    assert next in multiset(w.frontier);
  }

  /** `Step` spelled out from the pick of the frontier. */
  lemma StepFromPick<T>(nodes: seq<Node<T>>, cmp: (nat, nat) -> Ordering, w: Walk)
    requires WellFormed(nodes) && IdsBelow(w.frontier, |nodes|) && w.frontier != []
    ensures var p := Pick(cmp, w.frontier);
      && p.0 < |nodes|
      && var fl := Arrive(nodes, nodes[p.0].children, p.1, w.learned);
         Step(nodes, cmp, w) == Walk(fl.0, fl.1, w.order + [p.0])
  {
    assert Pick(cmp, w.frontier).0 in multiset(w.frontier);
  }

  /** One round as the imperative loop performs it: popping `next` off the frontier, visiting its children, then appending it to the order, leaves a walk that runs to
      the same end as `w` and has a smaller measure. */
  lemma RoundAdvances<T>(nodes: seq<Node<T>>, cmp: (nat, nat) -> Ordering, w: Walk,
                         next: nat, rest: seq<nat>, frontier: seq<nat>, learned: map<nat, nat>)
    requires WellFormed(nodes) && IdsBelow(w.frontier, |nodes|) && w.frontier != []
    requires (next, rest) == Pick(cmp, w.frontier)
    requires next < |nodes| && (frontier, learned) == Arrive(nodes, nodes[next].children, rest, w.learned)
    ensures IdsBelow(frontier, |nodes|)
    ensures IdsBelow(w.order, |nodes|) ==> IdsBelow(w.order + [next], |nodes|)
    ensures Run(nodes, cmp, Walk(frontier, learned, w.order + [next])) == Run(nodes, cmp, w)
    ensures Measure(nodes, Walk(frontier, learned, w.order + [next])) < Measure(nodes, w)
  {
    StepFromPick(nodes, cmp, w);
    assert Walk(frontier, learned, w.order + [next]) == Step(nodes, cmp, w);
  }

  lemma SnocPrefix(s: seq<nat>, t: seq<nat>, u: seq<nat>)
    requires |u| == |t| + 1 && u[..|t|] == t && |u| <= |s| && s[..|u|] == u
    ensures |t| <= |s| && s[..|t|] == t
  {
    assert s[..|t|] == s[..|u|][..|t|];
  }

  /** The outer loop, run until the frontier is empty. */
  ghost function Run<T>(nodes: seq<Node<T>>, cmp: (nat, nat) -> Ordering, w: Walk): (r: Walk)
    requires WellFormed(nodes) && IdsBelow(w.frontier, |nodes|)
    ensures r.frontier == []
    ensures IdsBelow(w.order, |nodes|) ==> IdsBelow(r.order, |nodes|)
    ensures |w.order| <= |r.order| && r.order[..|w.order|] == w.order
    decreases Measure(nodes, w)
  {
    if w.frontier == [] then w
    else
      var r := Run(nodes, cmp, Step(nodes, cmp, w));
      SnocPrefix(r.order, w.order, Step(nodes, cmp, w).order);
      r
  }

  /** The node sequence `sort_by` leaves in the graph, starting from `roots`. */
  ghost function SortOrder<T>(nodes: seq<Node<T>>, cmp: (nat, nat) -> Ordering, roots: seq<nat>): (order: seq<nat>)
    requires WellFormed(nodes) && IdsBelow(roots, |nodes|)
    ensures IdsBelow(order, |nodes|)
  {
    Run(nodes, cmp, Walk(roots, map[], [])).order
  }

  /** Each round emits a least element of the frontier under the comparator and never lowers
      a counter. */
  lemma StepEmitsLeast<T>(nodes: seq<Node<T>>, cmp: (nat, nat) -> Ordering, w: Walk)
    requires WellFormed(nodes) && IdsBelow(w.frontier, |nodes|) && w.frontier != []
    requires TotalPreorder(cmp)
    ensures var r := Step(nodes, cmp, w);
      && |r.order| == |w.order| + 1 && r.order[..|w.order|] == w.order
      && r.order[|w.order|] in w.frontier
      && (forall y :: y in w.frontier ==> cmp(r.order[|w.order|], y) != Greater)
      && (forall c :: Count(w.learned, c) <= Count(r.learned, c))
  {
    var p := Pick(cmp, w.frontier);
    assert p.0 in multiset(w.frontier);
    PickIsLeast(cmp, w.frontier);
    ArriveCounts(nodes, nodes[p.0].children, p.1, w.learned);
    var r := Step(nodes, cmp, w);
    assert r.order == w.order + [p.0];
  }
}
