/** `Graph` and the node accessors (src/graph.rs; src/lib.rs and src/main.rs carry the same
    code). The graph owns the arena of nodes and its node sequence: the roots until `SortBy`
    runs, the visiting order afterwards. */
module Graphs {
  import opened Common
  import opened Sorting
  import opened Arena
  import opened Traversal

  /** Read-only views of the nodes behind a list of ids, in list order (what `nodes()`,
      `Node::children()` and `Node::parents()` hand out). */
  function Views<T>(nodes: seq<Node<T>>, ids: seq<nat>): (r: seq<Node<T>>)
    requires WellFormed(nodes) && IdsBelow(ids, |nodes|)
    ensures |r| == |ids|
    ensures forall k :: 0 <= k < |ids| ==> r[k].id == ids[k] && r[k] in nodes
  {
    seq(|ids|, k requires 0 <= k < |ids| => nodes[ids[k]])
  }

  /** With consistent links the accessors mirror each other: every child view lists the node
      among its parents, and every parent view lists it among its children. */
  lemma ViewsLinkBack<T>(nodes: seq<Node<T>>, id: nat)
    requires WellFormed(nodes) && Consistent(nodes) && id < |nodes|
    ensures forall c :: c in Views(nodes, nodes[id].children) ==> id in c.parents
    ensures forall p :: p in Views(nodes, nodes[id].parents) ==> id in p.children
  {
    var kids := Views(nodes, nodes[id].children);
    forall c | c in kids ensures id in c.parents {
      var k :| 0 <= k < |kids| && kids[k] == c;
      LinkedBack(nodes[id].children, nodes[c.id].parents, c.id, id);
    }
    var ps := Views(nodes, nodes[id].parents);
    forall p | p in ps ensures id in p.children {
      var k :| 0 <= k < |ps| && ps[k] == p;
      LinkedBack(nodes[id].parents, nodes[p.id].children, p.id, id);
    }
  }

  /** An id listed on one side is listed on the other when both sides list it equally often. */
  lemma LinkedBack(s: seq<nat>, t: seq<nat>, x: nat, y: nat)
    requires x in s && Occ(s, x) == Occ(t, y)
    ensures y in t
  {
  }

  /** The start of a round of `sort_by`: the learnable nodes are sorted with `cmp`, reversed,
      and the last one (the one `cmp` ranks first) is popped. */
  method PopNext(learnable: seq<nat>, cmp: (nat, nat) -> Ordering) returns (next: nat, rest: seq<nat>)
    requires learnable != []
    ensures (next, rest) == Pick(cmp, learnable)
    ensures next in learnable && multiset(rest) + multiset{next} == multiset(learnable)
  {
    var ranked := StableSort(learnable, cmp);
    ranked := Reverse(ranked);
    next := ranked[|ranked| - 1];
    rest := ranked[..|ranked| - 1];
    assert next in multiset(learnable);
  }

  /** The inner loop of a round: each child of the popped node has its counter (keyed by id)
      bumped, and becomes learnable when the counter equals its number of parents. */
  method Learn<T>(nodes: seq<Node<T>>, kids: seq<nat>, learnable: seq<nat>, learned: map<nat, nat>)
    returns (learnable': seq<nat>, learned': map<nat, nat>)
    requires WellFormed(nodes) && IdsBelow(kids, |nodes|)
    ensures (learnable', learned') == Arrive(nodes, kids, learnable, learned)
  {
    learnable', learned' := learnable, learned;
    for j := 0 to |kids|
      invariant (learnable', learned') == Arrive(nodes, kids[..j], learnable, learned)
    {
      var child := kids[j];
      ArriveOneMore(nodes, kids, j, learnable, learned);
      ghost var visited := Visit(nodes, learnable', learned', child);
      var id := nodes[child].id;
      var count := (if id in learned' then learned'[id] else 0) + 1;
      learned' := learned'[id := count];
      if count == |nodes[child].parents| {
        learnable' := learnable' + [child];
      }
      assert (learnable', learned') == visited;
    }
    assert kids[..|kids|] == kids;
  }

  class Graph<T> {
    /** Every node of the graph, each at the index of its id. */
    var nodes: seq<Node<T>>
    /** The node sequence. */
    var children: seq<nat>

    ghost predicate Valid()
      reads this
    {
      WellFormed(nodes) && IdsBelow(children, |nodes|)
    }

    /** `Graph::new`. */
    constructor (nodes: seq<Node<T>>, children: seq<nat>)
      ensures this.nodes == nodes && this.children == children
    {
      this.nodes := nodes;
      this.children := children;
    }

    /** `Graph::nodes`: one view per entry of the node sequence, in order. */
    function Nodes(): (r: seq<Node<T>>)
      reads this
      requires Valid()
      ensures |r| == |children|
      ensures forall k :: 0 <= k < |r| ==> r[k].id == children[k] && r[k] == nodes[children[k]]
    {
      Views(nodes, children)
    }

    /** `Node::children` of node `id`: views of its children in list order. */
    function ChildrenOf(id: nat): (r: seq<Node<T>>)
      reads this
      requires Valid() && id < |nodes|
      ensures |r| == |nodes[id].children|
      ensures forall k :: 0 <= k < |r| ==> r[k].id == nodes[id].children[k] && r[k] == nodes[nodes[id].children[k]]
    {
      Views(nodes, nodes[id].children)
    }

    /** `Node::parents` of node `id`: views of its parents in list order. */
    function ParentsOf(id: nat): (r: seq<Node<T>>)
      reads this
      requires Valid() && id < |nodes|
      ensures |r| == |nodes[id].parents|
      ensures forall k :: 0 <= k < |r| ==> r[k].id == nodes[id].parents[k] && r[k] == nodes[nodes[id].parents[k]]
    {
      Views(nodes, nodes[id].parents)
    }

    /** `Node::set_children` on node `id`: replaces its child list and nothing else. */
    method SetChildren(id: nat, kids: seq<nat>)
      requires Valid() && id < |nodes| && IdsBelow(kids, |nodes|)
      modifies this
      ensures Valid()
      ensures children == old(children) && |nodes| == |old(nodes)|
      ensures nodes[id] == old(nodes[id]).(children := kids)
      ensures forall i :: 0 <= i < |nodes| && i != id ==> nodes[i] == old(nodes[i])
    {
      nodes := nodes[id := nodes[id].(children := kids)];
    }

    /** `Node::set_parents` on node `id`: replaces its parent list and nothing else. */
    method SetParents(id: nat, ps: seq<nat>)
      requires Valid() && id < |nodes| && IdsBelow(ps, |nodes|)
      modifies this
      ensures Valid()
      ensures children == old(children) && |nodes| == |old(nodes)|
      ensures nodes[id] == old(nodes[id]).(parents := ps)
      ensures forall i :: 0 <= i < |nodes| && i != id ==> nodes[i] == old(nodes[i])
    {
      nodes := nodes[id := nodes[id].(parents := ps)];
    }

    /** `Graph::sort_by`: each round pops the node `cmp` ranks first off the learnable nodes and
        lets its children learn of it; the visiting order then replaces the node sequence. The
        nodes themselves are left as they were. */
    method SortBy(cmp: (nat, nat) -> Ordering)
      requires Valid()
      modifies this
      ensures Valid()
      ensures nodes == old(nodes)
      ensures children == SortOrder(nodes, cmp, old(children))
    {
      var ns := nodes;
      var order: seq<nat> := [];
      var learnable := children;
      var learned: map<nat, nat> := map[];
      while learnable != []
        invariant ns == nodes == old(nodes) && children == old(children)
        invariant IdsBelow(learnable, |ns|) && IdsBelow(order, |ns|)
        invariant Run(ns, cmp, Walk(learnable, learned, order)) == Run(ns, cmp, Walk(children, map[], []))
        decreases Measure(ns, Walk(learnable, learned, order))
      {
        ghost var w := Walk(learnable, learned, order);
        var next, rest := PopNext(learnable, cmp);
        learnable, learned := Learn(ns, ns[next].children, rest, learned);
        RoundAdvances(ns, cmp, w, next, rest, learnable, learned);
        order := order + [next];
      }
      children := order;
    }
  }
}
