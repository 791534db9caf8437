/** The node store. Every node of a graph lives in one sequence, the arena; a node's `id` is its
    position there, and its parent and child links are lists of ids. The shared, reference-counted
    node handles of the original program become these ids. */
module Arena {
  import opened Common

  /** A graph vertex: its id, its payload, and its parent and child lists in insertion order. */
  datatype Node<T> = Node(id: nat, val: T, parents: seq<nat>, children: seq<nat>)

  /** `Node::new`: a node with no relations yet. */
  function NewNode<T>(id: nat, val: T): (n: Node<T>)
    ensures n.id == id && n.val == val
    ensures n.parents == [] && n.children == []
  {
    Node(id, val, [], [])
  }

  ghost predicate IdsBelow(s: seq<nat>, bound: nat)
  {
    forall k :: 0 <= k < |s| ==> s[k] < bound
  }

  /** Every node sits at the index of its id and links only to nodes of the arena. */
  ghost predicate WellFormed<T>(nodes: seq<Node<T>>)
  {
    forall i :: 0 <= i < |nodes| ==>
      && nodes[i].id == i
      && IdsBelow(nodes[i].parents, |nodes|)
      && IdsBelow(nodes[i].children, |nodes|)
  }

  /** The inverse-edge invariant, with multiplicity: `c` lists `p` as a parent exactly as many
      times as `p` lists `c` as a child. */
  ghost predicate Consistent<T>(nodes: seq<Node<T>>)
  {
    forall p, c :: 0 <= p < |nodes| && 0 <= c < |nodes| ==>
      Occ(nodes[p].children, c) == Occ(nodes[c].parents, p)
  }

  /** Acyclicity, witnessed by a rank below the arena size that grows strictly along every
      parent-to-child link, whichever side records it. */
  ghost predicate Ranked<T>(nodes: seq<Node<T>>, rank: seq<nat>)
  {
    && |rank| == |nodes|
    && WellFormed(nodes)
    && (forall i :: 0 <= i < |nodes| ==> rank[i] < |nodes|)
    && (forall i, k :: 0 <= i < |nodes| && 0 <= k < |nodes[i].children| ==>
          rank[i] < rank[nodes[i].children[k]])
    && (forall i, k :: 0 <= i < |nodes| && 0 <= k < |nodes[i].parents| ==>
          rank[nodes[i].parents[k]] < rank[i])
  }

  /** Ids of the nodes without parents. */
  ghost function Parentless<T>(nodes: seq<Node<T>>): set<nat>
  {
    set i | 0 <= i < |nodes| && nodes[i].parents == []
  }
}
