/** The node metrics `descendent_count` and `ancestor_count` (`descendent_len` and `ancestor_len`
    in the command-line program). Each adds the length of the node's child (parent) list to the
    metric of every child (parent), recursively, so a node reachable along several routes is
    counted once per route. The model specifies them independently as the number of walks of one
    or more steps that leave the node along child (parent) links, counted level by level. */
module Metrics {
  import opened Arena

  /** The links a metric follows: child links going down, parent links going up. */
  function Links<T>(n: Node<T>, down: bool): (r: seq<nat>)
    ensures r == n.children || r == n.parents
  {
    if down then n.children else n.parents
  }

  /** The next level: every id one link away from an id of `s`, with repetition, in list order. */
  ghost function Expand<T>(nodes: seq<Node<T>>, s: seq<nat>, down: bool): (r: seq<nat>)
    requires WellFormed(nodes) && IdsBelow(s, |nodes|)
    ensures IdsBelow(r, |nodes|)
  {
    if s == [] then [] else Links(nodes[s[0]], down) + Expand(nodes, s[1..], down)
  }

  /** The number of walks of 1 to `m` links starting at the ids of `s`: the sizes of the next
      `m` levels added up. */
  ghost function Walks<T>(nodes: seq<Node<T>>, s: seq<nat>, m: nat, down: bool): nat
    requires WellFormed(nodes) && IdsBelow(s, |nodes|)
    decreases m
  {
    if m == 0 then 0
    else
      var next := Expand(nodes, s, down);
      |next| + Walks(nodes, next, m - 1, down)
  }

  /** How many more links a walk from `x` can take at most: a child's rank is larger, a
      parent's smaller. */
  function Height(rank: seq<nat>, x: nat, n: nat, down: bool): nat
    requires x < |rank| && rank[x] < n
  {
    if down then n - 1 - rank[x] else rank[x]
  }

  lemma {:induction false} ExpandAppend<T>(nodes: seq<Node<T>>, a: seq<nat>, b: seq<nat>, down: bool)
    requires WellFormed(nodes) && IdsBelow(a, |nodes|) && IdsBelow(b, |nodes|)
    ensures Expand(nodes, a + b, down) == Expand(nodes, a, down) + Expand(nodes, b, down)
  {
    if a == [] {
      assert a + b == b;
    } else {
      assert (a + b)[1..] == a[1..] + b;
      ExpandAppend(nodes, a[1..], b, down);
    }
  }

  /** Walks from a concatenation are the walks from either part. */
  lemma {:induction false} WalksAppend<T>(nodes: seq<Node<T>>, a: seq<nat>, b: seq<nat>, m: nat, down: bool)
    requires WellFormed(nodes) && IdsBelow(a, |nodes|) && IdsBelow(b, |nodes|)
    ensures Walks(nodes, a + b, m, down) == Walks(nodes, a, m, down) + Walks(nodes, b, m, down)
    decreases m
  {
    if m > 0 {
      ExpandAppend(nodes, a, b, down);
      WalksAppend(nodes, Expand(nodes, a, down), Expand(nodes, b, down), m - 1, down);
    }
  }

  lemma {:induction false} WalksFromNothing<T>(nodes: seq<Node<T>>, m: nat, down: bool)
    requires WellFormed(nodes)
    ensures Walks(nodes, [], m, down) == 0
    decreases m
  {
    if m > 0 {
      WalksFromNothing(nodes, m - 1, down);
    }
  }

  /** Every id of the next level sits strictly lower than some id of the current one. */
  lemma {:induction false} ExpandLower<T>(nodes: seq<Node<T>>, rank: seq<nat>, s: seq<nat>, h: nat, down: bool)
    requires Ranked(nodes, rank) && IdsBelow(s, |nodes|)
    requires forall k :: 0 <= k < |s| ==> Height(rank, s[k], |nodes|, down) <= h
    ensures forall k :: 0 <= k < |Expand(nodes, s, down)| ==>
      Height(rank, Expand(nodes, s, down)[k], |nodes|, down) < h
  {
    if s != [] {
      ExpandLower(nodes, rank, s[1..], h, down);
      var links := Links(nodes[s[0]], down);
      var e := Expand(nodes, s, down);
      forall k | 0 <= k < |e| ensures Height(rank, e[k], |nodes|, down) < h {
        if k < |links| {
          assert e[k] == links[k];
        } else {
          assert e[k] == Expand(nodes, s[1..], down)[k - |links|];
        }
      }
    }
  }

  /** The ids `m` links away from the ids of `s`, with repetition: `Expand` applied `m` times. */
  ghost function Level<T>(nodes: seq<Node<T>>, s: seq<nat>, m: nat, down: bool): (r: seq<nat>)
    requires WellFormed(nodes) && IdsBelow(s, |nodes|)
    ensures IdsBelow(r, |nodes|)
    decreases m
  {
    if m == 0 then s else Level(nodes, Expand(nodes, s, down), m - 1, down)
  }

  lemma {:induction false} LevelAppend<T>(nodes: seq<Node<T>>, a: seq<nat>, b: seq<nat>, m: nat, down: bool)
    requires WellFormed(nodes) && IdsBelow(a, |nodes|) && IdsBelow(b, |nodes|)
    ensures Level(nodes, a + b, m, down) == Level(nodes, a, m, down) + Level(nodes, b, m, down)
    decreases m
  {
    if m > 0 {
      ExpandAppend(nodes, a, b, down);
      LevelAppend(nodes, Expand(nodes, a, down), Expand(nodes, b, down), m - 1, down);
    }
  }

  /** Level `m + 1` is the expansion of level `m`. */
  lemma {:induction false} LevelNext<T>(nodes: seq<Node<T>>, s: seq<nat>, m: nat, down: bool)
    requires WellFormed(nodes) && IdsBelow(s, |nodes|)
    ensures Level(nodes, s, m + 1, down) == Expand(nodes, Level(nodes, s, m, down), down)
    decreases m
  {
    if m > 0 {
      LevelNext(nodes, Expand(nodes, s, down), m - 1, down);
    }
  }

  /** When no walk from `s` has `m` links, no walk from any single id of `s` has. */
  lemma LevelMember<T>(nodes: seq<Node<T>>, s: seq<nat>, m: nat, down: bool, j: nat)
    requires WellFormed(nodes) && IdsBelow(s, |nodes|) && j < |s| && Level(nodes, s, m, down) == []
    ensures Level(nodes, [s[j]], m, down) == []
  {
    var front, back := s[..j], s[j + 1..];
    assert s == front + ([s[j]] + back);
    assert IdsBelow(front, |nodes|) && IdsBelow(back, |nodes|);
    LevelAppend(nodes, front, [s[j]] + back, m, down);
    LevelAppend(nodes, [s[j]], back, m, down);
  }

  /** Once level `m` is empty, walks of more than `m` links add nothing. */
  lemma {:induction false} WalksSettle<T>(nodes: seq<Node<T>>, s: seq<nat>, m: nat, down: bool)
    requires WellFormed(nodes) && IdsBelow(s, |nodes|) && Level(nodes, s, m, down) == []
    ensures Walks(nodes, s, m + 1, down) == Walks(nodes, s, m, down)
    decreases m
  {
    if m == 0 {
      assert Expand(nodes, [], down) == [];
    } else {
      WalksSettle(nodes, Expand(nodes, s, down), m - 1, down);
    }
  }

  /** The count does not depend on the bound: any bound past the longest walk gives it. */
  lemma {:induction false} WalksBeyond<T>(nodes: seq<Node<T>>, s: seq<nat>, m: nat, m': nat, down: bool)
    requires WellFormed(nodes) && IdsBelow(s, |nodes|) && Level(nodes, s, m, down) == [] && m <= m'
    ensures Walks(nodes, s, m', down) == Walks(nodes, s, m, down)
    decreases m' - m
  {
    if m < m' {
      WalksSettle(nodes, s, m, down);
      LevelNext(nodes, s, m, down);
      assert Expand(nodes, [], down) == [];
      WalksBeyond(nodes, s, m + 1, m', down);
    }
  }

  /** An acyclic arena bounds every walk: a rank leaves no walk of `|nodes|` links. */
  lemma RankedBounded<T>(nodes: seq<Node<T>>, rank: seq<nat>, id: nat, down: bool)
    requires Ranked(nodes, rank) && id < |nodes|
    ensures Level(nodes, [id], |nodes|, down) == []
  {
    HeightBounds(nodes, rank, [id], |nodes|, down);
  }

  /** Ids whose heights are below `h` have an empty level `h`. */
  lemma {:induction false} HeightBounds<T>(nodes: seq<Node<T>>, rank: seq<nat>, s: seq<nat>, h: nat, down: bool)
    requires Ranked(nodes, rank) && IdsBelow(s, |nodes|)
    requires forall k :: 0 <= k < |s| ==> Height(rank, s[k], |nodes|, down) < h
    ensures Level(nodes, s, h, down) == []
    decreases h
  {
    if h > 0 {
      ExpandLower(nodes, rank, s, h - 1, down);
      HeightBounds(nodes, rank, Expand(nodes, s, down), h - 1, down);
    } else if s != [] {
      assert false;
    }
  }

  /** The recursion the metrics perform: the walks from `id` are its links plus the walks from
      each linked node. */
  lemma WalksUnfold<T>(nodes: seq<Node<T>>, id: nat, m: nat, down: bool)
    requires WellFormed(nodes) && id < |nodes| && Level(nodes, [id], m, down) == []
    ensures var links := Links(nodes[id], down);
      Walks(nodes, [id], m, down) == |links| + Walks(nodes, links, m, down)
  {
    var links := Links(nodes[id], down);
    assert [id][1..] == [];
    assert Expand(nodes, [id], down) == links;
    WalksSettle(nodes, links, m - 1, down);
  }

  /** `Node::descendent_count` of node `id`: the number of downward walks from it. The ghost
      bound `m` says that the recursion ends: no walk down from `id` has `m` links. */
  method DescendentCount<T>(nodes: seq<Node<T>>, id: nat, ghost m: nat) returns (len: nat)
    requires WellFormed(nodes) && id < |nodes| && Level(nodes, [id], m, true) == []
    ensures len == Walks(nodes, [id], m, true)
    decreases m
  {
    var children := nodes[id].children;
    assert [id][1..] == [];
    assert Expand(nodes, [id], true) == children;
    len := |children|;
    WalksFromNothing(nodes, m - 1, true);
    assert children[..0] == [];
    for j := 0 to |children|
      invariant len == |children| + Walks(nodes, children[..j], m - 1, true)
    {
      LevelMember(nodes, children, m - 1, true, j);
      var n := DescendentCount(nodes, children[j], m - 1);
      assert children[..j + 1] == children[..j] + [children[j]];
      WalksAppend(nodes, children[..j], [children[j]], m - 1, true);
      len := len + n;
    }
    assert children[..|children|] == children;
  }

  /** `Node::ancestor_count` of node `id`: the number of upward walks from it, under a bound on
      the walks up from `id`. */
  method AncestorCount<T>(nodes: seq<Node<T>>, id: nat, ghost m: nat) returns (len: nat)
    requires WellFormed(nodes) && id < |nodes| && Level(nodes, [id], m, false) == []
    ensures len == Walks(nodes, [id], m, false)
    decreases m
  {
    var parents := nodes[id].parents;
    assert [id][1..] == [];
    assert Expand(nodes, [id], false) == parents;
    len := |parents|;
    WalksFromNothing(nodes, m - 1, false);
    assert parents[..0] == [];
    for j := 0 to |parents|
      invariant len == |parents| + Walks(nodes, parents[..j], m - 1, false)
    {
      LevelMember(nodes, parents, m - 1, false, j);
      var n := AncestorCount(nodes, parents[j], m - 1);
      assert parents[..j + 1] == parents[..j] + [parents[j]];
      WalksAppend(nodes, parents[..j], [parents[j]], m - 1, false);
      len := len + n;
    }
    assert parents[..|parents|] == parents;
  }

  /** Cycles the walk cannot reach do not matter: node `a` stands beside a two-node cycle and
      has no descendants; node `x` lists `y` both as child and as parent, `y` has no children,
      and `x` has one descendant. */
  lemma UnreachableCyclesAllowed()
    ensures var nodes := [Node(0, 'a', [], []), Node(1, 'b', [2], [2]), Node(2, 'c', [1], [1])];
      && Level(nodes, [0], 1, true) == [] && Walks(nodes, [0], 1, true) == 0
    ensures var nodes := [Node(0, 'x', [1], [1]), Node(1, 'y', [0], [])];
      && Level(nodes, [0], 2, true) == [] && Walks(nodes, [0], 2, true) == 1
  {
    var n1 := [Node(0, 'a', [], []), Node(1, 'b', [2], [2]), Node(2, 'c', [1], [1])];
    assert Expand(n1, [0], true) == [];
    assert Expand(n1, [], true) == [];
    var n2 := [Node(0, 'x', [1], [1]), Node(1, 'y', [0], [])];
    assert Expand(n2, [0], true) == [1];
    assert Expand(n2, [1], true) == [];
    assert Expand(n2, [], true) == [];
  }

  /** A diamond: `a` over `b` and `c`, both over `d`. `d` is reached from `a` along two routes,
      so `a` has four descendants by this count and `d` four ancestors. */
  lemma DiamondCountsEachRoute()
    ensures var nodes := [Node(0, 'a', [], [1, 2]), Node(1, 'b', [0], [3]),
                          Node(2, 'c', [0], [3]), Node(3, 'd', [1, 2], [])];
      && Walks(nodes, [0], 4, true) == 4
      && Walks(nodes, [3], 4, false) == 4
  {
    var nodes := [Node(0, 'a', [], [1, 2]), Node(1, 'b', [0], [3]),
                  Node(2, 'c', [0], [3]), Node(3, 'd', [1, 2], [])];
    assert Expand(nodes, [0], true) == [1, 2];
    assert Expand(nodes, [1, 2], true) == [3, 3];
    assert Expand(nodes, [3, 3], true) == [];
    WalksFromNothing(nodes, 1, true);
    assert Expand(nodes, [3], false) == [1, 2];
    assert Expand(nodes, [1, 2], false) == [0, 0];
    assert Expand(nodes, [0, 0], false) == [];
    WalksFromNothing(nodes, 1, false);
  }
}
