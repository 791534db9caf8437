/** The comparators the two programs hand to `sort_by`. Each scores a node by the dictionary
    entries grouped under its character and compares `b_score.cmp(&a_score)`, so the node with
    the higher score counts as the smaller one and leaves the frontier first. The web front end
    counts popular entries only; the command-line program counts them all. */
module Ranking {
  import opened Common
  import opened Arena
  import opened Traversal
  import opened Terms
  import opened Grouping
  import opened Characters

  /** `b_score.cmp(&a_score)` for a score per node id. */
  function ByScore(score: nat -> nat): (cmp: (nat, nat) -> Ordering)
    ensures forall a: nat, b: nat :: cmp(a, b) == Less <==> score(b) < score(a)
    ensures forall a: nat, b: nat :: cmp(a, b) == Equal <==> score(a) == score(b)
  {
    (a: nat, b: nat) => Compare(score(b), score(a))
  }

  /** Comparing by decreasing score is a total preorder, and one node is smaller than another
      exactly when its score is higher. */
  lemma ByScoreOrders(score: nat -> nat)
    ensures TotalPreorder(ByScore(score))
    ensures forall a: nat, b: nat :: ByScore(score)(a, b) == Less <==> score(b) < score(a)
  {
    var cmp := ByScore(score);
    forall a: nat, b: nat
      ensures (cmp(a, b) == Less <==> cmp(b, a) == Greater) && (cmp(a, b) == Less <==> score(b) < score(a))
    {
      assert cmp(a, b) == Compare(score(b), score(a)) && cmp(b, a) == Compare(score(a), score(b));
    }
    forall a: nat, b: nat, c: nat | cmp(a, b) != Greater && cmp(b, c) != Greater
      ensures cmp(a, c) != Greater
    {
      assert cmp(a, b) == Compare(score(b), score(a)) && cmp(b, c) == Compare(score(c), score(b));
      assert cmp(a, c) == Compare(score(c), score(a));
    }
  }

  /** Each round of `sort_by` emits a frontier node whose score no other frontier node
      exceeds. */
  lemma HighestScoreFirst<T>(nodes: seq<Node<T>>, score: nat -> nat, w: Walk)
    requires WellFormed(nodes) && IdsBelow(w.frontier, |nodes|) && w.frontier != []
    ensures var r := Step(nodes, ByScore(score), w);
      && |r.order| == |w.order| + 1
      && r.order[|w.order|] in w.frontier
      && forall y :: y in w.frontier ==> score(y) <= score(r.order[|w.order|])
  {
    ByScoreOrders(score);
    StepEmitsLeast(nodes, ByScore(score), w);
  }

  /** The first node of the sorted sequence is a starting node of the highest score. */
  lemma FirstIsHighest<T>(nodes: seq<Node<T>>, score: nat -> nat, roots: seq<nat>)
    requires WellFormed(nodes) && IdsBelow(roots, |nodes|) && roots != []
    ensures var order := SortOrder(nodes, ByScore(score), roots);
      && order != [] && order[0] in roots
      && forall y :: y in roots ==> score(y) <= score(order[0])
  {
    var w := Walk(roots, map[], []);
    HighestScoreFirst(nodes, score, w);
    var s := Step(nodes, ByScore(score), w);
    var r := Run(nodes, ByScore(score), s);
    assert r == Run(nodes, ByScore(score), w);
    assert r.order[..|s.order|] == s.order;
    assert r.order[0] == r.order[..|s.order|][0];
  }

  /** The web front end's score of node `id`: the popular entries listed under its character. */
  function Popularity(nodes: seq<Node<Character>>, g: map<char, seq<Term>>): (score: nat -> nat)
    ensures forall id: nat :: id < |nodes| ==> score(id) <= TermCount(g, nodes[id].val.writing)
    ensures forall id: nat :: id < |nodes| && nodes[id].val.writing !in g ==> score(id) == 0
  {
    (id: nat) => if id < |nodes| then PopularScore(g, nodes[id].val.writing) else 0
  }

  /** The command-line program's score of node `id`: all entries listed under its character. */
  function Frequency(nodes: seq<Node<char>>, g: map<char, seq<Term>>): (score: nat -> nat)
    ensures forall id: nat :: id < |nodes| && nodes[id].val !in g ==> score(id) == 0
    ensures forall id: nat :: id < |nodes| && nodes[id].val in g ==> score(id) == |g[nodes[id].val]|
  {
    (id: nat) => if id < |nodes| then TermCount(g, nodes[id].val) else 0
  }

  /** Web front end: each round emits a frontier character contained in at least as many
      popular dictionary entries as any other frontier character. */
  lemma MostPopularFirst(nodes: seq<Node<Character>>, terms: seq<Term>, w: Walk)
    requires WellFormed(nodes) && IdsBelow(w.frontier, |nodes|) && w.frontier != []
    ensures var e := Step(nodes, ByScore(Popularity(nodes, GroupTermsByChars(terms))), w).order[|w.order|];
      && e in w.frontier && e < |nodes|
      && forall y :: y in w.frontier ==>
           |Filter(terms, PopularMentioning(nodes[y].val.writing))|
             <= |Filter(terms, PopularMentioning(nodes[e].val.writing))|
  {
    var score := Popularity(nodes, GroupTermsByChars(terms));
    HighestScoreFirst(nodes, score, w);
    var e := Step(nodes, ByScore(score), w).order[|w.order|];
    assert e < |nodes|;
    PopularityCounts(nodes, terms, e);
    forall y | y in w.frontier
      ensures |Filter(terms, PopularMentioning(nodes[y].val.writing))|
                <= |Filter(terms, PopularMentioning(nodes[e].val.writing))|
    {
      assert y < |nodes|;
      PopularityCounts(nodes, terms, y);
    }
  }

  /** The web score of a node counts the popular entries containing its character. */
  lemma PopularityCounts(nodes: seq<Node<Character>>, terms: seq<Term>, id: nat)
    requires id < |nodes|
    ensures Popularity(nodes, GroupTermsByChars(terms))(id) == |Filter(terms, PopularMentioning(nodes[id].val.writing))|
  {
    ScoresCount(terms, nodes[id].val.writing);
  }

  /** The command-line score of a node counts the entries containing its character. */
  lemma FrequencyCounts(nodes: seq<Node<char>>, terms: seq<Term>, id: nat)
    requires id < |nodes|
    ensures Frequency(nodes, GroupTermsByChars(terms))(id) == |Filter(terms, Mentioning(nodes[id].val))|
  {
    ScoresCount(terms, nodes[id].val);
  }

  /** Command-line program: each round emits a frontier character contained in at least as
      many dictionary entries as any other frontier character. */
  lemma MostFrequentFirst(nodes: seq<Node<char>>, terms: seq<Term>, w: Walk)
    requires WellFormed(nodes) && IdsBelow(w.frontier, |nodes|) && w.frontier != []
    ensures var e := Step(nodes, ByScore(Frequency(nodes, GroupTermsByChars(terms))), w).order[|w.order|];
      && e in w.frontier && e < |nodes|
      && forall y :: y in w.frontier ==>
           |Filter(terms, Mentioning(nodes[y].val))| <= |Filter(terms, Mentioning(nodes[e].val))|
  {
    var score := Frequency(nodes, GroupTermsByChars(terms));
    HighestScoreFirst(nodes, score, w);
    var e := Step(nodes, ByScore(score), w).order[|w.order|];
    assert e < |nodes|;
    FrequencyCounts(nodes, terms, e);
    forall y | y in w.frontier
      ensures |Filter(terms, Mentioning(nodes[y].val))| <= |Filter(terms, Mentioning(nodes[e].val))|
    {
      assert y < |nodes|;
      FrequencyCounts(nodes, terms, y);
    }
  }
}
