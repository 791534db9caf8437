/** `group_terms_by_chars` and the two scores the comparators read off its result: the index
    from each character to the dictionary entries whose writings contain it. */
module Grouping {
  import opened Common
  import opened Terms

  /** The distinct characters of an entry's writings (the inner `HashSet` fold). */
  function CharsOf(t: Term): set<char>
  {
    set k, c | 0 <= k < |t.writings| && c in t.writings[k] :: c
  }

  /** Whether `c` occurs in one of the writings of `t`. */
  function Mentioning(c: char): Term -> bool
  {
    (t: Term) => c in CharsOf(t)
  }

  /** One step of the outer fold: `t` is pushed once onto the list of each of its characters. */
  function AddTerm(g: map<char, seq<Term>>, t: Term): (r: map<char, seq<Term>>)
    ensures r.Keys == g.Keys + CharsOf(t)
  {
    map c | c in g.Keys + CharsOf(t) ::
      (if c in g then g[c] else []) + (if c in CharsOf(t) then [t] else [])
  }

  /** `group_terms_by_chars`: the entries folded in from first to last. */
  function GroupTermsByChars(terms: seq<Term>): (g: map<char, seq<Term>>)
    ensures forall c :: c in g ==> g[c] != [] && |g[c]| <= |terms|
  {
    if terms == [] then map[]
    else AddTerm(GroupTermsByChars(terms[..|terms| - 1]), terms[|terms| - 1])
  }

  /** The index has a key for exactly the characters that occur in some writing, and lists
      under each of them the entries that contain it, once each, in input order. */
  lemma GroupedTerms(terms: seq<Term>)
    ensures forall c :: c in GroupTermsByChars(terms) <==>
      exists k :: 0 <= k < |terms| && c in CharsOf(terms[k])
    ensures forall c :: c in GroupTermsByChars(terms) ==>
      GroupTermsByChars(terms)[c] == Filter(terms, Mentioning(c))
  {
    forall c ensures c in GroupTermsByChars(terms) <==> exists k :: 0 <= k < |terms| && c in CharsOf(terms[k]) {
      GroupedList(terms, c);
      Mentioned(terms, c);
    }
    forall c | c in GroupTermsByChars(terms) ensures GroupTermsByChars(terms)[c] == Filter(terms, Mentioning(c)) {
      GroupedList(terms, c);
    }
  }

  /** Some entry contains `c` exactly when filtering on `c` keeps something. */
  lemma Mentioned(terms: seq<Term>, c: char)
    ensures Filter(terms, Mentioning(c)) != [] <==> exists k :: 0 <= k < |terms| && c in CharsOf(terms[k])
  {
    FilterAllOrNone(terms, Mentioning(c));
    FilterKeeps(terms, Mentioning(c));
    var f := Filter(terms, Mentioning(c));
    if f != [] {
      assert f[0] in terms && Mentioning(c)(f[0]);
    }
  }

  /** What the index holds for one character: the filtered input, and no key when that is empty. */
  lemma {:induction false} GroupedList(terms: seq<Term>, c: char)
    ensures c in GroupTermsByChars(terms) <==> Filter(terms, Mentioning(c)) != []
    ensures c in GroupTermsByChars(terms) ==> GroupTermsByChars(terms)[c] == Filter(terms, Mentioning(c))
  {
    if terms != [] {
      var front := terms[..|terms| - 1];
      var t := terms[|terms| - 1];
      GroupedList(front, c);
      assert terms == front + [t];
      FilterAppend(front, [t], Mentioning(c));
    }
  }

  /** A term is listed under `c` as often as it occurs in the input if it contains `c`, and
      not at all otherwise. */
  lemma GroupedOnce(terms: seq<Term>, c: char, t: Term)
    requires c in GroupTermsByChars(terms)
    ensures Occ(GroupTermsByChars(terms)[c], t) == if c in CharsOf(t) then Occ(terms, t) else 0
  {
    GroupedTerms(terms);
    FilterOcc(terms, Mentioning(c), t);
  }

  predicate IsPopular(t: Term)
  {
    t.popular
  }

  /** The web front end's score: the number of popular entries listed under `c`, 0 when `c`
      has no list. */
  function PopularScore(g: map<char, seq<Term>>, c: char): (n: nat)
    ensures n <= TermCount(g, c)
  {
    if c in g then |Filter(g[c], IsPopular)| else 0
  }

  /** The command-line program's score: the number of entries listed under `c`, 0 when `c`
      has no list. */
  function TermCount(g: map<char, seq<Term>>, c: char): (n: nat)
    ensures n == 0 <==> c !in g || g[c] == []
  {
    if c in g then |g[c]| else 0
  }

  /** Whether `t` is popular and contains `c`. */
  function PopularMentioning(c: char): Term -> bool
  {
    (t: Term) => t.popular && c in CharsOf(t)
  }

  /** On the index of a dictionary, the two scores count the entries containing `c`, popular
      ones only for the web front end. */
  lemma ScoresCount(terms: seq<Term>, c: char)
    ensures TermCount(GroupTermsByChars(terms), c) == |Filter(terms, Mentioning(c))|
    ensures PopularScore(GroupTermsByChars(terms), c) == |Filter(terms, PopularMentioning(c))|
  {
    GroupedTerms(terms);
    var g := GroupTermsByChars(terms);
    FilterFilter(terms, Mentioning(c), IsPopular, PopularMentioning(c));
    if c !in g {
      FilterAllOrNone(terms, Mentioning(c));
      FilterAllOrNone(terms, PopularMentioning(c));
    }
  }
}
