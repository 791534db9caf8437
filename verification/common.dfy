/** Small shared vocabulary: optional values, fallible results and the three-way ordering
    that comparators return (Rust's `Option`, `Result` and `std::cmp::Ordering`). */
module Common {

  datatype Option<T> = None | Some(value: T)

  /** A computation that either yields a value or stops with an error. The parsers use `Err`
      for every input on which the original program panics (an `unwrap` on nothing, an
      out-of-range index, an unknown entry). */
  datatype Result<T, E> = Ok(value: T) | Err(error: E)

  datatype Ordering = Less | Equal | Greater

  /** `a.cmp(&b)` on unsigned integers. */
  function Compare(a: nat, b: nat): (o: Ordering)
    ensures o == Less <==> a < b
    ensures o == Greater <==> b < a
  {
    if a < b then Less else if b < a then Greater else Equal
  }

  /** What a sort needs from its comparator: `Less` and `Greater` are mirror images, and
      "not greater" is transitive, so the comparator is a total preorder. */
  ghost predicate TotalPreorder(cmp: (nat, nat) -> Ordering)
  {
    && (forall a, b :: cmp(a, b) == Less <==> cmp(b, a) == Greater)
    && (forall a, b, c :: cmp(a, b) != Greater && cmp(b, c) != Greater ==> cmp(a, c) != Greater)
  }

  /** Concatenation is associative. */
  lemma AppendAssoc<T>(a: seq<T>, b: seq<T>, c: seq<T>)
    ensures a + (b + c) == (a + b) + c
  {
  }

  /** A sequence with `x` put in front starts with `x` and continues with the rest. */
  lemma ConsParts<T>(x: T, s: seq<T>)
    ensures ([x] + s)[0] == x && ([x] + s)[1..] == s
  {
  }

  /** A non-empty sequence is its first element put in front of the rest. */
  lemma HeadTail<T>(s: seq<T>)
    requires s != []
    ensures s == [s[0]] + s[1..]
  {
  }

  /** Number of occurrences of `x` in `s`. */
  function Occ<T(==)>(s: seq<T>, x: T): nat
  {
    multiset(s)[x]
  }

  /** Counting in a concatenation: the count in each part. */
  lemma OccAppend<T>(a: seq<T>, b: seq<T>, x: T)
    ensures Occ(a + b, x) == Occ(a, x) + Occ(b, x)
  {
    assert multiset(a + b) == multiset(a) + multiset(b);
  }

  /** Number of occurrences of `x` in `s`, counted element by element. */
  function Tally<T(==)>(s: seq<T>, x: T): nat
  {
    if s == [] then 0 else (if s[0] == x then 1 else 0) + Tally(s[1..], x)
  }

  /** Counting element by element agrees with the multiset count. */
  lemma {:induction false} TallyOcc<T>(s: seq<T>, x: T)
    ensures Tally(s, x) == Occ(s, x)
  {
    if s != [] {
      TallyOcc(s[1..], x);
      assert s == [s[0]] + s[1..];
    }
  }

  /** Counting in a concatenation: the count in each part. */
  lemma {:induction false} TallyAppend<T>(a: seq<T>, b: seq<T>, x: T)
    ensures Tally(a + b, x) == Tally(a, x) + Tally(b, x)
  {
    if a == [] {
      assert a + b == b;
    } else {
      TallyAppend(a[1..], b, x);
      assert (a + b)[1..] == a[1..] + b;
    }
  }

  /** The elements of `s` that satisfy `p`, in their original order (`iter().filter(p)`). */
  function Filter<T>(s: seq<T>, p: T -> bool): (r: seq<T>)
    ensures |r| <= |s|
  {
    if s == [] then []
    else (if p(s[0]) then [s[0]] else []) + Filter(s[1..], p)
  }

  /** Filtering keeps only elements of `s` that satisfy `p`. */
  lemma {:induction false} FilterKeeps<T>(s: seq<T>, p: T -> bool)
    ensures forall k :: 0 <= k < |Filter(s, p)| ==> Filter(s, p)[k] in s && p(Filter(s, p)[k])
  {
    if s != [] {
      FilterKeeps(s[1..], p);
    }
  }

  /** Filtering keeps each element that satisfies `p` as often as it occurs, and drops the rest. */
  lemma {:induction false} FilterOcc<T>(s: seq<T>, p: T -> bool, x: T)
    ensures Occ(Filter(s, p), x) == if p(x) then Occ(s, x) else 0
  {
    if s != [] {
      FilterOcc(s[1..], p, x);
      HeadTail(s);
      OccAppend([s[0]], s[1..], x);
      OccAppend(if p(s[0]) then [s[0]] else [], Filter(s[1..], p), x);
    }
  }

  /** Filtering a concatenation filters each part, keeping the order. */
  lemma {:induction false} FilterAppend<T>(a: seq<T>, b: seq<T>, p: T -> bool)
    ensures Filter(a + b, p) == Filter(a, p) + Filter(b, p)
  {
    if a == [] {
      assert a + b == b;
    } else {
      var x, rest := a[0], a[1..];
      HeadTail(a);
      FilterAppend(rest, b, p);
      FilterCons(x, rest, p);
      AppendAssoc([x], rest, b);
      FilterCons(x, rest + b, p);
      AppendAssoc(if p(x) then [x] else [], Filter(rest, p), Filter(b, p));
    }
  }

  /** Filtering a sequence with `x` put in front. */
  lemma FilterCons<T>(x: T, s: seq<T>, p: T -> bool)
    ensures Filter([x] + s, p) == (if p(x) then [x] else []) + Filter(s, p)
  {
    ConsParts(x, s);
  }

  /** Filtering keeps a sequence whose every element qualifies, and empties one where none does. */
  lemma {:induction false} FilterAllOrNone<T>(s: seq<T>, p: T -> bool)
    ensures (forall k :: 0 <= k < |s| ==> p(s[k])) ==> Filter(s, p) == s
    ensures (forall k :: 0 <= k < |s| ==> !p(s[k])) ==> Filter(s, p) == []
  {
    if s != [] {
      FilterAllOrNone(s[1..], p);
      assert forall k :: 0 <= k < |s[1..]| ==> s[1..][k] == s[k + 1];
      assert s == [s[0]] + s[1..];
    }
  }

  /** Filtering twice keeps the elements that pass both tests. */
  lemma {:induction false} FilterFilter<T>(s: seq<T>, p: T -> bool, q: T -> bool, both: T -> bool)
    requires forall x :: both(x) == (p(x) && q(x))
    ensures Filter(Filter(s, p), q) == Filter(s, both)
  {
    if s != [] {
      FilterFilter(s[1..], p, q, both);
      FilterAppend(if p(s[0]) then [s[0]] else [], Filter(s[1..], p), q);
    }
  }

  /** Parses every entry in turn and stops at the first one that fails. */
  function ParseAll<S, X, E>(entries: seq<S>, parse: S -> Result<X, E>): Result<seq<X>, E>
  {
    if entries == [] then Ok([])
    else
      match parse(entries[0])
      case Err(e) => Err(e)
      case Ok(t) =>
        match ParseAll(entries[1..], parse)
        case Err(e) => Err(e)
        case Ok(ts) => Ok([t] + ts)
  }

  /** Parsing one entry more at the end: an earlier failure stands, and otherwise the new
      entry adds its value or its error. */
  lemma {:induction false} ParseAllSnoc<S, X, E>(entries: seq<S>, last: S, parse: S -> Result<X, E>)
    ensures ParseAll(entries + [last], parse) ==
      match ParseAll(entries, parse)
      case Err(e) => Err(e)
      case Ok(vs) => if parse(last).Ok? then Ok(vs + [parse(last).value]) else Err(parse(last).error)
  {
    if entries == [] {
      assert entries + [last] == [last];
      assert [last][1..] == [];
      if parse(last).Ok? {
        assert [parse(last).value] + [] == [] + [parse(last).value];
      }
    } else {
      ParseAllSnoc(entries[1..], last, parse);
      assert (entries + [last])[0] == entries[0];
      assert (entries + [last])[1..] == entries[1..] + [last];
      var r := ParseAll(entries[1..], parse);
      if parse(entries[0]).Ok? && r.Ok? && parse(last).Ok? {
        assert [parse(entries[0]).value] + (r.value + [parse(last).value])
          == [parse(entries[0]).value] + r.value + [parse(last).value];
      }
    }
  }

  /** `ParseAll` succeeds exactly when every entry parses, and then yields the entries'
      values in order. */
  lemma {:induction false} ParseAllEach<S, X, E>(entries: seq<S>, parse: S -> Result<X, E>)
    ensures ParseAll(entries, parse).Ok? <==> forall k :: 0 <= k < |entries| ==> parse(entries[k]).Ok?
    ensures ParseAll(entries, parse).Ok? ==>
      && |ParseAll(entries, parse).value| == |entries|
      && forall k :: 0 <= k < |entries| ==> parse(entries[k]) == Ok(ParseAll(entries, parse).value[k])
  {
    if entries != [] {
      ParseAllEach(entries[1..], parse);
      assert forall k :: 0 < k < |entries| ==> entries[k] == entries[1..][k - 1];
    }
  }

  /** The error `ParseAll` reports is that of the first entry that fails. */
  lemma {:induction false} ParseAllFirstError<S, X, E>(entries: seq<S>, parse: S -> Result<X, E>)
    ensures ParseAll(entries, parse).Err? ==>
      exists k :: 0 <= k < |entries| && parse(entries[k]) == Err(ParseAll(entries, parse).error)
        && forall j :: 0 <= j < k ==> parse(entries[j]).Ok?
  {
    if entries != [] && parse(entries[0]).Ok? && ParseAll(entries, parse).Err? {
      var tail := entries[1..];
      ParseAllFirstError(tail, parse);
      var k :| 0 <= k < |tail| && parse(tail[k]) == Err(ParseAll(tail, parse).error)
        && forall j :: 0 <= j < k ==> parse(tail[j]).Ok?;
      assert entries[k + 1] == tail[k];
      assert forall j :: 0 < j <= k ==> entries[j] == tail[j - 1];
    }
  }

  /** A failure among the first entries is the failure of the whole. */
  lemma {:induction false} ParseAllPrefixErr<S, X, E>(a: seq<S>, b: seq<S>, parse: S -> Result<X, E>)
    requires ParseAll(a, parse).Err?
    ensures ParseAll(a + b, parse) == Err(ParseAll(a, parse).error)
  {
    assert (a + b)[0] == a[0] && (a + b)[1..] == a[1..] + b;
    if parse(a[0]).Ok? {
      ParseAllPrefixErr(a[1..], b, parse);
    }
  }

  /** Parsing the entries up to and including entry `i`, from the result up to entry `i`: a
      failure of entry `i` after a clean prefix is the failure of all the entries. */
  lemma ParseAllUpTo<S, X, E>(entries: seq<S>, i: nat, parse: S -> Result<X, E>)
    requires i < |entries|
    ensures ParseAll(entries[..i + 1], parse) ==
      match ParseAll(entries[..i], parse)
      case Err(e) => Err(e)
      case Ok(vs) => if parse(entries[i]).Ok? then Ok(vs + [parse(entries[i]).value]) else Err(parse(entries[i]).error)
    ensures ParseAll(entries[..i], parse).Ok? && parse(entries[i]).Err? ==>
      ParseAll(entries, parse) == Err(parse(entries[i]).error)
  {
    assert entries[..i + 1] == entries[..i] + [entries[i]];
    ParseAllSnoc(entries[..i], entries[i], parse);
    if ParseAll(entries[..i], parse).Ok? && parse(entries[i]).Err? {
      ParseAllPrefixErr(entries[..i + 1], entries[i + 1..], parse);
      assert entries == entries[..i + 1] + entries[i + 1..];
    }
  }

  /** A result of `ParseAll` with `acc` put in front of its values. */
  function After<X, E>(acc: seq<X>, r: Result<seq<X>, E>): Result<seq<X>, E>
  {
    match r
    case Ok(ts) => Ok(acc + ts)
    case Err(e) => Err(e)
  }

  /** Parsing a first entry and the rest. */
  lemma ParseAllCons<S, X, E>(line: S, rest: seq<S>, parse: S -> Result<X, E>)
    ensures ParseAll([line] + rest, parse) ==
      if parse(line).Ok? then After([parse(line).value], ParseAll(rest, parse)) else Err(parse(line).error)
  {
    assert ([line] + rest)[0] == line && ([line] + rest)[1..] == rest;
  }

  /** Putting `a + b` in front is putting `b`, then `a`, in front. */
  lemma AfterAfter<X, E>(a: seq<X>, b: seq<X>, r: Result<seq<X>, E>)
    ensures After(a + b, r) == After(a, After(b, r))
  {
    if r.Ok? {
      assert a + b + r.value == a + (b + r.value);
    }
  }
}
