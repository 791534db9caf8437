/** `parse_characters`: the character file, one tab-separated line per character, becomes the
    dependency graph. Line `i` gives node `i`; its first field is the character, its second
    field lists the characters it is built from (its parents). The web front end reads five
    more fields into a `Character`; the command-line program keeps the bare character. */
module Characters {
  import opened Common
  import opened Text
  import opened Arena
  import opened TraversalProps
  import opened Graphs

  /** The payload of a node in the web front end. `strokeCount` is a `u8`. */
  datatype Character = Character(writing: char, isRadical: bool, strokeCount: nat, meaning: string,
                                 readings: seq<string>, note: Option<string>)

  /** The panics of `parse_characters`: an empty first field, a missing field, a stroke count
      that is not a `u8`, and a parent that no line defines. */
  datatype CharError = EmptyWriting | MissingField | BadStrokeCount | UndefinedParent(parent: char)

  /** What one line contributes: its character, its parents' characters in order, and its
      payload. */
  datatype Line<V> = Line(writing: char, parents: string, val: V)

  /** The web front end's reading of one line. The checks come in the order the fields are
      used: the first field's character, the parents, the stroke count, then the last four
      fields. */
  function CharacterLine(l: string): (r: Result<Line<Character>, CharError>)
    ensures var fs := Split(l, '\t');
      && (r == Err(EmptyWriting) <==> fs[0] == "")
      && (r == Err(BadStrokeCount) <==> fs[0] != "" && 3 <= |fs| && ParseU8(fs[2]).None?)
      && (r == Err(MissingField) <==>
            fs[0] != "" && (|fs| < 3 || (ParseU8(fs[2]).Some? && |fs| < 7)))
    ensures r.Ok? ==> var fs := Split(l, '\t'); var c := r.value.val;
      && l != [] && r.value.writing == l[0] && c.writing == l[0]
      && 7 <= |fs| && r.value.parents == fs[1]
      && ParseU8(fs[2]) == Some(c.strokeCount) && c.strokeCount < 256
      && |c.readings| == |Split(fs[3], '、')|
      && (forall k :: 0 <= k < |c.readings| ==> c.readings[k] == Trim(Split(fs[3], '、')[k]))
      && c.meaning == fs[4]
      && (c.isRadical <==> fs[5] == "1")
      && (c.note == None <==> fs[6] == "")
      && (c.note != None ==> c.note.value == fs[6])
  {
    var fs := Split(l, '\t');
    SplitHead(l, '\t');
    if fs[0] == "" then Err(EmptyWriting)
    else if |fs| < 2 then Err(MissingField)
    else
      var parents := FirstChars(SplitEmpty(fs[1]));
      CharsOfSplitEmpty(fs[1]);
      if |fs| < 3 then Err(MissingField)
      else match ParseU8(fs[2])
        case None => Err(BadStrokeCount)
        case Some(strokes) =>
          if |fs| < 7 then Err(MissingField)
          else
            RadicalFlagSpelling(fs[5]);
            var readings := Split(fs[3], '、');
            var c := fs[0][0];
            Ok(Line(c, parents, Character(
              c, EqIgnoreAsciiCase(fs[5], "1"), strokes, fs[4],
              seq(|readings|, k requires 0 <= k < |readings| => Trim(readings[k])),
              if fs[6] == "" then None else Some(fs[6]))))
  }

  /** The command-line program's reading of one line: the character and its parents. */
  function CharLine(l: string): (r: Result<Line<char>, CharError>)
    ensures var fs := Split(l, '\t');
      && (r == Err(EmptyWriting) <==> fs[0] == "")
      && (r == Err(MissingField) <==> fs[0] != "" && |fs| < 2)
    ensures r.Ok? ==> var fs := Split(l, '\t');
      && l != [] && r.value.writing == l[0] && r.value.val == l[0]
      && 2 <= |fs| && r.value.parents == fs[1]
  {
    var fs := Split(l, '\t');
    SplitHead(l, '\t');
    if fs[0] == "" then Err(EmptyWriting)
    else if |fs| < 2 then Err(MissingField)
    else
      CharsOfSplitEmpty(fs[1]);
      Ok(Line(fs[0][0], FirstChars(SplitEmpty(fs[1])), fs[0][0]))
  }

  /** No character is defined by two lines (the original keeps only the last of them). */
  ghost predicate DistinctWritings<V>(es: seq<Line<V>>)
  {
    forall i, j :: 0 <= i < j < |es| ==> es[i].writing != es[j].writing
  }

  /** The first line that defines `c`, hence its node id; `|es|` when no line does. */
  ghost function IdOf<V>(es: seq<Line<V>>, c: char): (i: nat)
    ensures i <= |es|
    ensures i < |es| ==> es[i].writing == c
  {
    if es == [] then 0
    else if es[0].writing == c then 0
    else 1 + IdOf(es[1..], c)
  }

  /** Some line defines `c`. */
  ghost predicate Defines<V>(es: seq<Line<V>>, c: char)
  {
    IdOf(es, c) < |es|
  }

  /** No line before the first one defining `c` defines it: with one line per character,
      the line defining `c` is the only one, and a character no line finds is defined
      nowhere. */
  lemma {:induction false} IdOfFirst<V>(es: seq<Line<V>>, c: char)
    ensures forall j :: 0 <= j < IdOf(es, c) ==> es[j].writing != c
  {
    if es != [] && es[0].writing != c {
      IdOfFirst(es[1..], c);
      forall j | 0 < j < IdOf(es, c) ensures es[j].writing != c {
        assert es[j] == es[1..][j - 1];
      }
    }
  }

  /** `Defines` holds exactly when some line has `c` as its character. */
  lemma DefinesSome<V>(es: seq<Line<V>>, c: char)
    ensures Defines(es, c) <==> exists j :: 0 <= j < |es| && es[j].writing == c
  {
    IdOfFirst(es, c);
  }

  /** With one line per character, line `j` is the one defining its character. */
  lemma IdOfLine<V>(es: seq<Line<V>>, j: nat)
    requires DistinctWritings(es) && j < |es|
    ensures IdOf(es, es[j].writing) == j
  {
    IdOfFirst(es, es[j].writing);
  }

  /** Every parent named on line `i` is defined. */
  ghost predicate ParentsDefined<V>(es: seq<Line<V>>, i: nat)
    requires i < |es|
  {
    forall k :: 0 <= k < |es[i].parents| ==> Defines(es, es[i].parents[k])
  }

  /** Every parent named on a line is defined by some line. */
  ghost predicate AllDefined<V>(es: seq<Line<V>>)
  {
    forall i :: 0 <= i < |es| ==> ParentsDefined(es, i)
  }

  /** The ids of the characters `cs`, in order. */
  ghost function IdsOf<V>(es: seq<Line<V>>, cs: string): (r: seq<nat>)
    ensures |r| == |cs|
  {
    if cs == [] then [] else [IdOf(es, cs[0])] + IdsOf(es, cs[1..])
  }

  /** Each id is that of the character in the same place. */
  lemma {:induction false} IdsOfAt<V>(es: seq<Line<V>>, cs: string)
    ensures forall k :: 0 <= k < |cs| ==> IdsOf(es, cs)[k] == IdOf(es, cs[k])
  {
    if cs != [] {
      IdsOfAt(es, cs[1..]);
    }
  }

  /** `n` copies of `x`. */
  function Repeat<T>(x: T, n: nat): (r: seq<T>)
    ensures |r| == n
  {
    if n == 0 then [] else [x] + Repeat(x, n - 1)
  }

  lemma {:induction false} RepeatAll<T>(x: T, n: nat)
    ensures forall k :: 0 <= k < n ==> Repeat(x, n)[k] == x
  {
    if n > 0 {
      RepeatAll(x, n - 1);
    }
  }

  /** The children of character `c` among the first `n` lines: each line that names `c` as a
      parent, once per time it names it, in line order (the `children` map of the original,
      keyed by character). */
  ghost function KidChars<V>(es: seq<Line<V>>, n: nat, c: char): string
    requires n <= |es|
  {
    if n == 0 then [] else KidChars(es, n - 1, c) + Repeat(es[n - 1].writing, Tally(es[n - 1].parents, c))
  }

  /** The same children as node ids. */
  ghost function KidIds<V>(es: seq<Line<V>>, n: nat, c: char): (r: seq<nat>)
    requires n <= |es|
    ensures |r| == |KidChars(es, n, c)|
  {
    if n == 0 then [] else KidIds(es, n - 1, c) + Repeat<nat>(n - 1, Tally(es[n - 1].parents, c))
  }

  /** The children among the first `n` lines are nodes below `n`. */
  lemma {:induction false} KidIdsBelow<V>(es: seq<Line<V>>, n: nat, c: char)
    requires n <= |es|
    ensures IdsBelow(KidIds(es, n, c), n)
  {
    if n > 0 {
      var front, more := KidIds(es, n - 1, c), Repeat<nat>(n - 1, Tally(es[n - 1].parents, c));
      KidIdsBelow(es, n - 1, c);
      RepeatAll<nat>(n - 1, Tally(es[n - 1].parents, c));
      assert KidIds(es, n, c) == front + more;
      forall k | 0 <= k < |front + more| ensures (front + more)[k] < n {
        if k < |front| {
          assert (front + more)[k] == front[k];
        } else {
          assert (front + more)[k] == more[k - |front|];
        }
      }
    }
  }

  /** The ids of the parentless lines among the first `n`, ascending. */
  ghost function Roots<V>(es: seq<Line<V>>, n: nat): (r: seq<nat>)
    requires n <= |es|
    ensures IdsBelow(r, n)
  {
    if n == 0 then []
    else Roots(es, n - 1) + (if es[n - 1].parents == [] then [n - 1] else [])
  }

  /** The roots are exactly the parentless lines, each once, in line order. */
  lemma {:induction false} RootsExactly<V>(es: seq<Line<V>>, n: nat)
    requires n <= |es|
    ensures forall i :: 0 <= i < n ==> (i in Roots(es, n) <==> es[i].parents == [])
    ensures forall i, j :: 0 <= i < j < |Roots(es, n)| ==> Roots(es, n)[i] < Roots(es, n)[j]
  {
    if n > 0 {
      RootsExactly(es, n - 1);
    }
  }

  /** The node of line `i` once wired: its parents' ids and its children's ids. */
  ghost function Wired<V>(es: seq<Line<V>>, i: nat): (n: Node<V>)
    requires i < |es| && ParentsDefined(es, i)
  {
    Node(i, es[i].val, IdsOf(es, es[i].parents), KidIds(es, |es|, es[i].writing))
  }

  /** The arena `parse_characters` builds. */
  ghost function Built<V>(es: seq<Line<V>>): (r: seq<Node<V>>)
    requires AllDefined(es)
    ensures |r| == |es| && forall i :: 0 <= i < |es| ==> r[i] == Wired(es, i)
  {
    seq(|es|, i requires 0 <= i < |es| => Wired(es, i))
  }

  /** Node `i` is line `i`: it carries the line's payload, its parents are the nodes defining
      the line's parent characters, in the same order, and every link stays in the arena. */
  lemma BuiltWellFormed<V>(es: seq<Line<V>>)
    requires AllDefined(es)
    ensures WellFormed(Built(es))
    ensures forall i :: 0 <= i < |es| ==> Built(es)[i].val == es[i].val
    ensures forall i, k :: 0 <= i < |es| && 0 <= k < |es[i].parents| ==>
      es[Built(es)[i].parents[k]].writing == es[i].parents[k]
  {
    var nodes := Built(es);
    forall i | 0 <= i < |es|
      ensures nodes[i].id == i && IdsBelow(nodes[i].parents, |es|) && IdsBelow(nodes[i].children, |es|)
      ensures forall k :: 0 <= k < |es[i].parents| ==> es[nodes[i].parents[k]].writing == es[i].parents[k]
    {
      assert ParentsDefined(es, i);
      IdsOfAt(es, es[i].parents);
      KidIdsBelow(es, |es|, es[i].writing);
    }
  }

  lemma {:induction false} KidIdsTally<V>(es: seq<Line<V>>, n: nat, c: char, j: nat)
    requires n <= |es|
    ensures Tally(KidIds(es, n, c), j) == if j < n then Tally(es[j].parents, c) else 0
  {
    if n > 0 {
      var m := Tally(es[n - 1].parents, c);
      var front := KidIds(es, n - 1, c);
      KidIdsTally(es, n - 1, c, j);
      assert KidIds(es, n, c) == front + Repeat<nat>(n - 1, m);
      RepeatTally<nat>(n - 1, m, j);
      TallyAppend(front, Repeat<nat>(n - 1, m), j);
    }
  }

  lemma {:induction false} RepeatTally<T>(x: T, n: nat, y: T)
    ensures Tally(Repeat(x, n), y) == if x == y then n else 0
  {
    if n > 0 {
      RepeatTally(x, n - 1, y);
      assert Repeat(x, n) == [x] + Repeat(x, n - 1);
    }
  }

  lemma {:induction false} IdsOfTally<V>(es: seq<Line<V>>, cs: string, p: nat)
    requires DistinctWritings(es) && p < |es|
    ensures Tally(IdsOf(es, cs), p) == Tally(cs, es[p].writing)
  {
    if cs != [] {
      IdsOfTally(es, cs[1..], p);
      IdOfLine(es, p);
    }
  }

  /** The inverse-edge invariant `sort_by` relies on: node `c` lists `p` as a parent exactly as
      many times as `p` lists `c` as a child. */
  lemma BuiltConsistent<V>(es: seq<Line<V>>)
    requires AllDefined(es) && DistinctWritings(es)
    ensures Consistent(Built(es))
  {
    var nodes := Built(es);
    forall p, c | 0 <= p < |nodes| && 0 <= c < |nodes|
      ensures Occ(nodes[p].children, c) == Occ(nodes[c].parents, p)
    {
      var kids, parents := nodes[p].children, nodes[c].parents;
      assert ParentsDefined(es, c);
      assert kids == KidIds(es, |es|, es[p].writing) && parents == IdsOf(es, es[c].parents);
      TallyOcc<nat>(kids, c);
      TallyOcc<nat>(parents, p);
      KidIdsTally(es, |es|, es[p].writing, c);
      IdsOfTally(es, es[c].parents, p);
    }
  }

  /** The roots handed to the graph are exactly its parentless nodes, each once. */
  lemma BuiltRoots<V>(es: seq<Line<V>>)
    requires AllDefined(es)
    ensures RootsOnly(Built(es), Roots(es, |es|))
    ensures forall i :: 0 <= i < |es| && Built(es)[i].parents == [] ==> i in Roots(es, |es|)
  {
    RootsExactly(es, |es|);
  }

  /** Every child recorded for `c` is a defined character. */
  lemma {:induction false} KidCharsDefined<V>(es: seq<Line<V>>, n: nat, c: char)
    requires n <= |es|
    ensures forall k :: 0 <= k < |KidChars(es, n, c)| ==> Defines(es, KidChars(es, n, c)[k])
  {
    if n > 0 {
      KidCharsDefined(es, n - 1, c);
      var front := KidChars(es, n - 1, c);
      var more := Repeat(es[n - 1].writing, Tally(es[n - 1].parents, c));
      RepeatAll(es[n - 1].writing, Tally(es[n - 1].parents, c));
      IdOfFirst(es, es[n - 1].writing);
      forall k | 0 <= k < |front + more| ensures Defines(es, (front + more)[k]) {
        if k < |front| {
          assert (front + more)[k] == front[k];
        } else {
          assert (front + more)[k] == es[n - 1].writing;
        }
      }
    }
  }

  lemma {:induction false} IdsOfAppend<V>(es: seq<Line<V>>, a: string, b: string)
    ensures IdsOf(es, a + b) == IdsOf(es, a) + IdsOf(es, b)
  {
    if a != [] {
      IdsOfAppend(es, a[1..], b);
      assert (a + b)[1..] == a[1..] + b;
    } else {
      assert a + b == b;
    }
  }

  lemma {:induction false} IdsOfRepeat<V>(es: seq<Line<V>>, i: nat, m: nat)
    requires DistinctWritings(es) && i < |es|
    ensures IdsOf(es, Repeat(es[i].writing, m)) == Repeat(i, m)
  {
    if m > 0 {
      IdsOfRepeat(es, i, m - 1);
      IdOfLine(es, i);
      assert Repeat(es[i].writing, m)[1..] == Repeat(es[i].writing, m - 1);
    }
  }

  /** Mapping the children's characters to ids gives the children's ids. */
  lemma {:induction false} KidCharsIds<V>(es: seq<Line<V>>, n: nat, c: char)
    requires DistinctWritings(es) && n <= |es|
    ensures forall k :: 0 <= k < |KidChars(es, n, c)| ==> Defines(es, KidChars(es, n, c)[k])
    ensures IdsOf(es, KidChars(es, n, c)) == KidIds(es, n, c)
  {
    KidCharsDefined(es, n, c);
    if n > 0 {
      KidCharsIds(es, n - 1, c);
      var m := Tally(es[n - 1].parents, c);
      IdsOfRepeat(es, n - 1, m);
      IdsOfAppend(es, KidChars(es, n - 1, c), Repeat(es[n - 1].writing, m));
    }
  }

  lemma {:induction false} KidCharsPrefix<V>(es: seq<Line<V>>, more: seq<Line<V>>, n: nat, c: char)
    requires n <= |es|
    ensures KidChars(es + more, n, c) == KidChars(es, n, c)
  {
    if n > 0 {
      KidCharsPrefix(es, more, n - 1, c);
      assert (es + more)[n - 1] == es[n - 1];
    }
  }

  /** One line more adds its character to the children of each of its parents. */
  lemma KidCharsSnoc<V>(es: seq<Line<V>>, e: Line<V>, c: char)
    ensures KidChars(es + [e], |es| + 1, c) == KidChars(es, |es|, c) + Repeat(e.writing, Tally(e.parents, c))
  {
    var es' := es + [e];
    KidCharsPrefix(es, [e], |es|, c);
    assert es'[|es'| - 1] == e;
    assert KidChars(es', |es'|, c) == KidChars(es', |es|, c) + Repeat(e.writing, Tally(e.parents, c));
  }

  /** No two non-empty lines start with the same character: each character has one line. */
  ghost predicate UniqueCharacters(lines: seq<string>)
  {
    forall i, j :: 0 <= i < j < |lines| && lines[i] != [] && lines[j] != [] ==> lines[i][0] != lines[j][0]
  }

  /** The children recorded for `c`, none when `c` has no entry (`unwrap_or(&vec![])`). */
  function KidsOf(kids: map<char, string>, c: char): string
  {
    if c in kids then kids[c] else []
  }

  /** Looks the characters `cs` up in the index, in order; the first one missing is reported
      (`nodes.get(p).unwrap()`). */
  function Lookup(index: map<char, nat>, cs: string): (r: Result<seq<nat>, CharError>)
    ensures r.Ok? <==> forall k :: 0 <= k < |cs| ==> cs[k] in index
    ensures r.Ok? ==> |r.value| == |cs| && forall k :: 0 <= k < |cs| ==> r.value[k] == index[cs[k]]
    ensures r.Err? ==> r.error.UndefinedParent? && r.error.parent in cs && r.error.parent !in index
  {
    if cs == [] then Ok([])
    else if cs[0] !in index then Err(UndefinedParent(cs[0]))
    else
      var rest := Lookup(index, cs[1..]);
      if rest.Err? then rest else Ok([index[cs[0]]] + rest.value)
  }

  /** The children map after filing `w` under each of `ps` in turn (the inner `for p in &p`). */
  function Record(kids: map<char, string>, ps: string, w: char): (r: map<char, string>)
    ensures kids.Keys <= r.Keys && |r.Keys| <= |kids.Keys| + |ps|
    decreases ps
  {
    if ps == [] then kids else Record(kids[ps[0] := KidsOf(kids, ps[0]) + [w]], ps[1..], w)
  }

  /** Filing `w` under the characters `ps` adds it to the children of `c` once per time `ps`
      names `c`, after the children already there, and changes nothing else. */
  lemma {:induction false} RecordAdds(kids: map<char, string>, ps: string, w: char, c: char)
    decreases ps
    ensures KidsOf(Record(kids, ps, w), c) == KidsOf(kids, c) + Repeat(w, Tally(ps, c))
  {
    if ps != [] {
      var next := kids[ps[0] := KidsOf(kids, ps[0]) + [w]];
      RecordAdds(next, ps[1..], w, c);
      if ps[0] == c {
        assert KidsOf(next, c) == KidsOf(kids, c) + [w];
      } else {
        assert KidsOf(next, c) == KidsOf(kids, c);
      }
    }
  }

  /** Files `w` as a child of each of `parents`, once per mention. */
  method RecordChildren(kids: map<char, string>, parents: string, w: char) returns (kids': map<char, string>)
    ensures kids' == Record(kids, parents, w)
  {
    kids' := kids;
    for k := 0 to |parents|
      invariant Record(kids', parents[k..], w) == Record(kids, parents, w)
    {
      assert parents[k..][0] == parents[k] && parents[k..][1..] == parents[k + 1..];
      kids' := kids'[parents[k] := KidsOf(kids', parents[k]) + [w]];
    }
  }

  /** The children map of the first pass over the lines `es`. */
  ghost function KidMap<V>(es: seq<Line<V>>): map<char, string>
  {
    if es == [] then map[]
    else Record(KidMap(es[..|es| - 1]), es[|es| - 1].parents, es[|es| - 1].writing)
  }

  /** The map the first pass builds lists, for each character, exactly its children. */
  lemma {:induction false} KidMapChars<V>(es: seq<Line<V>>, c: char)
    ensures KidsOf(KidMap(es), c) == KidChars(es, |es|, c)
  {
    if es != [] {
      var front, last := es[..|es| - 1], es[|es| - 1];
      KidMapChars(front, c);
      RecordAdds(KidMap(front), last.parents, last.writing, c);
      assert front + [last] == es;
      KidCharsPrefix(front, [last], |front|, c);
    }
  }

  /** The index of the first pass over the lines `es`: each character's latest line. */
  ghost function IndexMap<V>(es: seq<Line<V>>): map<char, nat>
  {
    if es == [] then map[] else IndexMap(es[..|es| - 1])[es[|es| - 1].writing := |es| - 1]
  }

  /** The index maps each defined character to the line defining it. */
  ghost predicate Indexes<V>(es: seq<Line<V>>, index: map<char, nat>)
  {
    && (forall i :: 0 <= i < |es| ==> es[i].writing in index)
    && (forall c :: c in index ==> index[c] < |es| && es[index[c]].writing == c)
  }

  /** The index of the first pass knows every line's character, and each character it knows
      leads to a line defining it. */
  lemma {:induction false} IndexMapIndexes<V>(es: seq<Line<V>>)
    ensures Indexes(es, IndexMap(es))
  {
    if es != [] {
      var front := es[..|es| - 1];
      IndexMapIndexes(front);
      forall i | 0 <= i < |front| ensures es[i] == front[i] {
      }
    }
  }

  /** With one line per character, the index holds exactly the defined characters, each with
      its id. */
  lemma IndexIds<V>(es: seq<Line<V>>, index: map<char, nat>)
    requires DistinctWritings(es) && Indexes(es, index)
    ensures forall c :: c in index <==> Defines(es, c)
    ensures forall c :: c in index ==> index[c] == IdOf(es, c)
  {
    forall c | c in index ensures index[c] == IdOf(es, c) {
      IdOfLine(es, index[c]);
    }
  }

  /** With one line per character, looking characters up gives their ids. */
  lemma LookupIds<V>(es: seq<Line<V>>, index: map<char, nat>, cs: string)
    requires DistinctWritings(es) && Indexes(es, index)
    requires forall k :: 0 <= k < |cs| ==> Defines(es, cs[k])
    ensures Lookup(index, cs) == Ok(IdsOf(es, cs))
  {
    IndexIds(es, index);
    IdsOfAt(es, cs);
    var r := Lookup(index, cs);
    assert |r.value| == |IdsOf(es, cs)|;
    assert r.value == IdsOf(es, cs);
  }

  /** The nodes of the first pass: node `i` carries line `i`'s payload and no links yet. */
  function Unlinked<V>(es: seq<Line<V>>): (r: seq<Node<V>>)
    ensures |r| == |es|
  {
    if es == [] then [] else Unlinked(es[..|es| - 1]) + [NewNode(|es| - 1, es[|es| - 1].val)]
  }

  lemma {:induction false} UnlinkedAt<V>(es: seq<Line<V>>, i: nat)
    requires i < |es|
    ensures Unlinked(es)[i] == NewNode(i, es[i].val)
  {
    if i < |es| - 1 {
      UnlinkedAt(es[..|es| - 1], i);
    }
  }

  /** The first pass over the lines: parses each line in turn, stopping at the first failure,
      and records an unlinked node per line, the line defining each character, and the
      children of each character. */
  method ReadLines<V>(lines: seq<string>, parseLine: string -> Result<Line<V>, CharError>)
    returns (r: Result<seq<Line<V>>, CharError>, arena: seq<Node<V>>, index: map<char, nat>, kids: map<char, string>)
    ensures r == ParseAll(lines, parseLine)
    ensures r.Ok? ==> arena == Unlinked(r.value) && index == IndexMap(r.value) && kids == KidMap(r.value)
  {
    var es: seq<Line<V>> := [];
    arena, index, kids := [], map[], map[];
    var i := 0;
    while i < |lines|
      invariant i <= |lines| && |es| == i
      invariant ParseAll(lines[..i], parseLine) == Ok(es)
      invariant arena == Unlinked(es) && index == IndexMap(es) && kids == KidMap(es)
    {
      ParseAllUpTo(lines, i, parseLine);
      var p := parseLine(lines[i]);
      if p.Err? {
        r := Err(p.error);
        return;
      }
      var e := p.value;
      kids := RecordChildren(kids, e.parents, e.writing);
      assert (es + [e])[..i] == es;
      es := es + [e];
      arena := arena + [NewNode(i, e.val)];
      index := index[e.writing := i];
      i := i + 1;
    }
    assert lines[..i] == lines;
    r := Ok(es);
  }

  /** Looking up a line's parents and its recorded children wires its node. */
  lemma WiredByLookup<V>(es: seq<Line<V>>, index: map<char, nat>, kids: map<char, string>, i: nat)
    requires DistinctWritings(es) && Indexes(es, index) && i < |es|
    requires kids == KidMap(es)
    requires Lookup(index, es[i].parents).Ok?
    ensures ParentsDefined(es, i) && Lookup(index, KidsOf(kids, es[i].writing)).Ok?
    ensures Wired(es, i) == NewNode(i, es[i].val).(parents := Lookup(index, es[i].parents).value,
                                                   children := Lookup(index, KidsOf(kids, es[i].writing)).value)
  {
    IndexIds(es, index);
    LookupIds(es, index, es[i].parents);
    KidMapChars(es, es[i].writing);
    KidCharsIds(es, |es|, es[i].writing);
    LookupIds(es, index, KidsOf(kids, es[i].writing));
  }

  lemma RootsStep<V>(es: seq<Line<V>>, i: nat)
    requires i < |es|
    ensures Roots(es, i + 1) == if es[i].parents == [] then Roots(es, i) + [i] else Roots(es, i)
  {
  }

  /** Gives the unlinked node of line `i` its parents and children (the body of the second
      pass): an undefined parent is an error, and otherwise the node is wired. */
  method WireNode<V>(es: seq<Line<V>>, index: map<char, nat>, kids: map<char, string>, i: nat, node: Node<V>)
    returns (r: Result<Node<V>, CharError>)
    requires DistinctWritings(es) && Indexes(es, index) && i < |es| && node == NewNode(i, es[i].val)
    requires kids == KidMap(es)
    ensures r.Ok? <==> ParentsDefined(es, i)
    ensures r.Ok? ==> r.value == Wired(es, i)
    ensures r.Err? ==>
      && r.error.UndefinedParent? && !Defines(es, r.error.parent)
      && r.error.parent in es[i].parents
  {
    var ps := Lookup(index, es[i].parents);
    if ps.Err? {
      assert !ParentsDefined(es, i);
      return Err(ps.error);
    }
    var cs := Lookup(index, KidsOf(kids, es[i].writing));
    WiredByLookup(es, index, kids, i);
    r := Ok(node.(parents := ps.value, children := cs.value));
  }

  /** After wiring the first `i` nodes: their lines name defined parents only, they are wired,
      and the other nodes are still those of the first pass. */
  ghost predicate LinkedUpTo<V>(es: seq<Line<V>>, arena: seq<Node<V>>, nodes: seq<Node<V>>, i: nat)
    requires i <= |es| == |arena|
  {
    && |nodes| == |es|
    && (forall j :: 0 <= j < i ==> ParentsDefined(es, j) && nodes[j] == Wired(es, j))
    && nodes[i..] == arena[i..]
  }

  lemma LinkOne<V>(es: seq<Line<V>>, arena: seq<Node<V>>, nodes: seq<Node<V>>, i: nat, n: Node<V>)
    requires i < |es| == |arena| && LinkedUpTo(es, arena, nodes, i)
    requires ParentsDefined(es, i) && n == Wired(es, i)
    ensures LinkedUpTo(es, arena, nodes[i := n], i + 1)
  {
    assert nodes[i := n][i + 1..] == nodes[i + 1..];
  }

  lemma AllWired<V>(es: seq<Line<V>>, arena: seq<Node<V>>, nodes: seq<Node<V>>)
    requires |es| == |arena| && LinkedUpTo(es, arena, nodes, |es|)
    ensures AllDefined(es) && nodes == Built(es)
  {
  }

  /** The second pass: wires each node and collects the parentless ones, stopping at the first
      line (in line order) that names an undefined parent. */
  method Link<V>(es: seq<Line<V>>, arena: seq<Node<V>>, index: map<char, nat>, kids: map<char, string>)
    returns (r: Result<seq<Node<V>>, CharError>, roots: seq<nat>)
    requires DistinctWritings(es) && Indexes(es, index)
    requires arena == Unlinked(es)
    requires kids == KidMap(es)
    ensures r.Ok? <==> AllDefined(es)
    ensures r.Ok? ==> r.value == Built(es) && roots == Roots(es, |es|)
    ensures r.Err? ==>
      && r.error.UndefinedParent? && !Defines(es, r.error.parent)
      && exists i :: 0 <= i < |es| && r.error.parent in es[i].parents
  {
    var nodes := arena;
    roots := [];
    for i := 0 to |es|
      invariant LinkedUpTo(es, arena, nodes, i)
      invariant roots == Roots(es, i)
    {
      UnlinkedAt(es, i);
      assert nodes[i] == nodes[i..][0] == arena[i];
      var w := WireNode(es, index, kids, i, nodes[i]);
      if w.Err? {
        assert !ParentsDefined(es, i);
        r := Err(w.error);
        return;
      }
      RootsStep(es, i);
      if w.value.parents == [] {
        roots := roots + [i];
      }
      LinkOne(es, arena, nodes, i, w.value);
      nodes := nodes[i := w.value];
    }
    AllWired(es, arena, nodes);
    r := Ok(nodes);
  }

  /** With one line per character, the parsed lines define distinct characters. */
  lemma DistinctLines<V>(lines: seq<string>, parseLine: string -> Result<Line<V>, CharError>)
    requires forall l :: parseLine(l).Ok? ==> l != [] && parseLine(l).value.writing == l[0]
    requires UniqueCharacters(lines)
    ensures ParseAll(lines, parseLine).Ok? ==> DistinctWritings(ParseAll(lines, parseLine).value)
  {
    ParseAllEach(lines, parseLine);
  }

  /** What `parse_characters` yields for the lines read as `parsed`: the first line that does
      not parse stops it with that line's error; otherwise it fails exactly when a line names
      an undefined parent, and it succeeds with the arena `Built` and the parentless nodes as
      the graph's node sequence. */
  ghost predicate Outcome<V>(parsed: Result<seq<Line<V>>, CharError>, r: Result<Graph<V>, CharError>)
    reads if r.Ok? then {r.value} else {}
  {
    if parsed.Err? then r.Err? && r.error == parsed.error
    else
      var es := parsed.value;
      && DistinctWritings(es)
      && (r.Ok? <==> AllDefined(es))
      && (r.Ok? ==> r.value.nodes == Built(es) && r.value.children == Roots(es, |es|))
      && (r.Err? ==>
            && r.error.UndefinedParent? && !Defines(es, r.error.parent)
            && exists i :: 0 <= i < |es| && r.error.parent in es[i].parents)
  }

  /** `parse_characters` over the lines of the character file, reading each line with
      `parseLine`: the first pass creates the nodes, the second links them. A graph it returns
      is a valid input to `sort_by`: well formed, with matching parent and child lists, and
      with exactly its parentless nodes, each once, as the starting node sequence. */
  method Assemble<V>(lines: seq<string>, parseLine: string -> Result<Line<V>, CharError>)
    returns (r: Result<Graph<V>, CharError>)
    requires forall l :: parseLine(l).Ok? ==> l != [] && parseLine(l).value.writing == l[0]
    requires UniqueCharacters(lines)
    ensures Outcome(ParseAll(lines, parseLine), r)
    ensures r.Ok? ==> fresh(r.value) && r.value.Valid() && Consistent(r.value.nodes)
    ensures r.Ok? ==> RootsOnly(r.value.nodes, r.value.children)
  {
    var parsed, arena, index, kids := ReadLines(lines, parseLine);
    if parsed.Err? {
      return Err(parsed.error);
    }
    var es := parsed.value;
    DistinctLines(lines, parseLine);
    IndexMapIndexes(es);
    var linked, roots := Link(es, arena, index, kids);
    if linked.Err? {
      return Err(linked.error);
    }
    BuiltWellFormed(es);
    BuiltConsistent(es);
    BuiltRoots(es);
    var g := new Graph(linked.value, roots);
    r := Ok(g);
  }

  /** `parse_characters` of the web front end, over the text of the character file. */
  method ParseCharacters(s: string) returns (r: Result<Graph<Character>, CharError>)
    requires UniqueCharacters(Split(s, '\n'))
    ensures Outcome(ParseAll(Split(s, '\n'), CharacterLine), r)
    ensures r.Ok? ==> fresh(r.value) && r.value.Valid() && Consistent(r.value.nodes)
    ensures r.Ok? ==> RootsOnly(r.value.nodes, r.value.children)
  {
    r := Assemble(Split(s, '\n'), CharacterLine);
  }

  /** `parse_characters` of the command-line program, over the text of `data/characters`. */
  method ParseCharGraph(s: string) returns (r: Result<Graph<char>, CharError>)
    requires UniqueCharacters(Split(s, '\n'))
    ensures Outcome(ParseAll(Split(s, '\n'), CharLine), r)
    ensures r.Ok? ==> fresh(r.value) && r.value.Valid() && Consistent(r.value.nodes)
    ensures r.Ok? ==> RootsOnly(r.value.nodes, r.value.children)
  {
    r := Assemble(Split(s, '\n'), CharLine);
  }
}
