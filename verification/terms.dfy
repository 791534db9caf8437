/** Dictionary entries. A line of the dictionary reads `W1;W2 [R1;R2] /meaning/meaning/(P)/ID/`:
    `/` separates the fields, the first field holds the writings and, in brackets, the readings,
    the last non-empty field is the entry id, and a middle field `(P)` marks a popular entry.
    `parse_term` exists twice: the web front end (src/lib.rs) trims every writing and reading,
    the command-line program (src/main.rs) keeps them as split. */
module Terms {
  import opened Common
  import opened Text
  import opened Patterns

  datatype Term = Term(id: string, writings: seq<string>, readings: Option<seq<string>>,
                       meanings: seq<string>, popular: bool)

  /** The panics of `parse_term`: fewer than two non-empty fields (the slice of middle fields is
      out of range), or a first field neither pattern matches. */
  datatype TermError = TooFewFields | UnknownEntry(line: string)

  /** The popularity marker, `(P)` ignoring ASCII case. */
  predicate IsMarker(f: string)
  {
    EqIgnoreAsciiCase(f, "(P)")
  }

  /** A middle field that is kept as a meaning. */
  predicate IsMeaning(f: string)
  {
    !IsMarker(f)
  }

  predicate NonEmpty(f: string)
  {
    f != ""
  }

  /** `s.split("/").filter(|s| !s.is_empty())` collected. */
  function Fields(s: string): (r: seq<string>)
    ensures forall k :: 0 <= k < |r| ==> r[k] != "" && '/' !in r[k]
  {
    var parts := Split(s, '/');
    var r := Filter(parts, NonEmpty);
    FilterKeeps(parts, NonEmpty);
    assert forall k :: 0 <= k < |r| ==> '/' !in r[k] by {
      forall k | 0 <= k < |r| ensures '/' !in r[k] {
        var j :| 0 <= j < |parts| && parts[j] == r[k];
      }
    }
    r
  }

  /** A group split on `;`, each piece trimmed in the web front end. */
  function Pieces(group: string, trimmed: bool): (r: seq<string>)
    ensures |r| == |Split(group, ';')| == Occ(group, ';') + 1
    ensures !trimmed ==> Join(r, ';') == group
    ensures trimmed ==> forall k :: 0 <= k < |r| ==> r[k] == Trim(Split(group, ';')[k])
  {
    var parts := Split(group, ';');
    SplitCount(group, ';');
    JoinSplit(group, ';');
    if trimmed then seq(|parts|, k requires 0 <= k < |parts| => Trim(parts[k])) else parts
  }

  /** The `filter_map` over the middle fields: markers are dropped and raise the popularity
      flag, every other field is kept as a meaning, in order. */
  function SortMiddle(middle: seq<string>): (r: (seq<string>, bool))
    ensures r.1 <==> exists k :: 0 <= k < |middle| && IsMarker(middle[k])
    ensures forall k :: 0 <= k < |r.0| ==> r.0[k] in middle && !IsMarker(r.0[k])
    ensures forall f :: !IsMarker(f) ==> Occ(r.0, f) == Occ(middle, f)
  {
    var meanings := Filter(middle, IsMeaning);
    FilterKeeps(middle, IsMeaning);
    assert forall f :: !IsMarker(f) ==> Occ(meanings, f) == Occ(middle, f) by {
      forall f | !IsMarker(f) ensures Occ(meanings, f) == Occ(middle, f) {
        FilterOcc(middle, IsMeaning, f);
      }
    }
    (meanings, exists k :: 0 <= k < |middle| && IsMarker(middle[k]))
  }

  /** The meanings keep the order of the middle fields: the filter works field by field, a
      marker giving nothing and any other field giving itself. */
  lemma MeaningsInOrder(a: seq<string>, b: seq<string>, f: string)
    ensures SortMiddle(a + b).0 == SortMiddle(a).0 + SortMiddle(b).0
    ensures SortMiddle([f]).0 == if IsMarker(f) then [] else [f]
  {
    FilterAppend(a, b, IsMeaning);
    assert [f][1..] == [];
  }

  /** `parse_term` (`trimmed` selects the web front end's version). The last field is the id,
      the middle fields give the meanings and the popularity flag, and the first field must
      match `WRITING_READING_RE`, giving writings and readings, or else `WRITING_RE`, giving
      writings only. */
  function ParseTerm(s: string, trimmed: bool): (r: Result<Term, TermError>)
    ensures |Fields(s)| < 2 <==> r == Err(TooFewFields)
    ensures r.Ok? ==>
      var fs := Fields(s);
      var t := r.value;
      && t.id == fs[|fs| - 1]
      && (t.meanings, t.popular) == SortMiddle(fs[1..|fs| - 1])
      && (t.readings.Some? <==> MatchWritingReading(fs[0]).Some?)
      && t.writings == Pieces(Group(fs[0]), trimmed)
      && (t.readings.Some? ==> t.readings.value == Pieces(MatchWritingReading(fs[0]).value.1, trimmed))
      && (!trimmed ==> Join(t.writings, ';') == Group(fs[0]))
    ensures 2 <= |Fields(s)| ==>
      (r.Err? <==> MatchWritingReading(Fields(s)[0]).None? && MatchWriting(Fields(s)[0]).None?)
    ensures r.Err? && 2 <= |Fields(s)| ==> r == Err(UnknownEntry(s))
  {
    var fs := Fields(s);
    if |fs| < 2 then Err(TooFewFields)
    else
      var middle := SortMiddle(fs[1..|fs| - 1]);
      match MatchWritingReading(fs[0])
      case Some(groups) =>
        Ok(Term(fs[|fs| - 1], Pieces(groups.0, trimmed), Some(Pieces(groups.1, trimmed)), middle.0, middle.1))
      case None =>
        match MatchWriting(fs[0])
        case Some(w) => Ok(Term(fs[|fs| - 1], Pieces(w, trimmed), None, middle.0, middle.1))
        case None => Err(UnknownEntry(s))
  }

  /** The text the writings come from: the first group of whichever pattern matches. */
  function Group(head: string): string
  {
    match MatchWritingReading(head)
    case Some(groups) => groups.0
    case None => match MatchWriting(head) case Some(w) => w case None => ""
  }

  /** The dictionary line of an entry: `W1;W2 [R1;R2] /M1/M2/(P)/ID/`, or without the bracketed
      part when the entry has no readings. */
  function Format(t: Term): string
  {
    Join([Head(t)] + Middle(t) + [t.id, ""], '/')
  }

  /** The middle fields of an entry's line: its meanings, then the marker if it is popular. */
  function Middle(t: Term): seq<string>
  {
    t.meanings + Marker(t.popular)
  }

  function Head(t: Term): string
  {
    Join(t.writings, ';')
      + (match t.readings case Some(rs) => " [" + Join(rs, ';') + "]" case None => "")
      + " "
  }

  function Marker(popular: bool): seq<string>
  {
    if popular then ["(P)"] else []
  }

  /** A piece that survives a round trip: not empty, free of the characters in `banned`, and
      unchanged by trimming where the parser trims. */
  ghost predicate Plain(p: string, banned: set<char>, trimmed: bool)
  {
    p != "" && (forall c :: c in banned ==> c !in p) && (trimmed ==> Trim(p) == p)
  }

  /** What an entry needs for `Format` to be read back: writings without `;`, spaces or `/`,
      readings without `;`, brackets or `/`, meanings that are neither markers nor contain `/`,
      and an id without `/`. */
  ghost predicate Formattable(t: Term, trimmed: bool)
  {
    && t.writings != []
    && (forall k :: 0 <= k < |t.writings| ==> Plain(t.writings[k], {';', ' ', '/'}, trimmed))
    && (t.readings.Some? ==>
          && t.readings.value != []
          && forall k :: 0 <= k < |t.readings.value| ==> Plain(t.readings.value[k], {';', '[', ']', '/'}, trimmed))
    && (forall k :: 0 <= k < |t.meanings| ==> t.meanings[k] != "" && '/' !in t.meanings[k] && !IsMarker(t.meanings[k]))
    && t.id != "" && '/' !in t.id
  }

  /** Reading back the line of an entry gives the entry. */
  lemma ParseFormat(t: Term, trimmed: bool)
    requires Formattable(t, trimmed)
    ensures ParseTerm(Format(t), trimmed) == Ok(t)
  {
    var middle := Middle(t);
    FieldsOfFormat(t, trimmed);
    MiddleOfFormat(t);
    HeadFacts(t, trimmed);
    PiecesOfJoin(t.writings, {';', ' ', '/'}, trimmed);
    if t.readings.Some? {
      PiecesOfJoin(t.readings.value, {';', '[', ']', '/'}, trimmed);
      ParseTermOfFields(Format(t), trimmed, Head(t), middle, t.id);
    } else {
      ParseTermOfFields(Format(t), trimmed, Head(t), middle, t.id);
    }
  }

  /** `ParseTerm` on a line whose fields are a head, middle fields and an id. */
  lemma ParseTermOfFields(s: string, trimmed: bool, head: string, middle: seq<string>, id: string)
    requires Fields(s) == [head] + middle + [id]
    ensures var sorted := SortMiddle(middle);
      ParseTerm(s, trimmed) ==
        match MatchWritingReading(head)
        case Some(groups) =>
          Ok(Term(id, Pieces(groups.0, trimmed), Some(Pieces(groups.1, trimmed)), sorted.0, sorted.1))
        case None =>
          match MatchWriting(head)
          case Some(w) => Ok(Term(id, Pieces(w, trimmed), None, sorted.0, sorted.1))
          case None => Err(UnknownEntry(s))
  {
    var fs := Fields(s);
    assert fs[0] == head && fs[|fs| - 1] == id && fs[1..|fs| - 1] == middle;
  }

  /** The non-empty fields of a formatted entry: its head, meanings, marker and id. */
  lemma FieldsOfFormat(t: Term, trimmed: bool)
    requires Formattable(t, trimmed)
    ensures Fields(Format(t)) == [Head(t)] + Middle(t) + [t.id]
  {
    var front := [Head(t)] + Middle(t) + [t.id];
    assert front + [""] == [Head(t)] + Middle(t) + [t.id, ""];
    HeadFacts(t, trimmed);
    assert forall k :: 0 <= k < |front| ==> NonEmpty(front[k]) && '/' !in front[k] by {
      forall k | 0 <= k < |front| ensures NonEmpty(front[k]) && '/' !in front[k] {
        if 0 < k <= |t.meanings| {
          assert front[k] == t.meanings[k - 1];
        }
      }
    }
    FieldsOfJoin(front);
  }

  /** Non-empty fields joined by `/` with a closing `/` are read back as they were. */
  lemma FieldsOfJoin(front: seq<string>)
    requires forall k :: 0 <= k < |front| ==> NonEmpty(front[k]) && '/' !in front[k]
    ensures Fields(Join(front + [""], '/')) == front
  {
    var parts := front + [""];
    assert forall k :: 0 <= k < |parts| ==> '/' !in parts[k] by {
      forall k | 0 <= k < |parts| ensures '/' !in parts[k] {
        if k < |front| {
          assert parts[k] == front[k];
        }
      }
    }
    SplitJoin(parts, '/');
    FilterAppend(front, [""], NonEmpty);
    FilterAllOrNone(front, NonEmpty);
    FilterAllOrNone([""], NonEmpty);
  }

  /** The middle fields of a formatted entry give back its meanings and its flag. */
  lemma MiddleOfFormat(t: Term)
    requires forall k :: 0 <= k < |t.meanings| ==> !IsMarker(t.meanings[k])
    ensures SortMiddle(Middle(t)) == (t.meanings, t.popular)
  {
    MeaningsOfMiddle(t);
    MarkedIffPopular(t);
  }

  lemma MeaningsOfMiddle(t: Term)
    requires forall k :: 0 <= k < |t.meanings| ==> !IsMarker(t.meanings[k])
    ensures Filter(Middle(t), IsMeaning) == t.meanings
  {
    FilterAllOrNone(t.meanings, IsMeaning);
    if t.popular {
      assert IsMarker("(P)");
      FilterAppend(t.meanings, ["(P)"], IsMeaning);
      assert Filter(["(P)"], IsMeaning) == [];
    } else {
      assert Middle(t) == t.meanings;
    }
  }

  lemma MarkedIffPopular(t: Term)
    requires forall k :: 0 <= k < |t.meanings| ==> !IsMarker(t.meanings[k])
    ensures (exists k :: 0 <= k < |Middle(t)| && IsMarker(Middle(t)[k])) == t.popular
  {
    var middle := Middle(t);
    if t.popular {
      assert middle[|t.meanings|] == "(P)";
      assert IsMarker("(P)");
    } else {
      assert middle == t.meanings;
    }
  }

  /** Splitting the join of plain pieces on `;` gives the pieces back, trimmed or not. */
  lemma PiecesOfJoin(ps: seq<string>, banned: set<char>, trimmed: bool)
    requires ps != [] && ';' in banned && forall k :: 0 <= k < |ps| ==> Plain(ps[k], banned, trimmed)
    ensures Pieces(Join(ps, ';'), trimmed) == ps
  {
    SplitJoin(ps, ';');
  }

  /** How the patterns read the head of a formatted entry. */
  lemma HeadFacts(t: Term, trimmed: bool)
    requires Formattable(t, trimmed)
    ensures '/' !in Head(t)
    ensures Head(t) != ""
    ensures t.readings.Some? ==> MatchWritingReading(Head(t)) == Some((Join(t.writings, ';'), Join(t.readings.value, ';')))
    ensures t.readings.None? ==> MatchWritingReading(Head(t)).None? && MatchWriting(Head(t)) == Some(Join(t.writings, ';'))
  {
    var w := Join(t.writings, ';');
    JoinAvoids(t.writings, ';', '/');
    JoinAvoids(t.writings, ';', ' ');
    JoinNonEmpty(t.writings, ';');
    if t.readings.Some? {
      var rd := Join(t.readings.value, ';');
      JoinAvoids(t.readings.value, ';', '/');
      JoinAvoids(t.readings.value, ';', '[');
      JoinAvoids(t.readings.value, ';', ']');
      JoinNonEmpty(t.readings.value, ';');
      assert Head(t) == w + " [" + rd + "]" + " ";
      HeadWithReadings(w, rd);
    } else {
      assert Head(t) == w + " ";
      HeadWithoutReadings(w);
    }
  }

  /** `W [R] ` with `W` free of spaces and `/`, and `R` free of brackets and `/`. */
  lemma HeadWithReadings(w: string, rd: string)
    requires w != "" && ' ' !in w && '/' !in w
    requires rd != "" && '[' !in rd && ']' !in rd && '/' !in rd
    ensures '/' !in w + " [" + rd + "]" + " "
    ensures MatchWritingReading(w + " [" + rd + "]" + " ") == Some((w, rd))
  {
    var h := w + " [" + rd + "]" + " ";
    assert h[..|w|] == w;
    var j := |w| + 2 + |rd|;
    assert h[|w| + 2..j] == rd;
    assert WritingReadingMatchAt(h, |w|, j);
    var m := MatchWritingReading(h);
    WritingReadingMatchUnique(h, |w|, j, |m.value.0|, |m.value.0| + 2 + |m.value.1|);
  }

  /** `W ` with `W` free of spaces and `/`. */
  lemma HeadWithoutReadings(w: string)
    requires w != "" && ' ' !in w && '/' !in w
    ensures '/' !in w + " "
    ensures MatchWritingReading(w + " ").None? && MatchWriting(w + " ") == Some(w)
  {
    var h := w + " ";
    assert h[..|w|] == w;
    assert WritingMatchAt(h, |w|);
  }

  /** The lines `parse_terms` hands to `parse_term`: every line after the header, without the
      blank ones where `skipBlank` is set. */
  function Entries(lines: seq<string>, skipBlank: bool): (r: seq<string>)
    ensures lines == [] ==> r == []
    ensures lines != [] ==> r == if skipBlank then Filter(lines[1..], NonEmpty) else lines[1..]
  {
    if lines == [] then [] else
      PreparedLines(lines[1..], skipBlank);
      Prepared(lines[1..], skipBlank)
  }

  /** The lines kept by the fold, in order. */
  function Prepared(lines: seq<string>, skipBlank: bool): seq<string>
  {
    if lines == [] then []
    else (if skipBlank && lines[0] == "" then [] else [lines[0]]) + Prepared(lines[1..], skipBlank)
  }

  lemma {:induction false} PreparedLines(lines: seq<string>, skipBlank: bool)
    ensures Prepared(lines, skipBlank) == if skipBlank then Filter(lines, NonEmpty) else lines
  {
    if lines != [] {
      PreparedLines(lines[1..], skipBlank);
      if !skipBlank {
        assert lines == [lines[0]] + lines[1..];
      }
    }
  }

  /** `.map(|s| s.trim())` over the lines. */
  function Trimmed(lines: seq<string>): (r: seq<string>)
    ensures |r| == |lines| && forall k :: 0 <= k < |r| ==> r[k] == Trim(lines[k])
  {
    seq(|lines|, k requires 0 <= k < |lines| => Trim(lines[k]))
  }

  /** `parse_term` as a value, for the folds below. */
  function Parser(web: bool): string -> Result<Term, TermError>
  {
    s => ParseTerm(s, web)
  }

  /** The `try_fold` of `parse_terms` from line `i` on, with the terms parsed so far in `acc`:
      the header line is skipped, and so are blank lines where `skipBlank` is set. */
  function CollectTerms(lines: seq<string>, i: nat, acc: seq<Term>, skipBlank: bool,
                        parse: string -> Result<Term, TermError>): (r: Result<seq<Term>, TermError>)
    requires i <= |lines|
    ensures r.Ok? ==> acc <= r.value && |r.value| <= |acc| + |lines| - i
    ensures r.Err? ==> exists k :: i <= k < |lines| && parse(lines[k]).Err? && r.error == parse(lines[k]).error
    decreases |lines| - i
  {
    if i == |lines| then Ok(acc)
    else if i > 0 && !(skipBlank && lines[i] == "") then
      match parse(lines[i])
      case Err(e) => Err(e)
      case Ok(t) => CollectTerms(lines, i + 1, acc + [t], skipBlank, parse)
    else
      CollectTerms(lines, i + 1, acc, skipBlank, parse)
  }

  /** `parse_terms` of the web front end: the dictionary text is split into lines, every line
      is trimmed, and the blank ones are skipped. */
  function ParseTerms(s: string): (r: Result<seq<Term>, TermError>)
    ensures r == ParseAll(Entries(Trimmed(Split(s, '\n')), true), Parser(true))
  {
    CollectTermsFromStart(Trimmed(Split(s, '\n')), true, Parser(true));
    CollectTerms(Trimmed(Split(s, '\n')), 0, [], true, Parser(true))
  }

  /** `parse_terms` of the command-line program, on the lines its reader yields: no trimming
      and no skipping besides the header. */
  function ParseTermLines(lines: seq<string>): (r: Result<seq<Term>, TermError>)
    ensures r == ParseAll(Entries(lines, false), Parser(false))
  {
    CollectTermsFromStart(lines, false, Parser(false));
    CollectTerms(lines, 0, [], false, Parser(false))
  }

  /** From line `i >= 1` on, the fold parses exactly the remaining lines it keeps. */
  lemma {:induction false} CollectTermsSpec(lines: seq<string>, i: nat, acc: seq<Term>, skipBlank: bool,
                                             parse: string -> Result<Term, TermError>)
    requires 1 <= i <= |lines|
    decreases |lines| - i
    ensures CollectTerms(lines, i, acc, skipBlank, parse) ==
      After(acc, ParseAll(Prepared(lines[i..], skipBlank), parse))
  {
    if i == |lines| {
      assert lines[i..] == [];
      assert acc + [] == acc;
    } else {
      var rest := Prepared(lines[i + 1..], skipBlank);
      assert lines[i..][0] == lines[i] && lines[i..][1..] == lines[i + 1..];
      if skipBlank && lines[i] == "" {
        assert [] + rest == rest;
        CollectTermsSpec(lines, i + 1, acc, skipBlank, parse);
      } else {
        ParseAllCons(lines[i], rest, parse);
        if parse(lines[i]).Ok? {
          var t := parse(lines[i]).value;
          CollectTermsSpec(lines, i + 1, acc + [t], skipBlank, parse);
          AfterAfter(acc, [t], ParseAll(rest, parse));
        }
      }
    }
  }

  /** The whole fold: the header line is skipped, then the kept lines are parsed. */
  lemma CollectTermsFromStart(lines: seq<string>, skipBlank: bool, parse: string -> Result<Term, TermError>)
    ensures CollectTerms(lines, 0, [], skipBlank, parse) == ParseAll(Entries(lines, skipBlank), parse)
  {
    if lines != [] {
      CollectTermsSpec(lines, 1, [], skipBlank, parse);
      PreparedLines(lines[1..], skipBlank);
      var r := ParseAll(Entries(lines, skipBlank), parse);
      if r.Ok? {
        assert [] + r.value == r.value;
      }
    }
  }
}
