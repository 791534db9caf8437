/** The two regular expressions that recognise the head of a dictionary entry, matched by hand.
    `WRITING_RE` is `^([^ ]+).+$` and `WRITING_READING_RE` is `^([^ ]+) \[([^\[\]]+)\].+$`. In the
    syntax of Rust's `regex` crate `.` stands for any character except a line feed, `[^ ]` for any
    character except a space (a line feed included), and `$` without flags for the end of the
    text; on several possible matches the greedy `+` prefers the longest first group. */
module Patterns {
  import opened Common

  /** The length of the longest run starting at `from` without a character of `bad`. */
  function RunWithout(s: string, from: nat, bad: set<char>): (n: nat)
    requires from <= |s|
    ensures from + n <= |s|
    ensures forall k :: from <= k < from + n ==> s[k] !in bad
    ensures from + n == |s| || s[from + n] in bad
    decreases |s| - from
  {
    if from == |s| || s[from] in bad then 0 else 1 + RunWithout(s, from + 1, bad)
  }

  /** `WRITING_RE` matches `s` with `s[..k]` as its first group: a non-empty space-free group,
      then at least one more character, none of those a line feed. */
  ghost predicate WritingMatchAt(s: string, k: int)
  {
    && 1 <= k < |s|
    && (forall i :: 0 <= i < k ==> s[i] != ' ')
    && (forall i :: k <= i < |s| ==> s[i] != '\n')
  }

  /** `Regex::new(WRITING_RE).captures(s)`, returning the first group: the longest group with
      which the expression matches, or nothing when it does not match at all. */
  function MatchWriting(s: string): (r: Option<string>)
    ensures r.Some? ==> WritingMatchAt(s, |r.value|) && r.value == s[..|r.value|]
    ensures r.Some? ==> forall k :: WritingMatchAt(s, k) ==> k <= |r.value|
    ensures r.None? ==> forall k :: !WritingMatchAt(s, k)
  {
    var run := RunWithout(s, 0, {' '});
    WritingGroupBound(s);
    var m := if run < |s| - 1 then run else |s| - 1;
    if 1 <= m && forall i :: m <= i < |s| ==> s[i] != '\n' then Some(s[..m]) else None
  }

  /** A first group of `WRITING_RE` never reaches past the first space. */
  lemma WritingGroupBound(s: string)
    ensures forall k :: WritingMatchAt(s, k) ==> k <= RunWithout(s, 0, {' '})
  {
  }

  /** `WRITING_READING_RE` matches `s` with `s[..i]` as its first group and `s[i + 2..j]` as its
      second: a space-free group, a space and `[`, a bracket-free group, `]`, then at least one
      more character, none of those a line feed. */
  ghost predicate WritingReadingMatchAt(s: string, i: int, j: int)
  {
    && 1 <= i && i + 2 < j && j + 1 < |s|
    && (forall k :: 0 <= k < i ==> s[k] != ' ')
    && s[i] == ' ' && s[i + 1] == '['
    && (forall k :: i + 2 <= k < j ==> s[k] != '[' && s[k] != ']')
    && s[j] == ']'
    && (forall k :: j + 1 <= k < |s| ==> s[k] != '\n')
  }

  /** The groups of `WRITING_READING_RE` are forced: the first ends at the first space and the
      second at the first bracket after it. */
  lemma WritingReadingGroups(s: string)
    ensures forall i, j :: WritingReadingMatchAt(s, i, j) ==>
      && i == RunWithout(s, 0, {' '})
      && j == i + 2 + RunWithout(s, i + 2, {'[', ']'})
  {
  }

  /** Hence there is at most one way for `WRITING_READING_RE` to match. */
  lemma WritingReadingMatchUnique(s: string, i: int, j: int, i': int, j': int)
    requires WritingReadingMatchAt(s, i, j) && WritingReadingMatchAt(s, i', j')
    ensures i == i' && j == j'
  {
    WritingReadingGroups(s);
  }

  /** `Regex::new(WRITING_READING_RE).captures(s)`, returning both groups. */
  function MatchWritingReading(s: string): (r: Option<(string, string)>)
    ensures r.Some? ==>
      var i := |r.value.0|;
      var j := i + 2 + |r.value.1|;
      && WritingReadingMatchAt(s, i, j)
      && r.value.0 == s[..i] && r.value.1 == s[i + 2..j]
    ensures r.None? ==> forall i, j :: !WritingReadingMatchAt(s, i, j)
  {
    var i := RunWithout(s, 0, {' '});
    WritingReadingGroups(s);
    if 1 <= i && i + 1 < |s| && s[i + 1] == '[' then
      var n := RunWithout(s, i + 2, {'[', ']'});
      var j := i + 2 + n;
      if 1 <= n && j + 1 < |s| && s[j] == ']' && forall k :: j + 1 <= k < |s| ==> s[k] != '\n' then
        Some((s[..i], s[i + 2..j]))
      else
        None
    else
      None
  }
}
