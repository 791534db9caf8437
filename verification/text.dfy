/** The string operations the parsers rely on, with the meaning Rust's standard library gives
    them: `str::split` on a one-character pattern, `str::split("")`, `str::trim`,
    `str::eq_ignore_ascii_case` and `u8::from_str`. Strings are sequences of Unicode scalar
    values. */
module Text {
  import opened Common

  /** Pieces separated by `sep`, the inverse of `Split`. */
  function Join(parts: seq<string>, sep: char): string
  {
    if parts == [] then ""
    else if |parts| == 1 then parts[0]
    else parts[0] + [sep] + Join(parts[1..], sep)
  }

  /** `s.split(sep)` collected: the maximal runs between separators, empty runs included. */
  function Split(s: string, sep: char): (r: seq<string>)
    ensures r != []
    ensures forall k :: 0 <= k < |r| ==> sep !in r[k]
  {
    if s == [] then [""]
    else
      var rest := Split(s[1..], sep);
      if s[0] == sep then
        [""] + rest
      else
        [[s[0]] + rest[0]] + rest[1..]
  }

  /** A non-empty first piece starts with the first character of the string. */
  lemma SplitHead(s: string, sep: char)
    ensures Split(s, sep)[0] != "" ==> s != [] && Split(s, sep)[0][0] == s[0]
  {
  }

  /** There is one piece more than there are separators. */
  lemma {:induction false} SplitCount(s: string, sep: char)
    ensures |Split(s, sep)| == Occ(s, sep) + 1
  {
    if s != [] {
      SplitCount(s[1..], sep);
      assert s == [s[0]] + s[1..];
    }
  }

  /** Joining the pieces gives back the string. */
  lemma {:induction false} JoinSplit(s: string, sep: char)
    ensures Join(Split(s, sep), sep) == s
  {
    if s != [] {
      JoinSplit(s[1..], sep);
      var rest := Split(s[1..], sep);
      assert s == [s[0]] + s[1..];
      if s[0] == sep {
        JoinCons("", rest, sep);
        assert "" + [sep] + Join(rest, sep) == [sep] + s[1..];
      } else {
        JoinSplitFirst(s[0], rest, sep);
      }
    }
  }

  /** A character put in front of the first piece is put in front of the join. */
  lemma JoinSplitFirst(c: char, rest: seq<string>, sep: char)
    requires rest != []
    ensures Join([[c] + rest[0]] + rest[1..], sep) == [c] + Join(rest, sep)
  {
    var tail := rest[1..];
    assert rest == [rest[0]] + tail;
    JoinCons(rest[0], tail, sep);
    JoinCons([c] + rest[0], tail, sep);
    if tail != [] {
      assert [c] + rest[0] + [sep] + Join(tail, sep) == [c] + (rest[0] + [sep] + Join(tail, sep));
    }
  }

  /** Joining a first piece and the rest. */
  lemma JoinCons(head: string, rest: seq<string>, sep: char)
    ensures Join([head] + rest, sep) == if rest == [] then head else head + [sep] + Join(rest, sep)
  {
    assert ([head] + rest)[1..] == rest;
  }

  /** A character in none of the pieces and different from the separator is not in the join. */
  lemma {:induction false} JoinAvoids(parts: seq<string>, sep: char, c: char)
    requires c != sep && forall k :: 0 <= k < |parts| ==> c !in parts[k]
    ensures c !in Join(parts, sep)
  {
    if |parts| > 1 {
      JoinAvoids(parts[1..], sep, c);
    }
  }

  /** Joining non-empty pieces gives a non-empty string. */
  lemma {:induction false} JoinNonEmpty(parts: seq<string>, sep: char)
    requires parts != [] && parts[0] != ""
    ensures Join(parts, sep) != "" && Join(parts, sep)[0] == parts[0][0]
  {
  }

  /** Splitting undoes joining pieces that do not contain the separator: together with the
      postcondition of `Split`, the two are mutual inverses. */
  lemma {:induction false} SplitJoin(parts: seq<string>, sep: char)
    requires parts != []
    requires forall k :: 0 <= k < |parts| ==> sep !in parts[k]
    ensures Split(Join(parts, sep), sep) == parts
  {
    if |parts| == 1 {
      SplitNoSep(parts[0], sep);
    } else {
      SplitJoin(parts[1..], sep);
      SplitPrefix(parts[0], Join(parts[1..], sep), sep);
      assert parts == [parts[0]] + parts[1..];
    }
  }

  lemma {:induction false} SplitNoSep(s: string, sep: char)
    requires sep !in s
    ensures Split(s, sep) == [s]
  {
    if s != [] {
      SplitNoSep(s[1..], sep);
      assert s == [s[0]] + s[1..];
    }
  }

  /** A separator-free head followed by a separator opens a new piece. */
  lemma {:induction false} SplitPrefix(head: string, tail: string, sep: char)
    requires sep !in head
    ensures Split(head + [sep] + tail, sep) == [head] + Split(tail, sep)
  {
    var s := head + [sep] + tail;
    if head == [] {
      assert s == [sep] + tail;
      assert s[1..] == tail;
    } else {
      SplitPrefix(head[1..], tail, sep);
      assert s[0] == head[0] && s[1..] == head[1..] + [sep] + tail;
      var rest := Split(s[1..], sep);
      assert rest == [head[1..]] + Split(tail, sep);
      assert Split(s, sep) == [[head[0]] + rest[0]] + rest[1..];
      assert [head[0]] + head[1..] == head;
    }
  }

  /** `s.split("")` collected: an empty piece, one piece per character, an empty piece. */
  function SplitEmpty(s: string): (r: seq<string>)
    ensures |r| == |s| + 2 && r[0] == "" && r[|r| - 1] == ""
    ensures forall k :: 0 <= k < |s| ==> r[k + 1] == [s[k]]
  {
    [""] + seq(|s|, k requires 0 <= k < |s| => [s[k]]) + [""]
  }

  /** `.filter_map(|s| s.chars().next())` collected: the first character of each non-empty piece. */
  function FirstChars(pieces: seq<string>): (r: string)
    ensures |r| <= |pieces|
  {
    if pieces == [] then ""
    else (if pieces[0] == "" then "" else [pieces[0][0]]) + FirstChars(pieces[1..])
  }

  /** Splitting on the empty pattern and keeping first characters gives back the characters of
      the string, in order and with repetitions. */
  lemma CharsOfSplitEmpty(s: string)
    ensures FirstChars(SplitEmpty(s)) == s
  {
    CharsOfSingletons(s);
    var mid := seq(|s|, k requires 0 <= k < |s| => [s[k]]);
    FirstCharsAppend([""] + mid, [""]);
    FirstCharsAppend([""], mid);
    assert SplitEmpty(s) == [""] + mid + [""];
  }

  lemma {:induction false} CharsOfSingletons(s: string)
    ensures FirstChars(seq(|s|, k requires 0 <= k < |s| => [s[k]])) == s
  {
    if s != [] {
      CharsOfSingletons(s[1..]);
      var mid := seq(|s|, k requires 0 <= k < |s| => [s[k]]);
      assert mid[1..] == seq(|s[1..]|, k requires 0 <= k < |s[1..]| => [s[1..][k]]);
      assert s == [s[0]] + s[1..];
    }
  }

  lemma {:induction false} FirstCharsAppend(a: seq<string>, b: seq<string>)
    ensures FirstChars(a + b) == FirstChars(a) + FirstChars(b)
  {
    if a != [] {
      FirstCharsAppend(a[1..], b);
      assert (a + b)[0] == a[0];
      assert (a + b)[1..] == a[1..] + b;
    } else {
      assert a + b == b;
    }
  }

  /** `char::is_whitespace`: the Unicode White_Space property. */
  predicate IsWhitespace(c: char)
  {
    var n := c as int;
    || 0x09 <= n <= 0x0D || n == 0x20 || n == 0x85 || n == 0xA0 || n == 0x1680
    || 0x2000 <= n <= 0x200A || n == 0x2028 || n == 0x2029 || n == 0x202F || n == 0x205F
    || n == 0x3000
  }

  /** The length of the leading whitespace run. */
  function Lead(s: string): (i: nat)
    ensures i <= |s|
  {
    if s != [] && IsWhitespace(s[0]) then 1 + Lead(s[1..]) else 0
  }

  /** The leading run is whitespace and ends at the first other character. */
  lemma {:induction false} LeadWhitespace(s: string)
    ensures forall k :: 0 <= k < Lead(s) ==> IsWhitespace(s[k])
    ensures Lead(s) < |s| ==> !IsWhitespace(s[Lead(s)])
  {
    if s != [] && IsWhitespace(s[0]) {
      LeadWhitespace(s[1..]);
      forall k | 0 < k < Lead(s) ensures IsWhitespace(s[k]) {
        assert s[k] == s[1..][k - 1];
      }
    }
  }

  /** The length of the trailing whitespace run. */
  function Trail(s: string): (n: nat)
    ensures n <= |s|
  {
    if s != [] && IsWhitespace(s[|s| - 1]) then 1 + Trail(s[..|s| - 1]) else 0
  }

  /** The trailing run is whitespace and starts after the last other character. */
  lemma {:induction false} TrailWhitespace(s: string)
    ensures forall k :: |s| - Trail(s) <= k < |s| ==> IsWhitespace(s[k])
    ensures Trail(s) < |s| ==> !IsWhitespace(s[|s| - Trail(s) - 1])
  {
    if s != [] && IsWhitespace(s[|s| - 1]) {
      TrailWhitespace(s[..|s| - 1]);
    }
  }

  /** `str::trim`: the slice left once leading and trailing whitespace are gone (the
      trailing run of an all-whitespace string is the leading one). */
  function Trim(s: string): (r: string)
    ensures var i := Lead(s);
      && i + |r| <= |s| && r == s[i..i + |r|]
      && (forall k :: 0 <= k < i ==> IsWhitespace(s[k]))
      && (forall k :: i + |r| <= k < |s| ==> IsWhitespace(s[k]))
    ensures r == [] || (!IsWhitespace(r[0]) && !IsWhitespace(r[|r| - 1]))
  {
    LeadWhitespace(s);
    TrailWhitespace(s);
    if Lead(s) == |s| then []
    else
      assert |s| - Trail(s) > Lead(s);
      s[Lead(s)..|s| - Trail(s)]
  }

  /** A string without whitespace at either end is its own trim. */
  lemma TrimTrimmed(s: string)
    requires s == [] || (!IsWhitespace(s[0]) && !IsWhitespace(s[|s| - 1]))
    ensures Trim(s) == s
  {
  }

  /** Trimming twice trims no further. */
  lemma TrimIdempotent(s: string)
    ensures Trim(Trim(s)) == Trim(s)
  {
    TrimTrimmed(Trim(s));
  }

  /** `char::to_ascii_lowercase`. */
  function AsciiLower(c: char): (r: char)
    ensures 'A' <= c <= 'Z' ==> r as int == c as int + 32
    ensures !('A' <= c <= 'Z') ==> r == c
  {
    if 'A' <= c <= 'Z' then (c as int + 32) as char else c
  }

  /** `str::eq_ignore_ascii_case`. */
  predicate EqIgnoreAsciiCase(a: string, b: string)
    ensures a == b ==> EqIgnoreAsciiCase(a, b)
    ensures EqIgnoreAsciiCase(a, b) ==> |a| == |b|
  {
    |a| == |b| && forall k :: 0 <= k < |a| ==> AsciiLower(a[k]) == AsciiLower(b[k])
  }

  /** The popularity marker is recognised in exactly two spellings. */
  lemma PopularMarkerSpellings(s: string)
    ensures EqIgnoreAsciiCase(s, "(P)") <==> s == "(P)" || s == "(p)"
  {
    if EqIgnoreAsciiCase(s, "(P)") {
      assert AsciiLower(s[0]) == '(' && AsciiLower(s[1]) == 'p' && AsciiLower(s[2]) == ')';
    }
  }

  /** The radical flag: a field equals "1" ignoring ASCII case exactly when it is "1". */
  lemma RadicalFlagSpelling(s: string)
    ensures EqIgnoreAsciiCase(s, "1") <==> s == "1"
  {
    if EqIgnoreAsciiCase(s, "1") {
      assert AsciiLower(s[0]) == '1';
    }
  }

  predicate IsDigit(c: char)
  {
    '0' <= c <= '9'
  }

  /** The value of a string of decimal digits, most significant first. */
  function DigitsValue(d: string): nat
    requires forall k :: 0 <= k < |d| ==> IsDigit(d[k])
  {
    if d == [] then 0
    else
      assert IsDigit(d[|d| - 1]);
      10 * DigitsValue(d[..|d| - 1]) + (d[|d| - 1] as int - '0' as int)
  }

  /** The text after an optional leading `+`. */
  function Unsigned(s: string): (d: string)
    ensures d == s || (s != [] && s[0] == '+' && d == s[1..])
  {
    if |s| > 0 && s[0] == '+' then s[1..] else s
  }

  /** A byte spelled with any character other than a decimal digit after the optional `+` is
      rejected: a letter, an inner or surrounding space, a second sign. */
  lemma ParseU8RejectsNonDigits(s: string, k: nat)
    requires k < |Unsigned(s)| && !IsDigit(Unsigned(s)[k])
    ensures ParseU8(s) == None
    ensures ParseU8("1a") == None && ParseU8(" 4") == None && ParseU8("4 ") == None && ParseU8("+-1") == None
  {
    assert !IsDigit("1a"[1]) && !IsDigit(" 4"[0]) && !IsDigit("4 "[1]) && !IsDigit("+-1"[1..][0]);
  }

  /** `s.parse::<u8>()`: an optional `+`, then at least one decimal digit, and a value below
      256. A `-` sign, any other character, an empty string or a lone sign is a failure. */
  function ParseU8(s: string): (r: Option<nat>)
    ensures r.Some? ==> r.value < 256
    ensures s == [] || s == "+" ==> r == None
    ensures |s| > 0 && s[0] == '-' ==> r == None
    ensures r.Some? ==> var d := Unsigned(s);
      && d != [] && (forall k :: 0 <= k < |d| ==> IsDigit(d[k])) && r.value == DigitsValue(d)
  {
    var digits := Unsigned(s);
    if digits == [] || exists k :: 0 <= k < |digits| && !IsDigit(digits[k]) then None
    else if DigitsValue(digits) < 256 then Some(DigitsValue(digits))
    else None
  }

  /** The shortest decimal spelling of `n`. */
  function Decimal(n: nat): (r: string)
    ensures r != [] && forall k :: 0 <= k < |r| ==> IsDigit(r[k])
  {
    if n < 10 then [('0' as int + n) as char]
    else Decimal(n / 10) + [('0' as int + n % 10) as char]
  }

  lemma {:induction false} DecimalValue(n: nat)
    ensures DigitsValue(Decimal(n)) == n
  {
    if n >= 10 {
      DecimalValue(n / 10);
      var d := Decimal(n);
      assert d[..|d| - 1] == Decimal(n / 10);
    }
  }

  /** Parsing the decimal spelling of a number, with or without a `+`, gives the number back
      exactly when it fits in a byte. */
  lemma ParseU8Decimal(n: nat)
    ensures ParseU8(Decimal(n)) == (if n < 256 then Some(n) else None)
    ensures ParseU8("+" + Decimal(n)) == (if n < 256 then Some(n) else None)
  {
    DecimalValue(n);
    assert ("+" + Decimal(n))[1..] == Decimal(n);
  }

  /** Leading zeros do not change the parsed value. */
  lemma ParseU8LeadingZero(d: string)
    requires d != [] && forall k :: 0 <= k < |d| ==> IsDigit(d[k])
    ensures ParseU8("0" + d) == ParseU8(d)
  {
    LeadingZeroValue(d);
    var z := "0" + d;
    assert z[0] != '+';
    assert forall k :: 0 <= k < |z| ==> IsDigit(z[k]) by {
      forall k | 0 <= k < |z| ensures IsDigit(z[k]) {
        if k > 0 { assert z[k] == d[k - 1]; }
      }
    }
  }

  lemma {:induction false} LeadingZeroValue(d: string)
    requires forall k :: 0 <= k < |d| ==> IsDigit(d[k])
    ensures DigitsValue("0" + d) == DigitsValue(d)
  {
    if d != [] {
      assert ("0" + d)[..|"0" + d| - 1] == "0" + d[..|d| - 1];
      LeadingZeroValue(d[..|d| - 1]);
    }
  }
}
