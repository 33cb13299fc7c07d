/** String primitives of the JavaScript runtime that the configuration pipeline relies on:
    the line terminators seen by regular expressions, `String.prototype.trim`, and
    `String.prototype.split` with a one-character separator. */
module JsText {

  datatype Option<T> = None | Some(value: T)

  /** The four characters ECMAScript treats as line terminators: `.` does not match them,
      and with the `m` flag `^` matches right after them. */
  predicate IsLineTerminator(c: char) {
    c == '\n' || c == '\r' || c == '\U{2028}' || c == '\U{2029}'
  }

  /** A string without any line terminator. */
  predicate NoBreak(s: string) {
    forall i :: 0 <= i < |s| ==> !IsLineTerminator(s[i])
  }

  /** The characters `trim` removes: ECMAScript WhiteSpace (tab, vertical tab, form feed,
      space, no-break space, byte order mark and the space separators) and LineTerminator. */
  predicate IsTrimmable(c: char) {
    IsLineTerminator(c)
    || c == '\t' || c == '\U{000B}' || c == '\U{000C}' || c == ' '
    || c == '\U{00A0}' || c == '\U{FEFF}' || c == '\U{1680}'
    || ('\U{2000}' <= c <= '\U{200A}')
    || c == '\U{202F}' || c == '\U{205F}' || c == '\U{3000}'
  }

  /** The number of trimmable characters `s` starts with. */
  function LeadingTrimmable(s: string): (n: nat)
    ensures n <= |s|
  {
    if s != [] && IsTrimmable(s[0]) then 1 + LeadingTrimmable(s[1..]) else 0
  }

  /** The number of trimmable characters `s` ends with. */
  function TrailingTrimmable(s: string): (n: nat)
    ensures n <= |s|
  {
    if s != [] && IsTrimmable(s[|s| - 1]) then 1 + TrailingTrimmable(s[..|s| - 1]) else 0
  }

  /** `String.prototype.trim` (see `TrimSpec`). */
  function Trim(s: string): string {
    var lo := LeadingTrimmable(s);
    s[lo..][..|s| - lo - TrailingTrimmable(s[lo..])]
  }

  lemma {:induction false} LeadingTrimmableSpec(s: string)
    ensures var n := LeadingTrimmable(s);
      (forall i :: 0 <= i < n ==> IsTrimmable(s[i])) && (n < |s| ==> !IsTrimmable(s[n]))
  {
    if s != [] && IsTrimmable(s[0]) {
      LeadingTrimmableSpec(s[1..]);
    }
  }

  lemma {:induction false} TrailingTrimmableSpec(s: string)
    ensures var n := TrailingTrimmable(s);
      (forall i :: |s| - n <= i < |s| ==> IsTrimmable(s[i]))
      && (n < |s| ==> !IsTrimmable(s[|s| - n - 1]))
  {
    if s != [] && IsTrimmable(s[|s| - 1]) {
      TrailingTrimmableSpec(s[..|s| - 1]);
    }
  }

  /** `trim` keeps the infix of `s` that neither starts nor ends with a trimmable character
      and cuts off only trimmable characters; it is empty exactly for blank strings. */
  lemma TrimSpec(s: string)
    ensures var r, lo := Trim(s), LeadingTrimmable(s);
      lo + |r| <= |s| && r == s[lo..lo + |r|]
      && (forall i :: 0 <= i < |s| && !(lo <= i < lo + |r|) ==> IsTrimmable(s[i]))
      && (r != [] ==> !IsTrimmable(r[0]) && !IsTrimmable(r[|r| - 1]))
      && (r == [] <==> forall i :: 0 <= i < |s| ==> IsTrimmable(s[i]))
  {
    TrimSlice(s);
    TrimCuts(s);
    TrimEnds(s);
    var r := Trim(s);
    if r != [] {
      assert r[0] == s[LeadingTrimmable(s)];
    }
  }

  lemma TrimSlice(s: string)
    ensures var r, lo := Trim(s), LeadingTrimmable(s);
      lo + |r| <= |s| && r == s[lo..lo + |r|]
  {
    var lo := LeadingTrimmable(s);
    var rest := s[lo..];
    var n := |s| - lo - TrailingTrimmable(rest);
    assert Trim(s) == rest[..n] == s[lo..lo + n];
  }

  lemma TrimCuts(s: string)
    ensures var r, lo := Trim(s), LeadingTrimmable(s);
      forall i :: 0 <= i < |s| && !(lo <= i < lo + |r|) ==> IsTrimmable(s[i])
  {
    var lo := LeadingTrimmable(s);
    var rest := s[lo..];
    var hi := TrailingTrimmable(rest);
    LeadingTrimmableSpec(s);
    TrailingTrimmableSpec(rest);
    var n := |Trim(s)|;
    assert n == |rest| - hi;
    forall i | 0 <= i < |s| && !(lo <= i < lo + n) ensures IsTrimmable(s[i]) {
      if i >= lo {
        assert s[i] == rest[i - lo];
      }
    }
  }

  lemma TrimEnds(s: string)
    ensures var r := Trim(s); r != [] ==> !IsTrimmable(r[0]) && !IsTrimmable(r[|r| - 1])
  {
    var lo := LeadingTrimmable(s);
    var rest := s[lo..];
    var hi := TrailingTrimmable(rest);
    var r := Trim(s);
    LeadingTrimmableSpec(s);
    TrailingTrimmableSpec(rest);
    assert r == rest[..|rest| - hi];
    if r != [] {
      assert r[0] == rest[0] == s[lo];
      assert r[|r| - 1] == rest[|rest| - hi - 1];
    }
  }

  /** The parts of `s` between occurrences of `sep`, as `s.split(sep)` returns them for a
      one-character separator (see `SplitSpec`). */
  function Split(s: string, sep: char): (parts: seq<string>)
    ensures |parts| >= 1
  {
    if s == [] then [[]]
    else
      var rest := Split(s[1..], sep);
      if s[0] == sep then [[]] + rest else [[s[0]] + rest[0]] + rest[1..]
  }

  /** Concatenates `parts` with `sep` between neighbours (`Array.prototype.join`). */
  function Join(parts: seq<string>, sep: char): string
    requires parts != []
  {
    if |parts| == 1 then parts[0] else parts[0] + [sep] + Join(parts[1..], sep)
  }

  /** `split` yields one more part than there are separators, no part contains the
      separator, and joining the parts with it gives back the string. */
  lemma SplitSpec(s: string, sep: char)
    ensures var parts := Split(s, sep);
      |parts| == multiset(s)[sep] + 1
      && (forall i :: 0 <= i < |parts| ==> sep !in parts[i])
      && Join(parts, sep) == s
  {
    SplitCount(s, sep);
    SplitParts(s, sep);
    SplitJoin(s, sep);
  }

  lemma {:induction false} SplitCount(s: string, sep: char)
    ensures |Split(s, sep)| == multiset(s)[sep] + 1
  {
    if s != [] {
      SplitCount(s[1..], sep);
      assert s == [s[0]] + s[1..];
      assert multiset(s) == multiset([s[0]]) + multiset(s[1..]);
    }
  }

  lemma {:induction false} SplitParts(s: string, sep: char)
    ensures forall i :: 0 <= i < |Split(s, sep)| ==> sep !in Split(s, sep)[i]
  {
    if s != [] {
      var rest := Split(s[1..], sep);
      var parts := Split(s, sep);
      SplitParts(s[1..], sep);
      if s[0] == sep {
        assert forall i :: 1 <= i < |parts| ==> parts[i] == rest[i - 1];
      } else {
        assert forall i :: 1 <= i < |parts| ==> parts[i] == rest[i];
        assert parts[0] == [s[0]] + rest[0];
        assert sep !in rest[0];
      }
    }
  }

  lemma {:induction false} SplitJoin(s: string, sep: char)
    ensures Join(Split(s, sep), sep) == s
  {
    if s != [] {
      var rest := Split(s[1..], sep);
      SplitJoin(s[1..], sep);
      assert s == [s[0]] + s[1..];
      if s[0] == sep {
        JoinEmptyHead(rest, sep);
      } else {
        JoinGrowHead(s[0], rest, sep);
      }
    }
  }

  lemma JoinEmptyHead(rest: seq<string>, sep: char)
    requires rest != []
    ensures Join([[]] + rest, sep) == [sep] + Join(rest, sep)
  {
    assert ([[]] + rest)[1..] == rest;
  }

  lemma JoinGrowHead(c: char, rest: seq<string>, sep: char)
    requires rest != []
    ensures Join([[c] + rest[0]] + rest[1..], sep) == [c] + Join(rest, sep)
  {
    var parts := [[c] + rest[0]] + rest[1..];
    assert parts[1..] == rest[1..];
  }

  /** Splitting the join of parts free of `sep` gives back the parts: `split` inverts `join`. */
  lemma {:induction false} SplitOfJoin(parts: seq<string>, sep: char)
    requires parts != [] && forall i :: 0 <= i < |parts| ==> sep !in parts[i]
    ensures Split(Join(parts, sep), sep) == parts
    decreases |parts|
  {
    if |parts| == 1 {
      SplitWhole(parts[0], sep);
    } else {
      SplitOfJoin(parts[1..], sep);
      SplitAfter(parts[0], sep, Join(parts[1..], sep));
      assert parts == [parts[0]] + parts[1..];
    }
  }

  /** A string without `sep` splits into itself alone. */
  lemma {:induction false} SplitWhole(p: string, sep: char)
    requires sep !in p
    ensures Split(p, sep) == [p]
  {
    if p != [] {
      SplitWhole(p[1..], sep);
      assert p == [p[0]] + p[1..];
    }
  }

  /** A leading part free of `sep`, then `sep`, splits off as the first part. */
  lemma {:induction false} SplitAfter(p: string, sep: char, rest: string)
    requires sep !in p
    ensures Split(p + [sep] + rest, sep) == [p] + Split(rest, sep)
  {
    var s := p + [sep] + rest;
    if p == [] {
      assert s[0] == sep && s[1..] == rest;
    } else {
      assert s[0] == p[0] != sep;
      assert s[1..] == p[1..] + [sep] + rest;
      SplitAfter(p[1..], sep, rest);
      var tail := Split(s[1..], sep);
      assert tail == [p[1..]] + Split(rest, sep);
      assert Split(s, sep) == [[p[0]] + tail[0]] + tail[1..];
      assert [p[0]] + p[1..] == p;
    }
  }

  /** `s.split(sep)` has exactly two parts exactly when `sep` occurs once, and then the parts
      are what precedes and what follows it. */
  lemma SplitInTwo(s: string, sep: char)
    ensures |Split(s, sep)| == 2 <==> multiset(s)[sep] == 1
    ensures |Split(s, sep)| == 2 ==>
      var parts := Split(s, sep);
      s == parts[0] + [sep] + parts[1] && sep !in parts[0] && sep !in parts[1]
  {
    var parts := Split(s, sep);
    SplitSpec(s, sep);
    if |parts| == 2 {
      assert parts[1..] == [parts[1]];
      assert Join(parts, sep) == parts[0] + [sep] + parts[1];
    }
  }
}
