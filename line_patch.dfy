/** `setValue` of Commands/Control/field.js: `text.replace(new RegExp("^" + key + "=.*$", "m"),
    key + "=" + value)`. With the `m` flag and no `g` flag the first line that begins with
    `key=` is replaced, up to (not including) its line terminator, and nothing else changes.

    The operation is modelled twice: `SetValue` follows the regular expression engine over the
    characters of the text, and `PatchLines` works on the text cut into lines. The lemmas prove
    the two agree and state the line-level contract. */
module LinePatch {
  import opened JsText

  // ---------------------------------------------------------------------------------------
  // The regular expression, character by character

  /** Where `^` matches under the `m` flag: at the start of the text or after a terminator. */
  predicate AtLineStart(t: string, p: nat)
    requires p <= |t|
  {
    p == 0 || IsLineTerminator(t[p - 1])
  }

  /** `^pat` matches at position `p` (the key is a literal without metacharacters). */
  predicate MatchesAt(t: string, pat: string, p: nat)
    requires p <= |t|
  {
    AtLineStart(t, p) && pat <= t[p..]
  }

  /** The first position at or after `p` where `^pat` matches, trying positions in order as
      the regular expression engine does. */
  function FindMatch(t: string, pat: string, p: nat): (m: Option<nat>)
    requires p <= |t|
    ensures m.Some? ==> p <= m.value <= |t| && MatchesAt(t, pat, m.value)
    ensures forall q :: p <= q <= |t| && (m.None? || q < m.value) ==> !MatchesAt(t, pat, q)
    decreases |t| - p
  {
    if MatchesAt(t, pat, p) then Some(p)
    else if p == |t| then None
    else FindMatch(t, pat, p + 1)
  }

  /** Where the greedy `.*` followed by `$` stops: the first line terminator at or after `p`,
      or the end of the text. */
  function LineEnd(t: string, p: nat): (e: nat)
    requires p <= |t|
    ensures p <= e <= |t| && NoBreak(t[p..e])
    ensures e < |t| ==> IsLineTerminator(t[e])
    decreases |t| - p
  {
    if p == |t| || IsLineTerminator(t[p]) then p else LineEnd(t, p + 1)
  }

  /** `setValue(text, key, value)`: the text with the first match of `^key=.*$` replaced by
      `key=value`, or the text itself when nothing matches. */
  function SetValue(t: string, key: string, value: string): string
  {
    match FindMatch(t, key + "=", 0)
    case None => t
    case Some(p) => ReplaceAt(t, key, value, p)
  }

  /** The match `key=` at `p` and the rest of its line, `.*` up to the line's end, replaced
      by `key=value`. */
  function ReplaceAt(t: string, key: string, value: string, p: nat): string
    requires p + |key| + 1 <= |t|
  {
    t[..p] + key + "=" + value + t[LineEnd(t, p + |key| + 1)..]
  }

  /** For a key without line terminators, `.*` after the matched `key=` stops where it would
      from the start of the match. */
  lemma MatchLineEnd(t: string, key: string, p: nat)
    requires NoBreak(key) && p <= |t| && MatchesAt(t, key + "=", p)
    ensures p + |key| + 1 <= |t| && LineEnd(t, p + |key| + 1) == LineEnd(t, p)
  {
    var n := |key| + 1;
    assert t[p..][..n] == key + "=";
    assert t[p..p + n] == key + "=";
    var w := t[p..p + n];
    assert NoBreak(w) by {
      forall i | 0 <= i < n ensures !IsLineTerminator(w[i]) {
        if i < |key| {
          assert w[i] == key[i];
        }
      }
    }
    LineEndAcross(t, p, p + n);
  }

  /** For a key without line terminators, the span `.*` replaces after the matched `key=` ends
      where the match's line ends. */
  lemma SetValueFromMatch(t: string, key: string, value: string, p: nat)
    requires NoBreak(key) && FindMatch(t, key + "=", 0) == Some(p)
    ensures p <= |t| && SetValue(t, key, value) == t[..p] + key + "=" + value + t[LineEnd(t, p)..]
  {
    MatchLineEnd(t, key, p);
    assert SetValue(t, key, value) == ReplaceAt(t, key, value, p);
  }

  /** Over a stretch without line terminators, `.*` stops at the same place wherever in the
      stretch it starts. */
  lemma {:induction false} LineEndAcross(t: string, p: nat, q: nat)
    requires p <= q <= |t| && NoBreak(t[p..q])
    ensures LineEnd(t, q) == LineEnd(t, p)
    decreases q - p
  {
    if p < q {
      assert t[p] == t[p..q][0];
      assert t[p + 1..q] == t[p..q][1..];
      LineEndAcross(t, p + 1, q);
    }
  }

  // ---------------------------------------------------------------------------------------
  // The text as a sequence of lines

  /** A line that is not the last one: one line terminator, at its end. */
  predicate IsEndedLine(l: string) {
    |l| >= 1 && IsLineTerminator(l[|l| - 1]) && NoBreak(l[..|l| - 1])
  }

  /** What cutting a text after each line terminator yields: every line but the last ends in
      its only terminator, and the last has none. */
  predicate WellFormed(ls: seq<string>) {
    |ls| >= 1
    && (forall i :: 0 <= i < |ls| - 1 ==> IsEndedLine(ls[i]))
    && NoBreak(ls[|ls| - 1])
  }

  function Concat(ls: seq<string>): string {
    if ls == [] then [] else ls[0] + Concat(ls[1..])
  }

  /** The lines of a text, each with its own terminator (see `LinesSound`). */
  function Lines(t: string): (ls: seq<string>)
    ensures |ls| >= 1
  {
    if t == [] then [[]]
    else
      var rest := Lines(t[1..]);
      if IsLineTerminator(t[0]) then [[t[0]]] + rest
      else [[t[0]] + rest[0]] + rest[1..]
  }

  /** The terminator a line ends with: one character, or none for the last line. */
  function Ending(l: string): string {
    if l != [] && IsLineTerminator(l[|l| - 1]) then l[|l| - 1..] else []
  }

  /** The line begins with `key=`. */
  predicate Begins(l: string, key: string) {
    key + "=" <= l
  }

  /** The line `key=value`, keeping the terminator of the line it replaces. */
  function Rewritten(l: string, key: string, value: string): string {
    key + "=" + value + Ending(l)
  }

  /** The first line at or after `i` that begins with `key=`. */
  function FirstLine(ls: seq<string>, key: string, i: nat): (m: Option<nat>)
    requires i <= |ls|
    ensures m.Some? ==> i <= m.value < |ls| && Begins(ls[m.value], key)
    ensures forall k :: i <= k < |ls| && (m.None? || k < m.value) ==> !Begins(ls[k], key)
    decreases |ls| - i
  {
    if i == |ls| then None
    else if Begins(ls[i], key) then Some(i)
    else FirstLine(ls, key, i + 1)
  }

  /** `setValue` on lines: the first line that begins with `key=` is rewritten. */
  function PatchLines(ls: seq<string>, key: string, value: string): seq<string> {
    match FirstLine(ls, key, 0)
    case None => ls
    case Some(j) => ls[j := Rewritten(ls[j], key, value)]
  }

  // ---------------------------------------------------------------------------------------
  // Lemmas on concatenation and cutting into lines

  /** The lines of a text are well formed and concatenate back to the text. */
  lemma LinesSound(t: string)
    ensures WellFormed(Lines(t)) && Concat(Lines(t)) == t
  {
    LinesWellFormed(t);
    LinesConcat(t);
  }

  lemma {:induction false} LinesConcat(t: string)
    ensures Concat(Lines(t)) == t
  {
    if t != [] {
      var rest := Lines(t[1..]);
      LinesConcat(t[1..]);
      var ls := Lines(t);
      assert t == [t[0]] + t[1..];
      assert Concat(rest) == rest[0] + Concat(rest[1..]);
      if IsLineTerminator(t[0]) {
        assert ls[1..] == rest;
      } else {
        assert ls[1..] == rest[1..];
      }
    }
  }

  lemma {:induction false} LinesWellFormed(t: string)
    ensures WellFormed(Lines(t))
  {
    if t != [] {
      var rest := Lines(t[1..]);
      LinesWellFormed(t[1..]);
      var ls := Lines(t);
      if IsLineTerminator(t[0]) {
        assert ls[0][..0] == [];
        assert forall i :: 1 <= i < |ls| ==> ls[i] == rest[i - 1];
      } else {
        if |rest| > 1 {
          assert ls[0][..|ls[0]| - 1] == [t[0]] + rest[0][..|rest[0]| - 1];
        }
        assert forall i :: 1 <= i < |ls| ==> ls[i] == rest[i];
      }
    }
  }

  lemma {:induction false} ConcatAppend(a: seq<string>, b: seq<string>)
    ensures Concat(a + b) == Concat(a) + Concat(b)
  {
    if a == [] {
      assert a + b == b;
    } else {
      assert (a + b)[1..] == a[1..] + b;
      ConcatAppend(a[1..], b);
    }
  }

  lemma ConcatCons(l: string, ls: seq<string>)
    ensures Concat([l] + ls) == l + Concat(ls)
  {
    assert ([l] + ls)[1..] == ls;
  }

  /** A text is the lines before `i`, line `i`, and the lines after it. */
  lemma {:induction false} ConcatAround(ls: seq<string>, i: nat)
    requires i < |ls|
    ensures Concat(ls) == Concat(ls[..i]) + ls[i] + Concat(ls[i + 1..])
  {
    if i == 0 {
      assert ls[..0] == [];
    } else {
      var tl := ls[1..];
      ConcatAround(tl, i - 1);
      assert tl[..i - 1] == ls[..i][1..];
      assert tl[i..] == ls[i + 1..];
      assert tl[i - 1] == ls[i];
      assert ls[..i][0] == ls[0];
    }
  }

  /** Replacing line `i` changes the text only there. */
  lemma ConcatUpdate(ls: seq<string>, i: nat, l: string)
    requires i < |ls|
    ensures Concat(ls[i := l]) == Concat(ls[..i]) + l + Concat(ls[i + 1..])
  {
    var ls' := ls[i := l];
    ConcatAround(ls', i);
    assert ls'[..i] == ls[..i] && ls'[i + 1..] == ls[i + 1..];
  }

  /** The text up to line `i` ends with the terminator of line `i - 1`. */
  lemma PrefixEnds(ls: seq<string>, i: nat)
    requires WellFormed(ls) && 0 < i < |ls|
    ensures var pre := Concat(ls[..i]); pre != [] && IsLineTerminator(pre[|pre| - 1])
  {
    assert ls[..i] == ls[..i - 1] + [ls[i - 1]];
    ConcatAppend(ls[..i - 1], [ls[i - 1]]);
    assert Concat([ls[i - 1]]) == ls[i - 1] + Concat([]);
  }

  /** Cutting a break-free piece followed by more text. */
  lemma {:induction false} LinesOfPiece(body: string, rest: string)
    requires NoBreak(body)
    ensures Lines(body + rest) == [body + Lines(rest)[0]] + Lines(rest)[1..]
  {
    var L := Lines(rest);
    if body == [] {
      assert body + rest == rest;
      assert body + L[0] == L[0];
      assert L == [L[0]] + L[1..];
    } else {
      var t := body + rest;
      assert t[1..] == body[1..] + rest;
      LinesOfPiece(body[1..], rest);
      var R := Lines(t[1..]);
      assert R == [body[1..] + L[0]] + L[1..];
      assert t[0] == body[0] && !IsLineTerminator(t[0]);
      assert Lines(t) == [[t[0]] + R[0]] + R[1..];
      assert R[1..] == L[1..];
      assert [body[0]] + (body[1..] + L[0]) == body + L[0];
    }
  }

  /** Cutting is the inverse of concatenating well-formed lines. */
  lemma {:induction false} LinesOfConcat(ls: seq<string>)
    requires WellFormed(ls)
    ensures Lines(Concat(ls)) == ls
    decreases |ls|
  {
    if |ls| == 1 {
      LinesOfLast(ls[0]);
      assert ls == [ls[0]];
    } else {
      var tl := ls[1..];
      assert WellFormed(tl) by {
        assert forall i :: 0 <= i < |tl| - 1 ==> tl[i] == ls[i + 1];
      }
      LinesOfConcat(tl);
      LinesOfEnded(ls[0], tl);
      ConcatCons(ls[0], tl);
      assert ls == [ls[0]] + tl;
    }
  }

  lemma LinesOfLast(l: string)
    requires NoBreak(l)
    ensures Lines(Concat([l])) == [l]
  {
    ConcatCons(l, []);
    assert l + [] == l;
    LinesOfPiece(l, []);
    assert Lines([]) == [[]];
  }

  /** A line with its terminator, followed by well-formed lines. */
  lemma LinesOfEnded(l: string, tl: seq<string>)
    requires IsEndedLine(l) && tl != [] && Lines(Concat(tl)) == tl
    ensures Lines(l + Concat(tl)) == [l] + tl
  {
    var body, c := l[..|l| - 1], l[|l| - 1];
    var rest := [c] + Concat(tl);
    assert rest[1..] == Concat(tl);
    assert Lines(rest) == [[c]] + tl;
    assert l == body + [c];
    LinesOfPiece(body, rest);
    assert l + Concat(tl) == body + rest;
  }

  // ---------------------------------------------------------------------------------------
  // The regular expression and the line view agree

  /** Where line `i` starts in the text. */
  function Start(ls: seq<string>, i: nat): nat
    requires i <= |ls|
  {
    |Concat(ls[..i])|
  }

  lemma {:induction false} LineEndIs(t: string, p: nat, e: nat)
    requires p <= e <= |t| && NoBreak(t[p..e]) && (e == |t| || IsLineTerminator(t[e]))
    ensures LineEnd(t, p) == e
    decreases e - p
  {
    if p < e {
      assert t[p] == t[p..e][0];
      assert t[p + 1..e] == t[p..e][1..];
      LineEndIs(t, p + 1, e);
    }
  }

  lemma {:induction false} FindSkip(t: string, pat: string, p: nat, q: nat)
    requires p <= q <= |t|
    requires forall r :: p <= r < q ==> !MatchesAt(t, pat, r)
    ensures FindMatch(t, pat, p) == FindMatch(t, pat, q)
    decreases q - p
  {
    if p < q {
      FindSkip(t, pat, p + 1, q);
    }
  }

  lemma NextStart(ls: seq<string>, i: nat)
    requires i < |ls|
    ensures Start(ls, i + 1) == Start(ls, i) + |ls[i]|
  {
    assert ls[..i + 1] == ls[..i] + [ls[i]];
    ConcatAppend(ls[..i], [ls[i]]);
    ConcatCons(ls[i], []);
  }

  /** Line `i` sits in the text at `Start(ls, i)`, between the lines before and after it. */
  lemma LineSpan(ls: seq<string>, i: nat, t: string)
    requires t == Concat(ls) && i < |ls|
    ensures Start(ls, i) + |ls[i]| <= |t|
    ensures t[..Start(ls, i)] == Concat(ls[..i])
    ensures t[Start(ls, i)..] == ls[i] + Concat(ls[i + 1..])
    ensures t[Start(ls, i) + |ls[i]|..] == Concat(ls[i + 1..])
    ensures forall k :: 0 <= k < |ls[i]| ==> t[Start(ls, i) + k] == ls[i][k]
    ensures i < |ls| - 1 ==> Start(ls, i + 1) == Start(ls, i) + |ls[i]|
    ensures i == |ls| - 1 ==> Start(ls, i) + |ls[i]| == |t| && Concat(ls[i + 1..]) == []
  {
    LineSpanText(ls, i, t);
    LineSpanNext(ls, i, t);
  }

  lemma LineSpanText(ls: seq<string>, i: nat, t: string)
    requires t == Concat(ls) && i < |ls|
    ensures Start(ls, i) + |ls[i]| <= |t|
    ensures t[..Start(ls, i)] == Concat(ls[..i])
    ensures t[Start(ls, i)..] == ls[i] + Concat(ls[i + 1..])
    ensures t[Start(ls, i) + |ls[i]|..] == Concat(ls[i + 1..])
    ensures forall k :: 0 <= k < |ls[i]| ==> t[Start(ls, i) + k] == ls[i][k]
  {
    ConcatAround(ls, i);
    Window(t, Concat(ls[..i]), ls[i], Concat(ls[i + 1..]));
  }

  /** The pieces of a text made of three parts. */
  lemma Window(t: string, a: string, b: string, c: string)
    requires t == a + b + c
    ensures |a| + |b| <= |t| && t[..|a|] == a
    ensures t[|a|..] == b + c && t[|a| + |b|..] == c
    ensures forall k :: 0 <= k < |b| ==> t[|a| + k] == b[k]
  {
    assert a + b + c == a + (b + c);
  }

  lemma LineSpanNext(ls: seq<string>, i: nat, t: string)
    requires t == Concat(ls) && i < |ls|
    ensures i < |ls| - 1 ==> Start(ls, i + 1) == Start(ls, i) + |ls[i]|
    ensures i == |ls| - 1 ==> Start(ls, i) + |ls[i]| == |t| && Concat(ls[i + 1..]) == []
  {
    ConcatAround(ls, i);
    if i < |ls| - 1 {
      NextStart(ls, i);
    } else {
      assert ls[i + 1..] == [];
    }
  }

  /** Every line holds no terminator before its last character. */
  lemma InnerNoBreak(ls: seq<string>, i: nat)
    requires WellFormed(ls) && i < |ls|
    ensures forall k :: 0 <= k < |ls[i]| - 1 ==> !IsLineTerminator(ls[i][k])
  {
    var l := ls[i];
    if i < |ls| - 1 {
      assert IsEndedLine(l);
      assert forall k :: 0 <= k < |l| - 1 ==> l[k] == l[..|l| - 1][k];
    }
  }

  /** Inside a stretch of the text whose characters before the last are no terminators, no
      position after the first is a line start. */
  lemma NoStartIn(t: string, s: nat, l: string)
    requires s + |l| <= |t|
    requires forall k :: 0 <= k < |l| ==> t[s + k] == l[k]
    requires forall k :: 0 <= k < |l| - 1 ==> !IsLineTerminator(l[k])
    ensures forall r :: s < r < s + |l| ==> !AtLineStart(t, r)
  {
    forall r | s < r < s + |l| ensures !AtLineStart(t, r) {
      var k := r - 1 - s;
      assert t[s + k] == l[k];
    }
  }

  /** A pattern without terminators is a prefix of a line followed by more text exactly when
      it is a prefix of the line, provided the line ends in a terminator or nothing follows. */
  lemma PrefixOfLine(pat: string, l: string, post: string)
    requires NoBreak(pat)
    requires post == [] || (|l| >= 1 && IsLineTerminator(l[|l| - 1]))
    ensures pat <= l + post <==> pat <= l
  {
    if pat <= l {
      assert (l + post)[..|pat|] == l[..|pat|];
    }
    if pat <= l + post && post != [] {
      assert forall k :: 0 <= k < |pat| ==> !IsLineTerminator((l + post)[k]);
      assert IsLineTerminator((l + post)[|l| - 1]);
      assert |pat| < |l|;
      assert pat == (l + post)[..|pat|] == l[..|pat|];
    }
    if post == [] {
      assert l + post == l;
    }
  }

  /** `.*$` started where a line begins stops at the line's terminator (or the end of the
      text), and what follows is that terminator and the rest of the text. */
  lemma LineEndIn(t: string, s: nat, l: string, post: string)
    requires s <= |t| && t[s..] == l + post
    requires (post == [] && NoBreak(l)) || IsEndedLine(l)
    ensures s + |l| - |Ending(l)| <= |t|
    ensures LineEnd(t, s) == s + |l| - |Ending(l)|
    ensures t[s + |l| - |Ending(l)|..] == Ending(l) + post
  {
    if IsEndedLine(l) {
      var e := s + |l| - 1;
      assert Ending(l) == l[|l| - 1..];
      assert t[s..e] == t[s..][..|l| - 1] == (l + post)[..|l| - 1] == l[..|l| - 1];
      assert t[e] == t[s..][|l| - 1] == l[|l| - 1];
      assert t[e..] == t[s..][|l| - 1..] == (l + post)[|l| - 1..] == l[|l| - 1..] + post;
      LineEndIs(t, s, e);
    } else {
      if l != [] {
        assert !IsLineTerminator(l[|l| - 1]);
      }
      assert Ending(l) == [];
      assert t[s..] == l && |t| == s + |l|;
      LineEndIs(t, s, |t|);
    }
  }

  /** `^key=` matches at the start of line `i` exactly when that line begins with `key=`. */
  lemma MatchAtStart(ls: seq<string>, key: string, i: nat, t: string)
    requires WellFormed(ls) && t == Concat(ls) && i < |ls| && NoBreak(key)
    ensures Start(ls, i) <= |t|
    ensures MatchesAt(t, key + "=", Start(ls, i)) <==> Begins(ls[i], key)
  {
    LineSpanText(ls, i, t);
    LineSpanNext(ls, i, t);
    StartsLine(ls, i, t);
    PatternNoBreak(key);
    if i < |ls| - 1 {
      assert IsEndedLine(ls[i]);
    }
    PrefixOfLine(key + "=", ls[i], Concat(ls[i + 1..]));
  }

  /** Every line starts where `^` matches. */
  lemma StartsLine(ls: seq<string>, i: nat, t: string)
    requires WellFormed(ls) && t == Concat(ls) && i < |ls|
    ensures Start(ls, i) <= |t| && AtLineStart(t, Start(ls, i))
  {
    LineSpanText(ls, i, t);
    if i > 0 {
      PrefixEnds(ls, i);
      var s := Start(ls, i);
      assert t[s - 1] == t[..s][s - 1];
    }
  }

  lemma PatternNoBreak(key: string)
    requires NoBreak(key)
    ensures NoBreak(key + "=")
  {
    var pat := key + "=";
    assert forall k :: 0 <= k < |key| ==> pat[k] == key[k];
  }

  /** The regular expression engine, started at line `i`, stops at the first line from `i`
      on that begins with `key=`. */
  lemma {:induction false} FindFromLine(ls: seq<string>, key: string, i: nat, t: string)
    requires WellFormed(ls) && t == Concat(ls) && i < |ls| && NoBreak(key)
    ensures Start(ls, i) <= |t|
    ensures FindMatch(t, key + "=", Start(ls, i))
            == match FirstLine(ls, key, i)
               case None => None
               case Some(j) => Some(Start(ls, j))
    decreases |ls| - i
  {
    MatchAtStart(ls, key, i, t);
    if !Begins(ls[i], key) {
      SkipLine(ls, key, i, t);
      if i < |ls| - 1 {
        FindFromLine(ls, key, i + 1, t);
      }
    }
  }

  /** A line that does not begin with `key=` holds no match: the search goes on at the next
      line, or finds nothing after the last. */
  lemma SkipLine(ls: seq<string>, key: string, i: nat, t: string)
    requires WellFormed(ls) && t == Concat(ls) && i < |ls| && NoBreak(key)
    requires !Begins(ls[i], key)
    ensures Start(ls, i) <= |t|
    ensures i < |ls| - 1 ==> Start(ls, i + 1) <= |t|
    ensures i < |ls| - 1 ==> FindMatch(t, key + "=", Start(ls, i)) == FindMatch(t, key + "=", Start(ls, i + 1))
    ensures i == |ls| - 1 ==> FindMatch(t, key + "=", Start(ls, i)) == None
  {
    var s, pat := Start(ls, i), key + "=";
    LineSpanText(ls, i, t);
    var e := s + |ls[i]|;
    assert FindMatch(t, pat, s) == FindMatch(t, pat, e) by {
      LineHasNoMatch(ls, key, i, t);
      FindSkip(t, pat, s, e);
    }
    if i < |ls| - 1 {
      assert Start(ls, i + 1) == e by {
        NextStart(ls, i);
      }
    } else {
      assert e == |t| by {
        LineSpanNext(ls, i, t);
      }
      assert !MatchesAt(t, pat, e) by {
        assert t[e..] == [];
      }
    }
  }

  /** No position of a line that does not begin with `key=` is a match of `^key=`. */
  lemma LineHasNoMatch(ls: seq<string>, key: string, i: nat, t: string)
    requires WellFormed(ls) && t == Concat(ls) && i < |ls| && NoBreak(key)
    requires !Begins(ls[i], key)
    ensures Start(ls, i) + |ls[i]| <= |t|
    ensures forall r :: Start(ls, i) <= r < Start(ls, i) + |ls[i]| ==> !MatchesAt(t, key + "=", r)
  {
    MatchAtStart(ls, key, i, t);
    InnerNoBreak(ls, i);
    NoStartInLine(ls, i, t);
  }

  /** No position inside line `i` after its first character is a line start. */
  lemma NoStartInLine(ls: seq<string>, i: nat, t: string)
    requires t == Concat(ls) && i < |ls|
    requires forall k :: 0 <= k < |ls[i]| - 1 ==> !IsLineTerminator(ls[i][k])
    ensures Start(ls, i) + |ls[i]| <= |t|
    ensures forall r :: Start(ls, i) < r < Start(ls, i) + |ls[i]| ==> !AtLineStart(t, r)
  {
    LineSpanText(ls, i, t);
    NoStartIn(t, Start(ls, i), ls[i]);
  }

  /** The regular expression replace and the line patch give the same text. */
  lemma SetValueByLines(t: string, key: string, value: string)
    requires NoBreak(key)
    ensures SetValue(t, key, value) == Concat(PatchLines(Lines(t), key, value))
  {
    var m := FindMatch(t, key + "=", 0);
    if m.Some? {
      SetValueFromMatch(t, key, value, m.value);
    }
    var ls := Lines(t);
    LinesSound(t);
    assert ls[..0] == [];
    FindFromLine(ls, key, 0, t);
    match FirstLine(ls, key, 0)
    case None =>
    case Some(j) => ReplaceLine(ls, key, value, j, t);
  }

  /** Replacing the match that starts line `j` is rewriting line `j`. */
  lemma ReplaceLine(ls: seq<string>, key: string, value: string, j: nat, t: string)
    requires WellFormed(ls) && t == Concat(ls) && j < |ls|
    ensures var p := Start(ls, j);
      p <= |t| && LineEnd(t, p) <= |t|
      && t[..p] + key + "=" + value + t[LineEnd(t, p)..]
         == Concat(ls[j := Rewritten(ls[j], key, value)])
  {
    var p, l, post := Start(ls, j), ls[j], Concat(ls[j + 1..]);
    LineSpanText(ls, j, t);
    LineSpanNext(ls, j, t);
    if j < |ls| - 1 {
      assert IsEndedLine(l);
    }
    LineEndIn(t, p, l, post);
    Splice(t, p, LineEnd(t, p), Concat(ls[..j]), key, value, Ending(l), post);
    ConcatUpdate(ls, j, Rewritten(l, key, value));
  }

  /** Putting `key=value` between the text before `p` and the text from `e` on. */
  lemma Splice(t: string, p: nat, e: nat, a: string, key: string, value: string,
               end: string, post: string)
    requires p <= e <= |t| && t[..p] == a && t[e..] == end + post
    ensures t[..p] + key + "=" + value + t[e..] == a + (key + "=" + value + end) + post
  {
    var mid := key + "=" + value;
    assert t[..p] + key + "=" + value == a + mid;
    assert a + mid + (end + post) == a + (mid + end) + post;
  }

  /** Patching keeps the lines well formed when the key and value hold no line terminator. */
  lemma PatchWellFormed(ls: seq<string>, key: string, value: string)
    requires WellFormed(ls) && NoBreak(key) && NoBreak(value)
    ensures WellFormed(PatchLines(ls, key, value))
  {
    match FirstLine(ls, key, 0)
    case None =>
    case Some(j) =>
      var l := ls[j];
      var body := key + "=" + value;
      assert NoBreak(body) by {
        forall k | 0 <= k < |body| ensures !IsLineTerminator(body[k]) {
          if k < |key| { assert body[k] == key[k]; }
          else if k > |key| { assert body[k] == value[k - |key| - 1]; }
        }
      }
      if j < |ls| - 1 {
        assert Ending(l) == [l[|l| - 1]];
        assert (body + Ending(l))[..|body|] == body;
      } else {
        assert Ending(l) == [];
        assert body + Ending(l) == body;
      }
  }

  /** With a key and value free of line terminators, the lines of the result are the lines
      of the text with the first line that begins with `key=` rewritten. */
  lemma SetValueLines(t: string, key: string, value: string)
    requires NoBreak(key) && NoBreak(value)
    ensures Lines(SetValue(t, key, value)) == PatchLines(Lines(t), key, value)
  {
    SetValueByLines(t, key, value);
    LinesSound(t);
    PatchWellFormed(Lines(t), key, value);
    LinesOfConcat(PatchLines(Lines(t), key, value));
  }

  // ---------------------------------------------------------------------------------------
  // The contract of setValue

  /** When no line begins with `key=`, the text comes back unchanged. */
  lemma SetValueNoMatch(t: string, key: string, value: string)
    requires NoBreak(key)
    requires forall i :: 0 <= i < |Lines(t)| ==> !Begins(Lines(t)[i], key)
    ensures SetValue(t, key, value) == t
  {
    SetValueByLines(t, key, value);
    LinesSound(t);
  }

  /** Only the first line that begins with `key=` changes, to `key=value` with its own
      terminator; every other line, later ones that begin with `key=` included, keeps its
      content and position. */
  lemma SetValueFirstOnly(t: string, key: string, value: string, j: nat)
    requires NoBreak(key) && NoBreak(value)
    requires j < |Lines(t)| && Begins(Lines(t)[j], key)
    requires forall i :: 0 <= i < j ==> !Begins(Lines(t)[i], key)
    ensures var before, after := Lines(t), Lines(SetValue(t, key, value));
      |after| == |before| && after[j] == key + "=" + value + Ending(before[j])
      && forall i :: 0 <= i < |after| && i != j ==> after[i] == before[i]
  {
    SetValueLines(t, key, value);
    var m := FirstLine(Lines(t), key, 0);
    assert m == Some(j);
  }

  // ---------------------------------------------------------------------------------------
  // setValue applied pair after pair

  /** `setValue` for each pair in turn, each call on the previous result. */
  function SetAll(t: string, pairs: seq<(string, string)>): string
    decreases |pairs|
  {
    if pairs == [] then t
    else
      var last := pairs[|pairs| - 1];
      SetValue(SetAll(t, pairs[..|pairs| - 1]), last.0, last.1)
  }

  /** A key as the configuration keys are: no `=` and no line terminator. */
  predicate PlainKey(key: string) {
    '=' !in key && NoBreak(key)
  }

  /** Keys and values that cannot disturb the line structure. */
  predicate PlainPairs(pairs: seq<(string, string)>) {
    forall m :: 0 <= m < |pairs| ==> PlainKey(pairs[m].0) && NoBreak(pairs[m].1)
  }

  /** The lines after applying `pairs` to the lines `ls`: each pair rewrites the first line of
      the ORIGINAL text that begins with its key; a later pair for the same line wins. */
  function PatchedLines(ls: seq<string>, pairs: seq<(string, string)>): (r: seq<string>)
    ensures |r| == |ls|
    decreases |pairs|
  {
    if pairs == [] then ls
    else
      var prev := PatchedLines(ls, pairs[..|pairs| - 1]);
      var last := pairs[|pairs| - 1];
      match FirstLine(ls, last.0, 0)
      case None => prev
      case Some(j) => prev[j := Rewritten(ls[j], last.0, last.1)]
  }

  /** A line begins with at most one key of the form `key=`. */
  lemma BeginsUnique(l: string, k1: string, k2: string)
    requires '=' !in k1 && '=' !in k2 && Begins(l, k1) && Begins(l, k2)
    ensures k1 == k2
  {
    assert forall i :: 0 <= i < |k1| ==> l[i] == k1[i];
    assert forall i :: 0 <= i < |k2| ==> l[i] == k2[i];
    assert l[|k1|] == '=' && l[|k2|] == '=';
    assert |k1| == |k2|;
    assert k1 == l[..|k1|] == k2;
  }

  /** A rewritten line begins with the same keys as the line it replaced. */
  lemma RewrittenBegins(l: string, key: string, value: string, other: string)
    requires '=' !in key && '=' !in other && Begins(l, key)
    ensures Begins(Rewritten(l, key, value), other) <==> Begins(l, other)
  {
    var r := Rewritten(l, key, value);
    assert (key + "=") <= r;
    if Begins(r, other) { BeginsUnique(r, key, other); }
    if Begins(l, other) { BeginsUnique(l, key, other); }
  }

  /** Applying pairs keeps the keys each line begins with. */
  lemma {:induction false} PatchedLinesBegins(ls: seq<string>, pairs: seq<(string, string)>, key: string)
    requires PlainPairs(pairs) && '=' !in key
    ensures var r := PatchedLines(ls, pairs);
      forall j :: 0 <= j < |ls| ==> (Begins(r[j], key) <==> Begins(ls[j], key))
    decreases |pairs|
  {
    if pairs != [] {
      var init := pairs[..|pairs| - 1];
      var last := pairs[|pairs| - 1];
      assert PlainPairs(init);
      PatchedLinesBegins(ls, init, key);
      match FirstLine(ls, last.0, 0)
      case None =>
      case Some(j) => RewrittenBegins(ls[j], last.0, last.1, key);
    }
  }

  /** Applying pairs keeps every line's terminator. */
  lemma {:induction false} PatchedLinesEnding(ls: seq<string>, pairs: seq<(string, string)>, j: nat)
    requires PlainPairs(pairs) && j < |ls|
    ensures Ending(PatchedLines(ls, pairs)[j]) == Ending(ls[j])
    decreases |pairs|
  {
    if pairs != [] {
      var init := pairs[..|pairs| - 1];
      var last := pairs[|pairs| - 1];
      assert PlainPairs(init);
      PatchedLinesEnding(ls, init, j);
      match FirstLine(ls, last.0, 0)
      case None =>
      case Some(i) =>
        if i == j {
          RewrittenEnding(ls[j], last.0, last.1);
        }
    }
  }

  lemma RewrittenEnding(l: string, key: string, value: string)
    requires NoBreak(value)
    ensures Ending(Rewritten(l, key, value)) == Ending(l)
  {
    var r := Rewritten(l, key, value);
    if Ending(l) == [] {
      assert r == key + "=" + value;
      assert r[|r| - 1] == if value == [] then '=' else value[|value| - 1];
    }
  }

  /** Lines that begin with the same keys have the same first match for every key. */
  lemma {:induction false} FirstLineSame(a: seq<string>, b: seq<string>, key: string, i: nat)
    requires |a| == |b| && i <= |a|
    requires forall j :: 0 <= j < |a| ==> (Begins(a[j], key) <==> Begins(b[j], key))
    ensures FirstLine(a, key, i) == FirstLine(b, key, i)
    decreases |a| - i
  {
    if i < |a| {
      FirstLineSame(a, b, key, i + 1);
    }
  }

  /** Applying `pairs` one `setValue` at a time is `PatchedLines` on the lines of the text:
      each key lands on the first line of the original text that begins with it. */
  lemma {:induction false} SetAllLines(t: string, pairs: seq<(string, string)>)
    requires PlainPairs(pairs)
    ensures Lines(SetAll(t, pairs)) == PatchedLines(Lines(t), pairs)
    decreases |pairs|
  {
    if pairs != [] {
      var init := pairs[..|pairs| - 1];
      var last := pairs[|pairs| - 1];
      var ls := Lines(t);
      var prev := PatchedLines(ls, init);
      assert PlainPairs(init);
      SetAllLines(t, init);
      SetValueLines(SetAll(t, init), last.0, last.1);
      PatchedLinesBegins(ls, init, last.0);
      FirstLineSame(prev, ls, last.0, 0);
      match FirstLine(ls, last.0, 0)
      case None =>
      case Some(j) => PatchedLinesEnding(ls, init, j);
    }
  }

  /** A line that is the first match of none of the keys is left as it was. */
  lemma {:induction false} PatchedLinesUntouched(ls: seq<string>, pairs: seq<(string, string)>, j: nat)
    requires j < |ls|
    requires forall m :: 0 <= m < |pairs| ==> FirstLine(ls, pairs[m].0, 0) != Some(j)
    ensures PatchedLines(ls, pairs)[j] == ls[j]
    decreases |pairs|
  {
    if pairs != [] {
      PatchedLinesUntouched(ls, pairs[..|pairs| - 1], j);
    }
  }

  /** The first line that begins with the key of pair `m` holds that pair's value, unless a
      later pair has the same key. */
  lemma {:induction false} PatchedLinesRewritten(ls: seq<string>, pairs: seq<(string, string)>, j: nat, m: nat)
    requires PlainPairs(pairs) && m < |pairs|
    requires FirstLine(ls, pairs[m].0, 0) == Some(j)
    requires forall n :: m < n < |pairs| ==> pairs[n].0 != pairs[m].0
    ensures j < |ls| && PatchedLines(ls, pairs)[j] == Rewritten(ls[j], pairs[m].0, pairs[m].1)
    decreases |pairs|
  {
    var init := pairs[..|pairs| - 1];
    var last := pairs[|pairs| - 1];
    if m < |pairs| - 1 {
      assert PlainPairs(init);
      PatchedLinesRewritten(ls, init, j, m);
      if FirstLine(ls, last.0, 0) == Some(j) {
        BeginsUnique(ls[j], pairs[m].0, last.0);
      }
    }
  }

  /** Applying pairs with distinct keys, one `setValue` at a time: the text keeps its number of
      lines; the first line that begins with each key becomes that key's pair, terminator
      kept; every other line is unchanged; and when no line begins with any key, the text
      comes back unchanged. */
  lemma SetAllRewrites(t: string, pairs: seq<(string, string)>)
    requires PlainPairs(pairs)
    requires forall a, b :: 0 <= a < b < |pairs| ==> pairs[a].0 != pairs[b].0
    ensures var before, after := Lines(t), Lines(SetAll(t, pairs));
      |after| == |before|
      && (forall m :: 0 <= m < |pairs| && FirstLine(before, pairs[m].0, 0).Some? ==>
            var j := FirstLine(before, pairs[m].0, 0).value;
            after[j] == pairs[m].0 + "=" + pairs[m].1 + Ending(before[j]))
      && (forall j :: 0 <= j < |before|
            && (forall m :: 0 <= m < |pairs| ==> FirstLine(before, pairs[m].0, 0) != Some(j))
            ==> after[j] == before[j])
      && ((forall m :: 0 <= m < |pairs| ==> FirstLine(before, pairs[m].0, 0).None?)
            ==> SetAll(t, pairs) == t)
  {
    var before, out := Lines(t), SetAll(t, pairs);
    SetAllLines(t, pairs);
    forall m | 0 <= m < |pairs| && FirstLine(before, pairs[m].0, 0).Some?
      ensures var j := FirstLine(before, pairs[m].0, 0).value;
        Lines(out)[j] == pairs[m].0 + "=" + pairs[m].1 + Ending(before[j])
    {
      PatchedLinesRewritten(before, pairs, FirstLine(before, pairs[m].0, 0).value, m);
    }
    forall j | 0 <= j < |before|
      && (forall m :: 0 <= m < |pairs| ==> FirstLine(before, pairs[m].0, 0) != Some(j))
      ensures Lines(out)[j] == before[j]
    {
      PatchedLinesUntouched(before, pairs, j);
    }
    if forall m :: 0 <= m < |pairs| ==> FirstLine(before, pairs[m].0, 0).None? {
      assert Lines(out) == before;
      LinesSound(out);
      LinesSound(t);
    }
  }
}
