/** `parseINI` of Commands/Control/field.js: INI-like text to a map from section name to a
    key/value map. The source walks the lines once, updating a dictionary of sections and the
    name of the current section; `Feed` is that walk as a function and `ParseIni` is the loop. */
module IniParser {
  import opened JsText

  type Section = map<string, string>
  type Sections = map<string, Section>

  /** The parser's two variables between lines: the sections so far and the current one. */
  datatype State = State(sections: Sections, current: Option<string>)

  /** The current section, once there is one, has an entry. */
  predicate Valid(st: State) {
    st.current.Some? ==> st.current.value in st.sections
  }

  const Initial: State := State(map[], None)

  /** A line whose last character is a carriage return. */
  predicate EndsInCr(l: string) {
    l != [] && l[|l| - 1] == '\r'
  }

  /** `content.split(/\r?\n/)`: cut at every "\n"; a "\r" right before it belongs to the
      separator, so every piece but the last loses one trailing "\r". */
  function SplitLines(content: string): (lines: seq<string>)
    ensures |lines| == multiset(content)['\n'] + 1
    ensures forall i :: 0 <= i < |lines| ==> '\n' !in lines[i]
  {
    var pieces := Split(content, '\n');
    SplitSpec(content, '\n');
    seq(|pieces|, i requires 0 <= i < |pieces| =>
      var p := pieces[i];
      if i < |pieces| - 1 && EndsInCr(p) then p[..|p| - 1] else p)
  }

  /** For each "\n" of `content`, whether the separator `split(/\r?\n/)` consumed there was
      "\r\n". */
  function LineBreaks(content: string): (crlf: seq<bool>)
    ensures |crlf| == |SplitLines(content)| - 1
  {
    var pieces := Split(content, '\n');
    seq(|pieces| - 1, i requires 0 <= i < |pieces| - 1 => EndsInCr(pieces[i]))
  }

  /** The lines joined back with their separators: "\r\n" after line `i` where `crlf[i]`,
      "\n" otherwise. */
  function JoinLines(lines: seq<string>, crlf: seq<bool>): string
    requires |lines| == |crlf| + 1
    decreases |crlf|
  {
    if crlf == [] then lines[0]
    else lines[0] + (if crlf[0] then "\r\n" else "\n") + JoinLines(lines[1..], crlf[1..])
  }

  /** Joining lines with their separators is joining, with "\n", the pieces that still carry
      the "\r" of each "\r\n". */
  lemma {:induction false} JoinLinesPieces(lines: seq<string>, crlf: seq<bool>, pieces: seq<string>)
    requires |lines| == |crlf| + 1 == |pieces|
    requires forall i :: 0 <= i < |crlf| ==>
      pieces[i] == (if crlf[i] then lines[i] + "\r" else lines[i])
    requires pieces[|crlf|] == lines[|crlf|]
    ensures JoinLines(lines, crlf) == Join(pieces, '\n')
    decreases |crlf|
  {
    if crlf != [] {
      JoinLinesPieces(lines[1..], crlf[1..], pieces[1..]);
      assert pieces[0] + ['\n'] == lines[0] + (if crlf[0] then "\r\n" else "\n");
    }
  }

  /** Nothing is lost by the line split: the lines, joined with the separators found between
      them, give back the content, and a line followed by a bare "\n" does not end in "\r". */
  lemma SplitLinesRejoin(content: string)
    ensures JoinLines(SplitLines(content), LineBreaks(content)) == content
    ensures forall i :: 0 <= i < |LineBreaks(content)| && !LineBreaks(content)[i] ==>
      !EndsInCr(SplitLines(content)[i])
  {
    var pieces := Split(content, '\n');
    var lines, crlf := SplitLines(content), LineBreaks(content);
    SplitSpec(content, '\n');
    forall i | 0 <= i < |crlf|
      ensures pieces[i] == (if crlf[i] then lines[i] + "\r" else lines[i])
    {
      if crlf[i] {
        assert pieces[i] == pieces[i][..|pieces[i]| - 1] + "\r";
      }
    }
    JoinLinesPieces(lines, crlf, pieces);
  }

  /** Conversely, lines without "\n", joined with "\n" or "\r\n" (a bare "\n" only after a
      line not ending in "\r"), split back into the same lines and separators. */
  lemma SplitLinesOfJoin(lines: seq<string>, crlf: seq<bool>)
    requires |lines| == |crlf| + 1
    requires forall i :: 0 <= i < |lines| ==> '\n' !in lines[i]
    requires forall i :: 0 <= i < |crlf| && !crlf[i] ==> !EndsInCr(lines[i])
    ensures SplitLines(JoinLines(lines, crlf)) == lines
    ensures LineBreaks(JoinLines(lines, crlf)) == crlf
  {
    var content := JoinLines(lines, crlf);
    var pieces := CarriedPieces(lines, crlf);
    assert Split(content, '\n') == pieces by {
      JoinLinesPieces(lines, crlf, pieces);
      SplitOfJoin(pieces, '\n');
    }
    var split := SplitLines(content);
    forall i | 0 <= i < |lines| ensures split[i] == lines[i] {
      if i < |crlf| && crlf[i] {
        assert pieces[i][..|pieces[i]| - 1] == lines[i];
      }
    }
  }

  /** Each line with the "\r" of its "\r\n" separator still attached. */
  function CarriedPieces(lines: seq<string>, crlf: seq<bool>): (pieces: seq<string>)
    requires |lines| == |crlf| + 1
    ensures |pieces| == |lines|
    ensures forall i :: 0 <= i < |crlf| ==>
      pieces[i] == (if crlf[i] then lines[i] + "\r" else lines[i])
    ensures pieces[|crlf|] == lines[|crlf|]
  {
    seq(|lines|, i requires 0 <= i < |lines| =>
      if i < |crlf| && crlf[i] then lines[i] + "\r" else lines[i])
  }

  /** The name `/^\[(.+)\]$/` captures from a trimmed line: without the `m` flag the anchors
      are the ends of the line, and `.` matches anything but a line terminator. */
  function SectionName(line: string): (name: Option<string>)
    ensures name.Some? <==>
      |line| >= 3 && line[0] == '[' && line[|line| - 1] == ']' && NoBreak(line[1..|line| - 1])
    ensures name.Some? ==> name.value != [] && line == "[" + name.value + "]"
  {
    if |line| >= 3 && line[0] == '[' && line[|line| - 1] == ']' && NoBreak(line[1..|line| - 1])
    then Some(line[1..|line| - 1])
    else None
  }

  /** How the parser reads one raw line, once trimmed. */
  datatype Kind = Skip | Header(name: string) | Pair(key: string, value: string)

  /** Blank lines and `;` comments are skipped; a `[name]` line opens a section; a line that
      splits on `=` into exactly two parts is a trimmed key and value; anything else is
      skipped too. */
  function Classify(raw: string): Kind {
    var line := Trim(raw);
    if line == [] || line[0] == ';' then Skip
    else
      match SectionName(line)
      case Some(name) => Header(name)
      case None =>
        var kv := Split(line, '=');
        if |kv| == 2 then Pair(Trim(kv[0]), Trim(kv[1])) else Skip
  }

  /** A raw line that opens a section. */
  predicate IsHeader(raw: string) {
    Classify(raw).Header?
  }

  /** A raw line that the parser reads as `key=...` once a section is open. */
  predicate Assigns(raw: string, key: string) {
    Classify(raw).Pair? && Classify(raw).key == key
  }

  /** What the parser does with one raw line: a header creates (or empties) its section and
      makes it current; a pair is stored in the current section, if there is one. */
  function Step(st: State, raw: string): (r: State)
    requires Valid(st)
    ensures Valid(r)
  {
    match Classify(raw)
    case Skip => st
    case Header(name) => State(st.sections[name := map[]], Some(name))
    case Pair(key, value) =>
      match st.current
      case None => st
      case Some(cur) => State(st.sections[cur := st.sections[cur][key := value]], st.current)
  }

  /** The parser's state after the given lines, one `Step` each, in order. */
  function Feed(st: State, lines: seq<string>): (r: State)
    requires Valid(st)
    ensures Valid(r)
    decreases |lines|
  {
    if lines == [] then st else Step(Feed(st, lines[..|lines| - 1]), lines[|lines| - 1])
  }

  /** `parseINI(content)`. */
  function Parse(content: string): Sections {
    Feed(Initial, SplitLines(content)).sections
  }

  /** `parseINI` as the source runs it: one pass over the lines, updating the sections and the
      current section name in place. */
  method ParseIni(content: string) returns (sections: Sections)
    ensures sections == Parse(content)
  {
    var lines := SplitLines(content);
    sections := map[];
    var current: Option<string> := None;
    for i := 0 to |lines|
      invariant Valid(State(sections, current))
      invariant State(sections, current) == Feed(Initial, lines[..i])
    {
      ghost var next := Step(State(sections, current), lines[i]);
      assert Feed(Initial, lines[..i + 1]) == next by {
        assert lines[..i + 1][..i] == lines[..i];
      }
      var line := Trim(lines[i]);
      if line == [] || line[0] == ';' {
        continue;
      }
      var header := SectionName(line);
      if header.Some? {
        current := header;
        sections := sections[header.value := map[]];
      } else if current.Some? {
        var kv := Split(line, '=');
        if |kv| == 2 {
          sections := sections[current.value := sections[current.value][Trim(kv[0]) := Trim(kv[1])]];
        }
      }
    }
    assert lines[..|lines|] == lines;
  }

  // ---------------------------------------------------------------------------------------
  // Properties of the parser

  lemma {:induction false} FeedAppend(st: State, a: seq<string>, b: seq<string>)
    requires Valid(st)
    ensures Feed(st, a + b) == Feed(Feed(st, a), b)
    decreases |b|
  {
    if b == [] {
      assert a + b == a;
    } else {
      assert (a + b)[..|a + b| - 1] == a + b[..|b| - 1];
      FeedAppend(st, a, b[..|b| - 1]);
    }
  }

  /** Until the first header there is no current section. */
  lemma {:induction false} NoSectionBeforeHeader(lines: seq<string>)
    requires forall k :: 0 <= k < |lines| ==> !IsHeader(lines[k])
    ensures Feed(Initial, lines).current == None
    decreases |lines|
  {
    if lines != [] {
      NoSectionBeforeHeader(lines[..|lines| - 1]);
    }
  }

  /** Four kinds of line leave the result as it would be without them: blank (or all
      whitespace) lines, lines starting with `;`, lines before the first header, and lines
      that are no header and do not split on `=` into exactly two parts. */
  lemma IgnoredLineDropsOut(lines: seq<string>, i: nat)
    requires i < |lines|
    requires var line := Trim(lines[i]);
      line == [] || line[0] == ';'
      || (!IsHeader(lines[i])
          && (|Split(line, '=')| != 2 || forall k :: 0 <= k < i ==> !IsHeader(lines[k])))
    ensures Feed(Initial, lines) == Feed(Initial, lines[..i] + lines[i + 1..])
  {
    var before := Feed(Initial, lines[..i]);
    assert Step(before, lines[i]) == before by {
      if forall k :: 0 <= k < i ==> !IsHeader(lines[k]) {
        NoSectionBeforeHeader(lines[..i]);
      }
    }
    assert Feed(Initial, lines[..i + 1]) == before by {
      assert lines[..i + 1][..i] == lines[..i];
    }
    assert lines == lines[..i + 1] + lines[i + 1..];
    FeedAppend(Initial, lines[..i + 1], lines[i + 1..]);
    FeedAppend(Initial, lines[..i], lines[i + 1..]);
  }

  /** A line opens section `name` exactly when, trimmed, it is `[name]` with `name` non-empty
      and free of line terminators. */
  lemma ClassifyHeader(raw: string, name: string)
    ensures Classify(raw) == Header(name) <==>
      Trim(raw) == "[" + name + "]" && name != [] && NoBreak(name)
  {
    var line := Trim(raw);
    if line == "[" + name + "]" && name != [] && NoBreak(name) {
      assert line[0] == '[' && line[1..|line| - 1] == name;
    }
  }

  /** A line that is no comment and no header, and whose trimmed text holds exactly one `=`,
      is read as the trimmed text before the `=` mapped to the trimmed text after it; a line
      read as a pair has exactly one `=`. */
  lemma ClassifyKeyValue(raw: string, i: nat)
    requires var line := Trim(raw);
      i < |line| && line[i] == '=' && '=' !in line[..i] && '=' !in line[i + 1..]
      && line[0] != ';' && !IsHeader(raw)
    ensures var line := Trim(raw); Classify(raw) == Pair(Trim(line[..i]), Trim(line[i + 1..]))
  {
    SplitAtEquals(Trim(raw), i);
  }

  /** A text with exactly one `=`, at `i`, splits into what precedes and what follows it. */
  lemma SplitAtEquals(line: string, i: nat)
    requires i < |line| && line[i] == '=' && '=' !in line[..i] && '=' !in line[i + 1..]
    ensures Split(line, '=') == [line[..i], line[i + 1..]]
  {
    CountOne(line, i);
    var parts := Split(line, '=');
    SplitInTwo(line, '=');
    var n := |parts[0]|;
    assert line == parts[0] + "=" + parts[1];
    assert line[..n] == parts[0] && line[n] == '=';
    assert n == i;
    assert parts == [line[..i], line[i + 1..]];
  }

  /** The only `=` of `line` is its one occurrence. */
  lemma CountOne(line: string, i: nat)
    requires i < |line| && line[i] == '=' && '=' !in line[..i] && '=' !in line[i + 1..]
    ensures multiset(line)['='] == 1
  {
    var before, after := line[..i], line[i + 1..];
    assert line == before + ['='] + after;
    assert multiset(line) == multiset(before) + multiset{'='} + multiset(after);
  }

  lemma PairHasOneEquals(raw: string)
    requires Classify(raw).Pair?
    ensures multiset(Trim(raw))['='] == 1
  {
    SplitInTwo(Trim(raw), '=');
  }

  /** Section `name` of `st` maps `key` to `value`. */
  predicate HasEntry(st: State, name: string, key: string, value: string) {
    name in st.sections && key in st.sections[name] && st.sections[name][key] == value
  }

  /** Line `raw`, read in state `st`, neither reopens section `name` nor assigns `key` while
      `name` is the current section. */
  predicate LeavesEntry(st: State, raw: string, name: string, key: string) {
    Classify(raw) != Header(name) && (st.current == Some(name) ==> !Assigns(raw, key))
  }

  /** Every line of `lines` after index `i` leaves the entry `name.key` alone. */
  predicate LeftAfter(lines: seq<string>, i: nat, name: string, key: string) {
    forall k :: i < k < |lines| ==> LeavesEntry(Feed(Initial, lines[..k]), lines[k], name, key)
  }

  /** One step keeps an entry `name.key == value` unless it reopens `name` or assigns `key`
      while `name` is open. */
  lemma StepKeepsEntry(st: State, raw: string, name: string, key: string, value: string)
    requires Valid(st) && HasEntry(st, name, key, value)
    requires LeavesEntry(st, raw, name, key)
    ensures HasEntry(Step(st, raw), name, key, value)
  {
  }

  /** A `key=value` line in the open section stores its value under its key. */
  lemma StepWrites(st: State, raw: string, name: string)
    requires Valid(st) && st.current == Some(name) && Classify(raw).Pair?
    ensures HasEntry(Step(st, raw), name, Classify(raw).key, Classify(raw).value)
  {
  }

  /** Dropping the last line keeps `LeftAfter` for the lines before it. */
  lemma LeftAfterInit(lines: seq<string>, i: nat, name: string, key: string)
    requires i < |lines| - 1 && LeftAfter(lines, i, name, key)
    ensures LeftAfter(lines[..|lines| - 1], i, name, key)
    ensures LeavesEntry(Feed(Initial, lines[..|lines| - 1]), lines[|lines| - 1], name, key)
  {
    var init := lines[..|lines| - 1];
    forall k | i < k < |init|
      ensures LeavesEntry(Feed(Initial, init[..k]), init[k], name, key)
    {
      assert init[..k] == lines[..k];
    }
  }

  /** Last write wins: the value of a key in a section is the one its last `key=value` line
      gives, as long as no later line reopens the section or assigns the key while the
      section is current. */
  lemma {:induction false} LastWriteWins(lines: seq<string>, i: nat, name: string)
    requires i < |lines| && Feed(Initial, lines[..i]).current == Some(name)
    requires Classify(lines[i]).Pair?
    requires LeftAfter(lines, i, name, Classify(lines[i]).key)
    ensures HasEntry(Feed(Initial, lines), name, Classify(lines[i]).key, Classify(lines[i]).value)
    decreases |lines| - i
  {
    var Pair(key, value) := Classify(lines[i]);
    if i == |lines| - 1 {
      assert lines == lines[..i] + [lines[i]];
      StepWrites(Feed(Initial, lines[..i]), lines[i], name);
    } else {
      var init := lines[..|lines| - 1];
      assert init[..i] == lines[..i] && init[i] == lines[i];
      LeftAfterInit(lines, i, name, key);
      LastWriteWins(init, i, name);
      StepKeepsEntry(Feed(Initial, init), lines[|lines| - 1], name, key, value);
    }
  }

  /** A step adds at most the section its line opens: a pair line only changes the contents
      of the current section, which already has an entry. */
  lemma StepSections(st: State, raw: string, name: string)
    requires Valid(st)
    ensures name in Step(st, raw).sections <==> name in st.sections || Classify(raw) == Header(name)
    ensures name in st.sections && Classify(raw) != Header(name) && st.current != Some(name) ==>
      Step(st, raw).sections[name] == st.sections[name]
  {
  }

  /** A section some line opens stays in the map: later lines may empty it, never drop it. */
  lemma {:induction false} FeedKeepsOpened(lines: seq<string>, k: nat, name: string)
    requires k < |lines| && Classify(lines[k]) == Header(name)
    ensures name in Feed(Initial, lines).sections
    decreases |lines|
  {
    var init, last := lines[..|lines| - 1], lines[|lines| - 1];
    assert Feed(Initial, lines) == Step(Feed(Initial, init), last);
    if k < |init| {
      assert init[k] == lines[k];
      FeedKeepsOpened(init, k, name);
    }
    StepSections(Feed(Initial, init), last, name);
  }

  /** Every section in the map was opened by some line. */
  lemma {:induction false} FeedOnlyOpened(lines: seq<string>, name: string) returns (k: nat)
    requires name in Feed(Initial, lines).sections
    ensures k < |lines| && Classify(lines[k]) == Header(name)
    decreases |lines|
  {
    var init, last := lines[..|lines| - 1], lines[|lines| - 1];
    assert Feed(Initial, lines) == Step(Feed(Initial, init), last);
    StepSections(Feed(Initial, init), last, name);
    if name in Feed(Initial, init).sections {
      k := FeedOnlyOpened(init, name);
      assert init[k] == lines[k];
    } else {
      k := |lines| - 1;
    }
  }

  /** Every key of a parsed section was written by some line read while that section was
      current, and the entry holds that line's value; the lemma returns the line. */
  lemma {:induction false} FeedOnlyWritten(lines: seq<string>, name: string, key: string)
    returns (i: nat)
    requires name in Feed(Initial, lines).sections && key in Feed(Initial, lines).sections[name]
    ensures i < |lines| && Feed(Initial, lines[..i]).current == Some(name)
    ensures Assigns(lines[i], key)
    ensures Classify(lines[i]).value == Feed(Initial, lines).sections[name][key]
    decreases |lines|
  {
    var init, last := lines[..|lines| - 1], lines[|lines| - 1];
    var st := Feed(Initial, init);
    assert Feed(Initial, lines) == Step(st, last);
    assert lines[..|lines| - 1] == init;
    if Classify(last).Pair? && st.current == Some(name) && Classify(last).key == key {
      i := |lines| - 1;
    } else {
      assert name in st.sections && key in st.sections[name]
        && st.sections[name][key] == Feed(Initial, lines).sections[name][key];
      i := FeedOnlyWritten(init, name, key);
      assert init[..i] == lines[..i] && init[i] == lines[i];
    }
  }

  /** `parseINI` has one entry per section header its content holds, and no other. */
  lemma ParseSections(content: string, name: string)
    ensures name in Parse(content) <==>
      exists k :: 0 <= k < |SplitLines(content)| && Classify(SplitLines(content)[k]) == Header(name)
  {
    var lines := SplitLines(content);
    if name in Parse(content) {
      var k := FeedOnlyOpened(lines, name);
    } else if k :| 0 <= k < |lines| && Classify(lines[k]) == Header(name) {
      FeedKeepsOpened(lines, k, name);
    }
  }

  /** Two states that agree on section `name` and on the current section still agree on
      `name` after the same lines. */
  lemma {:induction false} FeedAgreesOn(s1: State, s2: State, lines: seq<string>, name: string)
    requires Valid(s1) && Valid(s2) && s1.current == s2.current
    requires name in s1.sections && name in s2.sections && s1.sections[name] == s2.sections[name]
    ensures var r1, r2 := Feed(s1, lines), Feed(s2, lines);
      r1.current == r2.current && name in r1.sections && name in r2.sections
      && r1.sections[name] == r2.sections[name]
    decreases |lines|
  {
    if lines != [] {
      var init := lines[..|lines| - 1];
      FeedAgreesOn(s1, s2, init, name);
      StepAgreesOn(Feed(s1, init), Feed(s2, init), lines[|lines| - 1], name);
    }
  }

  lemma StepAgreesOn(s1: State, s2: State, raw: string, name: string)
    requires Valid(s1) && Valid(s2) && s1.current == s2.current
    requires name in s1.sections && name in s2.sections && s1.sections[name] == s2.sections[name]
    ensures var r1, r2 := Step(s1, raw), Step(s2, raw);
      r1.current == r2.current && name in r1.sections && name in r2.sections
      && r1.sections[name] == r2.sections[name]
  {
    match Classify(raw)
    case Skip =>
    case Header(n) =>
    case Pair(k, v) =>
  }

  lemma SplitAt(lines: seq<string>, i: nat)
    requires i < |lines|
    ensures lines == (lines[..i] + [lines[i]]) + lines[i + 1..]
    ensures lines[i..] == [lines[i]] + lines[i + 1..]
  {
  }

  lemma FeedOne(st: State, raw: string)
    requires Valid(st)
    ensures Feed(st, [raw]) == Step(st, raw)
  {
    assert [raw][..0] == [];
  }

  /** A repeated `[name]` header starts the section afresh: its keys are those of the lines
      from that header on, and whatever the earlier occurrences held is gone. */
  lemma RepeatedHeaderResets(lines: seq<string>, i: nat, name: string)
    requires i < |lines| && Classify(lines[i]) == Header(name)
    ensures var whole, tail := Feed(Initial, lines), Feed(Initial, lines[i..]);
      name in whole.sections && name in tail.sections && whole.sections[name] == tail.sections[name]
  {
    var pre, tl := lines[..i], lines[i + 1..];
    var h := Feed(Initial, pre);
    var head := Step(h, lines[i]);
    var restart := Step(Initial, lines[i]);
    assert head.current == restart.current == Some(name);
    assert head.sections[name] == restart.sections[name] == map[];
    FeedAgreesOn(head, restart, tl, name);
    FeedOne(h, lines[i]);
    FeedOne(Initial, lines[i]);
    SplitAt(lines, i);
    FeedAppend(Initial, pre, [lines[i]]);
    FeedAppend(Initial, pre + [lines[i]], tl);
    FeedAppend(Initial, [lines[i]], tl);
  }
}
