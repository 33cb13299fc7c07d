/** The `field` command of Commands/Control/field.js with its input and output abstracted:
    check the requested field against the allow-list, parse the field configuration, pick
    the field's section, resolve its twelve gathering settings against the fallback table,
    and patch them, after `CurrentFieldNum` and `FieldName1`, into the macro configuration
    text one `setValue` at a time. */
module FieldSwitch {
  import opened JsText
  import opened LinePatch
  import opened IniParser

  // ---------------------------------------------------------------------------------------
  // Constant tables

  /** The fields the command accepts, matched exactly and case-sensitively. */
  const ValidFields: seq<string> := [
    "Bamboo", "Blue Flower", "Cactus", "Clover", "Coconut", "Dandelion",
    "Mountain Top", "Mushroom", "Pepper", "Pine Tree", "Pineapple", "Pumpkin",
    "Rose", "Spider", "Strawberry", "Stump", "Sunflower"
  ]

  /** The value a setting takes when the field's section has none, or an empty one. */
  const Fallbacks: map<string, string> := map[
    "camera" := "None",
    "convert" := "Walk",
    "distance" := "1",
    "gathertime" := "10",
    "invertFB" := "0",
    "invertLR" := "0",
    "pattern" := "Stationary",
    "percent" := "95",
    "shiftlock" := "0",
    "size" := "S",
    "sprinkler" := "Center",
    "turns" := "1"
  ]

  /** One entry of the gather mapping: the macro configuration key and the field setting
      it is taken from. */
  datatype Slot = Slot(target: string, setting: string)

  /** The twelve macro configuration keys of gather slot 1, in the order the mapping lists
      them, each with the setting it comes from. */
  const Gather: seq<Slot> := [
    Slot("FieldPattern1", "pattern"),
    Slot("FieldPatternSize1", "size"),
    Slot("FieldReturnType1", "convert"),
    Slot("FieldRotateDirection1", "camera"),
    Slot("FieldRotateTimes1", "turns"),
    Slot("FieldSprinklerLoc1", "sprinkler"),
    Slot("FieldSprinklerDist1", "distance"),
    Slot("FieldPatternInvertFB1", "invertFB"),
    Slot("FieldPatternInvertLR1", "invertLR"),
    Slot("FieldUntilPack1", "percent"),
    Slot("FieldPatternShift1", "shiftlock"),
    Slot("FieldPatternReps1", "gathertime")
  ]

  /** Every key the command patches, in the order it patches them. */
  const PatchedKeys: seq<string> := [
    "CurrentFieldNum", "FieldName1",
    "FieldPattern1", "FieldPatternSize1", "FieldReturnType1", "FieldRotateDirection1",
    "FieldRotateTimes1", "FieldSprinklerLoc1", "FieldSprinklerDist1", "FieldPatternInvertFB1",
    "FieldPatternInvertLR1", "FieldUntilPack1", "FieldPatternShift1", "FieldPatternReps1"
  ]

  // ---------------------------------------------------------------------------------------
  // Resolving the section against the fallbacks

  /** `fieldDefaults[setting] || FALLBACKS[setting]`: a missing setting and an empty string
      are both falsy, so both fall back; any other string, "0" included, is kept. */
  function Resolve(section: Section, setting: string): (v: string)
    requires setting in Fallbacks
    ensures v != []
    ensures setting in section && section[setting] != [] ==> v == section[setting]
    ensures setting !in section || section[setting] == [] ==> v == Fallbacks[setting]
  {
    if setting in section && section[setting] != [] then section[setting] else Fallbacks[setting]
  }

  lemma GatherSettingsHaveFallbacks()
    ensures forall m :: 0 <= m < |Gather| ==> Gather[m].setting in Fallbacks
  {
  }

  /** No two slots of the mapping read the same setting. */
  lemma GatherSettingsDistinct()
    ensures forall m, n :: 0 <= m < n < |Gather| ==> Gather[m].setting != Gather[n].setting
  {
  }

  /** `mapFieldConfigToGather(section)`: the twelve gather keys, in order, each with the
      section's non-empty value for its setting or else the fallback; no value is empty. */
  function MapFieldConfigToGather(section: Section): (r: seq<(string, string)>)
    ensures |r| == |Gather| == 12
    ensures forall m :: 0 <= m < |r| ==> r[m].0 == Gather[m].target && r[m].1 != []
    ensures forall m :: 0 <= m < |r| ==>
      var s := Gather[m].setting;
      s in Fallbacks
      && (s in section && section[s] != [] ==> r[m].1 == section[s])
      && (s !in section || section[s] == [] ==> r[m].1 == Fallbacks[s])
  {
    GatherSettingsHaveFallbacks();
    seq(|Gather|, m requires 0 <= m < |Gather| =>
      (Gather[m].target, Resolve(section, Gather[m].setting)))
  }

  // ---------------------------------------------------------------------------------------
  // The command

  /** What reading one of the two files gave. */
  datatype ReadResult = Read(text: string) | ReadFailed

  /** How the command ends: before any write (an unknown field, a file that could not be
      read, no section for the field), or with the text it writes back. */
  datatype Outcome = UnknownField | ReadError | MissingSection | Written(text: string)

  /** The keys and values the command patches, in order: the two slot keys, then the
      twelve gather keys. */
  function FieldPairs(field: string, section: Section): (pairs: seq<(string, string)>)
    ensures |pairs| == |PatchedKeys|
    ensures forall m :: 0 <= m < |pairs| ==> pairs[m].0 == PatchedKeys[m]
    ensures pairs[0] == ("CurrentFieldNum", "1") && pairs[1] == ("FieldName1", field)
    ensures pairs[2..] == MapFieldConfigToGather(section)
  {
    [("CurrentFieldNum", "1"), ("FieldName1", field)] + MapFieldConfigToGather(section)
  }

  /** The command on its inputs: `field` is the requested name, `nm` and `fc` what reading
      the macro configuration and the field configuration gave. Validation comes first,
      then the reads, then the section lookup; only when all three pass is text written. */
  function RunSpec(field: string, nm: ReadResult, fc: ReadResult): (r: Outcome)
    ensures r == UnknownField <==> field !in ValidFields
    ensures r == ReadError <==> field in ValidFields && (nm.ReadFailed? || fc.ReadFailed?)
    ensures r == MissingSection <==>
      field in ValidFields && nm.Read? && fc.Read? && field !in Parse(fc.text)
    ensures r.Written? ==> nm.Read? && fc.Read? && field in Parse(fc.text)
  {
    if field !in ValidFields then UnknownField
    else if nm.ReadFailed? || fc.ReadFailed? then ReadError
    else
      var sections := Parse(fc.text);
      if field !in sections then MissingSection
      else Written(SetAll(nm.text, FieldPairs(field, sections[field])))
  }

  /** The allow-list check is exact: seventeen names, compared case-sensitively and without
      trimming, so "rose" and "Rose " are refused while "Rose" passes. */
  lemma AllowListExact()
    ensures |ValidFields| == 17
    ensures "Rose" in ValidFields
    ensures "rose" !in ValidFields
    ensures "Rose " !in ValidFields
  {
  }

  /** One more `setValue` extends the sequence of pairs applied by one. */
  lemma SetAllStep(t: string, pairs: seq<(string, string)>, i: nat)
    requires i < |pairs|
    ensures SetAll(t, pairs[..i + 1]) == SetValue(SetAll(t, pairs[..i]), pairs[i].0, pairs[i].1)
  {
    assert pairs[..i + 1][..i] == pairs[..i];
  }

  /** The `forEach` over the gather entries: `setValue` for each entry in turn, each on the
      previous result. Started on the text `base` with `done` already applied, it ends with
      `done` and then `entries` applied. */
  method ApplyEach(config: string, entries: seq<(string, string)>,
                   ghost base: string, ghost done: seq<(string, string)>) returns (r: string)
    requires config == SetAll(base, done)
    ensures r == SetAll(base, done + entries)
  {
    r := config;
    assert done + entries[..0] == done;
    for i := 0 to |entries|
      invariant r == SetAll(base, done + entries[..i])
    {
      SetAllExtend(base, done, entries, i);
      r := SetValue(r, entries[i].0, entries[i].1);
    }
    assert entries[..|entries|] == entries;
  }

  lemma SetAllExtend(base: string, done: seq<(string, string)>, entries: seq<(string, string)>, i: nat)
    requires i < |entries|
    ensures SetAll(base, done + entries[..i + 1])
      == SetValue(SetAll(base, done + entries[..i]), entries[i].0, entries[i].1)
  {
    var next := done + entries[..i + 1];
    assert next[..|done| + i] == done + entries[..i] && next[|done| + i] == entries[i];
    SetAllStep(base, next, |done| + i);
  }

  /** The command as the source runs it: the checks in order, the parse, and then the
      configuration text reassigned by one `setValue` after another, the gather entries in
      a loop. */
  method Run(field: string, nm: ReadResult, fc: ReadResult) returns (out: Outcome)
    ensures out == RunSpec(field, nm, fc)
  {
    if field !in ValidFields {
      return UnknownField;
    }
    if nm.ReadFailed? || fc.ReadFailed? {
      return ReadError;
    }
    var sections := ParseIni(fc.text);
    if field !in sections {
      return MissingSection;
    }
    var gather := MapFieldConfigToGather(sections[field]);
    ghost var pairs := FieldPairs(field, sections[field]);
    var config := nm.text;
    SetAllStep(nm.text, pairs, 0);
    config := SetValue(config, "CurrentFieldNum", "1");
    SetAllStep(nm.text, pairs, 1);
    config := SetValue(config, "FieldName1", field);
    config := ApplyEach(config, gather, nm.text, pairs[..2]);
    assert pairs[..2] + gather == pairs;
    out := Written(config);
  }

  // ---------------------------------------------------------------------------------------
  // What the command writes

  lemma SlotKeysPlain()
    ensures PlainKey("CurrentFieldNum")
    ensures PlainKey("FieldName1")
    ensures PlainKey("FieldPattern1")
    ensures PlainKey("FieldPatternSize1")
  {
  }

  lemma RotationKeysPlain()
    ensures PlainKey("FieldReturnType1")
    ensures PlainKey("FieldRotateDirection1")
    ensures PlainKey("FieldRotateTimes1")
  {
  }

  lemma SprinklerKeysPlain()
    ensures PlainKey("FieldSprinklerLoc1")
    ensures PlainKey("FieldSprinklerDist1")
    ensures PlainKey("FieldPatternInvertFB1")
    ensures PlainKey("FieldPatternInvertLR1")
  {
  }

  lemma PackKeysPlain()
    ensures PlainKey("FieldUntilPack1")
    ensures PlainKey("FieldPatternShift1")
    ensures PlainKey("FieldPatternReps1")
  {
  }

  /** The patched keys are distinct and hold neither `=` nor a line terminator, so each one
      is matched by the lines that begin with it and by no other key's lines. */
  lemma PatchedKeysPlain()
    ensures forall m :: 0 <= m < |PatchedKeys| ==> PlainKey(PatchedKeys[m])
    ensures forall a, b :: 0 <= a < b < |PatchedKeys| ==> PatchedKeys[a] != PatchedKeys[b]
  {
    SlotKeysPlain();
    RotationKeysPlain();
    SprinklerKeysPlain();
    PackKeysPlain();
  }

  /** The allow-listed names and the fallback values hold no line terminator. */
  lemma ConstantsNoBreak()
    ensures forall m :: 0 <= m < |ValidFields| ==> NoBreak(ValidFields[m])
    ensures forall k :: k in Fallbacks ==> NoBreak(Fallbacks[k])
  {
    FieldNamesNoBreak();
  }

  lemma FieldNamesNoBreak()
    ensures forall m :: 0 <= m < |ValidFields| ==> NoBreak(ValidFields[m])
  {
    FirstNamesNoBreak();
    LastNamesNoBreak();
  }

  lemma FirstNamesNoBreak()
    ensures NoBreak("Bamboo")
    ensures NoBreak("Blue Flower")
    ensures NoBreak("Cactus")
    ensures NoBreak("Clover")
    ensures NoBreak("Coconut")
    ensures NoBreak("Dandelion")
    ensures NoBreak("Mountain Top")
    ensures NoBreak("Mushroom")
    ensures NoBreak("Pepper")
  {
  }

  lemma LastNamesNoBreak()
    ensures NoBreak("Pine Tree")
    ensures NoBreak("Pineapple")
    ensures NoBreak("Pumpkin")
    ensures NoBreak("Rose")
    ensures NoBreak("Spider")
    ensures NoBreak("Strawberry")
    ensures NoBreak("Stump")
    ensures NoBreak("Sunflower")
  {
  }

  /** A section whose values hold no line terminator. */
  predicate SingleLineValues(section: Section) {
    forall m :: 0 <= m < |Gather| && Gather[m].setting in section ==>
      NoBreak(section[Gather[m].setting])
  }

  /** For an allow-listed field and single-line values, the pairs cannot disturb the line
      structure of the text they patch. */
  lemma FieldPairsPlain(field: string, section: Section)
    requires field in ValidFields && SingleLineValues(section)
    ensures PlainPairs(FieldPairs(field, section))
    ensures var pairs := FieldPairs(field, section);
      forall a, b :: 0 <= a < b < |pairs| ==> pairs[a].0 != pairs[b].0
  {
    var pairs := FieldPairs(field, section);
    PatchedKeysPlain();
    ConstantsNoBreak();
    forall m | 0 <= m < |pairs| ensures NoBreak(pairs[m].1) {
      if m >= 2 {
        var s := Gather[m - 2].setting;
        assert pairs[m] == pairs[2..][m - 2];
        if s !in section || section[s] == [] {
          assert pairs[m].1 == Fallbacks[s];
        } else {
          assert pairs[m].1 == section[s];
        }
      }
    }
  }

  /** On success the written text has the lines of the macro configuration, in order, with
      the first line that begins with each patched key rewritten to that key's pair (its
      line terminator kept); every other line is unchanged, and when no line begins with
      any of the keys the text is written back as it was read. */
  lemma RunRewritesLines(field: string, nm: string, fc: string, out: string)
    requires RunSpec(field, Read(nm), Read(fc)) == Written(out)
    requires SingleLineValues(Parse(fc)[field])
    ensures var before, after, pairs := Lines(nm), Lines(out), FieldPairs(field, Parse(fc)[field]);
      |after| == |before|
      && (forall m :: 0 <= m < |pairs| && FirstLine(before, pairs[m].0, 0).Some? ==>
            var j := FirstLine(before, pairs[m].0, 0).value;
            after[j] == pairs[m].0 + "=" + pairs[m].1 + Ending(before[j]))
      && (forall j :: 0 <= j < |before|
            && (forall m :: 0 <= m < |pairs| ==> FirstLine(before, pairs[m].0, 0) != Some(j))
            ==> after[j] == before[j])
      && ((forall m :: 0 <= m < |pairs| ==> FirstLine(before, pairs[m].0, 0).None?)
            ==> out == nm)
  {
    var pairs := FieldPairs(field, Parse(fc)[field]);
    FieldPairsPlain(field, Parse(fc)[field]);
    assert out == SetAll(nm, pairs);
    SetAllRewrites(nm, pairs);
  }

  /** The gather entries of a section with no usable settings: every key its fallback. */
  function FallbackGather(): (r: seq<(string, string)>)
    ensures |r| == |Gather|
  {
    GatherSettingsHaveFallbacks();
    seq(|Gather|, m requires 0 <= m < |Gather| => (Gather[m].target, Fallbacks[Gather[m].setting]))
  }

  /** A section that exists but is empty still gets written: the two slot keys and all
      twelve fallbacks. */
  lemma EmptySectionGetsFallbacks(field: string, nm: string, fc: string)
    requires field in ValidFields && field in Parse(fc) && Parse(fc)[field] == map[]
    ensures RunSpec(field, Read(nm), Read(fc))
      == Written(SetAll(nm, [("CurrentFieldNum", "1"), ("FieldName1", field)] + FallbackGather()))
  {
    assert MapFieldConfigToGather(map[]) == FallbackGather();
  }
}
