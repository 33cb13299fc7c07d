# Field switch: verified model of the configuration rewrite

The `field` command of the Natro macro control bot switches the macro's active gathering
field. The macro reads its field settings from `nm_config.ini`, and `field_config.ini` holds
one `[Field]` section of defaults per field. The command works in four steps:

1. It checks the requested name against a fixed allow-list.
2. It parses `field_config.ini` into sections.
3. It resolves the twelve gathering settings of the field's section against a fallback table.
4. It patches them into `nm_config.ini` with a textual `key=value` line replacement
   (`setValue`). `CurrentFieldNum` and `FieldName1` are patched first.

This project models that pipeline in Dafny and proves what each step promises.

- `js_text.dfy` (`JsText`) holds the JavaScript string primitives the code relies on.
  - `String.prototype.trim`, with ECMAScript's white-space and line-terminator set.
  - `split` with a one-character separator.
  - The four line terminators that regular expressions recognise.
- `line_patch.dfy` (`LinePatch`) models `setValue` twice.
  - `SetValue` follows the regular expression `^key=.*$` with the `m` flag over the
    characters of the text. `^` matches at the start and after any line terminator. `.*`
    stops at the next terminator.
  - `PatchLines` is the same operation on the text cut into lines. The first line that
    begins with `key=` is rewritten.
  - `Lines` cuts after every terminator, so a `\r\n` pair ends two lines: one ending in `\r`
    and an empty line ending in `\n`. This is where `^` and `$` match under the `m` flag.
  - Lemmas prove the two agree and give the line-level contract.
  - `SetAll` and `PatchedLines` describe repeated application, each call acting on the
    previous result.
- `ini_parser.dfy` (`IniParser`) models `parseINI`.
  - `Step` and `Feed` are the per-line state change, as functions.
  - `ParseIni` is the loop that updates the section map and the current section name.
  - Lemmas state that the line split loses nothing, which sections the result holds, which
    lines are ignored, that the last write wins, and that a repeated header resets its
    section.
- `field_switch.dfy` (`FieldSwitch`) holds the rest of the command.
  - The constant tables: the allow-list, the fallbacks, and the gather mapping.
  - `mapFieldConfigToGather`.
  - The command as a function (`RunSpec`) and as the step-by-step method the source runs
    (`Run`).
  - The end-to-end lemmas.

File contents are inputs, and the patched text is the output. A failed read is an abstract
`ReadFailed` input.

## Model

| member | source | states |
|---|---|---|
| JsText.TrimSpec | Commands/Control/field.js:53 | `Trim`, the model of `trim`, keeps one infix and removes only white space and line terminators around it. The result neither starts nor ends with such a character. It is empty exactly when the line is blank. |
| JsText.SplitSpec | Commands/Control/field.js:60 | `Split`, the model of `split('=')`, yields one more part than there are `=` characters. No part holds `=`. Joining the parts with `=` gives back the line. |
| JsText.SplitOfJoin | Commands/Control/field.js:60 | Conversely, splitting the join of parts that hold no separator gives back those parts. |
| JsText.SplitInTwo | Commands/Control/field.js:60-61 | The split has exactly two parts (`kv.length === 2`) if and only if the line holds exactly one `=`. The parts are then the text before and after it. |
| LinePatch.FindMatch | Commands/Control/field.js:44 | The position found is the first one where `^key=` matches under the `m` flag. No earlier position matches. |
| LinePatch.LineEnd | Commands/Control/field.js:44 | The greedy `.*$` stops at the first line terminator after the match, or at the end of the text. |
| LinePatch.FirstLine | Commands/Control/field.js:44-45 | The line found is the first one that begins with `key=`. No earlier line does. |
| LinePatch.LinesSound | Commands/Control/field.js:44 | Cutting a text into lines loses nothing. The lines concatenate back to the text, and only the last line lacks a terminator. |
| LinePatch.SetValueFromMatch | Commands/Control/field.js:44 | For a key without line terminators, the span `.*` replaces after the matched `key=` ends where the match's line ends. |
| LinePatch.SetValueByLines | Commands/Control/field.js:43-46 | `SetValue`, the model of `setValue`, is the regular-expression replacement. It equals rewriting the first line that begins with `key=`. Its terminator is kept. |
| LinePatch.SetValueLines | Commands/Control/field.js:43-46 | For a key and value without line terminators, the lines of the result are the input's lines with only that first matching line rewritten. |
| LinePatch.SetValueNoMatch | Commands/Control/field.js:43-46 | When no line begins with `key=`, the text is returned unchanged. |
| LinePatch.SetValueFirstOnly | Commands/Control/field.js:44-45 | For a key and value without line terminators, only the first line beginning with `key=` changes, to exactly `key=value` plus its terminator. Every other line keeps its content and position, including later lines with the same key. The line count is unchanged. |
| LinePatch.SetAllLines | Commands/Control/field.js:131-136 | For keys free of `=` and line terminators and values free of line terminators: `SetAll`, applying a list of pairs one `setValue` at a time, equals rewriting, per pair, the first line of the original text that begins with its key. |
| LinePatch.PatchedLinesRewritten | Commands/Control/field.js:131-136 | For keys free of `=` and line terminators and values free of line terminators: after the sequence, the first line beginning with a pair's key holds that pair's value, unless a later pair has the same key. |
| LinePatch.PatchedLinesUntouched | Commands/Control/field.js:131-136 | A line that is the first match of none of the keys is left as it was. |
| LinePatch.SetAllRewrites | Commands/Control/field.js:131-136 | For distinct keys free of `=` and line terminators, with values free of line terminators, applying them one `setValue` at a time keeps the line count. It rewrites the first line beginning with each key to that pair, terminator kept, and leaves every other line alone. With no key present, the text is unchanged. |
| IniParser.SplitLines | Commands/Control/field.js:52 | `split(/\r?\n/)` gives one line more than there are `\n` characters, and no line holds `\n`. |
| IniParser.SplitLinesRejoin | Commands/Control/field.js:52 | The split loses nothing. Joining the lines back, with `\r\n` wherever a `\r` preceded the `\n` and `\n` elsewhere, gives the content. A line followed by a bare `\n` does not end in `\r`. |
| IniParser.SplitLinesOfJoin | Commands/Control/field.js:52 | Conversely, lines without `\n` that are joined with `\n` or `\r\n` split back into the same lines and the same separators. A bare `\n` may only follow a line that does not end in `\r`. |
| IniParser.SectionName | Commands/Control/field.js:55-57 | A trimmed line is a header exactly when it is `[`, at least one character without a line terminator, and `]`. The name is what lies between, so it may itself contain `]`. |
| IniParser.ClassifyHeader | Commands/Control/field.js:53-58 | `Classify`, the model of how one line is read, makes a line a header for `name` exactly when the trimmed line is `[name]`, with `name` non-empty and free of line terminators. |
| IniParser.Step | Commands/Control/field.js:53-62 | Each line keeps the invariant that the current section, once there is one, has an entry in the section map. |
| IniParser.Feed | Commands/Control/field.js:52-63 | Feeding lines in order keeps the same invariant. |
| IniParser.ParseIni | Commands/Control/field.js:49-65 | The loop over the lines, updating the sections and the current section in place, returns `Parse(content)`: one `Step` per line, in order. |
| IniParser.NoSectionBeforeHeader | Commands/Control/field.js:51 | Until the first header there is no current section. |
| IniParser.IgnoredLineDropsOut | Commands/Control/field.js:53-61 | Removing any of these lines leaves the result unchanged: a blank or white-space-only line, a `;` line, a line before the first header, or a non-header line that does not split into exactly two parts. |
| IniParser.ClassifyKeyValue | Commands/Control/field.js:59-61 | A non-comment, non-header line whose trimmed text holds one `=` is read as trimmed key and trimmed value. |
| IniParser.PairHasOneEquals | Commands/Control/field.js:60-61 | A line read as a pair has exactly one `=`. |
| IniParser.StepKeepsEntry | Commands/Control/field.js:57-61 | A line keeps an existing entry if it does not reopen the section and does not assign the key while that section is current. |
| IniParser.StepWrites | Commands/Control/field.js:61 | A `k=v` line stores its value under its key in the current section. |
| IniParser.LastWriteWins | Commands/Control/field.js:57-61 | A key's value in a section comes from its last `k=v` line written while that section is current. Two conditions apply: no later line reopens the section, and no later line assigns the key while that section is current. Assignments to the same key in other sections do not matter. |
| IniParser.StepSections | Commands/Control/field.js:55-61 | A line adds at most the section it opens. A section that the line does not open and that is not current keeps its contents. |
| IniParser.FeedKeepsOpened | Commands/Control/field.js:55-58 | A section that some line opens stays in the map. Later lines may empty it but never remove it. |
| IniParser.FeedOnlyOpened | Commands/Control/field.js:55-58 | Every section in the map was opened by some line, and the lemma returns that line. |
| IniParser.FeedOnlyWritten | Commands/Control/field.js:59-61 | Every key of a parsed section was assigned by some line read while that section was current, and the entry holds that line's value. The lemma returns the line, so a key no such line assigns is absent. |
| IniParser.ParseSections | Commands/Control/field.js:49-65 | `Parse`, the model of `parseINI`, has an entry for a name exactly when some line of the content is that section's header. |
| IniParser.FeedAgreesOn | Commands/Control/field.js:52-63 | Two parser states that agree on a section and on the current section still agree after the same lines. |
| IniParser.RepeatedHeaderResets | Commands/Control/field.js:55-58 | A repeated `[Name]` header empties the section. From any of its headers on, its final contents are what those lines alone would give; the earlier lines are as if absent. |
| FieldSwitch.Resolve | Commands/Control/field.js:70-81 | The JavaScript logical or of value and fallback: the section's value when present and non-empty (`"0"` included), otherwise the fallback. Never empty. |
| FieldSwitch.AllowListExact | Commands/Control/field.js:18-22 | The allow-list `ValidFields` holds seventeen names and is matched exactly. `"Rose"` is accepted, while `"rose"` and `"Rose "` are not. |
| FieldSwitch.GatherSettingsHaveFallbacks | Commands/Control/field.js:25-40 | Every setting the mapper reads has an entry in the fallback table `Fallbacks`. |
| FieldSwitch.GatherSettingsDistinct | Commands/Control/field.js:69-82 | No two slots of the gather mapping `Gather` read the same setting. |
| FieldSwitch.MapFieldConfigToGather | Commands/Control/field.js:68-83 | Exactly the twelve keys `FieldPattern1` … `FieldPatternReps1`, in the literal's order. Each takes the section's non-empty value for its setting, or else the fallback. No value is empty. |
| FieldSwitch.FieldPairs | Commands/Control/field.js:131-136 | The patch list is `CurrentFieldNum`↦`"1"`, then `FieldName1`↦field, then the twelve mapped pairs in order. Its keys are the fourteen patched keys. |
| FieldSwitch.RunSpec | Commands/Control/field.js:100-138 | Unknown field if and only if the name is not exactly on the allow-list. A read error only after validation passes. A missing section if and only if validation and reads pass and the parse has no such section. A write only when all three pass. |
| FieldSwitch.ApplyEach | Commands/Control/field.js:134-136 | The `forEach` loop that reassigns the text with `setValue` for each gather entry in turn ends with those entries applied after the ones already done. |
| FieldSwitch.Run | Commands/Control/field.js:99-141 | The command as the source runs it returns `RunSpec`. The configuration text is reassigned one `setValue` at a time, the gather entries in a loop. |
| FieldSwitch.PatchedKeysPlain | Commands/Control/field.js:131-136 | The fourteen patched keys are distinct and hold neither `=` nor a line terminator. |
| FieldSwitch.ConstantsNoBreak | Commands/Control/field.js:18-40 | No allow-listed name and no fallback value holds a line terminator. |
| FieldSwitch.FieldPairsPlain | Commands/Control/field.js:131-136 | For an allow-listed field, and a section whose gather settings hold single-line values, the patch list cannot change the line structure. Its keys are distinct. |
| FieldSwitch.RunRewritesLines | Commands/Control/field.js:128-138 | The written text has the same number of lines. The first line beginning with each patched key becomes that key's pair, with its terminator kept. Every other line is unchanged. If no key is present, the text is written back as read. |
| FieldSwitch.EmptySectionGetsFallbacks | Commands/Control/field.js:123-136 | An existing but empty section still proceeds. It is written with the two slot keys and all twelve fallbacks. |

## Left out

- The chat-bot layer is not modelled: command registration, option and permission metadata, and the `followUp` messages (Commands/Control/field.js:85-107, 140). They are framework glue.
- The `f3` keystroke sent through `node-key-sender` (line 110) is not modelled. It is a side effect with no checkable outcome.
- Loading `config.local.json` or `config.json` and building the two paths (lines 6-15) are external I/O and are not modelled.
- The reads (lines 113-120) are modelled only as an abstract `ReadResult`: `ReadFailed` for either file gives `ReadError`. Which file failed and the error message are not modelled.
- `writeFileSync` (line 138) is the `Written(text)` outcome. The source does not catch a write failure, so there is no write-error outcome.
- The command returns nothing, so no key count is reported.
- `setValue` inserts the replacement string literally. JavaScript `$`-patterns in the replacement (`$&`, `$1`, `$$`) are not modelled. They matter only if a section value contains `$`.
- The key is treated as a literal pattern. This holds for the fourteen constant keys, which have no regular-expression metacharacters.
- The `drift` and `width` fallbacks (lines 29 and 39) are left out, because the mapper never reads them.
- JavaScript object-prototype names used as section or key names (`__proto__`, `constructor`) are not modelled. The section map is a plain Dafny map.
- Strings are sequences of Unicode scalar values, not UTF-16 code units. Surrogate pairs are therefore not modelled.
- Concurrent invocations against the same file are not modelled.
- FieldSwitch.RunRewritesLines: the line-level statement requires that the twelve settings the mapping reads hold no line terminator. Other settings of the section are unconstrained.
  - `parseINI` splits only on `\n`. A value can therefore still hold a lone `\r`, U+2028 or U+2029.
  - Writing such a value would split a line in the written text.
  - `RunSpec` and `Run` model that case exactly at character level. Only this lemma excludes it.
- The model follows the code in three places a reader might not expect:
  - A section name may contain `]`, because the capture `(.+)` is greedy.
  - A write failure is not caught.
  - No success descriptor is returned.
