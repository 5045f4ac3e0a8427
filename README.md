# ticked-off, modelled in Dafny

ticked-off is a note-app extension with two commands.

- **Toggle task completion** rewrites the line under the cursor:
  - an open checklist item (`- [ ] …`) becomes done (`- [x] …`);
  - a done one becomes open again;
  - any other line is left alone, and the host shows a "Not a task line." notice.
- With the `appendCompletionDate` setting on (the default), the command also edits the `completed` annotation:
  - it deletes the first ` [completed:: [[…]]]` annotation and the whitespace before it;
  - on the way to done it then appends ` [completed:: [[YYYY-MM-DD]]]` with today's date.
- **New task** opens a dialog, prefilled from the trimmed current line. The dialog has:
  - a description;
  - four priority buttons (`normal` selected at first);
  - two natural-language date inputs (due, scheduled), checked when they lose focus;
  - a tags input.
- Submitting the dialog writes `- [ ] desc`, followed by the fields whose inputs are non-empty, in a fixed order:
  - ` [priority:: p]`
  - ` [due:: [[d]]]`
  - ` [schedule:: [[s]]]`
  - ` [tags::#t]`

The submit then writes that line over the cursor line and puts the cursor at its end.

Modules:

- `Wrappers`: the `Option` type.
- `JsText`: the JavaScript string primitives the extension calls:
  - the `\s` class;
  - `includes`;
  - `replace` with a literal pattern, which replaces the first occurrence only;
  - `trim`.

  Two model helpers sit beside them. `IndexOf` is the leftmost-occurrence search behind `includes` and `replace`. `TrimEnd` describes the trailing whitespace that the `\s*` of the `completed` pattern consumes. The extension calls neither directly.
- `TaskToggle`: the toggle command as a function of the line, the setting and today's formatted date. Its three regular expressions are written out by hand:
  - `^\s*-\s\[\s\]`
  - `^\s*-\s\[x\]` with the `i` flag
  - `\s*\[completed:: \[\[[^\]]*\]\]\]`
- `ToggleProperties`: what the command guarantees:
  - non-task lines are untouched;
  - with the setting off, only the first literal marker is swapped;
  - the appended stamp is the line's only annotation, for a line with no `[completed:: [[` or whose only one is a trailing stamp;
  - a stamped open line gets its stamp refreshed;
  - open→done→open and done→open→done round-trip, up to the description's trailing whitespace, for a description without `[completed:: [[`.
- `TaskForm`: the dialog, as a class `CreateTaskModal` whose fields are the dialog's state (its inputs' texts, the selected priority, the invalid-date flags). Around it are the functions that specify each step:
  - the prefill filter;
  - the blur rule;
  - tag normalisation;
  - the task-line format.

## Model

| member | source | states |
|---|---|---|
| JsText.IsJsSpace | main.ts:30 | defines the `\s` class: the ECMAScript WhiteSpace and LineTerminator characters, which `trim` also removes |
| JsText.Contains | main.ts:122 | defines `includes` with a literal pattern: the pattern occurs at some index; `IndexOf` and `ReplaceFirst` are stated in terms of it |
| JsText.ReplaceFirst | main.ts:42 | `replace` with a string pattern replaces only the leftmost occurrence; without one the text is unchanged |
| JsText.ReplaceFirstLength | main.ts:42 | the replaced text trades the pattern's length for the replacement's, exactly when the pattern occurs |
| JsText.ReplaceFirstCounts | main.ts:220 | as a multiset, one copy of the pattern's characters is traded for the replacement's |
| JsText.IndexOf | main.ts:122 | the index found is an occurrence and no earlier one exists; `None` means no occurrence at or after the start |
| JsText.Trim | main.ts:66 | `trim` returns a text with no whitespace at either end, and it removes only whitespace from the two ends |
| JsText.TrimOfPadded | main.ts:66 | `trim` of whitespace + a trimmed middle + whitespace is that middle |
| JsText.TrimIdempotent | main.ts:66 | trimming twice equals trimming once |
| TaskToggle.IsOpen | main.ts:30 | defines the open test as the marker `-\s\[\s\]` standing right after the leading whitespace; `IsOpenMatchesPattern` proves it is the anchored pattern |
| TaskToggle.IsDone | main.ts:31 | defines the done test the same way, with mark `x` or `X`; `IsDoneMatchesPattern` proves it is the anchored pattern |
| TaskToggle.CompletionStamp | main.ts:45 | defines the appended text ` [completed:: [[today]]]`; `StampIsOnlyMatch` proves it is a match of the `completed` pattern that ends the line |
| TaskToggle.CompletedMatchAt | main.ts:44 | any match found at an index covers at least the head and tail texts and ends inside the line |
| TaskToggle.IsOpenMatchesPattern | main.ts:30 | the open test holds exactly when some run of whitespace is followed by `-`, whitespace, `[`, whitespace, `]` |
| TaskToggle.IsDoneMatchesPattern | main.ts:31 | the done test holds exactly when some run of whitespace is followed by `-`, whitespace, `[`, `x` or `X`, `]` |
| TaskToggle.DoneIsNotOpen | main.ts:30-31 | no line passes both tests, because the done mark is a letter and not whitespace |
| TaskToggle.CompletedMatchAtMeansPattern | main.ts:44 | the match computed at an index exists exactly when the `completed` pattern can match there, and its end is the only possible end |
| TaskToggle.FindCompleted | main.ts:44 | the search returns the leftmost index where the pattern matches, or `None` when it matches nowhere |
| TaskToggle.StripCompleted | main.ts:44 | the leftmost match is deleted; a text without a match is unchanged; the result is never longer |
| TaskToggle.CompleteLine | main.ts:41-46 | the open branch always ends with today's stamp when the setting is on, and keeps the length when it is off |
| TaskToggle.ReopenLine | main.ts:47-51 | the done branch never lengthens the line, and keeps its length when the setting is off |
| TaskToggle.Toggle | main.ts:27-54 | there is no rewrite exactly when the line is neither open nor done; a length bound holds in each branch; a completed line ends with today's stamp |
| ToggleProperties.NotTaskLineUntouched | main.ts:33-36 | a line matching neither pattern is not rewritten, whatever the setting |
| ToggleProperties.OpenWithoutSetting | main.ts:41-42 | setting off, open line: same length; only the first literal `[ ]` becomes `[x]`; every other character is kept |
| ToggleProperties.DoneWithoutSetting | main.ts:47-48 | setting off, done line: same length; only the first literal `[x]` becomes `[ ]`; every other character is kept |
| ToggleProperties.OpenToDoneWithSetting | main.ts:41-46 | setting on, open line: the swapped line, minus its first annotation, plus today's stamp |
| ToggleProperties.DoneToOpenWithSetting | main.ts:47-51 | setting on, done line: the swapped line minus its first annotation; never longer |
| ToggleProperties.MarkSwapAddsNoHead | main.ts:42 | swapping `[ ]` for `[x]` cannot create the text `[completed:: [[` |
| ToggleProperties.StampIsOnlyMatch | main.ts:44-45 | when the text before it holds no `[completed:: [[`, the appended stamp is the leftmost match of the pattern and it ends the line |
| ToggleProperties.OpenToDoneStampedOnce | main.ts:41-46 | an open line with no `[completed:: [[` becomes a line with exactly one annotation, the stamp at its end |
| ToggleProperties.StampedOpenLineToggled | main.ts:41-46 | refreshing: `ind- [ ]X` plus a stamp of any date becomes `ind- [x]`, X without trailing whitespace, and today's stamp |
| ToggleProperties.StampedOpenLineStampedOnce | main.ts:41-46 | after the refresh the line has exactly one annotation, which ends the line |
| ToggleProperties.SpliceMakesTwo | main.ts:41-46 | the open line `- [ ][completed:: [[z] [completed:: [[d]]]]]` has one annotation, yet completing it leaves two: deleting the stamp joins `z]` to the trailing `]]` |
| ToggleProperties.SpaceMarkBecomesDone | main.ts:42 | an open line whose mark is a space gets `[x]` in place of its own marker and becomes a done line |
| ToggleProperties.TabMarkNotRewritten | main.ts:30-45 | `- [\t]` passes the open test but has no literal `[ ]`: with the setting off it is written back unchanged, with it on it only gains today's stamp and stays open |
| ToggleProperties.UppercaseDoneKeepsMarker | main.ts:48 | a done line marked `X` keeps its marker and stays done: both edits act behind it |
| ToggleProperties.OpenLineToggled | main.ts:41-46 | `ind- [ ]X` becomes `ind- [x]X` and then today's stamp (setting on), or just `ind- [x]X` (setting off) |
| ToggleProperties.StampedDoneLineToggled | main.ts:47-51 | `ind- [x]X` plus a stamp of any date becomes `ind- [ ]` and X without its trailing whitespace |
| ToggleProperties.RoundTripFromOpen | main.ts:38-52 | open→done→open returns the line, up to the description's trailing whitespace |
| ToggleProperties.RoundTripExact | main.ts:38-52 | the round trip is exact when the description does not end in whitespace |
| ToggleProperties.RoundTripFromDone | main.ts:38-52 | done→open→done keeps the description and carries the new date instead of the old one |
| TaskForm.InitialDescription | main.ts:120-126 | a prefill without `- [ ]` is used as it is; otherwise the result is trimmed and at least 5 characters shorter |
| TaskForm.InitialDescriptionCut | main.ts:122-125 | the removed `- [ ]` is the first one, and the rest is trimmed |
| TaskForm.PrefillFromTaskLine | main.ts:120-126 | opening on a line `- [ ] Y` surrounded by any whitespace prefills exactly `Y` |
| TaskForm.NewTask | main.ts:63-68 | the dialog remembers the trimmed current line, selects `normal`, its description is the filtered prefill, and its date and tag inputs are empty with no invalid mark |
| TaskForm.CreateTaskModal.Valid | main.ts:137-146 | the dialog's invariant: the selected priority is one of the four buttons; the constructor and every method keep it |
| TaskForm.CreateTaskModal.constructor | main.ts:101-105 | a new dialog keeps the prefill, selects `normal`, and starts with empty inputs and no invalid mark |
| TaskForm.CreateTaskModal.Open | main.ts:120-126 | the description input receives the filtered prefill; the due, scheduled and tags inputs start empty with no invalid mark, as `onOpen` builds fresh inputs; the prefill and the priority are unchanged |
| TaskForm.CreateTaskModal.SelectPriority | main.ts:145-148 | a button click selects its priority, which stays one of the four; nothing else changes |
| TaskForm.CreateTaskModal.Edit | main.ts:216-219 | the inputs hold what was typed; the priority and the invalid marks are unchanged |
| TaskForm.BlurField | main.ts:162-174 | invalid exactly when the trimmed text is non-empty and unparsed; the text changes only to a parsed date |
| TaskForm.BlurSettles | main.ts:162-174 | a second blur on a settled input, whose date parses as itself, changes nothing |
| TaskForm.CreateTaskModal.BlurDue | main.ts:162-174 | the due input and its invalid mark become what the blur rule gives; the other inputs are unchanged |
| TaskForm.CreateTaskModal.BlurScheduled | main.ts:184-196 | the same for the scheduled input |
| TaskForm.NormaliseTags | main.ts:220 | the normalised tags are one character shorter exactly when the input has a comma; the positional lemmas below give the exact result |
| TaskForm.NormaliseTagsAt | main.ts:220 | with the first space at i and the first comma at j: `#` stands where the space was, the comma is gone, and every other character keeps its order |
| TaskForm.NormaliseTagsSpaceOnly | main.ts:220 | with a space and no comma, only the first space changes, to `#` |
| TaskForm.NormaliseTagsCommaOnly | main.ts:220 | with a comma and no space, only the first comma is removed |
| TaskForm.NormaliseTagsCounts | main.ts:220 | as a multiset, one space is traded for `#` when there is a space and one comma is dropped when there is a comma; the length drops by one exactly when there is a comma |
| TaskForm.NormaliseTagsEmpty | main.ts:220 | the normalised tags are empty exactly when the input is empty or a lone comma |
| TaskForm.NormaliseTagsPlain | main.ts:220 | input without spaces or commas is submitted as it is |
| TaskForm.NormaliseTagPair | main.ts:220 | `A, B`, with A free of spaces and commas, becomes `A#B` |
| TaskForm.Render | main.ts:228-231 | each field's text starts with ` [` and ends with `]` |
| TaskForm.AnnotationsPresent | main.ts:228-231 | each field is written exactly when its input is non-empty, and the count of fields is the count of non-empty inputs |
| TaskForm.AnnotationsOrdered | main.ts:228-231 | the fields appear in the fixed order priority, due, schedule, tags, and none is empty |
| TaskForm.TaskBodyFields | main.ts:226-231 | the body is ` desc` followed by the rendering of that field list |
| TaskForm.TaskLine | main.ts:226-231 | defines the written line as `- [ ]` followed by the body; the lemmas below state its fields, its order and its kind |
| TaskForm.TaskLineSteps | main.ts:226-231 | appending the fields one by one, in order, yields the task line |
| TaskForm.BuildTaskLine | main.ts:226-231 | the string built by the click handler is the task line for its inputs |
| TaskForm.TaskLineIsOpen | main.ts:226 | every written task passes the toggle command's open test and fails its done test |
| TaskForm.NewTaskToggles | main.ts:226-231 | with the default setting, toggling a written task whose text has no `[completed:: [[` ticks its box and appends today's stamp |
| TaskForm.PriorityWritten | main.ts:228 | a non-empty priority is written as ` [priority:: p]` right after the description |
| TaskForm.CreateTaskModal.Submit | main.ts:214-239 | with an editor: the task line of the trimmed description, the priority, the two date texts and the normalised tags, and its length as the cursor column; without one: nothing. The written line always holds ` [priority:: p]` right after the description, with p one of the four buttons |

### Behaviour the model follows from the code

Where the code and the plugin's intended behaviour differ, the model follows the code:

- **Tags.** Only the first space and the first comma are touched, so `work, home` is written as `[tags::#work#home]` (`NormaliseTagPair`), not as `[tags::#work, home]`.
- **Round trip.** It needs the description to contain no `[completed:: [[` at all. An unterminated copy of that text swallows the appended stamp.
- **Today's date.** It needs no `]`.
- **Trailing whitespace.** The description's trailing whitespace goes on the way back, because the `\s*` of the pattern consumes it.
- **"Exactly one annotation".** Completing leaves exactly one annotation, the new stamp, in two cases:
  - the line has no `[completed:: [[` at all (`OpenToDoneStampedOnce`);
  - the line's only such text is one trailing stamp, which is refreshed (`StampedOpenLineStampedOnce`).

  For other text that contains the head, one annotation is not guaranteed. Deleting the first match can splice what remains into a new match, as in `- [ ][completed:: [[z] [completed:: [[d]]]]]`, which has one annotation and gets two (`SpliceMakesTwo`).
- **Tab mark.** A line `- [\t]` passes the open test, but `replace("[ ]", "[x]")` finds no literal `[ ]`. With the setting off the line is unchanged. With it on (the default) the line only gains a stamp and stays open, so toggling it never ticks the box.
- **Uppercase mark.** A line `- [X]` keeps its uppercase marker.
- **Whitespace-only date input.** A blur clears the invalid mark but keeps the whitespace. The date texts are not trimmed at submit, so such a text is written as ` [due:: [[   ]]]`.
- **Unparsed date text.** Text that failed to parse is written as typed.
- **Cursor line.** Submit writes over the line the cursor is on when the dialog is submitted. That line is the host's to choose, and the model returns only the text and the column.

## Left out

- The host editor API (reading and writing lines, the cursor, the notice, opening and closing the dialog): lines come in as parameters and rewrites go out as results.
- The date library's `format("YYYY-MM-DD")` and the natural-language parser: today's formatted date and the parse result are parameters (`today`, `parsed`).
- Loading and saving settings (main.ts:81-87) and the settings tab (main.ts:247-270) are host I/O. `appendCompletionDate` is a parameter, and its default value is the constant `DefaultAppendCompletionDate`.
- Building the dialog's DOM and toggling CSS classes: the invalid-date class is a boolean field.
- `mySetting`, `hadCheckbox` and `tagInput` are declared or written but never read, so they are not modelled.
- JavaScript strings are UTF-16 code units; the model works on Dafny characters, and `\s` is defined over them. So the cursor column `taskLine.length` (main.ts:236) counts code units while `|line|` counts characters; the two differ for a line with characters outside the Basic Multilingual Plane.
- Regular expressions in general: only the three patterns the command uses are defined, each by its own matcher.
- Concrete example lines (such as `- [ ] Buy milk`) are covered by the general lemmas over any indentation and description (`PrefillFromTaskLine`, `OpenLineToggled`, `NormaliseTagPair`) rather than stated one by one.
- TaskToggle.Toggle: its own contract gives only the branch, length bounds and the trailing stamp. The exact rewrite is stated by the ToggleProperties lemmas.
