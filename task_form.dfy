/**
 * The "New task" dialog: the description it starts from, the priority it keeps,
 * what a blur does to the two date inputs, how the tags input is normalised and
 * the task line it writes on submit.
 */
module TaskForm {
  import opened Wrappers
  import opened JsText
  import opened TaskToggle
  import ToggleProperties

  /** The checkbox prefix that the prefill removes and every written task starts with. */
  const Checkbox: string := "- [ ]"

  /** The priority buttons, in the order the dialog shows them. */
  const Priorities: seq<string> := ["low", "normal", "high", "urgent"]

  /** The priority a new dialog starts with. */
  const DefaultPriority: string := "normal"

  // ---------------------------------------------------------------------------
  // The description the dialog opens with

  /**
   * The description input's initial text from the (already trimmed) current
   * line: its first `- [ ]` is removed and the rest trimmed; a line without one
   * is used as it is.
   */
  function InitialDescription(prefill: string): (r: string)
    ensures !Contains(prefill, Checkbox) ==> r == prefill
    ensures Contains(prefill, Checkbox) ==> Trimmed(r) && |r| <= |prefill| - |Checkbox|
  {
    if Contains(prefill, Checkbox) then
      ReplaceFirstLength(prefill, Checkbox, "");
      Trim(ReplaceFirst(prefill, Checkbox, ""))
    else
      prefill
  }

  /** The removed checkbox is the first one, and nothing but whitespace goes with it. */
  lemma InitialDescriptionCut(prefill: string, i: nat)
    requires FirstOccurrence(prefill, Checkbox, i)
    ensures InitialDescription(prefill) == Trim(prefill[..i] + prefill[i + |Checkbox|..])
  {
    assert Contains(prefill, Checkbox);
    assert prefill[..i] + "" + prefill[i + |Checkbox|..] == prefill[..i] + prefill[i + |Checkbox|..];
  }

  /** The characters of `- [ ] Y` that the prefill depends on. */
  lemma OpenTaskBody(y: string)
    requires Trimmed(y) && y != []
    ensures var body := "- [ ] " + y;
      Trimmed(body) && FirstOccurrence(body, Checkbox, 0) && body[..0] + body[|Checkbox|..] == [' '] + y + []
  {
    var body := "- [ ] " + y;
    assert body[0] == '-' && body[|body| - 1] == y[|y| - 1];
    assert !IsJsSpace('-');
    assert body[0..5] == Checkbox;
  }

  /**
   * Opening the dialog on a line that holds an unannotated open task (`- [ ] Y`,
   * whatever whitespace surrounds it) prefills exactly the description `Y`.
   */
  lemma PrefillFromTaskLine(ind: string, y: string, w: string)
    requires AllSpace(ind) && AllSpace(w) && Trimmed(y) && y != []
    ensures InitialDescription(Trim(ind + "- [ ] " + y + w)) == y
  {
    var body := "- [ ] " + y;
    OpenTaskBody(y);
    assert ind + "- [ ] " + y + w == ind + body + w;
    TrimOfPadded(ind, body, w);
    InitialDescriptionCut(body, 0);
    TrimOfPadded([' '], y, []);
  }

  // ---------------------------------------------------------------------------
  // The tags input

  /**
   * The submitted tags: the first space becomes `#`, then the first comma is
   * removed (both are literal replacements of the first occurrence only).
   */
  function NormaliseTags(raw: string): (r: string)
    ensures |r| == |raw| - (if ',' in raw then 1 else 0)
  {
    var spaced := ReplaceFirst(raw, " ", "#");
    SpaceStep(raw);
    ReplaceCharCounts(spaced, ',', "");
    ReplaceFirst(spaced, ",", "")
  }

  /** Replacing the first `c` by `rep` trades one `c` for the characters of `rep`, if there is a `c`. */
  lemma ReplaceCharCounts(s: string, c: char, rep: string)
    ensures multiset(ReplaceFirst(s, [c], rep))
      == if c in s then multiset(s) - multiset{c} + multiset(rep) else multiset(s)
    ensures |ReplaceFirst(s, [c], rep)| == if c in s then |s| - 1 + |rep| else |s|
  {
    ContainsChar(s, c);
    ReplaceFirstCounts(s, [c], rep);
    ReplaceFirstLength(s, [c], rep);
    assert multiset([c]) == multiset{c};
  }

  /** The first step of normalisation: at most one space becomes `#`; commas are untouched. */
  lemma SpaceStep(raw: string)
    ensures var s := ReplaceFirst(raw, " ", "#");
      |s| == |raw| && (',' in s <==> ',' in raw)
      && multiset(s) == if ' ' in raw then multiset(raw) - multiset{' '} + multiset{'#'} else multiset(raw)
  {
    var s := ReplaceFirst(raw, " ", "#");
    ReplaceCharCounts(raw, ' ', "#");
    assert multiset(s)[','] == multiset(raw)[','];
    assert (',' in s) == (multiset(s)[','] > 0);
    assert (',' in raw) == (multiset(raw)[','] > 0);
  }

  /** What normalisation does to the characters of the input. */
  lemma NormaliseTagsCounts(raw: string)
    ensures var r := NormaliseTags(raw);
      |r| == |raw| - (if ',' in raw then 1 else 0)
      && multiset(r) == multiset(raw)
           - (if ' ' in raw then multiset{' '} else multiset{})
           + (if ' ' in raw then multiset{'#'} else multiset{})
           - (if ',' in raw then multiset{','} else multiset{})
  {
    var s := ReplaceFirst(raw, " ", "#");
    SpaceStep(raw);
    ReplaceCharCounts(s, ',', "");
    assert multiset("") == multiset{};
    var m := multiset(raw);
    var m1 := multiset(s);
    if ' ' in raw {
      assert m1 == m - multiset{' '} + multiset{'#'};
    } else {
      assert m1 == m - multiset{} + multiset{};
    }
    if ',' !in raw {
      assert m1 == m1 - multiset{};
    }
  }

  /**
   * Where normalisation acts, when the input has a space (the first at `i`) and
   * a comma (the first at `j`): `#` stands at `i`, the comma at `j` is gone, and
   * every other character keeps its order.
   */
  lemma NormaliseTagsAt(raw: string, i: nat, j: nat)
    requires i < |raw| && raw[i] == ' ' && forall k :: 0 <= k < i ==> raw[k] != ' '
    requires j < |raw| && raw[j] == ',' && forall k :: 0 <= k < j ==> raw[k] != ','
    ensures i < j ==> NormaliseTags(raw) == raw[..i] + "#" + raw[i + 1..j] + raw[j + 1..]
    ensures j < i ==> NormaliseTags(raw) == raw[..j] + raw[j + 1..i] + "#" + raw[i + 1..]
  {
    var s := raw[..i] + "#" + raw[i + 1..];
    ReplaceCharAt(raw, ' ', "#", i);
    MarkedChars(raw, i, s);
    ReplaceCharAt(s, ',', "", j);
    CutMarked(raw, i, j, s);
  }

  /** `s` is `raw` with the character at `i` overwritten by `#`. */
  lemma MarkedChars(raw: string, i: nat, s: string)
    requires i < |raw| && s == raw[..i] + "#" + raw[i + 1..]
    ensures |s| == |raw| && s[i] == '#' && forall k :: 0 <= k < |s| && k != i ==> s[k] == raw[k]
  {
  }

  /** Cutting the character at `j` out of `raw` with `#` written at `i`. */
  lemma CutMarked(raw: string, i: nat, j: nat, s: string)
    requires i < |raw| && j < |raw| && i != j && s == raw[..i] + "#" + raw[i + 1..]
    ensures i < j ==> s[..j] + "" + s[j + 1..] == raw[..i] + "#" + raw[i + 1..j] + raw[j + 1..]
    ensures j < i ==> s[..j] + "" + s[j + 1..] == raw[..j] + raw[j + 1..i] + "#" + raw[i + 1..]
  {
    if i < j {
      assert s[..j] == raw[..i] + "#" + raw[i + 1..j];
      assert s[j + 1..] == raw[j + 1..];
    } else {
      assert s[..j] == raw[..j];
      assert s[j + 1..] == raw[j + 1..i] + "#" + raw[i + 1..];
    }
  }

  /** With a space (the first at `i`) and no comma, only that space changes, to `#`. */
  lemma NormaliseTagsSpaceOnly(raw: string, i: nat)
    requires i < |raw| && raw[i] == ' ' && forall k :: 0 <= k < i ==> raw[k] != ' '
    requires ',' !in raw
    ensures NormaliseTags(raw) == raw[..i] + "#" + raw[i + 1..]
  {
    var s := ReplaceFirst(raw, " ", "#");
    ReplaceCharAt(raw, ' ', "#", i);
    SpaceStep(raw);
    ContainsChar(s, ',');
  }

  /** With a comma (the first at `j`) and no space, only that comma goes. */
  lemma NormaliseTagsCommaOnly(raw: string, j: nat)
    requires j < |raw| && raw[j] == ',' && forall k :: 0 <= k < j ==> raw[k] != ','
    requires ' ' !in raw
    ensures NormaliseTags(raw) == raw[..j] + raw[j + 1..]
  {
    ContainsChar(raw, ' ');
    ReplaceCharAt(raw, ',', "", j);
    assert raw[..j] + "" + raw[j + 1..] == raw[..j] + raw[j + 1..];
  }

  /** The normalised tags are empty exactly when the input is empty or a lone comma. */
  lemma NormaliseTagsEmpty(raw: string)
    ensures NormaliseTags(raw) == [] <==> raw == [] || raw == ","
  {
    NormaliseTagsCounts(raw);
    if raw == "," {
      assert ',' in raw;
    }
    if NormaliseTags(raw) == [] && raw != [] {
      assert |raw| == 1 && ',' in raw;
      assert raw == [raw[0]];
    }
  }

  /** Input without spaces or commas is submitted as it is. */
  lemma NormaliseTagsPlain(raw: string)
    requires ' ' !in raw && ',' !in raw
    ensures NormaliseTags(raw) == raw
  {
    ReplaceCharCounts(raw, ' ', "#");
    ContainsChar(raw, ' ');
    ContainsChar(raw, ',');
  }

  /** Two tags written `A, B`: the space becomes `#` and the comma goes, giving `A#B`. */
  lemma NormaliseTagPair(a: string, b: string)
    requires ' ' !in a && ',' !in a
    ensures NormaliseTags(a + ", " + b) == a + "#" + b
  {
    PairLayout(a, b, a + ", " + b);
    NormaliseTagsAt(a + ", " + b, |a| + 1, |a|);
  }

  /** In `A, B` the first comma is at `|A|` and the first space just after it. */
  lemma PairLayout(a: string, b: string, raw: string)
    requires ' ' !in a && ',' !in a && raw == a + ", " + b
    ensures |a| + 1 < |raw| && raw[|a|] == ',' && raw[|a| + 1] == ' '
    ensures forall k :: 0 <= k < |a| + 1 ==> raw[k] != ' '
    ensures forall k :: 0 <= k < |a| ==> raw[k] != ','
    ensures raw[..|a|] + raw[|a| + 1..|a| + 1] + "#" + raw[|a| + 2..] == a + "#" + b
  {
    assert forall k :: 0 <= k < |a| ==> raw[k] == a[k];
    assert raw[..|a|] == a && raw[|a| + 1..|a| + 1] == [] && raw[|a| + 2..] == b;
  }

  // ---------------------------------------------------------------------------
  // The task line

  /** One inline field of a written task. */
  datatype Annotation = Priority(p: string) | Due(date: string) | Scheduled(date: string) | Tags(tags: string)

  /** The position of each kind of field in a written line. */
  function Rank(a: Annotation): nat
  {
    match a
    case Priority(_) => 0
    case Due(_) => 1
    case Scheduled(_) => 2
    case Tags(_) => 3
  }

  function Value(a: Annotation): string
  {
    match a
    case Priority(p) => p
    case Due(d) => d
    case Scheduled(d) => d
    case Tags(t) => t
  }

  /** The text of one field, with the leading space that separates it. */
  function Render(a: Annotation): (r: string)
    ensures |r| > 2 && r[0] == ' ' && r[1] == '[' && r[|r| - 1] == ']'
  {
    match a
    case Priority(p) => " [priority:: " + p + "]"
    case Due(d) => " [due:: [[" + d + "]]]"
    case Scheduled(d) => " [schedule:: [[" + d + "]]]"
    case Tags(t) => " [tags::#" + t + "]"
  }

  /** A field's text when its input is non-empty, nothing otherwise. */
  function Field(value: string, a: Annotation): string
  {
    if value != [] then Render(a) else []
  }

  /** The text after the checkbox: a space, the description, then each field whose input is non-empty, in turn. */
  function TaskBody(desc: string, priority: string, due: string, scheduled: string, tags: string): string
  {
    " " + desc + Field(priority, Priority(priority)) + Field(due, Due(due))
      + Field(scheduled, Scheduled(scheduled)) + Field(tags, Tags(tags))
  }

  /** The line a submit writes: `- [ ] desc` and the fields. */
  function TaskLine(desc: string, priority: string, due: string, scheduled: string, tags: string): string
  {
    Checkbox + TaskBody(desc, priority, due, scheduled, tags)
  }

  /** The fields of a written task as a list: each non-empty input once. */
  function Annotations(priority: string, due: string, scheduled: string, tags: string): seq<Annotation>
  {
    (if priority != [] then [Priority(priority)] else [])
    + (if due != [] then [Due(due)] else [])
    + (if scheduled != [] then [Scheduled(scheduled)] else [])
    + (if tags != [] then [Tags(tags)] else [])
  }

  /** Each field is in the list exactly when its input is non-empty. */
  lemma AnnotationsPresent(priority: string, due: string, scheduled: string, tags: string)
    ensures var r := Annotations(priority, due, scheduled, tags);
      (Priority(priority) in r <==> priority != [])
      && (Due(due) in r <==> due != [])
      && (Scheduled(scheduled) in r <==> scheduled != [])
      && (Tags(tags) in r <==> tags != [])
      && |r| == (if priority != [] then 1 else 0) + (if due != [] then 1 else 0)
                + (if scheduled != [] then 1 else 0) + (if tags != [] then 1 else 0)
  {
  }

  /** The list is in the fixed order priority, due, schedule, tags, and holds no empty field. */
  lemma AnnotationsOrdered(priority: string, due: string, scheduled: string, tags: string)
    ensures var r := Annotations(priority, due, scheduled, tags);
      (forall i :: 0 <= i < |r| ==> Value(r[i]) != [])
      && forall i, j :: 0 <= i < j < |r| ==> Rank(r[i]) < Rank(r[j])
  {
  }

  function RenderAll(fields: seq<Annotation>): string
  {
    if fields == [] then [] else Render(fields[0]) + RenderAll(fields[1..])
  }

  lemma {:induction false} RenderAllAppend(xs: seq<Annotation>, ys: seq<Annotation>)
    ensures RenderAll(xs + ys) == RenderAll(xs) + RenderAll(ys)
    decreases |xs|
  {
    if xs == [] {
      assert xs + ys == ys;
    } else {
      assert (xs + ys)[1..] == xs[1..] + ys;
      RenderAllAppend(xs[1..], ys);
    }
  }

  lemma RenderOptional(value: string, a: Annotation)
    ensures RenderAll(if value != [] then [a] else []) == Field(value, a)
  {
    assert RenderAll([a]) == Render(a) + RenderAll([]);
  }

  lemma RenderFour(f1: seq<Annotation>, f2: seq<Annotation>, f3: seq<Annotation>, f4: seq<Annotation>)
    ensures RenderAll(f1 + f2 + f3 + f4) == RenderAll(f1) + RenderAll(f2) + RenderAll(f3) + RenderAll(f4)
  {
    RenderAllAppend(f1, f2);
    RenderAllAppend(f1 + f2, f3);
    RenderAllAppend(f1 + f2 + f3, f4);
  }

  lemma Concat4(b: string, p1: string, p2: string, p3: string, p4: string)
    ensures b + p1 + p2 + p3 + p4 == b + (p1 + p2 + p3 + p4)
  {
  }

  /** The text after the checkbox is the description and the rendering of the field list. */
  lemma TaskBodyFields(desc: string, priority: string, due: string, scheduled: string, tags: string)
    ensures TaskBody(desc, priority, due, scheduled, tags)
      == " " + desc + RenderAll(Annotations(priority, due, scheduled, tags))
  {
    RenderFour(if priority != [] then [Priority(priority)] else [],
      if due != [] then [Due(due)] else [],
      if scheduled != [] then [Scheduled(scheduled)] else [],
      if tags != [] then [Tags(tags)] else []);
    RenderOptional(priority, Priority(priority));
    RenderOptional(due, Due(due));
    RenderOptional(scheduled, Scheduled(scheduled));
    RenderOptional(tags, Tags(tags));
    Concat4(" " + desc, Field(priority, Priority(priority)), Field(due, Due(due)),
      Field(scheduled, Scheduled(scheduled)), Field(tags, Tags(tags)));
  }

  /** Every line that starts with the checkbox is an open task line, and not a done one. */
  lemma CheckboxLineIsOpen(rest: string)
    ensures IsOpen(Checkbox + rest) && !IsDone(Checkbox + rest)
  {
    assert AllSpace([]);
    ToggleProperties.MarkerLiterals([], rest);
    assert [] + "- [ ]" + rest == Checkbox + rest;
    ToggleProperties.TaskLineKind([], OpenMark, rest);
  }

  /** The task line is built by appending the fields one by one, in the fixed order. */
  lemma TaskLineSteps(desc: string, priority: string, due: string, scheduled: string, tags: string,
                      line1: string, line2: string, line3: string, line4: string)
    requires line1 == Checkbox + " " + desc + Field(priority, Priority(priority))
    requires line2 == line1 + Field(due, Due(due))
    requires line3 == line2 + Field(scheduled, Scheduled(scheduled))
    requires line4 == line3 + Field(tags, Tags(tags))
    ensures line4 == TaskLine(desc, priority, due, scheduled, tags)
  {
    var p1, p2, p3, p4 := Field(priority, Priority(priority)), Field(due, Due(due)),
      Field(scheduled, Scheduled(scheduled)), Field(tags, Tags(tags));
    var b0 := " " + desc;
    ToggleProperties.Regroup(Checkbox, " ", desc);
    ToggleProperties.Regroup(Checkbox, b0, p1);
    ToggleProperties.Regroup(Checkbox, b0 + p1, p2);
    ToggleProperties.Regroup(Checkbox, b0 + p1 + p2, p3);
    ToggleProperties.Regroup(Checkbox, b0 + p1 + p2 + p3, p4);
  }

  /** Every priority button carries a non-empty label. */
  lemma PrioritiesNonEmpty(p: string)
    requires p in Priorities
    ensures p != []
  {
  }

  /** A non-empty priority is written right after the description, as ` [priority:: p]`. */
  lemma PriorityWritten(desc: string, priority: string, due: string, scheduled: string, tags: string)
    requires priority != []
    ensures Occurs(TaskLine(desc, priority, due, scheduled, tags), Render(Priority(priority)), |Checkbox| + 1 + |desc|)
  {
    var pre := Checkbox + " " + desc;
    var line1 := pre + Field(priority, Priority(priority));
    var line2 := line1 + Field(due, Due(due));
    var line3 := line2 + Field(scheduled, Scheduled(scheduled));
    var line4 := line3 + Field(tags, Tags(tags));
    TaskLineSteps(desc, priority, due, scheduled, tags, line1, line2, line3, line4);
    OccursAtEnd(pre, Render(Priority(priority)));
    OccursExtend(line1, Render(Priority(priority)), |pre|, Field(due, Due(due)));
    OccursExtend(line2, Render(Priority(priority)), |pre|, Field(scheduled, Scheduled(scheduled)));
    OccursExtend(line3, Render(Priority(priority)), |pre|, Field(tags, Tags(tags)));
  }

  lemma OccursAtEnd(s: string, x: string)
    ensures Occurs(s + x, x, |s|)
  {
    assert (s + x)[|s|..|s| + |x|] == x;
  }

  /** An occurrence stays where it is when text is appended. */
  lemma OccursExtend(s: string, x: string, i: nat, y: string)
    requires Occurs(s, x, i)
    ensures Occurs(s + y, x, i)
  {
    assert (s + y)[i..i + |x|] == s[i..i + |x|];
  }

  /**
   * The click handler's string building: the checkbox and the description, then
   * each non-empty field appended in turn.
   */
  method BuildTaskLine(desc: string, priority: string, due: string, schedule: string, tags: string)
    returns (taskLine: string)
    ensures taskLine == TaskLine(desc, priority, due, schedule, tags)
  {
    taskLine := Checkbox + " " + desc;
    ghost var line0 := taskLine;
    if priority != [] {
      taskLine := taskLine + Render(Priority(priority));
    }
    ghost var line1 := taskLine;
    assert line1 == line0 + Field(priority, Priority(priority));
    if due != [] {
      taskLine := taskLine + Render(Due(due));
    }
    ghost var line2 := taskLine;
    assert line2 == line1 + Field(due, Due(due));
    if schedule != [] {
      taskLine := taskLine + Render(Scheduled(schedule));
    }
    ghost var line3 := taskLine;
    assert line3 == line2 + Field(schedule, Scheduled(schedule));
    if tags != [] {
      taskLine := taskLine + Render(Tags(tags));
    }
    assert taskLine == line3 + Field(tags, Tags(tags));
    TaskLineSteps(desc, priority, due, schedule, tags, line1, line2, line3, taskLine);
  }

  /** A written task is an open task line of the toggle command, whatever its fields. */
  lemma TaskLineIsOpen(desc: string, priority: string, due: string, scheduled: string, tags: string)
    ensures IsOpen(TaskLine(desc, priority, due, scheduled, tags))
    ensures !IsDone(TaskLine(desc, priority, due, scheduled, tags))
  {
    CheckboxLineIsOpen(TaskBody(desc, priority, due, scheduled, tags));
  }

  /** Toggling a line that starts with the checkbox ticks it and appends the stamp. */
  lemma CheckboxLineToggles(rest: string, today: string)
    requires !Contains(rest, CompletedHead)
    ensures Toggle(Checkbox + rest, true, today) == Some("- [x]" + rest + CompletionStamp(today))
  {
    assert AllSpace([]);
    assert [] + "- [ ]" + rest == Checkbox + rest;
    ToggleProperties.OpenLineToggled([], rest, today);
    assert [] + "- [x]" + rest == "- [x]" + rest;
  }

  /** With the default setting, toggling a freshly written task ticks its checkbox and appends today's stamp. */
  lemma NewTaskToggles(desc: string, priority: string, due: string, scheduled: string, tags: string, today: string)
    requires !Contains(TaskBody(desc, priority, due, scheduled, tags), CompletedHead)
    ensures Toggle(TaskLine(desc, priority, due, scheduled, tags), DefaultAppendCompletionDate, today)
      == Some("- [x]" + TaskBody(desc, priority, due, scheduled, tags) + CompletionStamp(today))
  {
    CheckboxLineToggles(TaskBody(desc, priority, due, scheduled, tags), today);
  }

  // ---------------------------------------------------------------------------
  // The date inputs

  /**
   * What a blur does to a date input holding `value`, given `parsed`, the
   * formatted date the natural-language parser finds in the trimmed text (if
   * any): the new text and whether the input is marked invalid.
   */
  function BlurField(value: string, parsed: Option<string>): (r: (string, bool))
    ensures r.1 <==> Trim(value) != [] && parsed.None?
    ensures r.0 != value ==> Trim(value) != [] && parsed == Some(r.0)
    ensures Trim(value) != [] && parsed.Some? ==> r.0 == parsed.value
  {
    if Trim(value) == [] then (value, false)
    else if parsed.Some? then (parsed.value, false)
    else (value, true)
  }

  /** A well-formed date that the parser reads back as itself is left as it is by a second blur. */
  lemma BlurSettles(value: string, parsed: Option<string>)
    requires parsed.Some? ==> Trimmed(parsed.value) && parsed.value != []
    ensures var once := BlurField(value, parsed);
      !once.1 ==> BlurField(once.0, if Trim(once.0) == [] then None else Some(once.0)) == once
  {
    var once := BlurField(value, parsed);
    if !once.1 && Trim(once.0) != [] {
      if Trim(value) != [] {
        TrimOfPadded([], once.0, []);
        assert [] + once.0 + [] == once.0;
      }
    }
  }

  // ---------------------------------------------------------------------------
  // The dialog

  class CreateTaskModal {
    /** The trimmed current line the dialog was opened from. */
    var prefillText: string
    var description: string
    var selectedPriority: string
    var due: string
    var dueInvalid: bool
    var scheduled: string
    var scheduledInvalid: bool
    var tags: string

    /** The selected priority is always one of the four buttons. */
    predicate Valid()
      reads this
    {
      selectedPriority in Priorities
    }

    /** A new dialog: remembers the prefill, selects `normal`, all inputs empty. */
    constructor(prefill: string)
      ensures Valid()
      ensures prefillText == prefill && selectedPriority == DefaultPriority
      ensures description == [] && due == [] && scheduled == [] && tags == []
      ensures !dueInvalid && !scheduledInvalid
    {
      prefillText := prefill;
      selectedPriority := DefaultPriority;
      description, due, scheduled, tags := [], [], [], [];
      dueInvalid, scheduledInvalid := false, false;
    }

    /** Building the form: the description input receives the filtered prefill. */
    method Open()
      modifies this
      requires Valid()
      ensures Valid()
      ensures description == InitialDescription(prefillText)
      ensures prefillText == old(prefillText) && selectedPriority == old(selectedPriority)
      ensures due == [] && scheduled == [] && tags == [] && !dueInvalid && !scheduledInvalid
    {
      var filtered := prefillText;
      if Contains(filtered, Checkbox) {
        filtered := Trim(ReplaceFirst(filtered, Checkbox, ""));
      }
      description := filtered;
      due, scheduled, tags := [], [], [];
      dueInvalid, scheduledInvalid := false, false;
    }

    /** A click on one of the priority buttons. */
    method SelectPriority(p: string)
      modifies this
      requires Valid() && p in Priorities
      ensures Valid() && selectedPriority == p
      ensures description == old(description) && due == old(due) && scheduled == old(scheduled)
      ensures tags == old(tags) && dueInvalid == old(dueInvalid) && scheduledInvalid == old(scheduledInvalid)
      ensures prefillText == old(prefillText)
    {
      selectedPriority := p;
    }

    /** Typing into the inputs: the text of each input becomes what the user typed. */
    method Edit(newDescription: string, newDue: string, newScheduled: string, newTags: string)
      modifies this
      requires Valid()
      ensures Valid()
      ensures description == newDescription && due == newDue && scheduled == newScheduled && tags == newTags
      ensures selectedPriority == old(selectedPriority) && prefillText == old(prefillText)
      ensures dueInvalid == old(dueInvalid) && scheduledInvalid == old(scheduledInvalid)
    {
      description, due, scheduled, tags := newDescription, newDue, newScheduled, newTags;
    }

    /** The due input loses focus; `parsed` is the parser's formatted date for its trimmed text. */
    method BlurDue(parsed: Option<string>)
      modifies this
      requires Valid()
      ensures Valid()
      ensures (due, dueInvalid) == BlurField(old(due), parsed)
      ensures scheduled == old(scheduled) && scheduledInvalid == old(scheduledInvalid)
      ensures description == old(description) && tags == old(tags)
      ensures selectedPriority == old(selectedPriority) && prefillText == old(prefillText)
    {
      var raw := Trim(due);
      if raw == [] {
        dueInvalid := false;
      } else if parsed.Some? {
        dueInvalid := false;
        due := parsed.value;
      } else {
        dueInvalid := true;
      }
    }

    /** The scheduled input loses focus; the same rule as for the due input. */
    method BlurScheduled(parsed: Option<string>)
      modifies this
      requires Valid()
      ensures Valid()
      ensures (scheduled, scheduledInvalid) == BlurField(old(scheduled), parsed)
      ensures due == old(due) && dueInvalid == old(dueInvalid)
      ensures description == old(description) && tags == old(tags)
      ensures selectedPriority == old(selectedPriority) && prefillText == old(prefillText)
    {
      var raw := Trim(scheduled);
      if raw == [] {
        scheduledInvalid := false;
      } else if parsed.Some? {
        scheduledInvalid := false;
        scheduled := parsed.value;
      } else {
        scheduledInvalid := true;
      }
    }

    /**
     * The submit button: with an editor, the task line to write over the cursor
     * line and the cursor column after it (the line's end); without one, nothing.
     * The dialog closes either way.
     */
    method Submit(hasEditor: bool) returns (written: Option<(string, nat)>)
      requires Valid()
      ensures hasEditor <==> written.Some?
      ensures written.Some? ==>
        written.value.0 == TaskLine(Trim(description), selectedPriority, due, scheduled, NormaliseTags(tags))
        && written.value.1 == |written.value.0|
      ensures written.Some? ==>
        selectedPriority in Priorities
        && Occurs(written.value.0, Render(Priority(selectedPriority)), |Checkbox| + 1 + |Trim(description)|)
    {
      var desc := Trim(description);
      var priority := selectedPriority;
      var normalised := NormaliseTags(tags);
      if !hasEditor {
        return None;
      }
      var taskLine := BuildTaskLine(desc, priority, due, scheduled, normalised);
      PrioritiesNonEmpty(priority);
      PriorityWritten(desc, priority, due, scheduled, normalised);
      var column: nat := |taskLine|;
      written := Some((taskLine, column));
    }
  }

  /** The "New task" command: the dialog for the trimmed current line, opened. */
  method NewTask(currentLine: string) returns (m: CreateTaskModal)
    ensures fresh(m) && m.Valid()
    ensures m.prefillText == Trim(currentLine) && m.description == InitialDescription(Trim(currentLine))
    ensures m.selectedPriority == DefaultPriority
    ensures m.due == [] && m.scheduled == [] && m.tags == [] && !m.dueInvalid && !m.scheduledInvalid
  {
    m := new CreateTaskModal(Trim(currentLine));
    m.Open();
  }
}
