/**
 * The `toggle-task-complete` command: classify the line under the cursor as an
 * open or a done checklist item, swap its marker and, when the
 * `appendCompletionDate` setting is on, strip the first `completed` annotation
 * and (on the way to done) append a fresh one carrying today's date.
 *
 * The three regular expressions involved are written out by hand:
 *   open       ^\s*-\s\[\s\]
 *   done       ^\s*-\s\[x\]            (case-insensitive)
 *   completed  \s*\[completed:: \[\[[^\]]*\]\]\]
 */
module TaskToggle {
  import opened Wrappers
  import opened JsText

  const OpenMark := "[ ]"
  const DoneMark := "[x]"
  /** The literal text that every `completed` annotation starts with. */
  const CompletedHead := "[completed:: [["
  const CompletedTail := "]]]"
  /** `appendCompletionDate` is on unless the stored settings say otherwise. */
  const DefaultAppendCompletionDate := true

  /** The annotation appended on the way to done: ` [completed:: [[today]]]`. */
  function CompletionStamp(today: string): string {
    " " + CompletedHead + today + CompletedTail
  }

  // ---------------------------------------------------------------------------
  // Classification

  /** `-\s\[\s\]` matches at index `k`. */
  predicate OpenMarkerAt(s: string, k: nat) {
    k + 5 <= |s| && s[k] == '-' && IsJsSpace(s[k + 1]) && s[k + 2] == '['
    && IsJsSpace(s[k + 3]) && s[k + 4] == ']'
  }

  /** `-\s\[x\]` matches at index `k`, with `x` in either case. */
  predicate DoneMarkerAt(s: string, k: nat) {
    k + 5 <= |s| && s[k] == '-' && IsJsSpace(s[k + 1]) && s[k + 2] == '['
    && (s[k + 3] == 'x' || s[k + 3] == 'X') && s[k + 4] == ']'
  }

  /** Where the marker must stand: after the leading whitespace. */
  function Indent(line: string): nat {
    SpaceRun(line, 0)
  }

  predicate IsOpen(line: string) {
    OpenMarkerAt(line, Indent(line))
  }

  predicate IsDone(line: string) {
    DoneMarkerAt(line, Indent(line))
  }

  /** `IsOpen` is the anchored pattern `^\s*-\s\[\s\]`: some whitespace prefix, then the marker. */
  lemma IsOpenMatchesPattern(line: string)
    ensures IsOpen(line) <==> exists k: nat :: OpenMarkerAt(line, k) && AllSpace(line[..k])
  {
    if exists k: nat :: OpenMarkerAt(line, k) && AllSpace(line[..k]) {
      var k: nat :| OpenMarkerAt(line, k) && AllSpace(line[..k]);
      assert forall j :: 0 <= j < k ==> IsJsSpace(line[..k][j]);
      SpaceRunIs(line, 0, k);
    }
    if IsOpen(line) {
      assert AllSpace(line[..Indent(line)]);
    }
  }

  /** The mark of a done line is a letter, not whitespace, so no line is both open and done. */
  lemma DoneIsNotOpen(line: string)
    requires IsDone(line)
    ensures !IsOpen(line)
  {
    var c := line[Indent(line) + 3];
    assert c == 'x' || c == 'X';
    assert !IsJsSpace(c);
  }

  /** `IsDone` is the anchored pattern `^\s*-\s\[x\]` with the `i` flag. */
  lemma IsDoneMatchesPattern(line: string)
    ensures IsDone(line) <==> exists k: nat :: DoneMarkerAt(line, k) && AllSpace(line[..k])
  {
    if exists k: nat :: DoneMarkerAt(line, k) && AllSpace(line[..k]) {
      var k: nat :| DoneMarkerAt(line, k) && AllSpace(line[..k]);
      assert forall j :: 0 <= j < k ==> IsJsSpace(line[..k][j]);
      SpaceRunIs(line, 0, k);
    }
    if IsDone(line) {
      assert AllSpace(line[..Indent(line)]);
    }
  }

  // ---------------------------------------------------------------------------
  // The `completed` annotation pattern and its leftmost match

  /** Length of the maximal run of characters other than `]` starting at `i`. */
  function NonBracketRun(s: string, i: nat): (n: nat)
    requires i <= |s|
    ensures i + n <= |s|
    ensures forall k :: i <= k < i + n ==> s[k] != ']'
    ensures i + n == |s| || s[i + n] == ']'
    decreases |s| - i
  {
    if i == |s| || s[i] == ']' then 0 else 1 + NonBracketRun(s, i + 1)
  }

  lemma NonBracketRunIs(s: string, i: nat, n: nat)
    requires i + n <= |s|
    requires forall k :: i <= k < i + n ==> s[k] != ']'
    requires i + n == |s| || s[i + n] == ']'
    ensures NonBracketRun(s, i) == n
  {
  }

  /**
   * The regular expression matches from `i` through `j` (whitespace `s[i..j]`),
   * `m` (the text between `[[` and `]]]`) up to `m + 3`.
   */
  ghost predicate CompletedShape(s: string, i: nat, j: nat, m: nat) {
    i <= j && j + |CompletedHead| <= m && m + |CompletedTail| <= |s|
    && (forall k :: i <= k < j ==> IsJsSpace(s[k]))
    && Occurs(s, CompletedHead, j)
    && (forall k :: j + |CompletedHead| <= k < m ==> s[k] != ']')
    && Occurs(s, CompletedTail, m)
  }

  /**
   * Whether the `completed` pattern matches at index `i`, and where the match
   * ends. Both `\s*` and `[^\]]*` are followed by a character they cannot
   * consume, so each takes its maximal run and no backtracking is needed.
   */
  function CompletedMatchAt(s: string, i: nat): (r: Option<nat>)
    requires i <= |s|
    ensures r.Some? ==> i + |CompletedHead| + |CompletedTail| <= r.value <= |s|
  {
    var j := i + SpaceRun(s, i);
    if !Occurs(s, CompletedHead, j) then None
    else
      var m := j + |CompletedHead| + NonBracketRun(s, j + |CompletedHead|);
      if Occurs(s, CompletedTail, m) then Some(m + |CompletedTail|) else None
  }

  /** Any way the pattern can match at `i` is the one `CompletedMatchAt` finds. */
  lemma CompletedShapeDetermined(s: string, i: nat, j: nat, m: nat)
    requires CompletedShape(s, i, j, m)
    ensures CompletedMatchAt(s, i) == Some(m + |CompletedTail|)
  {
    assert s[j..j + |CompletedHead|][0] == s[j];
    SpaceRunIs(s, i, j - i);
    assert s[m..m + |CompletedTail|][0] == s[m];
    NonBracketRunIs(s, j + |CompletedHead|, m - j - |CompletedHead|);
  }

  /** `CompletedMatchAt` finds a match exactly when the pattern has one, and its only end. */
  lemma CompletedMatchAtMeansPattern(s: string, i: nat)
    requires i <= |s|
    ensures CompletedMatchAt(s, i).Some? ==>
      exists j: nat, m: nat :: CompletedShape(s, i, j, m) && CompletedMatchAt(s, i) == Some(m + 3)
    ensures forall j: nat, m: nat :: CompletedShape(s, i, j, m) ==> CompletedMatchAt(s, i) == Some(m + 3)
  {
    if CompletedMatchAt(s, i).Some? {
      var j := i + SpaceRun(s, i);
      var m := j + |CompletedHead| + NonBracketRun(s, j + |CompletedHead|);
      assert CompletedShape(s, i, j, m);
    }
    forall j: nat, m: nat | CompletedShape(s, i, j, m)
      ensures CompletedMatchAt(s, i) == Some(m + 3)
    {
      CompletedShapeDetermined(s, i, j, m);
    }
  }

  /** `(i, e)` is the leftmost match of the `completed` pattern. */
  predicate FirstCompletedMatch(s: string, i: nat, e: nat) {
    i <= |s| && CompletedMatchAt(s, i) == Some(e)
    && forall k :: 0 <= k < i ==> CompletedMatchAt(s, k).None?
  }

  /** The leftmost match at or after `from`: how a regular expression search proceeds. */
  function FindCompleted(s: string, from: nat): (r: Option<(nat, nat)>)
    requires from <= |s|
    ensures r.Some? ==> from <= r.value.0 <= |s| && CompletedMatchAt(s, r.value.0) == Some(r.value.1)
    ensures r.Some? ==> forall k :: from <= k < r.value.0 ==> CompletedMatchAt(s, k).None?
    ensures r.None? ==> forall k :: from <= k <= |s| ==> CompletedMatchAt(s, k).None?
    decreases |s| - from
  {
    var here := CompletedMatchAt(s, from);
    if here.Some? then Some((from, here.value))
    else if from == |s| then None
    else FindCompleted(s, from + 1)
  }

  /** `replace(completedPattern, "")`: delete the leftmost match, if any. */
  function StripCompleted(s: string): (r: string)
    ensures |r| <= |s|
    ensures (forall i :: 0 <= i <= |s| ==> CompletedMatchAt(s, i).None?) ==> r == s
    ensures forall i: nat, e: nat :: FirstCompletedMatch(s, i, e) ==> r == s[..i] + s[e..]
  {
    match FindCompleted(s, 0)
    case None => s
    case Some((i, e)) =>
      assert forall i': nat, e': nat :: FirstCompletedMatch(s, i', e') ==> i' == i && e' == e;
      s[..i] + s[e..]
  }

  /** Number of matches a global search (`/g`) would find from `from` on. */
  function CompletedCount(s: string, from: nat): nat
    requires from <= |s|
    decreases |s| - from
  {
    match FindCompleted(s, from)
    case None => 0
    case Some((_, e)) => 1 + CompletedCount(s, e)
  }

  // ---------------------------------------------------------------------------
  // The command

  /** The open branch: `[ ]` becomes `[x]`, then the stamp is re-applied when the setting is on. */
  function CompleteLine(line: string, appendCompletionDate: bool, today: string): (r: string)
    ensures !appendCompletionDate ==> |r| == |line|
    ensures appendCompletionDate ==>
      |r| >= |CompletionStamp(today)| && r[|r| - |CompletionStamp(today)|..] == CompletionStamp(today)
  {
    var marked := ReplaceFirst(line, OpenMark, DoneMark);
    ReplaceFirstLength(line, OpenMark, DoneMark);
    if appendCompletionDate then
      var stripped := StripCompleted(marked);
      EndsWithSuffix(stripped, CompletionStamp(today));
      stripped + CompletionStamp(today)
    else
      marked
  }

  /** The done branch: `[x]` becomes `[ ]`, then the stamp is removed when the setting is on. */
  function ReopenLine(line: string, appendCompletionDate: bool): (r: string)
    ensures |r| <= |line|
    ensures !appendCompletionDate ==> |r| == |line|
  {
    var marked := ReplaceFirst(line, DoneMark, OpenMark);
    ReplaceFirstLength(line, DoneMark, OpenMark);
    if appendCompletionDate then StripCompleted(marked) else marked
  }

  /**
   * The rewrite of one line; `None` stands for "not a task line": the notice is
   * shown and the document is left as it was. `today` is the formatted date.
   * The open pattern is tried first, so a line matching both is completed.
   */
  function Toggle(line: string, appendCompletionDate: bool, today: string): (r: Option<string>)
    ensures r.None? <==> !IsOpen(line) && !IsDone(line)
    ensures r.Some? && !appendCompletionDate ==> |r.value| == |line|
    ensures r.Some? && !IsOpen(line) ==> |r.value| <= |line|
    ensures r.Some? && IsOpen(line) && appendCompletionDate ==>
      |r.value| >= |CompletionStamp(today)|
      && r.value[|r.value| - |CompletionStamp(today)|..] == CompletionStamp(today)
  {
    if IsOpen(line) then Some(CompleteLine(line, appendCompletionDate, today))
    else if IsDone(line) then Some(ReopenLine(line, appendCompletionDate))
    else None
  }

  lemma EndsWithSuffix(x: string, y: string)
    ensures (x + y)[|x|..] == y
  {
  }
}
