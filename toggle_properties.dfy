/**
 * What the toggle command guarantees: lines that are not tasks are left alone,
 * the setting-off rewrite only swaps a marker, the stamp appended on the way to
 * done is the line's only `completed` annotation (for a line with no
 * `[completed:: [[`, or whose only one is a trailing stamp), and done -> open ->
 * done and open -> done -> open round-trip up to the description's trailing
 * whitespace, for a description without `[completed:: [[`. Other text holding
 * the head can be spliced into a second annotation (`SpliceMakesTwo`).
 */
module ToggleProperties {
  import opened Wrappers
  import opened JsText
  import opened TaskToggle

  // ---------------------------------------------------------------------------
  // Helpers about where `[completed:: [[` can occur

  /** A prefix in which no `[` is followed by `c` cannot start the head text, nor can it be split across the join. */
  lemma NoHeadAfterPrefix(p: string, x: string)
    requires !Contains(x, CompletedHead)
    requires forall k :: 0 <= k < |p| && p[k] == '[' ==> k + 1 < |p| && p[k + 1] != 'c'
    ensures !Contains(p + x, CompletedHead)
  {
    var s := p + x;
    var h := |CompletedHead|;
    assert CompletedHead[0] == '[' && CompletedHead[1] == 'c';
    forall j: nat | 0 <= j <= |s|
      ensures !Occurs(s, CompletedHead, j)
    {
      if j + h <= |s| {
        if j >= |p| {
          var q := j - |p|;
          assert s[|p|..] == x;
          assert s[j..j + h] == s[|p|..][q..q + h] == x[q..q + h];
          assert !Occurs(x, CompletedHead, j - |p|);
        } else if p[j] == '[' {
          assert s[j + 1] == p[j + 1] != 'c';
          assert s[j..j + h][1] == s[j + 1];
        } else {
          assert s[j..j + h][0] == s[j] == p[j];
        }
      }
    }
  }

  /** A prefix of a string free of the head text is free of it too. */
  lemma NoHeadInPrefix(x: string, n: nat)
    requires n <= |x| && !Contains(x, CompletedHead)
    ensures !Contains(x[..n], CompletedHead)
  {
    forall j: nat | 0 <= j <= n
      ensures !Occurs(x[..n], CompletedHead, j)
    {
      if j + |CompletedHead| <= n {
        assert x[..n][j..j + |CompletedHead|] == x[j..j + |CompletedHead|];
        assert !Occurs(x, CompletedHead, j);
      }
    }
  }

  /** Without the head text there is no match, so stripping changes nothing. */
  lemma StripWithoutHead(s: string)
    requires !Contains(s, CompletedHead)
    ensures StripCompleted(s) == s
  {
    forall i | 0 <= i <= |s| ensures CompletedMatchAt(s, i).None? {
      assert !Occurs(s, CompletedHead, i + SpaceRun(s, i));
    }
  }

  /** No match can start before `p` when `s[p-1]` is not whitespace and the head text does not start before `p`. */
  lemma NoMatchBefore(s: string, p: nat)
    requires p <= |s| && (p == 0 || !IsJsSpace(s[p - 1]))
    requires forall j :: 0 <= j < p ==> !Occurs(s, CompletedHead, j)
    ensures forall i :: 0 <= i < p ==> CompletedMatchAt(s, i).None?
  {
  }

  /** The leftmost match found by the search is the one characterised by `FirstCompletedMatch`. */
  lemma FindFirstMatch(s: string, i: nat, e: nat)
    requires FirstCompletedMatch(s, i, e)
    ensures FindCompleted(s, 0) == Some((i, e))
  {
  }

  /** Stripping keeps a prefix before which no match can start. */
  lemma StripKeepsPrefix(s: string, p: nat)
    requires 0 < p <= |s| && !IsJsSpace(s[p - 1])
    requires forall j :: 0 <= j < p ==> !Occurs(s, CompletedHead, j)
    ensures p <= |StripCompleted(s)| && StripCompleted(s)[..p] == s[..p]
  {
    NoMatchBefore(s, p);
    match FindCompleted(s, 0)
    case None =>
    case Some((i, e)) =>
      assert FirstCompletedMatch(s, i, e);
  }

  /** Where the parts of `a + CompletionStamp(today)` stand. */
  lemma StampLayout(a: string, today: string)
    ensures var n := a + CompletionStamp(today);
      var t := |a|;
      |n| == t + 1 + |CompletedHead| + |today| + |CompletedTail|
      && n[..t] == a && n[t] == ' '
      && n[t + 1..t + 1 + |CompletedHead|] == CompletedHead
      && n[t + 1 + |CompletedHead|..t + 1 + |CompletedHead| + |today|] == today
      && n[t + 1 + |CompletedHead| + |today|..] == CompletedTail
  {
  }

  /** In `a + CompletionStamp(today)` the head text can start only inside the stamp. */
  lemma HeadOnlyInStamp(a: string, today: string)
    requires !Contains(a, CompletedHead)
    ensures forall j :: 0 <= j <= |a| ==> !Occurs(a + CompletionStamp(today), CompletedHead, j)
  {
    var n := a + CompletionStamp(today);
    var t := |a|;
    var h := |CompletedHead|;
    StampLayout(a, today);
    assert n[t + 2] == n[t + 1..t + 1 + h][1] == 'c';
    assert forall q :: 0 <= q < h && q != 12 ==> CompletedHead[q] != ' ';
    assert CompletedHead[14] == '[';
    forall j | 0 <= j <= t ensures !Occurs(n, CompletedHead, j) {
      if j + h <= t {
        assert n[j..j + h] == a[j..j + h];
        assert !Occurs(a, CompletedHead, j);
      } else if j + h <= |n| {
        assert n[j..j + h][t - j] == n[t];
        if t - j == 12 {
          assert n[j..j + h][14] == n[t + 2];
        }
      }
    }
  }

  /** A `]`-free slice followed by `]` is the whole run of non-`]` characters. */
  lemma NonBracketRunOfSlice(s: string, i: nat, n: nat)
    requires i + n < |s| && ']' !in s[i..i + n] && s[i + n] == ']'
    ensures NonBracketRun(s, i) == n
  {
    forall k | i <= k < i + n ensures s[k] != ']' {
      assert s[k] == s[i..i + n][k - i];
    }
    NonBracketRunIs(s, i, n);
  }

  /** The whitespace run at `a`'s trailing whitespace extends over one more space and stops at `[`. */
  lemma SpaceRunIntoStamp(a: string, rest: string)
    requires |rest| > 1 && rest[0] == ' ' && rest[1] == '['
    ensures |TrimEnd(a)| + SpaceRun(a + rest, |TrimEnd(a)|) == |a| + 1
  {
    var s := a + rest;
    var i0 := |TrimEnd(a)|;
    forall k | i0 <= k < |a| + 1 ensures IsJsSpace(s[k]) {
      if k < |a| {
        assert s[k] == a[k] == a[i0..][k - i0];
      } else {
        assert s[k] == rest[0];
      }
    }
    assert s[|a| + 1] == rest[1];
    SpaceRunIs(s, i0, |a| + 1 - i0);
  }

  /** The match that starts at `a`'s trailing whitespace (index `i0`) runs to the end of `n`, `a` with the stamp. */
  lemma StampMatchesAtTrailingSpace(a: string, today: string, n: string, i0: nat)
    requires ']' !in today && n == a + CompletionStamp(today) && i0 == |TrimEnd(a)|
    ensures i0 <= |n| && CompletedMatchAt(n, i0) == Some(|n|)
  {
    StampSpaceRun(a, today);
    StampHead(a, today);
    StampText(a, today);
    StampTail(a, today);
    MatchFromParts(n, i0, |a| + 1, |a| + 1 + |CompletedHead| + |today|);
  }

  lemma StampSpaceRun(a: string, today: string)
    ensures var n := a + CompletionStamp(today);
      |TrimEnd(a)| <= |a| + 1 <= |n| && |TrimEnd(a)| + SpaceRun(n, |TrimEnd(a)|) == |a| + 1
  {
    assert CompletionStamp(today)[0] == ' ' && CompletionStamp(today)[1] == '[';
    SpaceRunIntoStamp(a, CompletionStamp(today));
  }

  lemma StampHead(a: string, today: string)
    ensures Occurs(a + CompletionStamp(today), CompletedHead, |a| + 1)
  {
    StampLayout(a, today);
  }

  lemma StampText(a: string, today: string)
    requires ']' !in today
    ensures var n := a + CompletionStamp(today);
      |a| + 1 + |CompletedHead| <= |n| && NonBracketRun(n, |a| + 1 + |CompletedHead|) == |today|
  {
    var n := a + CompletionStamp(today);
    var m := |a| + 1 + |CompletedHead| + |today|;
    StampLayout(a, today);
    assert n[m] == n[m..][0];
    NonBracketRunOfSlice(n, |a| + 1 + |CompletedHead|, |today|);
  }

  lemma StampTail(a: string, today: string)
    ensures var n := a + CompletionStamp(today);
      var m := |a| + 1 + |CompletedHead| + |today|;
      m + 3 == |n| && Occurs(n, CompletedTail, m)
  {
    var n := a + CompletionStamp(today);
    var m := |a| + 1 + |CompletedHead| + |today|;
    StampLayout(a, today);
    assert n[m..m + 3] == n[m..];
  }

  /** The match at `i` read off from its parts. */
  lemma MatchFromParts(s: string, i: nat, j: nat, m: nat)
    requires i <= j <= |s| && i + SpaceRun(s, i) == j && Occurs(s, CompletedHead, j)
    requires NonBracketRun(s, j + |CompletedHead|) == m - j - |CompletedHead| && Occurs(s, CompletedTail, m)
    ensures CompletedMatchAt(s, i) == Some(m + |CompletedTail|)
  {
  }

  /**
   * The central fact: after a line `a` free of the head text, the appended stamp
   * is the leftmost (and only) match, and it starts where `a`'s trailing
   * whitespace starts.
   */
  lemma StampIsOnlyMatch(a: string, today: string)
    requires !Contains(a, CompletedHead) && ']' !in today
    ensures var n := a + CompletionStamp(today);
      FirstCompletedMatch(n, |TrimEnd(a)|, |n|)
      && FindCompleted(n, 0) == Some((|TrimEnd(a)|, |n|))
      && StripCompleted(n) == TrimEnd(a)
      && CompletedCount(n, 0) == 1
  {
    var n := a + CompletionStamp(today);
    var i0 := |TrimEnd(a)|;
    HeadOnlyInStamp(a, today);
    StampLayout(a, today);
    if 0 < i0 {
      assert n[i0 - 1] == a[i0 - 1];
    }
    NoMatchBefore(n, i0);
    StampMatchesAtTrailingSpace(a, today, n, i0);
    assert FirstCompletedMatch(n, i0, |n|);
    FindFirstMatch(n, i0, |n|);
    assert n[..i0] == TrimEnd(a);
    assert FindCompleted(n, |n|).None?;
  }

  /** `trimEnd` of a text behind a prefix that does not end in whitespace. */
  lemma TrimEndAfter(p: string, x: string)
    requires |p| > 0 && !IsJsSpace(p[|p| - 1])
    ensures TrimEnd(p + x) == p + TrimEnd(x)
  {
    var s := p + x;
    var w := SpaceRunBefore(x, |x|);
    assert forall k :: |s| - w <= k < |s| ==> s[k] == x[k - |p|];
    if w < |x| {
      assert s[|s| - w - 1] == x[|x| - w - 1];
    } else {
      assert s[|s| - w - 1] == p[|p| - 1];
    }
    SpaceRunBeforeIs(s, |s|, w);
    assert s[..|s| - w] == p + x[..|x| - w];
  }

  /**
   * The marker region of a task line `ws* - ws [ c ]` (at index `k`): neither
   * literal marker starts before `k + 2`, and the head text does not start
   * inside it unless the mark is the letter `c`.
   */
  lemma MarkerRegion(s: string, k: nat)
    requires k + 5 <= |s| && forall j :: 0 <= j < k ==> IsJsSpace(s[j])
    requires s[k] == '-' && IsJsSpace(s[k + 1]) && s[k + 2] == '[' && s[k + 3] != '[' && s[k + 4] == ']'
    ensures forall j: nat :: j < k + 2 ==> !Occurs(s, OpenMark, j) && !Occurs(s, DoneMark, j)
    ensures s[k + 3] != 'c' ==> forall j :: 0 <= j < k + 5 ==> !Occurs(s, CompletedHead, j)
    ensures s[k + 3] != 'x' ==> forall j: nat :: j < k + 5 ==> !Occurs(s, DoneMark, j)
  {
    NoBracketBefore(s, k);
    forall j: nat | j < k + 2 ensures !Occurs(s, OpenMark, j) && !Occurs(s, DoneMark, j) {
      if j + 3 <= |s| { SliceStart(s, j, 3); }
    }
    forall j: nat | j < k + 5 ensures !Occurs(s, DoneMark, j) || (j == k + 2 && s[k + 3] == 'x') {
      if j + 3 <= |s| { SliceStart(s, j, 3); }
    }
    forall j: nat | j < k + 5 ensures !Occurs(s, CompletedHead, j) || (j == k + 2 && s[k + 3] == 'c') {
      if j + |CompletedHead| <= |s| { SliceStart(s, j, |CompletedHead|); }
    }
  }

  /** In the marker region only index `k + 2` holds a `[`. */
  lemma NoBracketBefore(s: string, k: nat)
    requires k + 5 <= |s| && forall j :: 0 <= j < k ==> IsJsSpace(s[j])
    requires s[k] == '-' && IsJsSpace(s[k + 1]) && s[k + 3] != '[' && s[k + 4] == ']'
    ensures forall j :: 0 <= j < k + 5 && j != k + 2 ==> s[j] != '['
  {
    assert !IsJsSpace('[');
  }

  /** The first two characters of a slice. */
  lemma SliceStart(s: string, j: nat, n: nat)
    requires 2 <= n && j + n <= |s|
    ensures s[j..j + n][0] == s[j] && s[j..j + n][1] == s[j + 1]
  {
  }

  /** Where the parts of `ind + "- " + mark + x` stand. */
  lemma LineLayout(ind: string, mark: string, x: string)
    requires |mark| == 3
    ensures var line := ind + "- " + mark + x;
      var k := |ind|;
      |line| == k + 5 + |x|
      && (forall j :: 0 <= j < k ==> line[j] == ind[j])
      && line[k] == '-' && line[k + 1] == ' '
      && line[k + 2] == mark[0] && line[k + 3] == mark[1] && line[k + 4] == mark[2]
      && line[..k + 2] == ind + "- " && line[k + 2..k + 5] == mark && line[k + 5..] == x
  {
  }

  lemma IndentOf(ind: string, rest: string)
    requires AllSpace(ind) && |rest| > 0 && !IsJsSpace(rest[0])
    ensures Indent(ind + rest) == |ind|
  {
    var s := ind + rest;
    assert s[|ind|] == rest[0];
    assert forall k :: 0 <= k < |ind| ==> s[k] == ind[k];
    SpaceRunIs(s, 0, |ind|);
  }

  /** Agreeing prefixes agree character by character. */
  lemma PrefixChars(r: string, s: string, n: nat)
    requires n <= |r| && n <= |s| && r[..n] == s[..n]
    ensures forall j :: 0 <= j < n ==> r[j] == s[j]
  {
    forall j | 0 <= j < n ensures r[j] == s[j] {
      assert r[..n][j] == s[..n][j];
    }
  }

  /** In a task line `ind- [m]X` the first literal marker `mark` is the one at the marker position. */
  lemma MarkerIsFirst(ind: string, mark: string, x: string)
    requires AllSpace(ind) && (mark == OpenMark || mark == DoneMark)
    ensures FirstOccurrence(ind + "- " + mark + x, mark, |ind| + 2)
  {
    var line := ind + "- " + mark + x;
    LineLayout(ind, mark, x);
    MarkerRegion(line, |ind|);
  }

  /** Swapping the marker of `ind- [m]X` for `rep` touches nothing else. */
  lemma SwapMarker(ind: string, mark: string, rep: string, x: string)
    requires AllSpace(ind) && (mark == OpenMark || mark == DoneMark)
    ensures ReplaceFirst(ind + "- " + mark + x, mark, rep) == ind + "- " + rep + x
  {
    var line := ind + "- " + mark + x;
    MarkerIsFirst(ind, mark, x);
    LineLayout(ind, mark, x);
    assert line[..|ind| + 2] == ind + "- ";
    assert line[|ind| + 2 + |mark|..] == x;
  }

  /** `ind- [ ]X` is an open line and not a done one; `ind- [x]X` is a done line and not an open one. */
  lemma TaskLineKind(ind: string, mark: string, x: string)
    requires AllSpace(ind) && (mark == OpenMark || mark == DoneMark)
    ensures IsOpen(ind + "- " + mark + x) <==> mark == OpenMark
    ensures IsDone(ind + "- " + mark + x) <==> mark == DoneMark
  {
    var line := ind + "- " + mark + x;
    LineLayout(ind, mark, x);
    assert line[|ind|..] == "- " + mark + x;
    IndentOf(ind, "- " + mark + x);
  }

  /** The prefix `ind- [m]` of a task line cannot contribute to the head text. */
  lemma NoHeadInTaskLine(ind: string, mark: string, x: string)
    requires AllSpace(ind) && (mark == OpenMark || mark == DoneMark) && !Contains(x, CompletedHead)
    ensures !Contains(ind + "- " + mark + x, CompletedHead)
  {
    var p := ind + "- " + mark;
    assert forall k :: 0 <= k < |ind| ==> p[k] == ind[k];
    assert p[|ind|] == '-' && p[|ind| + 1] == ' ' && p[|ind| + 2] == '[';
    assert p[|ind| + 3] == mark[1] && p[|ind| + 4] == ']';
    NoHeadAfterPrefix(p, x);
  }

  // ---------------------------------------------------------------------------
  // Properties of the command

  /** A line matching neither pattern is not rewritten, whatever the setting. */
  lemma NotTaskLineUntouched(line: string, appendCompletionDate: bool, today: string)
    requires !IsOpen(line) && !IsDone(line)
    ensures Toggle(line, appendCompletionDate, today) == None
  {
  }

  /**
   * Open with the setting off: only the first literal `[ ]` becomes `[x]`; the
   * line keeps its length and every other character.
   */
  lemma OpenWithoutSetting(line: string, today: string)
    requires IsOpen(line)
    ensures var r := Toggle(line, false, today).value;
      |r| == |line|
      && (!Contains(line, OpenMark) ==> r == line)
      && forall i: nat :: FirstOccurrence(line, OpenMark, i) ==>
           r[..i] == line[..i] && r[i..i + 3] == DoneMark && r[i + 3..] == line[i + 3..]
  {
    ReplaceFirstCounts(line, OpenMark, DoneMark);
  }

  /**
   * Done with the setting off: only the first literal lowercase `[x]` becomes
   * `[ ]`; the line keeps its length and every other character.
   */
  lemma DoneWithoutSetting(line: string, today: string)
    requires IsDone(line)
    ensures var r := Toggle(line, false, today).value;
      |r| == |line|
      && (!Contains(line, DoneMark) ==> r == line)
      && forall i: nat :: FirstOccurrence(line, DoneMark, i) ==>
           r[..i] == line[..i] && r[i..i + 3] == OpenMark && r[i + 3..] == line[i + 3..]
  {
    DoneIsNotOpen(line);
    ReplaceFirstCounts(line, DoneMark, OpenMark);
  }

  /**
   * Open -> done with the setting on: the swapped line, minus its first
   * `completed` annotation and the whitespace before it, then today's stamp.
   */
  lemma OpenToDoneWithSetting(line: string, today: string)
    requires IsOpen(line)
    ensures Toggle(line, true, today)
      == Some(StripCompleted(ReplaceFirst(line, OpenMark, DoneMark)) + CompletionStamp(today))
  {
  }

  /** Changing one character to an `x`, which the head text does not contain, cannot create the head text. */
  lemma NoHeadAfterSettingX(line: string, r: string, q: nat)
    requires |r| == |line| && q < |r| && r[q] == 'x'
    requires forall k :: 0 <= k < |r| && k != q ==> r[k] == line[k]
    requires !Contains(line, CompletedHead)
    ensures !Contains(r, CompletedHead)
  {
    var h := |CompletedHead|;
    assert forall t :: 0 <= t < h ==> CompletedHead[t] != 'x';
    forall j: nat | j + h <= |r| ensures !Occurs(r, CompletedHead, j) {
      if j <= q < j + h {
        assert r[j..j + h][q - j] == r[q];
      } else {
        assert line[j..j + h] == r[j..j + h];
        assert !Occurs(line, CompletedHead, j);
      }
    }
  }

  /** Swapping `[ ]` for `[x]` cannot create the head text. */
  lemma MarkSwapAddsNoHead(line: string)
    requires !Contains(line, CompletedHead)
    ensures !Contains(ReplaceFirst(line, OpenMark, DoneMark), CompletedHead)
  {
    IndexOfFromStart(line, OpenMark);
    if Contains(line, OpenMark) {
      var i := IndexOf(line, OpenMark, 0).value;
      assert FirstOccurrence(line, OpenMark, i);
      SpliceKeepsOutside(line, i);
      NoHeadAfterSettingX(line, ReplaceFirst(line, OpenMark, DoneMark), i + 1);
    }
  }

  /** Writing `[x]` over a `[ ]` changes only the middle character. */
  lemma SpliceKeepsOutside(line: string, i: nat)
    requires Occurs(line, OpenMark, i)
    ensures var r := line[..i] + DoneMark + line[i + 3..];
      |r| == |line| && r[i + 1] == 'x' && forall k :: 0 <= k < |r| && k != i + 1 ==> r[k] == line[k]
  {
    assert line[i] == line[i..i + 3][0] && line[i + 2] == line[i..i + 3][2];
  }

  /**
   * Open -> done with the setting on, for a line with no `completed` text: the
   * result ends with today's stamp and that stamp is its only annotation.
   */
  lemma OpenToDoneStampedOnce(line: string, today: string)
    requires IsOpen(line) && !Contains(line, CompletedHead) && ']' !in today
    ensures var r := Toggle(line, true, today).value;
      CompletedCount(r, 0) == 1
      && FindCompleted(r, 0).Some? && FindCompleted(r, 0).value.1 == |r|
  {
    var marked := ReplaceFirst(line, OpenMark, DoneMark);
    MarkSwapAddsNoHead(line);
    StripWithoutHead(marked);
    StampIsOnlyMatch(marked, today);
  }

  /** Done -> open with the setting on: swap, strip, append nothing; never longer. */
  lemma DoneToOpenWithSetting(line: string, today: string)
    requires IsDone(line)
    ensures var r := Toggle(line, true, today).value;
      r == StripCompleted(ReplaceFirst(line, DoneMark, OpenMark)) && |r| <= |line|
  {
    DoneIsNotOpen(line);
  }

  /** The swap on an open line whose mark is a plain space rewrites exactly that marker. */
  lemma SwapSpaceMark(line: string)
    requires IsOpen(line) && line[Indent(line) + 3] == ' '
    ensures var m := ReplaceFirst(line, OpenMark, DoneMark);
      var k := Indent(line);
      k + 5 <= |m| && m[..k + 5] == line[..k + 2] + DoneMark
      && AllSpace(m[..k]) && DoneMarkerAt(m, k)
      && forall j :: 0 <= j < k + 5 ==> !Occurs(m, CompletedHead, j)
  {
    var k := Indent(line);
    MarkerRegion(line, k);
    assert line[k + 2..k + 5] == OpenMark;
    assert FirstOccurrence(line, OpenMark, k + 2);
    var m := ReplaceFirst(line, OpenMark, DoneMark);
    assert m == line[..k + 2] + DoneMark + line[k + 5..];
    assert m[..k + 5] == line[..k + 2] + DoneMark;
    PrefixChars(m, line, k + 2);
    assert m[k + 2..k + 5] == DoneMark;
    MarkerRegion(m, k);
    assert forall j :: 0 <= j < k ==> m[..k][j] == m[j];
  }

  /** A line that agrees with `s` up to the end of a done marker at `k` is done, and not open. */
  lemma DonePrefixIsDone(s: string, r: string, k: nat)
    requires k + 5 <= |s| && k + 5 <= |r| && r[..k + 5] == s[..k + 5]
    requires AllSpace(s[..k]) && DoneMarkerAt(s, k)
    ensures Indent(r) == k && IsDone(r) && !IsOpen(r)
  {
    PrefixChars(r, s, k + 5);
    assert forall j :: 0 <= j < k ==> s[..k][j] == s[j];
    SpaceRunIs(r, 0, k);
  }

  /** An open line whose mark is a plain space becomes a done line with marker `[x]`. */
  lemma SpaceMarkBecomesDone(line: string, appendCompletionDate: bool, today: string)
    requires IsOpen(line) && line[Indent(line) + 3] == ' '
    ensures var r := Toggle(line, appendCompletionDate, today).value;
      var k := Indent(line);
      k + 5 <= |r| && r[..k + 5] == line[..k + 2] + DoneMark && IsDone(r) && !IsOpen(r)
  {
    var k := Indent(line);
    var marked := ReplaceFirst(line, OpenMark, DoneMark);
    SwapSpaceMark(line);
    assert !IsJsSpace(marked[k + 4]);
    CompleteKeepsMarker(line, appendCompletionDate, today, k);
    DonePrefixIsDone(marked, CompleteLine(line, appendCompletionDate, today), k);
  }

  /** The open branch keeps the first `n` characters of the swapped line when the head text does not start among them. */
  lemma CompleteKeepsMarker(line: string, appendCompletionDate: bool, today: string, k: nat)
    requires var m := ReplaceFirst(line, OpenMark, DoneMark);
      k + 5 <= |m| && !IsJsSpace(m[k + 4]) && forall j :: 0 <= j < k + 5 ==> !Occurs(m, CompletedHead, j)
    ensures var m := ReplaceFirst(line, OpenMark, DoneMark);
      var r := CompleteLine(line, appendCompletionDate, today);
      k + 5 <= |r| && r[..k + 5] == m[..k + 5]
  {
    var marked := ReplaceFirst(line, OpenMark, DoneMark);
    if appendCompletionDate {
      KeepsPrefixAfterStrip(marked, CompletionStamp(today), k + 5);
    }
  }

  /**
   * The tab-marked line `- [\t]` is open, yet it has no literal `[ ]`: with the
   * setting off it is left unchanged, with the setting on it only gains a stamp
   * and stays open, so toggling it never ticks the box.
   */
  lemma TabMarkNotRewritten(today: string)
    ensures IsOpen("- [\t]")
    ensures Toggle("- [\t]", false, today) == Some("- [\t]")
    ensures Toggle("- [\t]", true, today) == Some("- [\t]" + CompletionStamp(today))
    ensures IsOpen("- [\t]" + CompletionStamp(today))
  {
    var line := "- [\t]";
    TabMarkHasNoLiteral();
    StripWithoutHead(line);
    OpenAtStartKeepsOpen(line, CompletionStamp(today));
  }

  /** `- [\t]` is open at its first character, and holds neither `[ ]` nor the head text. */
  lemma TabMarkHasNoLiteral()
    ensures OpenMarkerAt("- [\t]", 0) && IsOpen("- [\t]")
    ensures !Contains("- [\t]", OpenMark) && !Contains("- [\t]", CompletedHead)
  {
    var line := "- [\t]";
    SpaceRunIs(line, 0, 0);
    forall j: nat | j + 3 <= |line| ensures !Occurs(line, OpenMark, j) {
      assert line[j..j + 3][0] == line[j];
      assert line[j..j + 3][1] == line[j + 1];
    }
  }

  /** A line whose open marker starts at its first character stays open whatever follows it. */
  lemma OpenAtStartKeepsOpen(line: string, y: string)
    requires OpenMarkerAt(line, 0)
    ensures IsOpen(line + y)
  {
    var r := line + y;
    assert r[..5] == line[..5];
    assert r[0] == '-';
    SpaceRunIs(r, 0, 0);
  }

  /**
   * A done line with an uppercase `X` keeps its marker: the lowercase-only
   * swap and the annotation strip both act behind it, so it stays done.
   */
  lemma UppercaseDoneKeepsMarker(line: string, appendCompletionDate: bool, today: string)
    requires IsDone(line) && line[Indent(line) + 3] == 'X'
    ensures var r := Toggle(line, appendCompletionDate, today).value;
      var k := Indent(line);
      k + 5 <= |r| && r[..k + 5] == line[..k + 5] && IsDone(r) && !IsOpen(r)
  {
    var k := Indent(line);
    var marked := ReplaceFirst(line, DoneMark, OpenMark);
    DoneIsNotOpen(line);
    SwapBehindUpperMark(line);
    var r := ReopenLine(line, appendCompletionDate);
    if appendCompletionDate {
      KeepsPrefixAfterStrip(marked, [], k + 5);
      assert StripCompleted(marked) + [] == StripCompleted(marked);
    }
    assert r[..k + 5] == marked[..k + 5];
    DonePrefixIsDone(marked, r, k);
  }

  /** On a done line marked `X` the swap acts behind the marker, which stays done. */
  lemma SwapBehindUpperMark(line: string)
    requires IsDone(line) && line[Indent(line) + 3] == 'X'
    ensures var m := ReplaceFirst(line, DoneMark, OpenMark);
      var k := Indent(line);
      k + 5 <= |m| && m[..k + 5] == line[..k + 5]
      && AllSpace(m[..k]) && DoneMarkerAt(m, k)
      && forall j :: 0 <= j < k + 5 ==> !Occurs(m, CompletedHead, j)
  {
    var k := Indent(line);
    MarkerRegion(line, k);
    ReplaceFirstKeepsPrefix(line, DoneMark, OpenMark, k + 5);
    var m := ReplaceFirst(line, DoneMark, OpenMark);
    PrefixChars(m, line, k + 5);
    MarkerRegion(m, k);
    assert forall j :: 0 <= j < k ==> m[..k][j] == m[j];
  }

  /** Stripping, then appending `tail`, keeps a prefix before which no match can start. */
  lemma KeepsPrefixAfterStrip(s: string, tail: string, n: nat)
    requires 0 < n <= |s| && !IsJsSpace(s[n - 1])
    requires forall j :: 0 <= j < n ==> !Occurs(s, CompletedHead, j)
    ensures n <= |StripCompleted(s) + tail| && (StripCompleted(s) + tail)[..n] == s[..n]
  {
    StripKeepsPrefix(s, n);
    var t := StripCompleted(s);
    assert (t + tail)[..n] == t[..n];
  }

  // ---------------------------------------------------------------------------
  // Concrete shapes and round trips

  /** The open branch once the swapped line is known and free of the head text. */
  lemma CompleteKnownLine(line: string, marked: string, today: string)
    requires IsOpen(line) && ReplaceFirst(line, OpenMark, DoneMark) == marked
    requires !Contains(marked, CompletedHead)
    ensures Toggle(line, true, today) == Some(marked + CompletionStamp(today))
    ensures Toggle(line, false, today) == Some(marked)
  {
    StripWithoutHead(marked);
  }

  /** The done branch once the swapped line is known to be a head-free text and a stamp. */
  lemma ReopenKnownLine(line: string, a: string, d: string, today: string)
    requires !IsOpen(line) && IsDone(line) && ReplaceFirst(line, DoneMark, OpenMark) == a + CompletionStamp(d)
    requires !Contains(a, CompletedHead) && ']' !in d
    ensures Toggle(line, true, today) == Some(TrimEnd(a))
  {
    StampIsOnlyMatch(a, d);
  }

  lemma Regroup(p: string, x: string, y: string)
    ensures p + x + y == p + (x + y)
  {
  }

  /** The marker literals written out. */
  lemma MarkerLiterals(ind: string, x: string)
    ensures ind + "- [ ]" + x == ind + "- " + OpenMark + x
    ensures ind + "- [x]" + x == ind + "- " + DoneMark + x
  {
    assert "- [ ]" == "- " + OpenMark;
    assert "- [x]" == "- " + DoneMark;
  }

  /** `ind- [ ]X` becomes `ind- [x]X` followed by today's stamp (or by nothing, setting off). */
  lemma OpenLineToggled(ind: string, x: string, today: string)
    requires AllSpace(ind) && !Contains(x, CompletedHead)
    ensures Toggle(ind + "- [ ]" + x, true, today) == Some(ind + "- [x]" + x + CompletionStamp(today))
    ensures Toggle(ind + "- [ ]" + x, false, today) == Some(ind + "- [x]" + x)
  {
    MarkerLiterals(ind, x);
    TaskLineKind(ind, OpenMark, x);
    SwapMarker(ind, OpenMark, DoneMark, x);
    NoHeadInTaskLine(ind, DoneMark, x);
    CompleteKnownLine(ind + "- " + OpenMark + x, ind + "- " + DoneMark + x, today);
  }

  /**
   * `ind- [x]X` followed by a stamp for any date `d` becomes `ind- [ ]` and `X`
   * without its trailing whitespace, which the `\s*` of the pattern takes too.
   */
  lemma StampedDoneLineToggled(ind: string, x: string, d: string, today: string)
    requires AllSpace(ind) && !Contains(x, CompletedHead) && ']' !in d
    ensures Toggle(ind + "- [x]" + x + CompletionStamp(d), true, today) == Some(ind + "- [ ]" + TrimEnd(x))
  {
    var rest := x + CompletionStamp(d);
    var p := ind + "- " + OpenMark;
    MarkerLiterals(ind, x);
    MarkerLiterals(ind, rest);
    MarkerLiterals(ind, TrimEnd(x));
    Regroup(ind + "- [x]", x, CompletionStamp(d));
    Regroup(p, x, CompletionStamp(d));
    TaskLineKind(ind, DoneMark, rest);
    SwapMarker(ind, DoneMark, OpenMark, rest);
    NoHeadInTaskLine(ind, OpenMark, x);
    ReopenKnownLine(ind + "- " + DoneMark + rest, p + x, d, today);
    assert p[|p| - 1] == ']';
    TrimEndAfter(p, x);
  }

  /** The open branch once the swapped line is known to be a head-free text and a stamp. */
  lemma CompleteStampedKnownLine(line: string, a: string, d: string, today: string)
    requires IsOpen(line) && ReplaceFirst(line, OpenMark, DoneMark) == a + CompletionStamp(d)
    requires !Contains(a, CompletedHead) && ']' !in d
    ensures Toggle(line, true, today) == Some(TrimEnd(a) + CompletionStamp(today))
  {
    StampIsOnlyMatch(a, d);
  }

  /**
   * Refreshing the stamp: `ind- [ ]X` carrying a stamp for any date `d` becomes
   * `ind- [x]` and `X` without its trailing whitespace, followed by today's stamp.
   */
  lemma StampedOpenLineToggled(ind: string, x: string, d: string, today: string)
    requires AllSpace(ind) && !Contains(x, CompletedHead) && ']' !in d
    ensures Toggle(ind + "- [ ]" + x + CompletionStamp(d), true, today)
      == Some(ind + "- [x]" + TrimEnd(x) + CompletionStamp(today))
  {
    var rest := x + CompletionStamp(d);
    var p := ind + "- " + DoneMark;
    MarkerLiterals(ind, x);
    MarkerLiterals(ind, rest);
    MarkerLiterals(ind, TrimEnd(x));
    Regroup(ind + "- [ ]", x, CompletionStamp(d));
    Regroup(p, x, CompletionStamp(d));
    TaskLineKind(ind, OpenMark, rest);
    SwapMarker(ind, OpenMark, DoneMark, rest);
    NoHeadInTaskLine(ind, DoneMark, x);
    CompleteStampedKnownLine(ind + "- " + OpenMark + rest, p + x, d, today);
    assert p[|p| - 1] == ']';
    TrimEndAfter(p, x);
  }

  /** After the refresh the line carries exactly one annotation: the new stamp, at its end. */
  lemma StampedOpenLineStampedOnce(ind: string, x: string, d: string, today: string)
    requires AllSpace(ind) && !Contains(x, CompletedHead) && ']' !in d && ']' !in today
    ensures var r := Toggle(ind + "- [ ]" + x + CompletionStamp(d), true, today);
      r.Some? && CompletedCount(r.value, 0) == 1
      && FindCompleted(r.value, 0).Some? && FindCompleted(r.value, 0).value.1 == |r.value|
  {
    StampedOpenLineToggled(ind, x, d, today);
    NoHeadInPrefix(x, |TrimEnd(x)|);
    MarkerLiterals(ind, TrimEnd(x));
    NoHeadInTaskLine(ind, DoneMark, TrimEnd(x));
    StampIsOnlyMatch(ind + "- [x]" + TrimEnd(x), today);
  }

  /** Open -> done -> open returns the line, up to trailing whitespace of the description. */
  lemma RoundTripFromOpen(ind: string, x: string, today: string, later: string)
    requires AllSpace(ind) && !Contains(x, CompletedHead) && ']' !in today
    ensures var once := Toggle(ind + "- [ ]" + x, true, today);
      once.Some? && Toggle(once.value, true, later) == Some(ind + "- [ ]" + TrimEnd(x))
  {
    OpenLineToggled(ind, x, today);
    StampedDoneLineToggled(ind, x, today, later);
  }

  /** Without trailing whitespace on the description the round trip is exact. */
  lemma RoundTripExact(ind: string, x: string, today: string, later: string)
    requires AllSpace(ind) && !Contains(x, CompletedHead) && ']' !in today
    requires x == [] || !IsJsSpace(x[|x| - 1])
    ensures var once := Toggle(ind + "- [ ]" + x, true, today);
      once.Some? && Toggle(once.value, true, later) == Some(ind + "- [ ]" + x)
  {
    RoundTripFromOpen(ind, x, today, later);
    TrimEndKeeps(x);
  }

  /** Done -> open -> done keeps the description and carries the new date, not the old one. */
  lemma RoundTripFromDone(ind: string, x: string, d: string, today: string)
    requires AllSpace(ind) && !Contains(x, CompletedHead) && ']' !in d
    ensures var once := Toggle(ind + "- [x]" + x + CompletionStamp(d), true, today);
      once.Some? && Toggle(once.value, true, today)
        == Some(ind + "- [x]" + TrimEnd(x) + CompletionStamp(today))
  {
    StampedDoneLineToggled(ind, x, d, today);
    NoHeadInPrefix(x, |TrimEnd(x)|);
    OpenLineToggled(ind, TrimEnd(x), today);
  }

  // ---------------------------------------------------------------------------
  // Text holding the head can be spliced into a second annotation

  /** The head text starts with `[c`, so it cannot start where that pair is missing. */
  lemma NotHeadAt(s: string, j: nat)
    requires j + 1 < |s| ==> s[j] != '[' || s[j + 1] != 'c'
    ensures !Occurs(s, CompletedHead, j)
  {
    if j + |CompletedHead| <= |s| {
      assert s[j..j + |CompletedHead|][0] == s[j] && s[j..j + |CompletedHead|][1] == s[j + 1];
    }
  }

  /** Where the parts of `p + CompletedHead + "z]" + CompletionStamp("d") + "]]"` stand, for a five-character marker `p`. */
  lemma SpliceLayout(p: string, rest: string, s: string)
    requires |p| == 5 && rest == CompletedHead + "z]" + CompletionStamp("d") + "]]" && s == p + rest
    ensures |s| == 44 && s[..5] == p && s[5..] == rest
    ensures s[5..20] == CompletedHead && s[20] == 'z' && s[21] == ']' && s[22] == ' '
    ensures s[23..38] == CompletedHead && s[38] == 'd' && s[39..42] == CompletedTail
    ensures s[..22] == p + CompletedHead + "z]" && s[42..] == "]]"
  {
    assert rest[18..33] == CompletedHead;
  }

  /** Behind the marker `p`, the head text cannot start before index 22 except at 5. */
  lemma NoHeadNearFirst(p: string, s: string, j: nat)
    requires p == "- [ ]" || p == "- [x]"
    requires |s| > 21 && s[..5] == p && s[5..20] == CompletedHead && s[20] == 'z' && s[21] == ']'
    requires j <= 21 && j != 5
    ensures !Occurs(s, CompletedHead, j)
  {
    assert forall d :: 0 <= d < |CompletedHead| && CompletedHead[d] == 'c' ==> d == 1;
    if j < 5 {
      assert s[j] == p[j];
      if j < 4 {
        assert s[j + 1] == p[j + 1];
      }
    } else if j < 19 {
      assert s[j + 1] == s[5..20][j - 4];
    }
    NotHeadAt(s, j);
  }

  /** In such a line no match starts before index 22: the head at 5 is not closed by `]]]`. */
  lemma SpliceNoEarlyMatch(p: string, s: string, k: nat)
    requires p == "- [ ]" || p == "- [x]"
    requires |s| > 22 && s[..5] == p && s[5..20] == CompletedHead && s[20] == 'z' && s[21] == ']'
    requires s[22] == ' ' && k < 22
    ensures CompletedMatchAt(s, k).None?
  {
    var j := k + SpaceRun(s, k);
    assert j <= 21;
    if j == 5 {
      NonBracketRunIs(s, 20, 1);
    } else {
      NoHeadNearFirst(p, s, j);
    }
  }

  /** The leftmost match in such a line is the stamp with its leading space, at 22..42. */
  lemma SpliceFirstMatch(p: string, s: string)
    requires p == "- [ ]" || p == "- [x]"
    requires |s| == 44 && s[..5] == p && s[5..20] == CompletedHead && s[20] == 'z' && s[21] == ']'
    requires s[22] == ' ' && s[23..38] == CompletedHead && s[38] == 'd' && s[39..42] == CompletedTail
    ensures FirstCompletedMatch(s, 22, 42)
  {
    forall k | 0 <= k < 22 ensures CompletedMatchAt(s, k).None? {
      SpliceNoEarlyMatch(p, s, k);
    }
    assert CompletedShape(s, 22, 23, 39);
    CompletedShapeDetermined(s, 22, 23, 39);
  }

  /** Two matches, the second running to the end: the global search counts two. */
  lemma CountTwo(s: string, i: nat, e: nat)
    requires e <= |s|
    requires FindCompleted(s, 0) == Some((i, e)) && CompletedMatchAt(s, e) == Some(|s|)
    ensures CompletedCount(s, 0) == 2
  {
    assert CompletedMatchAt(s, |s|).None?;
    assert CompletedCount(s, |s|) == 0;
    assert FindCompleted(s, e) == Some((e, |s|));
    assert CompletedCount(s, e) == 1;
  }

  /** The line holds one match, and stripping it joins `z]` to the trailing `]]`. */
  lemma SpliceLineMatch(p: string, s: string)
    requires p == "- [ ]" || p == "- [x]"
    requires |s| == 44 && s[..5] == p && s[5..20] == CompletedHead && s[20] == 'z' && s[21] == ']'
    requires s[22] == ' ' && s[23..38] == CompletedHead && s[38] == 'd' && s[39..42] == CompletedTail
    requires s[..22] == p + CompletedHead + "z]" && s[42..] == "]]"
    ensures StripCompleted(s) == p + CompletedHead + "z]]]"
    ensures CompletedCount(s, 0) == 1
  {
    SpliceFirstMatch(p, s);
    FindFirstMatch(s, 22, 42);
    assert FindCompleted(s, 42).None?;
    assert s[..22] + s[42..] == p + CompletedHead + "z]]]";
  }

  /** Where the parts of `- [x][completed:: [[z]]]` stand. */
  lemma SplicedLayout(a: string)
    requires a == "- [x]" + CompletedHead + "z]]]"
    ensures |a| == 24 && a[..5] == "- [x]" && a[5..20] == CompletedHead && a[20] == 'z'
    ensures a[21..24] == CompletedTail && a[23] == ']'
  {
  }

  /** Behind `- [x]`, the head at 5 closed by `]]]` at 21 is the leftmost match. */
  lemma SplicedFirstMatch(a: string, n: string)
    requires |a| == 24 && a[..5] == "- [x]" && a[5..20] == CompletedHead && a[20] == 'z'
    requires a[21..24] == CompletedTail && |n| >= 24 && n[..24] == a
    ensures FirstCompletedMatch(n, 5, 24)
  {
    assert n[5..20] == CompletedHead && n[20] == 'z' && n[21..24] == CompletedTail by {
      assert n[5..20] == a[5..20] && n[21..24] == a[21..24];
    }
    assert CompletedShape(n, 5, 5, 21);
    CompletedShapeDetermined(n, 5, 5, 21);
    forall j | 0 <= j < 5 ensures !Occurs(n, CompletedHead, j) {
      assert n[j] == a[..5][j];
      if j < 4 {
        assert n[j + 1] == a[..5][j + 1];
      }
      NotHeadAt(n, j);
    }
    assert n[4] == a[..5][4];
    NoMatchBefore(n, 5);
  }

  /** A line laid out as `- [x][completed:: [[z]]]`, followed by a stamp, holds two matches. */
  lemma SplicedLineCount(a: string, t: string, n: string)
    requires |a| == 24 && a[..5] == "- [x]" && a[5..20] == CompletedHead && a[20] == 'z'
    requires a[21..24] == CompletedTail && a[23] == ']'
    requires ']' !in t && n == a + CompletionStamp(t)
    ensures CompletedCount(n, 0) == 2
  {
    StampLayout(a, t);
    TrimEndKeeps(a);
    StampMatchesAtTrailingSpace(a, t, n, 24);
    SplicedFirstMatch(a, n);
    FindFirstMatch(n, 5, 24);
    CountTwo(n, 5, 24);
  }

  /** Ticking `- [ ]` in front of `rest` writes `- [x]` in its place. */
  lemma SpliceMarkSwap(rest: string)
    ensures ReplaceFirst("- [ ]" + rest, OpenMark, DoneMark) == "- [x]" + rest
  {
    var line := "- [ ]" + rest;
    assert line[..5] == "- [ ]";
    assert line[2..5] == line[..5][2..5] == OpenMark;
    assert !Occurs(line, OpenMark, 0) && !Occurs(line, OpenMark, 1) by {
      assert line[0..3][0] == line[0] && line[1..4][0] == line[1];
    }
    assert FirstOccurrence(line, OpenMark, 2);
    assert line[..2] + DoneMark + line[5..] == "- [x]" + rest;
  }

  /** A line starting with `- [ ]` is open. */
  lemma OpenMarkFirst(rest: string)
    ensures IsOpen("- [ ]" + rest)
  {
    var line := "- [ ]" + rest;
    assert line[..5] == "- [ ]";
    SpaceRunIs(line, 0, 0);
  }

  /** Completing a line that starts with `- [ ]`, given what stripping its ticked form leaves. */
  lemma CompleteAfterMark(rest: string, stripped: string, t: string)
    requires StripCompleted("- [x]" + rest) == stripped
    ensures Toggle("- [ ]" + rest, true, t) == Some(stripped + CompletionStamp(t))
  {
    OpenMarkFirst(rest);
    SpliceMarkSwap(rest);
  }

  /**
   * Completing does not always leave one annotation: in
   * `- [ ][completed:: [[z] [completed:: [[d]]]]]`, which holds one match, deleting
   * the stamp joins `z]` and the trailing `]]` into a second one, beside the new stamp.
   */
  lemma SpliceMakesTwo(t: string)
    requires ']' !in t
    ensures var line := "- [ ]" + CompletedHead + "z]" + CompletionStamp("d") + "]]";
      IsOpen(line) && CompletedCount(line, 0) == 1
      && var r := Toggle(line, true, t); r.Some? && CompletedCount(r.value, 0) == 2
  {
    var rest := CompletedHead + "z]" + CompletionStamp("d") + "]]";
    var a := "- [x]" + CompletedHead + "z]]]";
    assert "- [ ]" + rest == "- [ ]" + CompletedHead + "z]" + CompletionStamp("d") + "]]";
    assert "- [x]" + rest == "- [x]" + CompletedHead + "z]" + CompletionStamp("d") + "]]";
    OpenMarkFirst(rest);
    SpliceLayout("- [ ]", rest, "- [ ]" + rest);
    SpliceLineMatch("- [ ]", "- [ ]" + rest);
    SpliceLayout("- [x]", rest, "- [x]" + rest);
    SpliceLineMatch("- [x]", "- [x]" + rest);
    CompleteAfterMark(rest, a, t);
    SplicedLayout(a);
    SplicedLineCount(a, t, a + CompletionStamp(t));
  }
}
