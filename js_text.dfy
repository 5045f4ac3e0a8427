/**
 * The JavaScript string primitives the extension calls, written out over
 * `string` (a sequence of characters): the `\s` character class (which `trim`
 * also uses), `includes` for a literal pattern, `replace` with a literal pattern
 * (first occurrence only) and `trim`. Two helpers of the model serve them:
 * `IndexOf` is the leftmost-occurrence search that `includes` and `replace`
 * perform, and `TrimEnd` describes the trailing whitespace that the `\s*` of the
 * `completed` pattern consumes; the extension calls neither directly.
 */
module JsText {
  import opened Wrappers

  /** JavaScript's `\s`: the ECMAScript WhiteSpace and LineTerminator characters. */
  predicate IsJsSpace(c: char) {
    var n := c as int;
    (9 <= n <= 13) || n == 32 || n == 0xA0 || n == 0x1680 || (0x2000 <= n <= 0x200A)
    || n == 0x2028 || n == 0x2029 || n == 0x202F || n == 0x205F || n == 0x3000 || n == 0xFEFF
  }

  predicate AllSpace(s: string) {
    forall k :: 0 <= k < |s| ==> IsJsSpace(s[k])
  }

  /** Neither end of `s` is whitespace: what `trim` leaves behind. */
  predicate Trimmed(s: string) {
    s == [] || (!IsJsSpace(s[0]) && !IsJsSpace(s[|s| - 1]))
  }

  /** Length of the maximal run of whitespace that starts at index `i`. */
  function SpaceRun(s: string, i: nat): (n: nat)
    requires i <= |s|
    ensures i + n <= |s|
    ensures forall k :: i <= k < i + n ==> IsJsSpace(s[k])
    ensures i + n == |s| || !IsJsSpace(s[i + n])
    decreases |s| - i
  {
    if i == |s| || !IsJsSpace(s[i]) then 0 else 1 + SpaceRun(s, i + 1)
  }

  /** Length of the maximal run of whitespace that ends just before index `j`. */
  function SpaceRunBefore(s: string, j: nat): (n: nat)
    requires j <= |s|
    ensures n <= j
    ensures forall k :: j - n <= k < j ==> IsJsSpace(s[k])
    ensures n == j || !IsJsSpace(s[j - n - 1])
  {
    if j == 0 || !IsJsSpace(s[j - 1]) then 0 else 1 + SpaceRunBefore(s, j - 1)
  }

  /** A whitespace run is determined by where it stops. */
  lemma SpaceRunIs(s: string, i: nat, n: nat)
    requires i + n <= |s|
    requires forall k :: i <= k < i + n ==> IsJsSpace(s[k])
    requires i + n == |s| || !IsJsSpace(s[i + n])
    ensures SpaceRun(s, i) == n
  {
  }

  lemma SpaceRunBeforeIs(s: string, j: nat, n: nat)
    requires n <= j <= |s|
    requires forall k :: j - n <= k < j ==> IsJsSpace(s[k])
    requires n == j || !IsJsSpace(s[j - n - 1])
    ensures SpaceRunBefore(s, j) == n
  {
  }

  /** `pat` occurs in `s` starting at index `i`. */
  predicate Occurs(s: string, pat: string, i: nat) {
    i + |pat| <= |s| && s[i..i + |pat|] == pat
  }

  /** `i` is the leftmost occurrence of `pat` in `s`. */
  predicate FirstOccurrence(s: string, pat: string, i: nat) {
    Occurs(s, pat, i) && forall k :: 0 <= k < i ==> !Occurs(s, pat, k)
  }

  /** JavaScript `s.includes(pat)`. */
  predicate Contains(s: string, pat: string) {
    exists i :: 0 <= i <= |s| && Occurs(s, pat, i)
  }

  /** The leftmost occurrence of `pat` at or after `from`: the search behind `includes` and `replace`. */
  function IndexOf(s: string, pat: string, from: nat): (r: Option<nat>)
    requires from <= |s|
    ensures r.Some? ==> from <= r.value <= |s| && Occurs(s, pat, r.value)
    ensures r.Some? ==> forall k :: from <= k < r.value ==> !Occurs(s, pat, k)
    ensures r.None? ==> forall k :: from <= k <= |s| ==> !Occurs(s, pat, k)
    decreases |s| - from
  {
    if Occurs(s, pat, from) then Some(from)
    else if from == |s| then None
    else IndexOf(s, pat, from + 1)
  }

  lemma IndexOfFromStart(s: string, pat: string)
    ensures IndexOf(s, pat, 0).None? <==> !Contains(s, pat)
    ensures IndexOf(s, pat, 0).Some? ==> FirstOccurrence(s, pat, IndexOf(s, pat, 0).value)
  {
    var r := IndexOf(s, pat, 0);
    if r.Some? {
      assert Occurs(s, pat, r.value);
    }
  }

  /** A one-character pattern occurs exactly where that character stands. */
  lemma OccursChar(s: string, c: char, i: nat)
    ensures Occurs(s, [c], i) <==> i < |s| && s[i] == c
  {
    if i < |s| && s[i] == c {
      assert s[i..i + 1] == [c];
    }
    if Occurs(s, [c], i) {
      assert s[i..i + 1][0] == s[i];
    }
  }

  lemma ContainsChar(s: string, c: char)
    ensures Contains(s, [c]) <==> c in s
  {
    if c in s {
      var i :| 0 <= i < |s| && s[i] == c;
      OccursChar(s, c, i);
    }
    if Contains(s, [c]) {
      var i :| 0 <= i <= |s| && Occurs(s, [c], i);
      OccursChar(s, c, i);
    }
  }

  /** Replacing a single character whose first occurrence is at `i`. */
  lemma ReplaceCharAt(s: string, c: char, rep: string, i: nat)
    requires i < |s| && s[i] == c && forall k :: 0 <= k < i ==> s[k] != c
    ensures ReplaceFirst(s, [c], rep) == s[..i] + rep + s[i + 1..]
  {
    OccursChar(s, c, i);
    forall k | 0 <= k < i ensures !Occurs(s, [c], k) {
      OccursChar(s, c, k);
    }
    assert FirstOccurrence(s, [c], i);
  }

  /**
   * JavaScript `s.replace(pat, rep)` with a string pattern and a replacement
   * without `$` (JavaScript expands `$&`, `$$` and the like in `rep`; every
   * replacement the extension passes is free of `$`): only the leftmost
   * occurrence of `pat` is replaced; without one, `s` is returned unchanged.
   */
  function ReplaceFirst(s: string, pat: string, rep: string): (r: string)
    ensures !Contains(s, pat) ==> r == s
    ensures forall i: nat :: FirstOccurrence(s, pat, i) ==> r == s[..i] + rep + s[i + |pat|..]
  {
    IndexOfFromStart(s, pat);
    match IndexOf(s, pat, 0)
    case None =>
      assert forall i: nat :: !FirstOccurrence(s, pat, i);
      s
    case Some(i) =>
      assert forall j: nat :: FirstOccurrence(s, pat, j) ==> j == i;
      s[..i] + rep + s[i + |pat|..]
  }

  /** `replace` trades the length of one `pat` for the length of one `rep`. */
  lemma ReplaceFirstLength(s: string, pat: string, rep: string)
    ensures |ReplaceFirst(s, pat, rep)| == if Contains(s, pat) then |s| - |pat| + |rep| else |s|
  {
    IndexOfFromStart(s, pat);
  }

  /** What `replace` does to the characters: one copy of `pat` traded for one of `rep`. */
  lemma ReplaceFirstCounts(s: string, pat: string, rep: string)
    ensures Contains(s, pat) ==>
      multiset(ReplaceFirst(s, pat, rep)) == multiset(s) - multiset(pat) + multiset(rep)
    ensures !Contains(s, pat) ==> ReplaceFirst(s, pat, rep) == s
  {
    IndexOfFromStart(s, pat);
    if Contains(s, pat) {
      var i := IndexOf(s, pat, 0).value;
      assert FirstOccurrence(s, pat, i);
      SpliceCounts(s[..i], pat, rep, s[i + |pat|..]);
      assert s == s[..i] + pat + s[i + |pat|..];
    }
  }

  lemma SpliceCounts(before: string, pat: string, rep: string, after: string)
    ensures multiset(before + rep + after)
      == multiset(before + pat + after) - multiset(pat) + multiset(rep)
  {
    calc {
      multiset(before + rep + after);
      multiset(before) + multiset(rep) + multiset(after);
      multiset(before) + multiset(pat) + multiset(after) - multiset(pat) + multiset(rep);
      { assert before + pat + after == before + (pat + after); }
      multiset(before + pat + after) - multiset(pat) + multiset(rep);
    }
  }

  /** When `pat` does not occur before `p`, `replace` leaves the first `p` characters alone. */
  lemma ReplaceFirstKeepsPrefix(s: string, pat: string, rep: string, p: nat)
    requires p <= |s|
    requires forall k :: 0 <= k < p ==> !Occurs(s, pat, k)
    ensures p <= |ReplaceFirst(s, pat, rep)| && ReplaceFirst(s, pat, rep)[..p] == s[..p]
  {
    IndexOfFromStart(s, pat);
    if Contains(s, pat) {
      var i := IndexOf(s, pat, 0).value;
    }
  }

  /** JavaScript `s.trim()`. */
  function Trim(s: string): (r: string)
    ensures Trimmed(r)
    ensures SpaceRun(s, 0) + |r| <= |s|
    ensures r == s[SpaceRun(s, 0)..SpaceRun(s, 0) + |r|]
    ensures AllSpace(s[..SpaceRun(s, 0)]) && AllSpace(s[SpaceRun(s, 0) + |r|..])
  {
    var a := SpaceRun(s, 0);
    if a == |s| then
      assert AllSpace(s[..a]);
      []
    else
      var b := |s| - SpaceRunBefore(s, |s|);
      assert a < b;
      assert AllSpace(s[..a]);
      assert AllSpace(s[b..]);
      s[a..b]
  }

  /** `s` without its trailing whitespace (what `trimEnd` returns): a helper for the `\s*` of a pattern. */
  function TrimEnd(s: string): (r: string)
    ensures r == [] || !IsJsSpace(r[|r| - 1])
    ensures |r| <= |s| && r == s[..|r|] && AllSpace(s[|r|..])
  {
    var b := |s| - SpaceRunBefore(s, |s|);
    assert AllSpace(s[b..]);
    s[..b]
  }

  /** `trimEnd` leaves a text that does not end in whitespace as it is. */
  lemma TrimEndKeeps(s: string)
    requires s == [] || !IsJsSpace(s[|s| - 1])
    ensures TrimEnd(s) == s
  {
    SpaceRunBeforeIs(s, |s|, 0);
  }

  /**
   * `trim` is characterised by the decomposition it finds: whenever `s` is a
   * trimmed middle part between two whitespace runs, `trim` returns that part.
   */
  lemma TrimOfPadded(p: string, m: string, q: string)
    requires AllSpace(p) && AllSpace(q) && Trimmed(m)
    ensures Trim(p + m + q) == m
  {
    var s := p + m + q;
    if m == [] {
      assert AllSpace(s) by {
        forall k | 0 <= k < |s| ensures IsJsSpace(s[k]) {
          if k < |p| { assert s[k] == p[k]; } else { assert s[k] == q[k - |p|]; }
        }
      }
      SpaceRunIs(s, 0, |s|);
    } else {
      assert s[|p|] == m[0];
      assert forall k :: 0 <= k < |p| ==> s[k] == p[k];
      SpaceRunIs(s, 0, |p|);
      assert s[|p| + |m| - 1] == m[|m| - 1];
      assert forall k :: |p| + |m| <= k < |s| ==> s[k] == q[k - |p| - |m|];
      SpaceRunBeforeIs(s, |s|, |q|);
      assert s[|p|..|p| + |m|] == m;
    }
  }

  lemma TrimIdempotent(s: string)
    ensures Trim(Trim(s)) == Trim(s)
  {
    TrimOfPadded([], Trim(s), []);
    assert [] + Trim(s) + [] == Trim(s);
  }
}
