/**
 * The rewrite applied to the body of `/vite/hmr`: every call
 * `__VUE_HMR_RUNTIME__.rerender(path, <args>)` becomes
 * `__VUE_HMR_RUNTIME__.rerender(path, m)`, as the global replacement with
 * `/__VUE_HMR_RUNTIME__\.rerender\(path, (.+)\)/g` does. Because `.+` is
 * greedy and does not match a line terminator, a match runs from the call
 * to the last `)` on its line, and at least one character must lie between
 * `path, ` and that `)`. The replacement contains no `$` pattern, so it is
 * inserted literally.
 */
module HmrRewrite {
  import opened JsText

  /** The literal part of the pattern: `__VUE_HMR_RUNTIME__.rerender(path, `. */
  const Call: string := "__VUE_HMR_RUNTIME__.rerender(path, "

  const Replacement: string := "__VUE_HMR_RUNTIME__.rerender(path, m)"

  /** s starts with the literal text pat. The functions below take the
      pattern's literal part and the replacement as parameters; the rewrite
      itself fixes them to Call and Replacement. */
  predicate CallAt(s: string, pat: string) {
    |pat| <= |s| && s[..|pat|] == pat
  }

  /** No line terminator in s. */
  predicate IsLine(s: string) {
    forall k :: 0 <= k < |s| ==> !IsLineTerminator(s[k])
  }

  /** No line terminator in s[lo..hi]. */
  ghost predicate SameLine(s: string, lo: int, hi: int)
    requires 0 <= lo <= hi <= |s|
  {
    forall k :: lo <= k < hi ==> !IsLineTerminator(s[k])
  }

  /** The pattern matches s[..n]: the literal part, at least one character,
      and a `)`, all on one line. */
  ghost predicate MatchesPrefix(s: string, pat: string, n: int) {
    && CallAt(s, pat)
    && |pat| + 2 <= n <= |s|
    && SameLine(s, |pat|, n)
    && s[n - 1] == ')'
  }

  /** The first line terminator at or after i, or the end of the text. */
  function LineEnd(s: string, i: nat): (e: nat)
    requires i <= |s|
    ensures i <= e <= |s| && SameLine(s, i, e)
    ensures e < |s| ==> IsLineTerminator(s[e])
    decreases |s| - i
  {
    if i == |s| || IsLineTerminator(s[i]) then i else LineEnd(s, i + 1)
  }

  /** The last `)` in [lo, hi): where greedy `.+` followed by `\)` stops. */
  function LastClose(s: string, lo: nat, hi: nat): (r: Option<nat>)
    requires lo <= hi <= |s|
    ensures r.Some? ==> lo <= r.value < hi && s[r.value] == ')'
    ensures r.Some? ==> forall k :: r.value < k < hi ==> s[k] != ')'
    ensures r.None? ==> forall k :: lo <= k < hi ==> s[k] != ')'
    decreases hi - lo
  {
    if hi == lo then None
    else if s[hi - 1] == ')' then Some(hi - 1)
    else LastClose(s, lo, hi - 1)
  }

  /** The length of the match at the start of s, if there is one: the
      backtracking matcher tries the longest `.+` first, so the match ends
      at the last `)` of the line; no match when there is none. */
  function MatchLength(s: string, pat: string): (r: Option<nat>)
    ensures r.Some? ==> MatchesPrefix(s, pat, r.value)
    ensures r.Some? ==> forall n :: r.value < n <= |s| ==> !MatchesPrefix(s, pat, n)
    ensures r.None? ==> forall n :: !MatchesPrefix(s, pat, n)
  {
    if CallAt(s, pat) then
      var a := |pat|;
      var e := LineEnd(s, a);
      if e <= a then None
      else match LastClose(s, a + 1, e)
        case Some(j) => Some(j + 1)
        case None => None
    else None
  }

  /** The global replacement: at each position, a match is replaced and the
      scan resumes after it; otherwise one character is copied. The pattern
      has no anchors or look-behind, so a match at a position depends only
      on the text from there on. */
  function ReplaceAll(s: string, pat: string, repl: string): string
    decreases |s|
  {
    if |s| == 0 then ""
    else match MatchLength(s, pat)
      case Some(n) => repl + ReplaceAll(s[n..], pat, repl)
      case None => [s[0]] + ReplaceAll(s[1..], pat, repl)
  }

  /** `body.replace(/__VUE_HMR_RUNTIME__\.rerender\(path, (.+)\)/g, ...)`. */
  function RewriteHmrBody(body: string): string {
    ReplaceAll(body, Call, Replacement)
  }

  // ---------------------------------------------------------------------
  // Properties, for any literal part that is a non-empty piece of a line.

  /** A match starts at the beginning of s. */
  ghost predicate Qualifies(s: string, pat: string) {
    exists n :: MatchesPrefix(s, pat, n)
  }

  lemma CallIsLine()
    ensures |Call| > 0 && IsLine(Call)
  {
  }

  /** Where no match starts, the text is copied. */
  lemma {:induction false} NoMatchCopies(s: string, pat: string, repl: string)
    requires forall i :: 0 <= i <= |s| ==> !Qualifies(s[i..], pat)
    ensures ReplaceAll(s, pat, repl) == s
    decreases |s|
  {
    if |s| > 0 {
      assert s[0..] == s;
      assert !Qualifies(s, pat);
      forall i | 0 <= i <= |s[1..]| ensures !Qualifies(s[1..][i..], pat) {
        assert s[1..][i..] == s[i + 1..];
      }
      NoMatchCopies(s[1..], pat, repl);
    }
  }

  /** Two texts with the same matches at their start have the same match
      length: MatchLength is determined by its contract. */
  lemma MatchLengthDetermined(s1: string, s2: string, pat: string)
    requires forall n :: MatchesPrefix(s1, pat, n) <==> MatchesPrefix(s2, pat, n)
    ensures MatchLength(s1, pat) == MatchLength(s2, pat)
  {
    var r1, r2 := MatchLength(s1, pat), MatchLength(s2, pat);
    assert r1.Some? ==> MatchesPrefix(s2, pat, r1.value);
    assert r2.Some? ==> MatchesPrefix(s1, pat, r2.value);
  }

  /** A match at the start cannot run past a line terminator. */
  lemma MatchStopsAtTerminator(a: string, t: char, b: string, pat: string)
    requires IsLine(pat) && IsLineTerminator(t)
    ensures MatchLength(a + [t] + b, pat) == MatchLength(a, pat)
  {
    var s := a + [t] + b;
    assert s[|a|] == t;
    forall n ensures MatchesPrefix(s, pat, n) <==> MatchesPrefix(a, pat, n) {
      if MatchesPrefix(s, pat, n) {
        assert s[..|pat|] == a[..|pat|];
        assert a[n - 1] == s[n - 1];
        assert SameLine(a, |pat|, n) by {
          forall k | |pat| <= k < n ensures !IsLineTerminator(a[k]) {
            assert a[k] == s[k];
          }
        }
      }
      if MatchesPrefix(a, pat, n) {
        assert s[..|pat|] == a[..|pat|];
        assert a[n - 1] == s[n - 1];
        assert SameLine(s, |pat|, n) by {
          forall k | |pat| <= k < n ensures !IsLineTerminator(s[k]) {
            assert a[k] == s[k];
          }
        }
      }
    }
    MatchLengthDetermined(s, a, pat);
  }

  /** A line terminator never starts a match. */
  lemma TerminatorStartsNoMatch(t: char, b: string, pat: string)
    requires |pat| > 0 && IsLine(pat) && IsLineTerminator(t)
    ensures MatchLength([t] + b, pat).None?
  {
    var s := [t] + b;
    if |pat| <= |s| {
      assert s[..|pat|][0] == t;
    }
  }

  /** Matches never cross lines: the rewrite of a text split at a line
      terminator is the rewrite of each side. */
  lemma {:induction false} ReplaceLineByLine(a: string, t: char, b: string, pat: string, repl: string)
    requires |pat| > 0 && IsLine(pat) && IsLineTerminator(t)
    ensures ReplaceAll(a + [t] + b, pat, repl) == ReplaceAll(a, pat, repl) + [t] + ReplaceAll(b, pat, repl)
    decreases |a|
  {
    var s := a + [t] + b;
    if |a| == 0 {
      assert s == [t] + b;
      TerminatorStartsNoMatch(t, b, pat);
      assert s[1..] == b;
    } else {
      MatchStopsAtTerminator(a, t, b, pat);
      match MatchLength(a, pat)
      case Some(n) =>
        var rest := a[n..];
        assert s[n..] == rest + [t] + b;
        ReplaceLineByLine(rest, t, b, pat, repl);
        ReplaceTaken(a, pat, repl, n);
        ReplaceTaken(s, pat, repl, n);
        Regroup(repl, ReplaceAll(rest, pat, repl), t, ReplaceAll(b, pat, repl));
      case None =>
        var rest := a[1..];
        assert s[1..] == rest + [t] + b;
        assert s[0] == a[0];
        ReplaceLineByLine(rest, t, b, pat, repl);
        ReplaceKept(a, pat, repl);
        ReplaceKept(s, pat, repl);
        Regroup([a[0]], ReplaceAll(rest, pat, repl), t, ReplaceAll(b, pat, repl));
    }
  }

  lemma ReplaceTaken(s: string, pat: string, repl: string, n: nat)
    requires |s| > 0 && MatchLength(s, pat) == Some(n)
    ensures ReplaceAll(s, pat, repl) == repl + ReplaceAll(s[n..], pat, repl)
  {
  }

  lemma ReplaceKept(s: string, pat: string, repl: string)
    requires |s| > 0 && MatchLength(s, pat).None?
    ensures ReplaceAll(s, pat, repl) == [s[0]] + ReplaceAll(s[1..], pat, repl)
  {
  }

  lemma Regroup(h: string, x: string, t: char, y: string)
    ensures h + (x + [t] + y) == (h + x) + [t] + y
  {
  }

  /** A match never crosses a line: rewriting a body split at a line
      terminator rewrites each side on its own. */
  lemma RewriteLineByLine(a: string, t: char, b: string)
    requires IsLineTerminator(t)
    ensures RewriteHmrBody(a + [t] + b) == RewriteHmrBody(a) + [t] + RewriteHmrBody(b)
  {
    CallIsLine();
    ReplaceLineByLine(a, t, b, Call, Replacement);
  }

  /** A body without the rerender call is left as it is. */
  lemma RewriteWithoutCall(body: string)
    requires forall i :: 0 <= i <= |body| ==> !CallAt(body[i..], Call)
    ensures RewriteHmrBody(body) == body
  {
    NoMatchCopies(body, Call, Replacement);
  }

  // ---------------------------------------------------------------------
  // Within one line.

  /** The first match of the line starts at i. */
  ghost predicate FirstMatchAt(line: string, pat: string, i: int) {
    && 0 <= i <= |line|
    && Qualifies(line[i..], pat)
    && forall i' :: 0 <= i' < i ==> !Qualifies(line[i'..], pat)
  }

  /** The last `)` of the line is at j. */
  ghost predicate LastCloseAt(line: string, j: int) {
    0 <= j < |line| && line[j] == ')' && forall k :: j < k < |line| ==> line[k] != ')'
  }

  /** A match at the start of a line runs to the last `)` of the line. */
  lemma MatchToLastClose(line: string, pat: string, j: int)
    requires IsLine(line) && Qualifies(line, pat) && LastCloseAt(line, j)
    ensures MatchLength(line, pat) == Some(j + 1)
  {
    var n0 :| MatchesPrefix(line, pat, n0);
    assert MatchesPrefix(line, pat, j + 1);
  }

  /** A text without `)` holds no match. */
  lemma NoCloseCopies(s: string, pat: string, repl: string)
    requires forall k :: 0 <= k < |s| ==> s[k] != ')'
    ensures ReplaceAll(s, pat, repl) == s
  {
    assert forall i :: 0 <= i <= |s| ==> !Qualifies(s[i..], pat);
    NoMatchCopies(s, pat, repl);
  }

  /** A line that opens with a match: the match is replaced and the rest of
      the line, free of `)`, is copied. */
  lemma ReplaceLineOpening(line: string, pat: string, repl: string, j: int)
    requires IsLine(line) && Qualifies(line, pat) && LastCloseAt(line, j)
    ensures ReplaceAll(line, pat, repl) == repl + line[j + 1..]
  {
    MatchToLastClose(line, pat, j);
    NoCloseCopies(line[j + 1..], pat, repl);
  }

  /** Dropping the first character of a line shifts its first match and its
      last `)` by one. */
  lemma ShiftLine(line: string, pat: string, i: int, j: int)
    requires FirstMatchAt(line, pat, i) && LastCloseAt(line, j) && i > 0
    ensures i < j
    ensures FirstMatchAt(line[1..], pat, i - 1) && LastCloseAt(line[1..], j - 1)
  {
    var rest := line[1..];
    var n0 :| MatchesPrefix(line[i..], pat, n0);
    assert line[i..][n0 - 1] == line[i + n0 - 1];
    assert rest[i - 1..] == line[i..];
    forall i' | 0 <= i' < i - 1 ensures !Qualifies(rest[i'..], pat) {
      assert rest[i'..] == line[i' + 1..];
    }
  }

  /** Where no match starts, one character is copied. */
  lemma ReplaceSkip(s: string, pat: string, repl: string)
    requires |s| > 0 && !Qualifies(s, pat)
    ensures ReplaceAll(s, pat, repl) == [s[0]] + ReplaceAll(s[1..], pat, repl)
  {
  }

  /** On a line, the rewrite replaces the text from the first match to the
      last `)` and keeps the rest. */
  lemma {:induction false} ReplaceOneLine(line: string, pat: string, repl: string, i: int, j: int)
    requires IsLine(line) && FirstMatchAt(line, pat, i) && LastCloseAt(line, j)
    ensures ReplaceAll(line, pat, repl) == line[..i] + repl + line[j + 1..]
    decreases i
  {
    if i == 0 {
      assert line[0..] == line;
      ReplaceLineOpening(line, pat, repl, j);
    } else {
      var rest := line[1..];
      assert line[0..] == line;
      assert !Qualifies(line, pat);
      ShiftLine(line, pat, i, j);
      assert IsLine(rest);
      ReplaceOneLine(rest, pat, repl, i - 1, j - 1);
      SkipThenReplace(line, pat, repl, i, j);
    }
  }

  /** One character before the match is kept in front of the rewrite of
      the rest of the line. */
  lemma SkipThenReplace(line: string, pat: string, repl: string, i: int, j: int)
    requires 0 < i <= j < |line| && !Qualifies(line, pat)
    requires ReplaceAll(line[1..], pat, repl) == line[1..][..i - 1] + repl + line[1..][j..]
    ensures ReplaceAll(line, pat, repl) == line[..i] + repl + line[j + 1..]
  {
    ReplaceSkip(line, pat, repl);
    ConsSplit(line, repl, i, j);
  }

  lemma ConsSplit(line: string, repl: string, i: int, j: int)
    requires 0 < i <= j < |line|
    ensures [line[0]] + (line[1..][..i - 1] + repl + line[1..][j..]) == line[..i] + repl + line[j + 1..]
  {
    assert line[..i] == [line[0]] + line[1..][..i - 1];
    assert line[1..][j..] == line[j + 1..];
  }

  /** The rewrite of one line: the text from the first rerender call that has
      an argument and a closing `)` to the last `)` of the line becomes the
      call with `m`; everything else is kept. */
  lemma RewriteOneLine(line: string, i: int, j: int)
    requires IsLine(line) && FirstMatchAt(line, Call, i) && LastCloseAt(line, j)
    ensures RewriteHmrBody(line) == line[..i] + Replacement + line[j + 1..]
  {
    ReplaceOneLine(line, Call, Replacement, i, j);
  }

  /** A rerender call with an argument, alone on its line, becomes the call
      with `m`. */
  lemma RewriteSingleCall(arg: string)
    requires |arg| > 0 && IsLine(arg)
    ensures RewriteHmrBody(Call + arg + ")") == Replacement
  {
    CallIsLine();
    SingleCallLine(Call, arg, Replacement);
  }

  lemma SingleCallLine(pat: string, arg: string, repl: string)
    requires IsLine(pat) && |arg| > 0 && IsLine(arg)
    ensures ReplaceAll(pat + arg + ")", pat, repl) == repl
  {
    var line := pat + arg + ")";
    assert IsLine(line) by {
      forall k | 0 <= k < |line| ensures !IsLineTerminator(line[k]) {
        if k < |pat| {
          assert line[k] == pat[k];
        } else if k < |pat| + |arg| {
          assert line[k] == arg[k - |pat|];
        }
      }
    }
    assert line[..|pat|] == pat;
    assert line[0..] == line;
    assert MatchesPrefix(line, pat, |line|);
    assert FirstMatchAt(line, pat, 0);
    assert LastCloseAt(line, |line| - 1);
    ReplaceOneLine(line, pat, repl, 0, |line| - 1);
    assert line[..0] + repl + line[|line|..] == repl;
  }
}
