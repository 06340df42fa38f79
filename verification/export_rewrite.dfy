/**
 * The default-export rewrite applied to a component's script:
 * `code.replace(/((?:^|\n|;)\s*)export default/, '$1var script =')`.
 *
 * The pattern is not global, so at most one occurrence is rewritten. The
 * model runs the regular expression the way a backtracking matcher does
 * (leftmost start position, alternatives in the order written, greedy `\s*`
 * giving characters back) and then proves that this picks the FIRST
 * qualifying occurrence of the phrase, described without any matcher.
 */
module ExportRewrite {
  import opened JsText

  const Phrase: string := "export default"
  const Binding: string := "var script ="

  // ---------------------------------------------------------------------
  // What the pattern means, stated without a matcher.

  ghost predicate PhraseAt(s: string, k: int) {
    0 <= k && k + |Phrase| <= |s| && s[k..k + |Phrase|] == Phrase
  }

  ghost predicate AllWhitespace(s: string, i: int, j: int)
    requires 0 <= i <= j <= |s|
  {
    forall t :: i <= t < j ==> IsWhitespace(s[t])
  }

  /** Position j follows the start of the text, a newline or a semicolon. */
  ghost predicate StatementStart(s: string, j: int)
    requires 0 <= j <= |s|
  {
    j == 0 || s[j - 1] == '\n' || s[j - 1] == ';'
  }

  /** The phrase at k is one the pattern can rewrite: only white space lies
      between it and a statement start. */
  ghost predicate Qualifies(s: string, k: int) {
    && PhraseAt(s, k)
    && exists j :: 0 <= j <= k && StatementStart(s, j) && AllWhitespace(s, j, k)
  }

  ghost predicate FirstQualifying(s: string, k: int) {
    Qualifies(s, k) && forall k' :: 0 <= k' < k ==> !Qualifies(s, k')
  }

  /** The whole pattern matches from position p, with the phrase at k. */
  ghost predicate MatchFrom(s: string, p: int, k: int) {
    && 0 <= p <= k
    && PhraseAt(s, k)
    && ((p == 0 && AllWhitespace(s, 0, k))
        || (p < |s| && (s[p] == '\n' || s[p] == ';') && AllWhitespace(s, p + 1, k)))
  }

  // ---------------------------------------------------------------------
  // The matcher.

  function HasPhraseAt(s: string, k: nat): (b: bool)
    ensures b <==> PhraseAt(s, k)
  {
    k + |Phrase| <= |s| && s[k..k + |Phrase|] == Phrase
  }

  /** End of the longest run of white space from i: what a greedy `\s*`
      consumes before giving anything back. */
  function WhitespaceRunEnd(s: string, i: nat): (e: nat)
    requires i <= |s|
    ensures i <= e <= |s| && AllWhitespace(s, i, e)
    ensures e == |s| || !IsWhitespace(s[e])
    decreases |s| - i
  {
    if i < |s| && IsWhitespace(s[i]) then WhitespaceRunEnd(s, i + 1) else i
  }

  /** `\s*` gives back one character at a time, from q down to start, until
      the phrase follows. */
  function Backtrack(s: string, start: nat, q: nat): (r: Option<nat>)
    requires start <= q <= |s|
    ensures r.Some? ==> start <= r.value <= q && PhraseAt(s, r.value)
    ensures r.None? ==> forall t :: start <= t <= q ==> !PhraseAt(s, t)
    decreases q - start
  {
    if HasPhraseAt(s, q) then Some(q)
    else if q == start then None
    else Backtrack(s, start, q - 1)
  }

  /** `\s*export default` tried from position i. */
  function BodyAt(s: string, i: nat): (r: Option<nat>)
    requires i <= |s|
    ensures r.Some? ==> i <= r.value && PhraseAt(s, r.value) && AllWhitespace(s, i, r.value)
    ensures r.None? ==> forall k :: i <= k <= |s| && AllWhitespace(s, i, k) ==> !PhraseAt(s, k)
  {
    var e := WhitespaceRunEnd(s, i);
    var r := Backtrack(s, i, e);
    if r.Some? then
      PhraseStartsVisible(s, i, r.value, e);
      r
    else
      assert forall k :: i <= k <= |s| && AllWhitespace(s, i, k) ==> !PhraseAt(s, k) by {
        forall k | i <= k <= |s| && AllWhitespace(s, i, k) ensures !PhraseAt(s, k) {
          RunEndIsMaximal(s, i, k);
        }
      }
      r
  }

  /** No run of white space from i reaches past WhitespaceRunEnd. */
  lemma RunEndIsMaximal(s: string, i: nat, k: nat)
    requires i <= k <= |s| && AllWhitespace(s, i, k)
    ensures k <= WhitespaceRunEnd(s, i)
    decreases |s| - i
  {
    if i < k {
      RunEndIsMaximal(s, i + 1, k);
    }
  }

  /** A phrase inside a run of white space is impossible: it begins with 'e'. */
  lemma PhraseStartsVisible(s: string, i: nat, k: nat, e: nat)
    requires i <= k <= e <= |s| && AllWhitespace(s, i, e) && PhraseAt(s, k)
    ensures AllWhitespace(s, i, k)
  {
  }

  /** The pattern tried at position p, alternatives in the order written:
      `^`, then `\n`, then `;`. The result is where the phrase starts. */
  function MatchAt(s: string, p: nat): (r: Option<nat>)
    requires p <= |s|
    ensures r.Some? ==> MatchFrom(s, p, r.value)
    ensures r.None? ==> forall k :: !MatchFrom(s, p, k)
  {
    var anchored := if p == 0 then BodyAt(s, 0) else None;
    if anchored.Some? then anchored
    else if p < |s| && s[p] == '\n' then BodyAt(s, p + 1)
    else if p < |s| && s[p] == ';' then BodyAt(s, p + 1)
    else None
  }

  /** The leftmost match starting at or after p: (start, phrase position). */
  function Search(s: string, p: nat): (r: Option<(nat, nat)>)
    requires p <= |s|
    ensures r.Some? ==> p <= r.value.0 && MatchFrom(s, r.value.0, r.value.1)
    ensures r.Some? ==> forall q, k :: p <= q < r.value.0 ==> !MatchFrom(s, q, k)
    ensures r.None? ==> forall q, k :: p <= q ==> !MatchFrom(s, q, k)
    decreases |s| - p
  {
    match MatchAt(s, p)
    case Some(k) => Some((p, k))
    case None =>
      if p == |s| then None
      else Search(s, p + 1)
  }

  /** `code.replace(defaultExportRE, '$1var script =')`: the match is replaced
      by its first group (the anchor and the white space) and the binding. */
  function RewriteDefaultExport(code: string): string {
    match Search(code, 0)
    case None => code
    case Some((p, k)) => code[..p] + code[p..k] + Binding + code[k + |Phrase|..]
  }

  // ---------------------------------------------------------------------
  // Properties.

  /** A match from p ends in a qualifying phrase, and every qualifying phrase
      is the end of some match. */
  lemma MatchesAreQualifying(s: string)
    ensures forall p, k :: MatchFrom(s, p, k) ==> Qualifies(s, k)
    ensures forall k :: Qualifies(s, k) ==> exists p :: MatchFrom(s, p, k)
  {
    forall p, k | MatchFrom(s, p, k) ensures Qualifies(s, k) {
      if p == 0 && AllWhitespace(s, 0, k) {
        assert StatementStart(s, 0);
      } else {
        assert StatementStart(s, p + 1);
      }
    }
    forall k | Qualifies(s, k) ensures exists p :: MatchFrom(s, p, k) {
      var j :| 0 <= j <= k && StatementStart(s, j) && AllWhitespace(s, j, k);
      if j == 0 {
        assert MatchFrom(s, 0, k);
      } else {
        assert MatchFrom(s, j - 1, k);
      }
    }
  }

  /** The phrase begins with a visible character. */
  lemma PhraseBeginsWithE(s: string, k: int)
    requires PhraseAt(s, k)
    ensures s[k] == 'e'
  {
    assert s[k] == s[k..k + |Phrase|][0];
  }

  /** A match from p leaves no room for another phrase between p and its own. */
  lemma NoPhraseInsideMatch(s: string, p: int, k: int, k': int)
    requires MatchFrom(s, p, k) && p <= k' < k
    ensures !PhraseAt(s, k')
  {
    if p == 0 && AllWhitespace(s, 0, k) {
      assert IsWhitespace(s[k']);
    } else if k' == p {
      assert s[k'] == '\n' || s[k'] == ';';
    } else {
      assert IsWhitespace(s[k']);
    }
    if PhraseAt(s, k') {
      PhraseBeginsWithE(s, k');
    }
  }

  /** The leftmost match rewrites the first qualifying phrase: the text
      before it and after it is kept byte for byte, and the fourteen
      characters of the phrase become `var script =`. With no qualifying
      phrase the code is returned unchanged. */
  lemma RewriteReplacesFirstQualifying(code: string)
    ensures (forall k :: !Qualifies(code, k)) ==> RewriteDefaultExport(code) == code
    ensures forall k :: FirstQualifying(code, k) ==>
      RewriteDefaultExport(code) == code[..k] + Binding + code[k + |Phrase|..]
  {
    MatchesAreQualifying(code);
    match Search(code, 0)
    case None =>
      assert forall k :: !Qualifies(code, k);
    case Some((p, k)) =>
      assert Qualifies(code, k);
      forall k' | 0 <= k' < k ensures !Qualifies(code, k') {
        forall p' ensures !MatchFrom(code, p', k') {
          if p <= p' <= k' {
            NoPhraseInsideMatch(code, p, k, k');
          }
        }
      }
      forall k2 | FirstQualifying(code, k2) ensures k2 == k {
        if k < k2 {
        } else if k2 < k {
        }
      }
      assert code[..p] + code[p..k] == code[..k];
  }

  /** A script that opens with the phrase: the phrase becomes the binding
      and everything after it is kept. */
  lemma RewriteLeadingExport(rest: string)
    ensures RewriteDefaultExport(Phrase + rest) == Binding + rest
  {
    var s := Phrase + rest;
    assert s[..|Phrase|] == Phrase;
    assert StatementStart(s, 0) && AllWhitespace(s, 0, 0);
    assert FirstQualifying(s, 0);
    RewriteReplacesFirstQualifying(s);
    assert s[|Phrase|..] == rest;
  }

  /** Only the first occurrence is rewritten: a second default export after
      the first survives. */
  lemma OnlyFirstOccurrenceRewritten(a: string, b: string)
    ensures RewriteDefaultExport(Phrase + a + ";" + Phrase + b) == Binding + a + ";" + Phrase + b
  {
    assert Phrase + a + ";" + Phrase + b == Phrase + (a + ";" + Phrase + b);
    RewriteLeadingExport(a + ";" + Phrase + b);
  }

  /** The canonical script body: the object literal after the phrase is kept
      byte for byte. */
  lemma RewriteObjectLiteral()
    ensures RewriteDefaultExport("export default { name: \"X\" }") == "var script = { name: \"X\" }"
  {
    var rest := " { name: \"X\" }";
    assert Phrase + rest == "export default { name: \"X\" }";
    assert Binding + rest == "var script = { name: \"X\" }";
    RewriteLeadingExport(rest);
  }

  /** A phrase right after a semicolon, with no qualifying phrase before it,
      is the one rewritten. */
  lemma RewriteAfterSemicolon(lead: string, tail: string)
    requires |lead| > 0 && lead[|lead| - 1] == ';'
    requires forall k :: 0 <= k < |lead| ==> !Qualifies(lead + Phrase + tail, k)
    ensures RewriteDefaultExport(lead + Phrase + tail) == lead + Binding + tail
  {
    var s := lead + Phrase + tail;
    var n := |lead|;
    assert s[n..n + |Phrase|] == Phrase;
    assert StatementStart(s, n) && AllWhitespace(s, n, n);
    assert FirstQualifying(s, n);
    RewriteReplacesFirstQualifying(s);
    assert s[..n] == lead && s[n + |Phrase|..] == tail;
  }

  /** Text without an `e` holds no phrase: nothing in it qualifies. */
  lemma NoPhraseWithoutE(lead: string, rest: string)
    requires forall i :: 0 <= i < |lead| ==> lead[i] != 'e'
    ensures forall k :: 0 <= k < |lead| ==> !Qualifies(lead + rest, k)
  {
    var s := lead + rest;
    forall k | 0 <= k < |lead| ensures !PhraseAt(s, k) {
      assert s[k] == lead[k];
      if PhraseAt(s, k) {
        PhraseBeginsWithE(s, k);
      }
    }
  }

  /** The pattern does not know about string literals: a phrase after a
      semicolon inside a string is rewritten and the real export on the next
      line is left in place. */
  lemma RewriteFooledByStringLiteral(rest: string)
    ensures RewriteDefaultExport("x = ';" + Phrase + "'\n" + Phrase + rest)
         == "x = ';" + Binding + "'\n" + Phrase + rest
  {
    var lead, tail := "x = ';", "'\n" + Phrase + rest;
    assert "x = ';" + Phrase + "'\n" + Phrase + rest == lead + Phrase + tail;
    NoPhraseWithoutE(lead, Phrase + tail);
    assert lead + (Phrase + tail) == lead + Phrase + tail;
    RewriteAfterSemicolon(lead, tail);
    assert lead + Binding + tail == "x = ';" + Binding + "'\n" + Phrase + rest;
  }
}
