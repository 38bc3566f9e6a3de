/** The keyword context extractor `scan_keyword` (GENSCAN.py:44-57), as a
    function of the already-decoded response body and the keyword. */
module Keyword {
  import opened Wrappers
  import opened Text
  import opened Pieces

  /** Characters of context kept on each side of the match. */
  const Radius: nat := 30

  /** Python truthiness of the keyword argument: present and non-empty. */
  predicate KeywordGiven(keyword: Option<string>) {
    keyword.Some? && keyword.value != []
  }

  /** The pair `(found, context)` that `scan_keyword` returns. */
  datatype KeywordMatch = KeywordMatch(found: bool, context: string)

  /** `.replace('\n', ' ')`: the same text with every newline made a space. */
  function NewlinesToSpaces(s: string): (r: string)
    ensures |r| == |s|
    ensures forall i :: 0 <= i < |s| ==> r[i] == (if s[i] == '\n' then ' ' else s[i])
    ensures '\n' !in r
  {
    ReplaceCharPointwise(s, '\n', ' ');
    Replace(s, "\n", " ")
  }

  /** `max(0, pos - 30)`. */
  function WindowStart(pos: nat): nat {
    if pos < Radius then 0 else pos - Radius
  }

  /** `min(len(content), pos + len(keyword) + 30)`. */
  function WindowEnd(len: nat, pos: nat, kwLen: nat): nat {
    if len < pos + kwLen + Radius then len else pos + kwLen + Radius
  }

  /** The context for a match at `pos` of a keyword of length `kwLen`. */
  function ContextAt(content: string, pos: nat, kwLen: nat): (c: string)
    requires pos + kwLen <= |content|
    ensures |c| <= kwLen + 2 * Radius
    ensures '\n' !in c
  {
    var window := NewlinesToSpaces(content[WindowStart(pos)..WindowEnd(|content|, pos, kwLen)]);
    StripKeepsAbsent(window, '\n');
    Strip(window)
  }

  /** `scan_keyword(response, keyword)` over the body text. An absent or empty
      keyword gives `(False, "")`; otherwise the search is on the lower-cased
      body for the lower-cased keyword, and a hit carries the window of up to
      30 characters either side of the first occurrence, newlines turned into
      spaces, outer whitespace stripped. */
  function ScanKeyword(body: string, keyword: Option<string>): (r: KeywordMatch)
    ensures !KeywordGiven(keyword) ==> r == KeywordMatch(false, [])
    ensures KeywordGiven(keyword) ==> (r.found <==> Contains(Lower(body), Lower(keyword.value)))
    ensures !r.found ==> r.context == []
    ensures KeywordGiven(keyword) ==> |r.context| <= |keyword.value| + 2 * Radius
    ensures '\n' !in r.context
  {
    if !KeywordGiven(keyword) then KeywordMatch(false, [])
    else
      var content := Lower(body);
      var kw := Lower(keyword.value);
      if Contains(content, kw) then
        var pos := Find(content, kw);
        KeywordMatch(true, ContextAt(content, pos, |keyword.value|))
      else
        KeywordMatch(false, [])
  }

  /** Lower-casing neither creates nor removes newlines or whitespace. */
  lemma LowerKeepsLayout(s: string)
    ensures '\n' !in s ==> '\n' !in Lower(s)
    ensures IsStripped(s) ==> IsStripped(Lower(s))
  {
    var l := Lower(s);
    assert forall i :: 0 <= i < |s| ==> (l[i] == '\n' <==> s[i] == '\n');
  }

  /** The window around an occurrence of a keyword with no newline and no
      outer whitespace still contains that keyword once cut out, newlines
      made spaces and stripped. */
  lemma ContextAtHasKeyword(content: string, kw: string, pos: nat)
    requires kw != [] && '\n' !in kw && IsStripped(kw)
    requires OccursAt(content, kw, pos)
    ensures Contains(ContextAt(content, pos, |kw|), kw)
  {
    var i := ContextAround(content, kw, pos);
  }

  /** Where the keyword sits in the context: at most 30 characters follow
      the context's start before it, and at most 30 follow its end. */
  lemma ContextAround(content: string, kw: string, pos: nat) returns (i: nat)
    requires kw != [] && '\n' !in kw && IsStripped(kw)
    requires OccursAt(content, kw, pos)
    ensures OccursAt(ContextAt(content, pos, |kw|), kw, i) && Contains(ContextAt(content, pos, |kw|), kw)
    ensures i <= Radius && |ContextAt(content, pos, |kw|)| <= i + |kw| + Radius
  {
    var start := WindowStart(pos);
    var end := WindowEnd(|content|, pos, |kw|);
    var n := NewlinesToSpaces(content[start..end]);
    WindowKeepsKeyword(content, kw, pos);
    i := StripShiftsOccurrence(n, kw, pos - start);
  }

  /** The keyword occurs in the window, newlines made spaces, at its offset
      from the window's start. */
  lemma WindowKeepsKeyword(content: string, kw: string, pos: nat)
    requires '\n' !in kw && OccursAt(content, kw, pos)
    ensures var start := WindowStart(pos);
      OccursAt(NewlinesToSpaces(content[start..WindowEnd(|content|, pos, |kw|)]), kw, pos - start)
  {
    var start := WindowStart(pos);
    var w := content[start..WindowEnd(|content|, pos, |kw|)];
    var n := NewlinesToSpaces(w);
    var o := pos - start;
    assert o + |kw| <= |w|;
    forall j | 0 <= j < |kw| ensures n[o + j] == kw[j] {
      assert w[o + j] == content[pos + j] == kw[j];
      assert kw[j] in kw;
    }
    assert n[o..o + |kw|] == kw;
  }

  /** On a hit, the context contains the lower-cased keyword, provided the
      keyword has no newline and no whitespace at its ends: the context really
      shows the keyword in its surroundings. */
  lemma ContextHasKeyword(body: string, keyword: Option<string>)
    requires KeywordGiven(keyword) && '\n' !in keyword.value && IsStripped(keyword.value)
    requires ScanKeyword(body, keyword).found
    ensures Contains(ScanKeyword(body, keyword).context, Lower(keyword.value))
  {
    var content := Lower(body);
    var kw := Lower(keyword.value);
    LowerKeepsLayout(keyword.value);
    ContextAtHasKeyword(content, kw, Find(content, kw));
  }

  /** A hit shows the window around the FIRST occurrence: for the index `p`
      of an occurrence with none before it, the context is the window at `p`. */
  lemma ScanKeywordFirst(body: string, keyword: Option<string>, p: nat)
    requires KeywordGiven(keyword)
    requires OccursAt(Lower(body), Lower(keyword.value), p)
    requires forall j :: 0 <= j < p ==> !OccursAt(Lower(body), Lower(keyword.value), j)
    ensures ScanKeyword(body, keyword) == KeywordMatch(true, ContextAt(Lower(body), p, |keyword.value|))
  {
    var content := Lower(body);
    var kw := Lower(keyword.value);
    var f := Find(content, kw);
    assert Contains(content, kw);
    assert f >= 0 && OccursAt(content, kw, f);
    assert !(f < p) && !(p < f);
  }

  /** On a hit, for a keyword with no newline and no outer whitespace, the
      lower-cased keyword sits in the context with at most 30 characters
      before it and at most 30 after it. */
  lemma ScanKeywordWindow(body: string, keyword: Option<string>) returns (i: nat)
    requires KeywordGiven(keyword) && '\n' !in keyword.value && IsStripped(keyword.value)
    requires ScanKeyword(body, keyword).found
    ensures var c := ScanKeyword(body, keyword).context;
      OccursAt(c, Lower(keyword.value), i) && i <= Radius && |c| <= i + |keyword.value| + Radius
  {
    var content := Lower(body);
    var kw := Lower(keyword.value);
    LowerKeepsLayout(keyword.value);
    i := ContextAround(content, kw, Find(content, kw));
  }

  /** Replacing newlines commutes with taking a slice. */
  lemma NewlinesInSlice(content: string, start: nat, end: nat)
    requires start <= end <= |content|
    ensures NewlinesToSpaces(content[start..end]) == NewlinesToSpaces(content)[start..end]
  {
    var n := NewlinesToSpaces(content[start..end]);
    var all := NewlinesToSpaces(content);
    forall j | 0 <= j < |n| ensures n[j] == all[start + j] {
      assert content[start..end][j] == content[start + j];
    }
  }

  /** The window around a match is a piece of the whole text with newlines
      made spaces. */
  lemma ContextAtFrom(content: string, pos: nat, kwLen: nat)
    requires pos + kwLen <= |content|
    ensures Contains(NewlinesToSpaces(content), ContextAt(content, pos, kwLen))
  {
    var start := WindowStart(pos);
    var end := WindowEnd(|content|, pos, kwLen);
    var n := NewlinesToSpaces(content[start..end]);
    NewlinesInSlice(content, start, end);
    StripOfSlice(NewlinesToSpaces(content), start, end);
  }

  /** The context is a piece of the lower-cased body with newlines made spaces. */
  lemma ContextFromBody(body: string, keyword: Option<string>)
    ensures Contains(NewlinesToSpaces(Lower(body)), ScanKeyword(body, keyword).context)
  {
    var m := ScanKeyword(body, keyword);
    if m.found {
      var content := Lower(body);
      ContextAtFrom(content, Find(content, Lower(keyword.value)), |keyword.value|);
    } else {
      assert OccursAt(NewlinesToSpaces(Lower(body)), m.context, 0);
    }
  }
}
