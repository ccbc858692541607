/**
 * The plain-text URL pattern `https?://[^\s<>\)\]]+` and the `findall`
 * scan that applies it to a page's text.
 *
 * `IsUrl` is the language of the pattern, stated on its own. `MatchAt` is
 * what a backtracking regex engine returns when it tries the pattern at one
 * position, and `ScanFrom`/`FindAll` are the leftmost, non-overlapping scan
 * of `findall`. The lemmas connect the engine to the language.
 */
module UrlPattern {
  import opened Wrappers

  /** The ASCII characters matched by `\s` in a Python str pattern:
      tab, line feed, vertical tab, form feed, carriage return,
      the four information separators 0x1C-0x1F, and space. */
  predicate IsSpace(c: char) {
    var n := c as int;
    n == 32 || 9 <= n <= 13 || 28 <= n <= 31
  }

  /** The characters excluded by the class `[^\s<>\)\]]`: they end a URL. */
  predicate IsTerminator(c: char) {
    IsSpace(c) || c == '<' || c == '>' || c == ')' || c == ']'
  }

  predicate IsUrlChar(c: char) {
    !IsTerminator(c)
  }

  const Http: string := "http://"
  const Https: string := "https://"

  predicate StartsWith(s: string, prefix: string) {
    |prefix| <= |s| && s[..|prefix|] == prefix
  }

  /** The language of `https?://[^\s<>\)\]]+`: a scheme literal followed by
      at least one character that is not whitespace, `<`, `>`, `)` or `]`. */
  predicate IsUrl(s: string) {
    || (StartsWith(s, Http) && |s| > |Http| && forall k :: |Http| <= k < |s| ==> IsUrlChar(s[k]))
    || (StartsWith(s, Https) && |s| > |Https| && forall k :: |Https| <= k < |s| ==> IsUrlChar(s[k]))
  }

  /** Length of the scheme literal at position i, 0 when there is none.
      The group `s?` is greedy; falling back to the empty `s` never helps,
      because "http" followed by "s" is not followed by "://". */
  function SchemeLength(text: string, i: nat): (k: nat)
    requires i <= |text|
    ensures k == 0 || k == |Http| || k == |Https|
    ensures i + k <= |text|
  {
    if StartsWith(text[i..], Https) then |Https|
    else if StartsWith(text[i..], Http) then |Http|
    else 0
  }

  /** Length of the longest run of URL characters starting at j. */
  function UrlRun(text: string, j: nat): (n: nat)
    requires j <= |text|
    ensures j + n <= |text|
    ensures forall q :: j <= q < j + n ==> IsUrlChar(text[q])
    ensures j + n == |text| || IsTerminator(text[j + n])
    decreases |text| - j
  {
    if j < |text| && IsUrlChar(text[j]) then 1 + UrlRun(text, j + 1) else 0
  }

  /** The end of the engine's match attempt at position i, if it succeeds:
      the scheme, then the greedy `+`, which takes the whole run. */
  function MatchAt(text: string, i: nat): (r: Option<nat>)
    requires i <= |text|
    ensures r.Some? ==> i < r.value <= |text|
  {
    var k := SchemeLength(text, i);
    if k == 0 then None
    else
      var n := UrlRun(text, i + k);
      if n == 0 then None else Some(i + k + n)
  }

  /** A match found by `findall`, as the half-open range text[start..end]. */
  datatype Span = Span(start: nat, end: nat)

  /** The `findall` scan from position pos: try a match at each position;
      after a match resume at its end, otherwise at the next position. */
  function ScanFrom(text: string, pos: nat): (spans: seq<Span>)
    requires pos <= |text|
    ensures forall k :: 0 <= k < |spans| ==> pos <= spans[k].start < spans[k].end <= |text|
    ensures forall a, b :: 0 <= a < b < |spans| ==> spans[a].end <= spans[b].start
    decreases |text| - pos
  {
    if pos == |text| then []
    else
      match MatchAt(text, pos)
      case Some(e) => [Span(pos, e)] + ScanFrom(text, e)
      case None => ScanFrom(text, pos + 1)
  }

  /** `url_regex.findall(text)`: the matched substrings, in text order.
      By definition each result is the slice of the text under one span of
      the scan, so it is a contiguous substring. */
  function FindAll(text: string): seq<string> {
    var spans := ScanFrom(text, 0);
    seq(|spans|, k requires 0 <= k < |spans| => text[spans[k].start..spans[k].end])
  }

  /** Position p lies inside one of the spans. */
  predicate Covered(spans: seq<Span>, p: nat) {
    exists k :: 0 <= k < |spans| && spans[k].start <= p < spans[k].end
  }

  // ---------------------------------------------------------------------
  // The engine against the language

  /** Any URL starting at i starts with the scheme SchemeLength finds and
      continues with URL characters only. */
  lemma UrlAtShape(text: string, i: nat, e: nat)
    requires i <= e <= |text|
    ensures IsUrl(text[i..e]) ==>
      && SchemeLength(text, i) > 0
      && i + SchemeLength(text, i) < e
      && forall q :: i + SchemeLength(text, i) <= q < e ==> IsUrlChar(text[q])
  {
    var s := text[i..e];
    if StartsWith(s, Https) && |s| > |Https| && forall k :: |Https| <= k < |s| ==> IsUrlChar(s[k]) {
      SlicePrefix(text, i, e, |Https|);
      assert SchemeLength(text, i) == |Https|;
      forall q | i + |Https| <= q < e ensures IsUrlChar(text[q]) {
        assert text[q] == s[q - i];
      }
    } else if StartsWith(s, Http) && |s| > |Http| && forall k :: |Http| <= k < |s| ==> IsUrlChar(s[k]) {
      SlicePrefix(text, i, e, |Http|);
      assert text[i..][4] == ':' && Https[4] == 's';
      assert !StartsWith(text[i..], Https);
      assert SchemeLength(text, i) == |Http|;
      forall q | i + |Http| <= q < e ensures IsUrlChar(text[q]) {
        assert text[q] == s[q - i];
      }
    }
  }

  /** The first n characters from i do not depend on where the slice ends. */
  lemma SlicePrefix(text: string, i: nat, e: nat, n: nat)
    requires i + n <= e <= |text|
    ensures text[i..][..n] == text[i..e][..n]
  {
    assert forall k :: 0 <= k < n ==> text[i..][..n][k] == text[i + k] == text[i..e][..n][k];
  }

  /** A successful attempt at i matches exactly a URL of the language. */
  lemma MatchAtIsUrl(text: string, i: nat)
    requires i <= |text|
    requires MatchAt(text, i).Some?
    ensures IsUrl(text[i..MatchAt(text, i).value])
  {
    var e := MatchAt(text, i).value;
    var k := SchemeLength(text, i);
    var s := text[i..e];
    if k == |Https| {
      assert StartsWith(text[i..], Https);
      assert s[..|Https|] == text[i..][..|Https|];
      assert forall q :: |Https| <= q < |s| ==> s[q] == text[i + q];
    } else {
      assert StartsWith(text[i..], Http);
      assert s[..|Http|] == text[i..][..|Http|];
      assert forall q :: |Http| <= q < |s| ==> s[q] == text[i + q];
    }
  }

  /** The attempt at i is greedy: no longer substring starting at i is a URL. */
  lemma MatchAtIsLongest(text: string, i: nat, e: nat)
    requires i <= |text|
    requires MatchAt(text, i).Some?
    requires MatchAt(text, i).value < e <= |text|
    ensures !IsUrl(text[i..e])
  {
    var stop := MatchAt(text, i).value;
    UrlAtShape(text, i, e);
    assert IsTerminator(text[stop]);
  }

  /** The attempt at i fails exactly when no substring starting at i is a URL. */
  lemma MatchAtFailsIffNoUrl(text: string, i: nat)
    requires i <= |text|
    ensures MatchAt(text, i).None? <==> forall e :: i <= e <= |text| ==> !IsUrl(text[i..e])
  {
    if MatchAt(text, i).Some? {
      MatchAtIsUrl(text, i);
    } else {
      var k := SchemeLength(text, i);
      forall e | i <= e <= |text| ensures !IsUrl(text[i..e]) {
        UrlAtShape(text, i, e);
        assert k > 0 && i + k < |text| ==> !IsUrlChar(text[i + k]);
      }
    }
  }

  // ---------------------------------------------------------------------
  // The scan

  /** Every span of the scan is the engine's match at its start. */
  lemma {:induction false} ScanFromSpansMatch(text: string, pos: nat)
    requires pos <= |text|
    ensures forall k :: 0 <= k < |ScanFrom(text, pos)| ==>
      MatchAt(text, ScanFrom(text, pos)[k].start) == Some(ScanFrom(text, pos)[k].end)
    decreases |text| - pos
  {
    var spans := ScanFrom(text, pos);
    if pos < |text| {
      match MatchAt(text, pos)
      case Some(e) =>
        ScanFromSpansMatch(text, e);
        var rest := ScanFrom(text, e);
        assert spans == [Span(pos, e)] + rest;
        forall k | 0 < k < |spans| ensures MatchAt(text, spans[k].start) == Some(spans[k].end) {
          assert spans[k] == rest[k - 1];
        }
      case None =>
        ScanFromSpansMatch(text, pos + 1);
    }
  }

  /** The scan is leftmost: every position from pos on at which a match
      attempt would succeed lies inside one of the matches the scan found. */
  lemma ScanFromCoversEveryMatch(text: string, pos: nat)
    requires pos <= |text|
    ensures forall p :: pos <= p < |text| && MatchAt(text, p).Some? ==> Covered(ScanFrom(text, pos), p)
  {
    forall p | pos <= p < |text| && MatchAt(text, p).Some? ensures Covered(ScanFrom(text, pos), p) {
      ScanFromCovers(text, pos, p);
    }
  }

  /** One position at a time: by induction on the scan position. */
  lemma {:induction false} ScanFromCovers(text: string, pos: nat, p: nat)
    requires pos <= p < |text|
    requires MatchAt(text, p).Some?
    ensures Covered(ScanFrom(text, pos), p)
    decreases |text| - pos
  {
    if MatchAt(text, pos).Some? {
      var e := MatchAt(text, pos).value;
      var rest := ScanFrom(text, e);
      assert ScanFrom(text, pos) == [Span(pos, e)] + rest;
      CoveredCons(Span(pos, e), rest);
      if e <= p {
        ScanFromCovers(text, e, p);
      }
    } else {
      assert ScanFrom(text, pos) == ScanFrom(text, pos + 1);
      assert pos != p;
      ScanFromCovers(text, pos + 1, p);
    }
  }

  /** Putting a span in front covers its own positions and keeps the rest covered. */
  lemma CoveredCons(first: Span, rest: seq<Span>)
    ensures forall p :: first.start <= p < first.end ==> Covered([first] + rest, p)
    ensures forall p: nat :: Covered(rest, p) ==> Covered([first] + rest, p)
  {
    var spans := [first] + rest;
    forall p | first.start <= p < first.end ensures Covered(spans, p) {
      assert spans[0] == first;
    }
    forall p: nat | Covered(rest, p) ensures Covered(spans, p) {
      var k :| 0 <= k < |rest| && rest[k].start <= p < rest[k].end;
      assert spans[k + 1] == rest[k];
    }
  }

  /** Skipping positions where no match attempt succeeds does not change the scan. */
  lemma {:induction false} ScanSkips(text: string, pos: nat, q: nat)
    requires pos <= q <= |text|
    requires forall p :: pos <= p < q ==> MatchAt(text, p).None?
    ensures ScanFrom(text, pos) == ScanFrom(text, q)
    decreases q - pos
  {
    if pos < q {
      ScanSkips(text, pos + 1, q);
    }
  }

  /** No match can start at a position that does not hold 'h'. */
  lemma NoMatchWithoutH(text: string, p: nat)
    requires p < |text| && text[p] != 'h'
    ensures MatchAt(text, p).None?
  {
    assert text[p..][0] == text[p] && Http[0] == 'h' && Https[0] == 'h';
  }

  // ---------------------------------------------------------------------
  // Properties of findall

  /** Every URL findall returns begins with "http://" or "https://", has at
      least one character after the scheme, and holds no whitespace, `<`,
      `>`, `)` or `]` after it. */
  lemma FindAllAreUrls(text: string)
    ensures forall u :: u in FindAll(text) ==> IsUrl(u)
  {
    var spans := ScanFrom(text, 0);
    ScanFromSpansMatch(text, 0);
    forall u | u in FindAll(text) ensures IsUrl(u) {
      var k :| 0 <= k < |spans| && u == FindAll(text)[k];
      MatchAtIsUrl(text, spans[k].start);
    }
  }

  /** A successful match attempt stops at the end of the text or right
      before a character the pattern excludes. */
  lemma MatchAtStopsAtTerminator(text: string, i: nat)
    requires i <= |text|
    requires MatchAt(text, i).Some?
    ensures MatchAt(text, i).value == |text| || IsTerminator(text[MatchAt(text, i).value])
  {
  }

  /** Matches are maximal: the character right after a match, if any, is one
      the pattern excludes, and no longer substring from the same start is a URL. */
  lemma FindAllAreMaximal(text: string)
    ensures forall k :: 0 <= k < |ScanFrom(text, 0)| ==>
      var sp := ScanFrom(text, 0)[k];
      (sp.end == |text| || IsTerminator(text[sp.end])) &&
      (forall e :: sp.end < e <= |text| ==> !IsUrl(text[sp.start..e]))
  {
    var spans := ScanFrom(text, 0);
    ScanFromSpansMatch(text, 0);
    forall k | 0 <= k < |spans|
      ensures spans[k].end == |text| || IsTerminator(text[spans[k].end])
      ensures forall e :: spans[k].end < e <= |text| ==> !IsUrl(text[spans[k].start..e])
    {
      var sp := spans[k];
      MatchAtStopsAtTerminator(text, sp.start);
      forall e | sp.end < e <= |text| ensures !IsUrl(text[sp.start..e]) {
        MatchAtIsLongest(text, sp.start, e);
      }
    }
  }

  /** Matches are leftmost and non-overlapping: they come in text order, and
      no URL of the language starts at a position outside every match. */
  lemma FindAllIsLeftmost(text: string)
    ensures forall a, b :: 0 <= a < b < |ScanFrom(text, 0)| ==>
      ScanFrom(text, 0)[a].end <= ScanFrom(text, 0)[b].start
    ensures forall p, e :: 0 <= p <= e <= |text| && !Covered(ScanFrom(text, 0), p) ==> !IsUrl(text[p..e])
  {
    var spans := ScanFrom(text, 0);
    ScanFromCoversEveryMatch(text, 0);
    forall p, e | 0 <= p <= e <= |text| && !Covered(spans, p) ensures !IsUrl(text[p..e]) {
      if p < |text| {
        MatchAtFailsIffNoUrl(text, p);
      } else {
        assert text[p..e] == [];
      }
    }
  }

  /** Positions without an 'h' can be skipped by the scan. */
  lemma ScanSkipsWithoutH(text: string, lo: nat, hi: nat)
    requires lo <= hi <= |text|
    requires forall p :: lo <= p < hi ==> text[p] != 'h'
    ensures ScanFrom(text, lo) == ScanFrom(text, hi)
  {
    forall p | lo <= p < hi ensures MatchAt(text, p).None? {
      NoMatchWithoutH(text, p);
    }
    ScanSkips(text, lo, hi);
  }

  // ---------------------------------------------------------------------
  // The worked example "see http://a.com/x) now", proved in small steps.
  // The helper lemmas take the text as a parameter equal to the constant:
  // with the literal itself in scope, the solver unfolds the scan over it
  // without bound, and the proof no longer fits the solver's budget.

  const ParenExample: string := "see http://a.com/x) now"

  lemma ParenExampleMatch(text: string)
    requires text == ParenExample
    ensures MatchAt(text, 4) == Some(18)
  {
    assert text[4..][4] == ':';
    assert StartsWith(text[4..], Http);
    assert SchemeLength(text, 4) == 7;
    assert UrlRun(text, 18) == 0;
    assert UrlRun(text, 17) == 1;
    assert UrlRun(text, 16) == 2;
    assert UrlRun(text, 15) == 3;
    assert UrlRun(text, 14) == 4;
    assert UrlRun(text, 13) == 5;
    assert UrlRun(text, 12) == 6;
    assert UrlRun(text, 11) == 7;
  }

  lemma ParenExampleSkips(text: string)
    requires text == ParenExample
    ensures ScanFrom(text, 0) == ScanFrom(text, 4)
    ensures ScanFrom(text, 18) == []
  {
    ScanSkipsWithoutH(text, 18, 23);
    ScanSkipsWithoutH(text, 0, 4);
  }

  lemma ParenExampleSlice(text: string)
    requires text == ParenExample
    ensures |text| == 23 && text[4..18] == "http://a.com/x"
  {
  }

  lemma ParenExampleScan(text: string)
    requires text == ParenExample
    ensures ScanFrom(text, 0) == [Span(4, 18)]
  {
    ParenExampleSkips(text);
    ParenExampleMatch(text);
    assert ScanFrom(text, 4) == [Span(4, 18)] + ScanFrom(text, 18);
  }

  /** A closing parenthesis ends a URL even in the middle of a token:
      the text yields exactly "http://a.com/x". */
  lemma FindAllClosingParenExample()
    ensures FindAll(ParenExample) == ["http://a.com/x"]
  {
    ParenExampleScan(ParenExample);
    ParenExampleSlice(ParenExample);
  }
}
