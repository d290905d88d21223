/**
 The Project Gutenberg boilerplate extractor (`extract_clean_text`): the text
 between the end of the first start-marker match and the beginning of the first
 end-marker match, stripped of surrounding whitespace.

 The two regular-expression searches are an oracle here: each is the
 `Option<Span>` that `re.search` returns. `FindFirst` provides such an oracle
 for a literal marker.
 */
module Extract {
  import opened Wrappers
  import opened Chars
  import opened Whitespace

  /** A match as `re.search` reports it: `match.start()` and `match.end()`. */
  datatype Span = Span(start: nat, end: nat)

  predicate SpanIn(m: Span, content: string) {
    m.start <= m.end <= |content|
  }

  predicate MatchIn(m: Option<Span>, content: string) {
    m.Some? ==> SpanIn(m.value, content)
  }

  /** `r` is `content[lo..hi]` with its surrounding whitespace removed. */
  ghost predicate TrimmedSliceOf(r: string, content: string, lo: nat, hi: nat)
    requires lo <= hi <= |content|
  {
    exists i, j :: lo <= i <= j <= hi && r == content[i..j]
      && AllSpace(content[lo..i]) && AllSpace(content[j..hi]) && Trimmed(r)
  }

  /** Python's `content[lo:hi]` on in-range indices. */
  function Slice(content: string, lo: nat, hi: nat): string
    requires lo <= |content| && hi <= |content|
  {
    if lo <= hi then content[lo..hi] else []
  }

  function ExtractCleanText(content: string, startMatch: Option<Span>, endMatch: Option<Span>): (r: Option<string>)
    requires MatchIn(startMatch, content) && MatchIn(endMatch, content)
    ensures r.None? <==> startMatch.None? || endMatch.None?
    ensures r.Some? ==> Trimmed(r.value)
    ensures r.Some? && endMatch.value.start <= startMatch.value.end ==> r.value == []
    ensures r.Some? && startMatch.value.end <= endMatch.value.start ==>
      && TrimmedSliceOf(r.value, content, startMatch.value.end, endMatch.value.start)
      && |r.value| <= endMatch.value.start - startMatch.value.end
  {
    if startMatch.Some? && endMatch.Some? then
      var lo, hi := startMatch.value.end, endMatch.value.start;
      var region := Slice(content, lo, hi);
      var clean := Strip(region);
      if lo <= hi then
        StripOfSlice(content, lo, hi);
        Some(clean)
      else
        Some(clean)
    else
      None
  }

  lemma SliceOfSlice(s: string, lo: nat, hi: nat, i: nat, j: nat)
    requires lo <= hi <= |s| && i <= j <= hi - lo
    ensures s[lo..hi][i..j] == s[lo + i..lo + j]
  {
    forall k | 0 <= k < j - i ensures s[lo..hi][i..j][k] == s[lo + i..lo + j][k] {
      assert s[lo..hi][i..j][k] == s[lo..hi][i + k] == s[lo + i + k];
    }
  }

  lemma StripOfSlice(content: string, lo: nat, hi: nat)
    requires lo <= hi <= |content|
    ensures TrimmedSliceOf(Strip(content[lo..hi]), content, lo, hi)
  {
    var region := content[lo..hi];
    var r := Strip(region);
    assert exists i, j :: StripsTo(region, i, j) && r == region[i..j];
    var i, j :| StripsTo(region, i, j) && r == region[i..j];
    SliceOfSlice(content, lo, hi, i, j);
    SliceOfSlice(content, lo, hi, 0, i);
    SliceOfSlice(content, lo, hi, j, hi - lo);
    assert region[..i] == region[0..i] && region[j..] == region[j..hi - lo];
  }

  /** The literal `marker` occurs in `content` at position `k`. */
  predicate OccursAt(content: string, marker: string, k: nat) {
    k + |marker| <= |content| && content[k..k + |marker|] == marker
  }

  function FindFrom(content: string, marker: string, from: nat): (r: Option<Span>)
    requires from <= |content|
    ensures r.Some? ==>
      && from <= r.value.start && OccursAt(content, marker, r.value.start)
      && r.value.end == r.value.start + |marker|
    ensures r.Some? ==> forall k: nat :: from <= k < r.value.start ==> !OccursAt(content, marker, k)
    ensures r.None? ==> forall k: nat :: from <= k ==> !OccursAt(content, marker, k)
    decreases |content| - from
  {
    if OccursAt(content, marker, from) then Some(Span(from, from + |marker|))
    else if from + |marker| >= |content| then None
    else FindFrom(content, marker, from + 1)
  }

  /** A match oracle for a literal marker: its first occurrence, if any. */
  function FindFirst(content: string, marker: string): (r: Option<Span>)
    ensures MatchIn(r, content)
    ensures r.Some? ==> OccursAt(content, marker, r.value.start) && r.value.end == r.value.start + |marker|
    ensures r.Some? ==> forall k: nat :: k < r.value.start ==> !OccursAt(content, marker, k)
    ensures r.None? <==> forall k: nat :: !OccursAt(content, marker, k)
  {
    FindFrom(content, marker, 0)
  }

  /** The extractor with literal start and end markers in place of the two patterns. */
  function ExtractBetweenMarkers(content: string, startMarker: string, endMarker: string): (r: Option<string>)
    ensures r.None? <==> (forall k: nat :: !OccursAt(content, startMarker, k)) || (forall k: nat :: !OccursAt(content, endMarker, k))
    ensures r.Some? ==> Trimmed(r.value)
  {
    ExtractCleanText(content, FindFirst(content, startMarker), FindFirst(content, endMarker))
  }

  /** What the driver does with one result: `if clean_text:` writes the file, anything else is a failure. */
  datatype Outcome = Written(text: string) | Failed

  function DriverOutcome(result: Option<string>): Outcome {
    if result.Some? && result.value != [] then Written(result.value) else Failed
  }

  lemma AllSpaceSlice(content: string, lo: nat, hi: nat)
    requires lo <= hi <= |content|
    ensures AllSpace(content[lo..hi]) <==> forall k :: lo <= k < hi ==> IsSpace(content[k])
  {
    if AllSpace(content[lo..hi]) {
      forall k | lo <= k < hi ensures IsSpace(content[k]) {
        assert content[lo..hi][k - lo] == content[k];
      }
    }
  }

  /** A written file holds a non-empty text that starts and ends with a non-whitespace character; it is
      written exactly when both markers match and some non-whitespace character lies between them. */
  lemma WrittenIsContent(content: string, startMatch: Option<Span>, endMatch: Option<Span>)
    requires MatchIn(startMatch, content) && MatchIn(endMatch, content)
    ensures DriverOutcome(ExtractCleanText(content, startMatch, endMatch)).Written? <==>
      && startMatch.Some? && endMatch.Some?
      && exists k :: startMatch.value.end <= k < endMatch.value.start && !IsSpace(content[k])
    ensures var o := DriverOutcome(ExtractCleanText(content, startMatch, endMatch));
      o.Written? ==> |o.text| > 0 && !IsSpace(o.text[0]) && !IsSpace(o.text[|o.text| - 1])
  {
    var r := ExtractCleanText(content, startMatch, endMatch);
    if r.Some? {
      var lo, hi := startMatch.value.end, endMatch.value.start;
      if lo < hi {
        assert r.value == Strip(content[lo..hi]);
        AllSpaceSlice(content, lo, hi);
      }
    }
  }
}
