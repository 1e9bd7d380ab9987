/**
  Finding an existing header in a document (`extractHeaderRanges`): two
  non-overlapping border markers, a span widened back to the block opener and
  forward to the line suffix, the newlines after it, and the two fields read
  out of the span.
 */
module HeaderLocate {

  import opened JsString
  import opened Wrappers
  import opened Style
  import opened Render
  import opened HeaderScan

  /** Where a header lies in the text, `[start, end)`, and what it says. */
  datatype HeaderSpan = HeaderSpan(start: nat, end: nat, created: Option<string>, githubUser: Option<string>)

  /** The border line as it appears in a document written in `style`. */
  function Marker(style: CommentStyle): (m: string)
    ensures |m| == |style.line| + |Border| + |style.end|
    ensures EndsWithSuffix(m, style)
  {
    var m := style.line + Border + style.end;
    assert m[|m| - |style.end|..] == style.end;
    m
  }

  /** `m` ends with the line suffix and is longer than it, as every marker is. */
  predicate EndsWithSuffix(m: string, style: CommentStyle)
  {
    |style.end| < |m| && m[|m| - |style.end|..] == style.end
  }

  /** The text holds the marker twice, the second copy starting after the first ends. */
  predicate HasTwoMarkers(text: string, m: string)
  {
    exists i, j | 0 <= i && i + |m| <= j <= |text| :: OccursAt(text, m, i) && OccursAt(text, m, j)
  }

  predicate IsNewline(c: char)
  {
    c == '\n'
  }

  /** Where the span starts: the last block opener at or before the first
      marker, when the style has an opener and one is found; else the marker. */
  function SpanStart(text: string, style: CommentStyle, first: nat): (r: nat)
    requires first <= |text|
    ensures r <= first
    ensures style.start == "" ==> r == first
    ensures r < first ==> OccursAt(text, style.start, r)
    ensures style.start != "" && (exists i :: 0 <= i <= first && OccursAt(text, style.start, i)) ==>
              OccursAt(text, style.start, r) && forall i :: r < i <= first ==> !OccursAt(text, style.start, i)
  {
    if style.start != "" then
      var d := LastIndexOf(text, style.start, first);
      if d != -1 then d else first
    else first
  }

  /** Where the span ends before newlines are absorbed: just after the first
      line suffix found from the second marker `m` on, or after the marker when
      the style has no suffix.  The search starts at the marker itself, which
      ends with the suffix, so the span never reaches past the closing marker. */
  function EndSearch(text: string, style: CommentStyle, m: string, second: nat): (r: nat)
    requires OccursAt(text, m, second) && EndsWithSuffix(m, style)
    ensures second < r <= second + |m|
    ensures style.end == "" ==> r == second + |m|
    ensures style.end != "" ==>
              second <= r - |style.end| && OccursAt(text, style.end, r - |style.end|)
              && forall i :: second <= i < r - |style.end| ==> !OccursAt(text, style.end, i)
  {
    if style.end != "" then
      var d := IndexOf(text, style.end, second);
      SuffixEndsMarker(text, style, m, second);
      if d != -1 then d + |style.end| else second + |m|
    else second + |m|
  }

  /** Where the span ends: after the suffix search and the newlines that follow. */
  function SpanEnd(text: string, style: CommentStyle, m: string, second: nat): (r: nat)
    requires OccursAt(text, m, second) && EndsWithSuffix(m, style)
    ensures second < r <= |text| && (r == |text| || text[r] != '\n')
  {
    RunEnd(text, EndSearch(text, style, m, second), IsNewline)
  }

  /** The newlines `rest` starts with. */
  function LeadingNewlines(rest: string): (n: nat)
    ensures n <= |rest| && (n == |rest| || rest[n] != '\n')
    ensures forall k :: 0 <= k < n ==> rest[k] == '\n'
  {
    RunEnd(rest, 0, IsNewline)
  }

  /** A copy of the marker ends with a copy of the line suffix. */
  lemma SuffixEndsMarker(text: string, style: CommentStyle, m: string, i: nat)
    requires OccursAt(text, m, i) && EndsWithSuffix(m, style)
    ensures OccursAt(text, style.end, i + |m| - |style.end|)
  {
    var p := |m| - |style.end|;
    assert text[i + p..i + |m|] == text[i..i + |m|][p..] == m[p..];
  }

  /** `extractHeaderRanges` as a function of the text and the style. */
  function Locate(text: string, style: CommentStyle): (r: Option<HeaderSpan>)
    ensures r.Some? ==>
              var first := IndexOf(text, Marker(style), 0);
              0 <= r.value.start <= first && first + |Marker(style)| < r.value.end <= |text|
              && (r.value.end == |text| || text[r.value.end] != '\n')
  {
    var m := Marker(style);
    var found := Markers(text, m);
    if found.None? then None else Some(Span(text, style, m, found.value.0, found.value.1))
  }

  /** The first copy of the marker `m` and the next copy that starts after it
      ends, or nothing when either search fails. */
  function Markers(text: string, m: string): (r: Option<(nat, nat)>)
    ensures r.Some? ==> r.value.0 == IndexOf(text, m, 0) && r.value.0 + |m| <= r.value.1
                        && OccursAt(text, m, r.value.1)
                        && forall j :: r.value.0 + |m| <= j < r.value.1 ==> !OccursAt(text, m, j)
  {
    var first := IndexOf(text, m, 0);
    if first == -1 then None
    else
      var second := IndexOf(text, m, first + |m|);
      if second == -1 then None
      else Some((first, second))
  }

  /** The span found once both markers are known. */
  function Span(text: string, style: CommentStyle, m: string, first: nat, second: nat): (h: HeaderSpan)
    requires first <= second && OccursAt(text, m, second) && EndsWithSuffix(m, style)
    ensures h.start <= first && second < h.end <= |text|
    ensures h.end == |text| || text[h.end] != '\n'
  {
    var start := SpanStart(text, style, first);
    var end := SpanEnd(text, style, m, second);
    var headerText := text[start..end];
    HeaderSpan(start, end, MatchCreated(headerText), MatchGithubUser(headerText))
  }

  /** The fields of a found header are what the two scans read from exactly its span. */
  lemma LocateReadsSpan(text: string, style: CommentStyle)
    ensures var r := Locate(text, style);
            r.Some? ==> r.value.start <= r.value.end <= |text|
                        && r.value.created == MatchCreated(text[r.value.start..r.value.end])
                        && r.value.githubUser == MatchGithubUser(text[r.value.start..r.value.end])
  {
  }

  /** Both markers found: the span between them. */
  lemma LocateFound(text: string, style: CommentStyle, first: nat, second: nat)
    requires Markers(text, Marker(style)) == Some((first, second))
    ensures first <= second && OccursAt(text, Marker(style), second)
    ensures Locate(text, style) == Some(Span(text, style, Marker(style), first, second))
  {
  }

  /** A header whose markers are found at the very start of the text spans
      from there to past the second marker, and its fields are read from that span. */
  lemma FoundAtStart(text: string, style: CommentStyle, second: nat)
    requires Markers(text, Marker(style)) == Some((0, second))
    ensures var r := Locate(text, style);
            r.Some? && r.value.start == 0 && second < r.value.end <= |text|
            && r.value == Span(text, style, Marker(style), 0, second)
            && r.value.created == MatchCreated(text[0..r.value.end])
            && r.value.githubUser == MatchGithubUser(text[0..r.value.end])
  {
    LocateFound(text, style, 0, second);
  }

  /** Markers found at the start of the text and the newlines after the second
      one absorbed up to `end`: the span is `[0, end)`, with the fields the
      two scans read from it. */
  lemma LocateIs(text: string, style: CommentStyle, second: nat, end: nat)
    requires Markers(text, Marker(style)) == Some((0, second))
    requires SpanEnd(text, style, Marker(style), second) == end
    ensures end <= |text|
    ensures Locate(text, style) == Some(HeaderSpan(0, end, MatchCreated(text[0..end]), MatchGithubUser(text[0..end])))
  {
    LocateFound(text, style, 0, second);
  }

  /** Markers found at the start of the text, the span ending at `end`, and
      the two scans of `[0, end)` succeeding: the header found has those fields. */
  lemma LocateWithFields(text: string, style: CommentStyle, second: nat, end: nat, created: string, user: string)
    requires Markers(text, Marker(style)) == Some((0, second))
    requires SpanEnd(text, style, Marker(style), second) == end
    requires MatchCreated(text[0..end]) == Some(created) && MatchGithubUser(text[0..end]) == Some(user)
    ensures Locate(text, style) == Some(HeaderSpan(0, end, Some(created), Some(user)))
  {
    LocateIs(text, style, second, end);
  }

  /** The search for the second marker when the first is at the very start. */
  function SearchAfterOpening(text: string, m: string): int
  {
    IndexOf(text, m, |m|)
  }

  /** A text that starts with the marker: the search reports it and the next
      copy found after it. */
  lemma MarkersFromStart(text: string, m: string, second: nat)
    requires OccursAt(text, m, 0) && SearchAfterOpening(text, m) == second
    ensures OccursAt(text, m, second) && Markers(text, m) == Some((0, second))
  {
    IndexOfIs(text, m, 0, 0);
    MarkersFound(text, m, 0, second);
  }

  /** The markers a search finds. */
  lemma MarkersFound(text: string, m: string, first: nat, second: nat)
    requires IndexOf(text, m, 0) == first
    requires IndexOf(text, m, first + |m|) == second
    ensures Markers(text, m) == Some((first, second))
  {
  }

  /** No header is found exactly when the text lacks two non-overlapping markers;
      a lone border is never taken for a header. */
  lemma LocateNoneIff(text: string, style: CommentStyle)
    ensures Locate(text, style).None? <==> !HasTwoMarkers(text, Marker(style))
  {
    MarkersNoneIff(text, Marker(style));
  }

  /** The marker search fails exactly when there are no two markers. */
  lemma MarkersNoneIff(text: string, m: string)
    ensures Markers(text, m).None? <==> !HasTwoMarkers(text, m)
  {
    var first := IndexOf(text, m, 0);
    if first != -1 {
      var second := IndexOf(text, m, first + |m|);
      if second == -1 {
        NoSecondMarker(text, m, first);
      } else {
        assert OccursAt(text, m, first) && OccursAt(text, m, second);
      }
    }
  }

  /** Two copies of the marker, the second after the first. */
  lemma TwoMarkers(text: string, m: string, i: nat, j: nat)
    requires OccursAt(text, m, i) && OccursAt(text, m, j) && i + |m| <= j
    ensures HasTwoMarkers(text, m)
  {
  }

  /** Any two non-overlapping markers start with one at or after the first. */
  lemma NoSecondMarker(text: string, m: string, first: nat)
    requires IndexOf(text, m, 0) == first && IndexOf(text, m, first + |m|) == -1
    ensures !HasTwoMarkers(text, m)
  {
  }

  /** `extractHeaderRanges`: the marker searches, the span widened step by
      step, and the loop that absorbs the newlines after it. */
  method ExtractHeaderRanges(text: string, style: CommentStyle) returns (r: Option<HeaderSpan>)
    ensures r == Locate(text, style)
    ensures r.Some? ==> r.value.start < r.value.end <= |text|
  {
    var marker := style.line + Border + style.end;
    assert marker == Marker(style);
    var firstMarkerIdx := IndexOf(text, marker, 0);
    if firstMarkerIdx == -1 {
      assert Locate(text, style) == None;
      return None;
    }
    var secondMarkerIdx := IndexOf(text, marker, firstMarkerIdx + |marker|);
    if secondMarkerIdx == -1 {
      assert Locate(text, style) == None;
      return None;
    }
    var headerStart := firstMarkerIdx;
    if style.start != "" {
      var startDelimiter := LastIndexOf(text, style.start, firstMarkerIdx);
      if startDelimiter != -1 {
        headerStart := startDelimiter;
      }
    }
    var headerEnd := secondMarkerIdx + |marker|;
    if style.end != "" {
      var endDelimiter := IndexOf(text, style.end, secondMarkerIdx);
      if endDelimiter != -1 {
        headerEnd := endDelimiter + |style.end|;
      }
    }
    assert headerStart == SpanStart(text, style, firstMarkerIdx);
    assert headerEnd == EndSearch(text, style, marker, secondMarkerIdx);
    headerEnd := AbsorbNewlines(text, headerEnd);
    var headerText := text[headerStart..headerEnd];
    r := Some(HeaderSpan(headerStart, headerEnd, MatchCreated(headerText), MatchGithubUser(headerText)));
    assert r == Locate(text, style) by {
      MarkersFound(text, marker, firstMarkerIdx, secondMarkerIdx);
      LocateFound(text, style, firstMarkerIdx, secondMarkerIdx);
    }
  }

  /** The loop that moves the end of the span past the newlines that follow it. */
  method AbsorbNewlines(text: string, from: nat) returns (end: nat)
    requires from <= |text|
    ensures end == RunEnd(text, from, IsNewline)
    ensures from <= end <= |text| && (end == |text| || text[end] != '\n')
    ensures forall k :: from <= k < end ==> text[k] == '\n'
  {
    end := from;
    while end < |text| && text[end] == '\n'
      invariant from <= end <= |text|
      invariant RunEnd(text, end, IsNewline) == RunEnd(text, from, IsNewline)
      invariant forall k :: from <= k < end ==> text[k] == '\n'
      decreases |text| - end
    {
      end := end + 1;
    }
  }
}
