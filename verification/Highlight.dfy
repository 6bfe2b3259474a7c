/**
  Highlight segments: every token is cut at the clipped ends of the diagnostics that touch it.

  Tokens and diagnostics come from the lexer and the parser, which are not modelled; the lexer's
  contract is that nonempty tokens tile the source.
*/
module Highlight {
  import opened Wrappers

  datatype Kind = Plain | Comment | Keyword | Literal | Text | Escape | Interpolation | Operator | Delimiter | Invalid

  /** A half-open range of byte offsets. */
  datatype Range = Range(start: nat, end: nat)

  /** A token with the highlight kind of its token kind. */
  datatype Token = Token(span: Range, kind: Kind)

  datatype Segment = Segment(kind: Kind, text: seq<Byte>)

  // ---------- Diagnostics ----------

  datatype Label = Label(primary: bool, span: Range)

  datatype ParseOutcome = Complete | Incomplete | Rejected(diagnostics: seq<seq<Label>>)

  function RangesOf(labels: seq<Label>): (ranges: seq<Range>)
    ensures forall r <- ranges :: r.start < r.end
  {
    if labels == [] then []
    else (if labels[0].primary && labels[0].span.start < labels[0].span.end then [labels[0].span] else []) + RangesOf(labels[1..])
  }

  function Flatten(diagnostics: seq<seq<Label>>): seq<Label> {
    if diagnostics == [] then [] else diagnostics[0] + Flatten(diagnostics[1..])
  }

  /** The nonempty primary spans of a rejected parse. */
  function ParserInvalidRanges(outcome: ParseOutcome): (ranges: seq<Range>)
    ensures forall r <- ranges :: r.start < r.end
  {
    if outcome.Rejected? then RangesOf(Flatten(outcome.diagnostics)) else []
  }

  // ---------- The reference: bytes ----------

  predicate Tiles(tokens: seq<Token>, length: nat) {
    && (forall i :: 0 <= i < |tokens| ==> tokens[i].span.start < tokens[i].span.end)
    && (forall i {:trigger tokens[i]} :: 0 < i < |tokens| ==> tokens[i].span.start == tokens[i - 1].span.end)
    && (if tokens == [] then length == 0 else tokens[0].span.start == 0 && tokens[|tokens| - 1].span.end == length)
  }

  predicate NonemptyRanges(ranges: seq<Range>) {
    forall r <- ranges :: r.start < r.end
  }

  predicate Covers(r: Range, offset: nat) { r.start <= offset < r.end }

  predicate IsInvalidByte(ranges: seq<Range>, offset: nat) {
    exists r <- ranges :: Covers(r, offset)
  }

  /** The kind a byte deserves: invalid if its token or a diagnostic says so, else its token's kind. */
  function ByteKind(token: Token, ranges: seq<Range>, offset: nat): Kind {
    if token.kind == Invalid || IsInvalidByte(ranges, offset) then Invalid else token.kind
  }

  predicate Disjoint(r: Range, from: nat, to: nat) { to <= r.start || r.end <= from }

  predicate Contains(r: Range, from: nat, to: nat) { r.start <= from && to <= r.end }

  // ---------- Boundaries ----------

  predicate Increasing(s: seq<nat>) {
    forall i, j :: 0 <= i < j < |s| ==> s[i] < s[j]
  }

  function InsertSorted(s: seq<nat>, x: nat): (r: seq<nat>)
    requires Increasing(s)
    ensures Increasing(r) && forall y :: y in r <==> y in s || y == x
  {
    if s == [] || s[|s| - 1] < x then s + [x]
    else
      var last, front := s[|s| - 1], s[..|s| - 1];
      assert s == front + [last];
      if last == x then s
      else
        var sorted := InsertSorted(front, x);
        assert forall k :: 0 <= k < |sorted| ==> sorted[k] in sorted;
        sorted + [last]
  }

  /** `sort_unstable` followed by `dedup`. */
  method SortAndDeduplicate(values: seq<nat>) returns (sorted: seq<nat>)
    ensures Increasing(sorted) && forall x :: x in sorted <==> x in values
  {
    sorted := [];
    for i := 0 to |values|
      invariant Increasing(sorted) && forall x :: x in sorted <==> x in values[..i]
    {
      assert values[..i + 1] == values[..i] + [values[i]];
      sorted := InsertSorted(sorted, values[i]);
    }
    assert values[..|values|] == values;
  }

  predicate Touches(r: Range, token: Range) { r.start < token.end && r.end > token.start }

  /** Where a token has to be cut, and nowhere else. */
  predicate IsBoundary(token: Range, ranges: seq<Range>, offset: nat) {
    || offset == token.start || offset == token.end
    || exists r <- ranges :: Touches(r, token) && (offset == Max(r.start, token.start) || offset == Min(r.end, token.end))
  }

  method Boundaries(token: Range, ranges: seq<Range>) returns (boundaries: seq<nat>)
    ensures Increasing(boundaries) && forall x :: x in boundaries <==> IsBoundary(token, ranges, x)
  {
    var cuts: seq<nat> := [token.start, token.end];
    for i := 0 to |ranges|
      invariant forall x :: x in cuts <==> IsBoundary(token, ranges[..i], x)
    {
      var range := ranges[i];
      assert ranges[..i + 1] == ranges[..i] + [range];
      if Touches(range, token) {
        cuts := cuts + [Max(range.start, token.start)] + [Min(range.end, token.end)];
      }
    }
    assert ranges[..|ranges|] == ranges;
    boundaries := SortAndDeduplicate(cuts);
  }

  /** Between two neighbouring boundaries no diagnostic starts or ends. */
  lemma NeighboursAreHomogeneous(token: Range, ranges: seq<Range>, boundaries: seq<nat>, i: nat, r: Range)
    requires token.start < token.end && Increasing(boundaries)
    requires forall x :: x in boundaries <==> IsBoundary(token, ranges, x)
    requires i + 1 < |boundaries| && r in ranges && r.start < r.end
    ensures token.start <= boundaries[i] < boundaries[i + 1] <= token.end
    ensures Contains(r, boundaries[i], boundaries[i + 1]) || Disjoint(r, boundaries[i], boundaries[i + 1])
  {
    var from, to := boundaries[i], boundaries[i + 1];
    assert from in boundaries && to in boundaries;
    if Touches(r, token) {
      NotBetween(boundaries, i, Max(r.start, token.start));
      NotBetween(boundaries, i, Min(r.end, token.end));
    }
  }

  lemma NotBetween(boundaries: seq<nat>, i: nat, x: nat)
    requires Increasing(boundaries) && i + 1 < |boundaries| && x in boundaries
    ensures x <= boundaries[i] || boundaries[i + 1] <= x
  {
    var k :| 0 <= k < |boundaries| && boundaries[k] == x;
  }

  // ---------- Segments ----------

  /**
    What one segment is: a nonempty piece of one token, cut only at boundaries of that token, which every
    diagnostic contains or avoids, and whose kind is the kind of each of its bytes.
   */
  ghost predicate SegmentOf(source: seq<Byte>, token: Token, ranges: seq<Range>, segment: Segment, from: nat, to: nat) {
    && token.span.start <= from < to <= token.span.end && to <= |source| && segment.text == source[from..to]
    && IsBoundary(token.span, ranges, from) && IsBoundary(token.span, ranges, to)
    && (forall r <- ranges :: Contains(r, from, to) || Disjoint(r, from, to))
    && (forall offset: nat :: from <= offset < to ==> segment.kind == ByteKind(token, ranges, offset))
  }

  ghost predicate SegmentOfSome(source: seq<Byte>, tokens: seq<Token>, ranges: seq<Range>, segment: Segment, from: nat, to: nat) {
    exists token <- tokens :: SegmentOf(source, token, ranges, segment, from, to)
  }

  /** The segments are laid end to end; `cuts` holds the offsets between them. */
  ghost predicate Segmented(source: seq<Byte>, tokens: seq<Token>, ranges: seq<Range>, segments: seq<Segment>, cuts: seq<nat>) {
    && |cuts| == |segments| + 1 && cuts[0] == 0
    && forall k :: 0 <= k < |segments| ==> SegmentOfSome(source, tokens, ranges, segments[k], cuts[k], cuts[k + 1])
  }

  /** `invalid_ranges.iter().any(..)` on one candidate segment. */
  method AnyOverlap(ranges: seq<Range>, from: nat, to: nat) returns (found: bool)
    ensures found <==> exists r <- ranges :: r.start < to && r.end > from
  {
    for i := 0 to |ranges|
      invariant forall r <- ranges[..i] :: !(r.start < to && r.end > from)
    {
      if ranges[i].start < to && ranges[i].end > from {
        return true;
      }
      assert ranges[..i + 1] == ranges[..i] + [ranges[i]];
    }
    assert ranges[..|ranges|] == ranges;
    found := false;
  }

  /** Neighbouring boundaries delimit a segment, invalid when the token is or any diagnostic overlaps. */
  lemma NeighboursDelimitASegment(source: seq<Byte>, token: Token, ranges: seq<Range>, boundaries: seq<nat>, i: nat, overlap: bool)
    requires token.span.start < token.span.end <= |source| && NonemptyRanges(ranges) && Increasing(boundaries)
    requires forall x :: x in boundaries <==> IsBoundary(token.span, ranges, x)
    requires i + 1 < |boundaries|
    requires overlap <==> exists r <- ranges :: r.start < boundaries[i + 1] && r.end > boundaries[i]
    ensures boundaries[i] < boundaries[i + 1] <= |source|
    ensures SegmentOf(source, token, ranges,
      Segment(if token.kind == Invalid || overlap then Invalid else token.kind, source[boundaries[i]..boundaries[i + 1]]),
      boundaries[i], boundaries[i + 1])
  {
    var from, to := boundaries[i], boundaries[i + 1];
    assert from in boundaries && to in boundaries;
    forall r | r in ranges ensures Contains(r, from, to) || Disjoint(r, from, to) {
      NeighboursAreHomogeneous(token.span, ranges, boundaries, i, r);
    }
    forall offset: nat | from <= offset < to ensures IsInvalidByte(ranges, offset) <==> overlap {
      if r :| r in ranges && r.start < to && r.end > from {
        assert Covers(r, offset);
      }
    }
  }

  method SegmentAt(source: seq<Byte>, token: Token, ranges: seq<Range>, boundaries: seq<nat>, i: nat) returns (segment: Segment)
    requires token.span.start < token.span.end <= |source| && NonemptyRanges(ranges) && Increasing(boundaries)
    requires forall x :: x in boundaries <==> IsBoundary(token.span, ranges, x)
    requires i + 1 < |boundaries|
    ensures SegmentOf(source, token, ranges, segment, boundaries[i], boundaries[i + 1])
  {
    var from, to := boundaries[i], boundaries[i + 1];
    var overlap := AnyOverlap(ranges, from, to);
    NeighboursDelimitASegment(source, token, ranges, boundaries, i, overlap);
    segment := Segment(if token.kind == Invalid || overlap then Invalid else token.kind, source[from..to]);
  }

  method AppendTokenSegments(output: seq<Segment>, source: seq<Byte>, token: Token, ranges: seq<Range>,
                             ghost tokens: seq<Token>, ghost before: seq<nat>)
    returns (segments: seq<Segment>, ghost cuts: seq<nat>)
    requires token in tokens && token.span.start < token.span.end <= |source| && NonemptyRanges(ranges)
    requires Segmented(source, tokens, ranges, output, before) && before[|output|] == token.span.start
    ensures Segmented(source, tokens, ranges, segments, cuts) && cuts[|segments|] == token.span.end
    ensures output <= segments
    ensures Concatenated(segments, |segments|) == Concatenated(output, |output|) + source[token.span.start..token.span.end]
  {
    var boundaries := Boundaries(token.span, ranges);
    EndsAreBoundaries(token.span, ranges, boundaries);
    segments, cuts := output, before;
    var i := 0;
    while i + 1 < |boundaries|
      invariant 0 <= i < |boundaries| && output <= segments
      invariant Segmented(source, tokens, ranges, segments, cuts) && cuts[|segments|] == boundaries[i]
    {
      var segment := SegmentAt(source, token, ranges, boundaries, i);
      SegmentedSnoc(source, tokens, ranges, segments, cuts, segment, boundaries[i + 1]);
      segments, cuts := segments + [segment], cuts + [boundaries[i + 1]];
      i := i + 1;
    }
    SegmentsConcatenateToTheSource(source, tokens, ranges, output, before, |output|);
    SegmentsConcatenateToTheSource(source, tokens, ranges, segments, cuts, |segments|);
    AppendedText(source, Concatenated(output, |output|), token.span.start, Concatenated(segments, |segments|), token.span.end);
  }

  lemma AppendedText(source: seq<Byte>, before: seq<Byte>, from: nat, after: seq<Byte>, to: nat)
    requires from <= to <= |source| && before == source[..from] && after == source[..to]
    ensures after == before + source[from..to]
  {
  }

  lemma SegmentedSnoc(source: seq<Byte>, tokens: seq<Token>, ranges: seq<Range>, segments: seq<Segment>, cuts: seq<nat>, segment: Segment, to: nat)
    requires Segmented(source, tokens, ranges, segments, cuts)
    requires SegmentOfSome(source, tokens, ranges, segment, cuts[|segments|], to)
    ensures Segmented(source, tokens, ranges, segments + [segment], cuts + [to])
  {
  }

  lemma EndsAreBoundaries(token: Range, ranges: seq<Range>, boundaries: seq<nat>)
    requires token.start < token.end && Increasing(boundaries)
    requires forall x :: x in boundaries <==> IsBoundary(token, ranges, x)
    ensures boundaries != [] && boundaries[0] == token.start && boundaries[|boundaries| - 1] == token.end
  {
    assert token.start in boundaries && token.end in boundaries;
    assert boundaries[0] in boundaries && boundaries[|boundaries| - 1] in boundaries;
  }

  /** The whole highlighter, for any tokens that tile the source. */
  method Highlight(source: seq<Byte>, tokens: seq<Token>, outcome: ParseOutcome) returns (segments: seq<Segment>, ghost cuts: seq<nat>)
    requires Tiles(tokens, |source|)
    ensures Segmented(source, tokens, ParserInvalidRanges(outcome), segments, cuts) && cuts[|segments|] == |source|
    ensures Concatenated(segments, |segments|) == source && forall k :: 0 <= k < |segments| ==> segments[k].text != []
  {
    var ranges := ParserInvalidRanges(outcome);
    segments, cuts := [], [0];
    for i := 0 to |tokens|
      invariant Segmented(source, tokens, ranges, segments, cuts)
      invariant cuts[|segments|] == if i == 0 then 0 else tokens[i - 1].span.end
    {
      TokensEndWithin(tokens, |source|, i);
      segments, cuts := AppendTokenSegments(segments, source, tokens[i], ranges, tokens, cuts);
    }
    SegmentsConcatenateToTheSource(source, tokens, ranges, segments, cuts, |segments|);
    assert source[..|source|] == source;
  }

  lemma {:induction false} TokensEndWithin(tokens: seq<Token>, length: nat, i: nat)
    requires Tiles(tokens, length) && i < |tokens|
    ensures tokens[i].span.end <= length
    decreases |tokens| - i
  {
    if i + 1 < |tokens| {
      TokensEndWithin(tokens, length, i + 1);
      assert tokens[i + 1].span.start == tokens[i].span.end;
    }
  }

  // ---------- What a segmentation means ----------

  function Concatenated(segments: seq<Segment>, n: nat): seq<Byte>
    requires n <= |segments|
  {
    if n == 0 then [] else Concatenated(segments, n - 1) + segments[n - 1].text
  }

  /** Nothing is lost, duplicated or reordered, and no segment is empty. */
  lemma {:induction false} SegmentsConcatenateToTheSource(source: seq<Byte>, tokens: seq<Token>, ranges: seq<Range>, segments: seq<Segment>, cuts: seq<nat>, n: nat)
    requires Segmented(source, tokens, ranges, segments, cuts) && n <= |segments|
    ensures cuts[n] <= |source| && Concatenated(segments, n) == source[..cuts[n]]
    ensures forall k :: 0 <= k < n ==> segments[k].text != []
  {
    if n > 0 {
      SegmentsConcatenateToTheSource(source, tokens, ranges, segments, cuts, n - 1);
      assert SegmentOfSome(source, tokens, ranges, segments[n - 1], cuts[n - 1], cuts[n - 1 + 1]);
      assert source[..cuts[n]] == source[..cuts[n - 1]] + source[cuts[n - 1]..cuts[n]];
    }
  }

  /** A segment is invalid exactly when its token is, or all of its bytes lie in diagnostics. */
  lemma InvalidExactlyWhen(source: seq<Byte>, token: Token, ranges: seq<Range>, segment: Segment, from: nat, to: nat)
    requires SegmentOf(source, token, ranges, segment, from, to)
    ensures segment.kind == Invalid <==>
      token.kind == Invalid || forall offset: nat :: from <= offset < to ==> IsInvalidByte(ranges, offset)
    ensures segment.kind != Invalid ==>
      segment.kind == token.kind && forall offset: nat :: from <= offset < to ==> !IsInvalidByte(ranges, offset)
  {
    assert segment.kind == ByteKind(token, ranges, from);
  }

  /** Cuts fall on token or diagnostic ends only, so slicing is safe when those are scalar boundaries. */
  lemma CutsAreGivenOffsets(source: seq<Byte>, token: Token, ranges: seq<Range>, segment: Segment, from: nat, to: nat, boundaries: set<nat>)
    requires SegmentOf(source, token, ranges, segment, from, to)
    requires token.span.start in boundaries && token.span.end in boundaries
    requires forall r <- ranges :: r.start in boundaries && r.end in boundaries
    ensures from in boundaries && to in boundaries
  {
  }
}
