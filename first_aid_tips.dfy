/**
 * The advice formatter of the first-aid page (`formatAdvice`). The text is
 * cut at the marker "Disclaimer:"; what comes before the first marker is
 * shown line by line, and the text between the first and second marker is
 * shown as the disclaimer when it is not empty. The paragraphs of the page
 * are replaced by the sequence of lines and the optional disclaimer text.
 */
module FirstAidTips {
  import opened Wrappers
  import opened JsString

  const Marker: string := "Disclaimer:"
  const Newline: string := "\n"

  /** What the formatter renders: one paragraph per line, then the disclaimer paragraph if there is one. */
  datatype Advice = Advice(lines: seq<string>, disclaimer: Option<string>)

  /** `formatAdvice`: nothing for a null or empty text, otherwise the lines and the optional disclaimer. */
  function FormatAdvice(text: Option<string>): (r: Option<Advice>)
    ensures r.None? <==> text.None? || text.value == ""
  {
    if text.None? || text.value == "" then None
    else
      var parts := Split(text.value, Marker);
      var mainAdvice := Split(parts[0], Newline);
      var disclaimer := if |parts| > 1 && parts[1] != "" then Some(parts[1]) else None;
      Some(Advice(mainAdvice, disclaimer))
  }

  /** The text before the first marker, or all of it when there is none. */
  function MainPart(text: string): string
  {
    match IndexOf(text, Marker)
    case None => text
    case Some(i) => text[..i]
  }

  /** The text after the first marker, if there is one. */
  function AfterMarker(text: string): Option<string>
  {
    match IndexOf(text, Marker)
    case None => None
    case Some(i) => Some(text[i + |Marker|..])
  }

  /** The text between the first and the second marker (or the end), empty when there is no marker. */
  function DisclaimerSegment(text: string): string
  {
    match AfterMarker(text)
    case None => ""
    case Some(rest) => MainPart(rest)
  }

  /**
   * The formatter against its reference definition: the lines are the text
   * before the first marker split at newlines, and the disclaimer is present
   * exactly when the segment after the first marker is non-empty, and is
   * that segment.
   */
  lemma FormatAdviceMeaning(text: string)
    requires text != ""
    ensures FormatAdvice(Some(text)) == Some(Advice(
      Split(MainPart(text), Newline),
      if DisclaimerSegment(text) == "" then None else Some(DisclaimerSegment(text))))
  {
    SplitFirst(text, Marker);
    match IndexOf(text, Marker)
    case None =>
    case Some(i) =>
      SplitFirst(text[i + |Marker|..], Marker);
  }

  /** A null or an empty text renders nothing. */
  lemma EmptyAdviceRendersNothing()
    ensures FormatAdvice(None) == None
    ensures FormatAdvice(Some("")) == None
  {
  }

  /** Without a marker there is no disclaimer and the lines are the whole text split at newlines. */
  lemma NoMarkerNoDisclaimer(text: string)
    requires text != "" && IndexOf(text, Marker) == None
    ensures FormatAdvice(Some(text)) == Some(Advice(Split(text, Newline), None))
  {
    FormatAdviceMeaning(text);
  }

  /** Joining the lines with newlines gives back exactly the text before the first marker. */
  lemma LinesRoundTrip(text: string)
    requires text != ""
    ensures Join(FormatAdvice(Some(text)).value.lines, Newline) == MainPart(text)
  {
    FormatAdviceMeaning(text);
    SplitJoin(MainPart(text), Newline);
  }

  /** There is one line more than there are newlines before the first marker. */
  lemma LineCount(text: string)
    requires text != ""
    ensures |FormatAdvice(Some(text)).value.lines| == multiset(MainPart(text))['\n'] + 1
  {
    FormatAdviceMeaning(text);
    SplitCharCount(MainPart(text), '\n');
  }

  /** No line holds a newline. */
  lemma LinesHaveNoNewline(text: string)
    requires text != ""
    ensures forall k :: 0 <= k < |FormatAdvice(Some(text)).value.lines| ==>
              '\n' !in FormatAdvice(Some(text)).value.lines[k]
  {
    FormatAdviceMeaning(text);
    PiecesHaveNoChar(MainPart(text), '\n');
  }

  /** A text that starts with the marker has a single empty line. */
  lemma LeadingMarkerOneEmptyLine(text: string)
    requires |Marker| <= |text| && text[..|Marker|] == Marker
    ensures FormatAdvice(Some(text)).value.lines == [""]
  {
    assert OccursAt(text, Marker, 0);
    IndexOfFirst(text, Marker, 0);
    FormatAdviceMeaning(text);
    assert MainPart(text) == "";
    assert IndexOf("", Newline) == None;
  }

  /** A text whose first marker is at its very end gets no disclaimer. */
  lemma TrailingMarkerNoDisclaimer(text: string, i: nat)
    requires IndexOf(text, Marker) == Some(i) && i + |Marker| == |text|
    ensures FormatAdvice(Some(text)).value.disclaimer == None
  {
    assert AfterMarker(text) == Some("");
    assert IndexOf("", Marker) == None;
    assert DisclaimerSegment(text) == "";
    FormatAdviceMeaning(text);
  }

  /** The rendering depends on the text only through its main part and its disclaimer segment. */
  lemma SamePartsSameAdvice(t1: string, t2: string)
    requires t1 != "" && t2 != ""
    requires MainPart(t1) == MainPart(t2) && DisclaimerSegment(t1) == DisclaimerSegment(t2)
    ensures FormatAdvice(Some(t1)) == FormatAdvice(Some(t2))
  {
    FormatAdviceMeaning(t1);
    FormatAdviceMeaning(t2);
  }

  /**
   * Only the first two pieces are used: two texts that agree up to the end
   * of the second marker render the same, whatever follows it.
   */
  lemma TextAfterSecondMarkerIgnored(t1: string, t2: string, i: nat, j: nat)
    requires IndexOf(t1, Marker) == Some(i)
    requires IndexOf(t1[i + |Marker|..], Marker) == Some(j)
    requires i + |Marker| + j + |Marker| <= |t2|
    requires t2[..i + |Marker| + j + |Marker|] == t1[..i + |Marker| + j + |Marker|]
    ensures FormatAdvice(Some(t1)) == FormatAdvice(Some(t2))
  {
    var start := i + |Marker|;
    SecondSegmentAgrees(t1, t2, start, j);
    FirstSegmentAgrees(t1, t2, i, start + j + |Marker|);
    SamePartsSameAdvice(t1, t2);
  }

  /** Two texts that agree past the end of the first marker agree on the piece before it and on where it ends. */
  lemma FirstSegmentAgrees(t1: string, t2: string, i: nat, n: nat)
    requires IndexOf(t1, Marker) == Some(i)
    requires i + |Marker| <= n <= |t1| && n <= |t2| && t2[..n] == t1[..n]
    ensures MainPart(t1) == MainPart(t2)
    ensures AfterMarker(t1) == Some(t1[i + |Marker|..]) && AfterMarker(t2) == Some(t2[i + |Marker|..])
  {
    IndexOfCommonPrefix(t1, t2, Marker, i, n);
  }

  /** Two texts that agree up to the end of the marker found at `j` after `start` agree on the piece before it. */
  lemma SecondSegmentAgrees(t1: string, t2: string, start: nat, j: nat)
    requires start <= |t1| && IndexOf(t1[start..], Marker) == Some(j)
    requires start + j + |Marker| <= |t2|
    requires t2[..start + j + |Marker|] == t1[..start + j + |Marker|]
    ensures MainPart(t1[start..]) == MainPart(t2[start..])
  {
    var n := j + |Marker|;
    DropCommonPrefix(t1, t2, start + n, start);
    IndexOfCommonPrefix(t1[start..], t2[start..], Marker, j, n);
  }
}
