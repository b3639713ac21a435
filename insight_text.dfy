/**
  The insight card's text formatter: a raw text blob becomes one line node per
  `'\n'`-separated line, each line classified as a list item, a blank line or a
  paragraph, and the content of list items and paragraphs cut into plain and
  emphasized runs at every `**`. Rendered elements are replaced by these values.
 */
module InsightText {
  import opened Wrappers
  import opened JsString

  /** A span of text, shown plainly or emphasized (the source renders the latter bold). */
  datatype Run = Plain(text: string) | Emphasized(text: string)

  /** One rendered line: a paragraph, a list item or a line break. */
  datatype LineNode =
    | Paragraph(runs: seq<Run>)
    | ListItem(runs: seq<Run>)
    | BlankLine

  /** The bold delimiter. */
  const Bold: string := "**"

  /** The list-item marker a trimmed line may start with. */
  const ListMarker: string := "* "

  /** The text of each run, in order. */
  function Texts(runs: seq<Run>): (texts: seq<string>)
    ensures |texts| == |runs|
    ensures forall i :: 0 <= i < |runs| ==> texts[i] == runs[i].text
  {
    seq(|runs|, i requires 0 <= i < |runs| => runs[i].text)
  }

  /** Runs alternate plain, emphasized, plain, ... starting with a plain run. */
  predicate Alternating(runs: seq<Run>) {
    forall i :: 0 <= i < |runs| ==> (runs[i].Emphasized? <==> i % 2 == 1)
  }

  /** `runs` is the run decomposition of `content`: the runs alternate, their texts are
      the left-to-right cut of `content` at `**`, and joining them back with `**`
      gives `content`. */
  predicate RunsOf(runs: seq<Run>, content: string) {
    && Alternating(runs)
    && Join(Texts(runs), Bold) == content
    && LeftmostPieces(Texts(runs), Bold)
  }

  /** `renderMarkdownLine`: split the line on `**`; pieces at odd positions were
      between delimiters and become emphasized, the others plain. */
  function RenderMarkdownLine(line: string): (runs: seq<Run>)
    ensures |runs| == Occurrences(line, Bold) + 1
    ensures RunsOf(runs, line)
  {
    var parts := Split(line, Bold);
    SplitCount(line, Bold);
    var runs := seq(|parts|, i requires 0 <= i < |parts| =>
                  if i % 2 == 1 then Emphasized(parts[i]) else Plain(parts[i]));
    assert Texts(runs) == parts;
    runs
  }

  /** One iteration of the map over lines: trim, then classify. The slice `line[2..]`
      is `line.substring(2)`, which drops the marker. */
  function FormatLine(raw: string): LineNode {
    var line := Trim(raw);
    if StartsWith(line, ListMarker) then
      ListItem(RenderMarkdownLine(line[2..]))
    else if |line| == 0 then
      BlankLine
    else
      Paragraph(RenderMarkdownLine(line))
  }

  /** A line is blank exactly when it holds nothing but whitespace, and a list item
      exactly when its trimming starts with the marker; every other line is a paragraph. */
  lemma FormatLineKind(raw: string)
    ensures FormatLine(raw) == BlankLine <==> AllWhitespace(raw)
    ensures FormatLine(raw).ListItem? <==> StartsWith(Trim(raw), ListMarker)
    ensures FormatLine(raw).Paragraph? <==> !AllWhitespace(raw) && !StartsWith(Trim(raw), ListMarker)
  {
    TrimEmptyIff(raw);
  }

  /** A list item holds the runs of its trimmed line after the leading marker, which
      is not part of any run. */
  lemma FormatListItemContent(raw: string)
    ensures FormatLine(raw).ListItem? ==>
              && Trim(raw) == ListMarker + Join(Texts(FormatLine(raw).runs), Bold)
              && RunsOf(FormatLine(raw).runs, Trim(raw)[|ListMarker|..])
  {
    var line := Trim(raw);
    if StartsWith(line, ListMarker) {
      StartsWithRest(line, ListMarker);
      FormatListLine(raw, line[|ListMarker|..]);
    }
  }

  /** A paragraph holds the runs of its whole trimmed line. */
  lemma FormatParagraphContent(raw: string)
    ensures FormatLine(raw).Paragraph? ==> RunsOf(FormatLine(raw).runs, Trim(raw))
  {
  }

  /** `formatInsightText`: no document for the empty text; otherwise one node per line. */
  function FormatInsightText(text: string): (doc: Option<seq<LineNode>>)
    ensures doc.None? <==> text == ""
    ensures doc.Some? ==> |doc.value| == multiset(text)['\n'] + 1
  {
    if |text| == 0 then None
    else
      var lines := Split(text, "\n");
      SplitCount(text, "\n");
      OccurrencesOfChar(text, '\n');
      Some(seq(|lines|, i requires 0 <= i < |lines| => FormatLine(lines[i])))
  }

  /** The document's nodes are the source lines formatted in order: for any cut of the
      text into newline-free lines that joins back to the text, node `i` formats line `i`. */
  lemma {:induction false} FormatsEachSourceLine(text: string, lines: seq<string>)
    requires text != ""
    requires Join(lines, "\n") == text
    requires forall k :: 0 <= k < |lines| ==> '\n' !in lines[k]
    ensures FormatInsightText(text).Some?
    ensures |FormatInsightText(text).value| == |lines|
    ensures forall i :: 0 <= i < |lines| ==> FormatInsightText(text).value[i] == FormatLine(lines[i])
  {
    assert |lines| >= 1;
    forall k | 0 <= k < |lines| ensures !Contains(lines[k], "\n") {
      ContainsCharIff(lines[k], '\n');
    }
    assert "\n"[..0] == "";
    forall k | 0 <= k < |lines| - 1 ensures !Contains(lines[k] + "\n"[..0], "\n") {
      assert lines[k] + "\n"[..0] == lines[k];
    }
    SplitUnique(text, "\n", lines);
  }

  /** Every line of the text is newline-free, and the lines rejoin to the text. */
  lemma SourceLines(text: string)
    ensures Join(Split(text, "\n"), "\n") == text
    ensures forall k :: 0 <= k < |Split(text, "\n")| ==> '\n' !in Split(text, "\n")[k]
  {
    var lines := Split(text, "\n");
    forall k | 0 <= k < |lines| ensures '\n' !in lines[k] {
      ContainsCharIff(lines[k], '\n');
    }
  }

  /** No run of a decomposition holds the bold delimiter. */
  lemma RunsFreeOfBold(runs: seq<Run>, content: string)
    requires RunsOf(runs, content)
    ensures forall i :: 0 <= i < |runs| ==> !Contains(runs[i].text, Bold)
  {
    forall i | 0 <= i < |runs| ensures !Contains(runs[i].text, Bold) {
      assert Texts(runs)[i] == runs[i].text;
    }
  }

  /** The run decomposition of a line is unique: `RenderMarkdownLine` is the only
      alternating sequence of runs that cuts the line leftmost at `**`. */
  lemma RenderUnique(runs: seq<Run>, content: string)
    requires |runs| >= 1 && RunsOf(runs, content)
    ensures RenderMarkdownLine(content) == runs
  {
    var r := RenderMarkdownLine(content);
    SplitUnique(content, Bold, Texts(runs));
    SplitUnique(content, Bold, Texts(r));
    assert Texts(r) == Texts(runs);
    forall i | 0 <= i < |runs| ensures r[i] == runs[i] {
      assert Texts(r)[i] == Texts(runs)[i];
    }
  }

  /** Without a `**` a line is a single plain run holding all of it. */
  lemma RenderWithoutBold(line: string)
    requires !Contains(line, Bold)
    ensures RenderMarkdownLine(line) == [Plain(line)]
  {
    SplitSingleIff(line, Bold);
    assert Texts([Plain(line)]) == [line];
    RenderUnique([Plain(line)], line);
  }

  /** Without a `*` at all, a line is a single plain run. */
  lemma RenderWithoutStar(line: string)
    requires '*' !in line
    ensures RenderMarkdownLine(line) == [Plain(line)]
  {
    NotContainsWithoutFirst(line, Bold);
    RenderWithoutBold(line);
  }

  /** A line whose trimming starts with the marker is a list item over what follows it. */
  lemma FormatListLine(raw: string, content: string)
    requires Trim(raw) == ListMarker + content
    ensures FormatLine(raw) == ListItem(RenderMarkdownLine(content))
  {
    assert Trim(raw)[2..] == content;
  }

  /** Any other line with something besides whitespace is a paragraph over its trimming. */
  lemma FormatParagraphLine(raw: string)
    requires Trim(raw) != "" && !StartsWith(Trim(raw), ListMarker)
    ensures FormatLine(raw) == Paragraph(RenderMarkdownLine(Trim(raw)))
  {
  }

  /** A line with no whitespace at its ends that starts with the marker is a list item
      over the rest of it. */
  lemma FormatUnpaddedListItem(item: string)
    requires Unpadded(ListMarker + item)
    ensures FormatLine(ListMarker + item) == ListItem(RenderMarkdownLine(item))
  {
    TrimUnpadded(ListMarker + item);
    FormatListLine(ListMarker + item, item);
  }

  /** A non-empty line with no whitespace at its ends and no marker is a paragraph of
      all of it. */
  lemma FormatUnpaddedParagraph(line: string)
    requires line != "" && Unpadded(line) && !StartsWith(line, ListMarker)
    ensures FormatLine(line) == Paragraph(RenderMarkdownLine(line))
  {
    TrimUnpadded(line);
    FormatParagraphLine(line);
  }

  /** A line of nothing but whitespace is blank. */
  lemma FormatBlankLine(raw: string)
    requires AllWhitespace(raw)
    ensures FormatLine(raw) == BlankLine
  {
    FormatLineKind(raw);
  }

  /** Whitespace around a line does not change its node. */
  lemma FormatPaddedLine(lead: string, line: string, trail: string)
    requires AllWhitespace(lead) && AllWhitespace(trail) && Unpadded(line)
    ensures FormatLine(lead + line + trail) == FormatLine(line)
  {
    TrimPadded(lead, line, trail);
    TrimUnpadded(line);
  }

  /** A text without a newline is a document of one node. */
  lemma FormatSingleLine(text: string)
    requires text != "" && '\n' !in text
    ensures FormatInsightText(text) == Some([FormatLine(text)])
  {
    FormatsEachSourceLine(text, [text]);
    var doc := FormatInsightText(text).value;
    assert doc[0] == FormatLine(text);
    assert doc == [doc[0]];
  }

  /** Leading and trailing whitespace never changes how a line is formatted. */
  lemma FormatLineIgnoresPadding(raw: string)
    ensures FormatLine(Trim(raw)) == FormatLine(raw)
  {
    TrimIdempotent(raw);
  }
}
