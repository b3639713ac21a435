# Insight text formatter

This project models the text formatter of the patient dashboard's AI insight card
(`formatInsightText` and its inner helper `renderMarkdownLine`). The formatter turns
the plan text returned by the insight service into rendered lines. It handles a small
subset of markdown:

- The text is cut at every `'\n'`. Each line is trimmed of surrounding whitespace.
- A trimmed line that starts with `"* "` is a list item. Its content is the rest of
  the line after those two characters.
- An empty trimmed line is a line break.
- Every other line is a paragraph whose content is the whole trimmed line.
- The content of list items and paragraphs is cut at every `**`. Pieces at odd
  positions become bold, and the other pieces stay plain.
- An empty text gives no output at all (`null`).

The model replaces the rendered elements with values:

- a `LineNode` is `Paragraph(runs)`, `ListItem(runs)` or `BlankLine`;
- a `Run` is `Plain(text)` or `Emphasized(text)`;
- the result is an `Option<seq<LineNode>>`, where `None` stands for `null`.

Files:

- `wrappers.dfy` (module `Wrappers`): the `Option` type.
- `js_string.dfy` (module `JsString`): the ECMAScript string built-ins the formatter
  calls, as functions over `seq<char>`: `trim` and `startsWith`, and `split` with a
  non-empty separator. Each comes with the lemmas that pin it down. `Split` follows
  ECMAScript's `StringIndexOf` loop: it cuts at the first occurrence, then resumes
  after it. `IndexOf` models that search step. `Join`, which behaves like
  `Array.prototype.join`, is the inverse that `Split`'s contract is stated with; the
  formatter itself never calls it. The `substring(2)` at line 38 is the slice
  `line[2..]` in `FormatLine`.
- `insight_text.dfy` (module `InsightText`): the formatter itself and its properties.
- `insight_scenarios.dfy` (module `InsightScenarios`): concrete inputs and their runs.

Every function is total. No input raises an error, including an unmatched `**`.

## Edge cases

- **Empty text.** The empty text gives `null`, not an empty list of lines
  (`components/AIPInsightCard.tsx:16`). The model returns `None`, and
  `FormatInsightText` states that `None` comes exactly from the empty text.
- **Padded list items.** The whole line is trimmed before the marker test
  (`components/AIPInsightCard.tsx:34`), so `"   * trimmed   "` is
  `ListItem([Plain("trimmed")])`, without its trailing blanks. The model states
  this in general: `FormatPaddedLine` (padding never changes a node) together with
  `FormatUnpaddedListItem` (`"* " + item` is a list item over `item`).

## Model

| member | source | states |
|---|---|---|
| `InsightText.FormatInsightText` | components/AIPInsightCard.tsx:15-16 | Returns no document exactly when the text is empty. Otherwise the document has one node per `'\n'` in the text, plus one. |
| `InsightText.FormatLine` | components/AIPInsightCard.tsx:33-56 | One line of the map: trim, then list item, blank line or paragraph. It carries no contract of its own; `FormatLineKind`, `FormatListItemContent` and `FormatParagraphContent` state what it gives. |
| `InsightText.FormatsEachSourceLine` | components/AIPInsightCard.tsx:31-33 | For any cut of a non-empty text into newline-free lines that joins back to the text, the document has one node per line, and node `i` is line `i` formatted. So lines are neither merged, dropped nor reordered. |
| `InsightText.FormatSingleLine` | components/AIPInsightCard.tsx:31-33 | A non-empty text without a newline is a document with exactly one node: that line formatted. |
| `InsightText.FormatLineKind` | components/AIPInsightCard.tsx:34-55 | It works on the trimmed line. A line is `BlankLine` exactly when it is all whitespace. It is `ListItem` exactly when its trimmed form starts with `"* "`. It is `Paragraph` exactly in every other case. The marker test comes before the emptiness test. |
| `InsightText.FormatListItemContent` | components/AIPInsightCard.tsx:37-41 | A list item's trimmed line is `"* "` followed by its runs joined with `**`, so the leading marker is not part of any run. Its runs are the run decomposition of the trimmed line with its first two characters removed. |
| `InsightText.FormatParagraphContent` | components/AIPInsightCard.tsx:52-55 | A paragraph's runs are the run decomposition of the whole trimmed line. |
| `InsightText.FormatListLine` | components/AIPInsightCard.tsx:37-38 | A line whose trimmed form is `"* " + c` is `ListItem` of the runs of `c`. |
| `InsightText.FormatParagraphLine` | components/AIPInsightCard.tsx:52-55 | A line whose trimmed form is non-empty and has no marker is `Paragraph` of the runs of that trimmed form. |
| `InsightText.FormatUnpaddedListItem` | components/AIPInsightCard.tsx:37-41 | `"* " + item`, with no whitespace at either end, is a list item over `item`. |
| `InsightText.FormatUnpaddedParagraph` | components/AIPInsightCard.tsx:52-55 | A non-empty line with no whitespace at its ends and no marker is a paragraph over all of it. |
| `InsightText.FormatBlankLine` | components/AIPInsightCard.tsx:47-48 | A line of nothing but whitespace (the empty line included) is `BlankLine`. |
| `InsightText.FormatPaddedLine` | components/AIPInsightCard.tsx:34 | Surrounding an unpadded line with whitespace does not change its node. |
| `InsightText.FormatLineIgnoresPadding` | components/AIPInsightCard.tsx:34 | Formatting the trimmed line gives the same node as formatting the raw line. |
| `InsightText.RenderMarkdownLine` | components/AIPInsightCard.tsx:19-28 | There is one run per `**` found by a left-to-right, non-overlapping scan, plus one, so empty pieces are kept. Run `i` is `Emphasized` exactly when `i` is odd. Joining the run texts with `**` gives back the line. The pieces are the leftmost cut. |
| `InsightText.RunsFreeOfBold` | components/AIPInsightCard.tsx:21-22 | No run text contains `**`. |
| `InsightText.RenderUnique` | components/AIPInsightCard.tsx:21-27 | Any alternating run sequence that is a leftmost cut of a line at `**`, and joins back to it, equals `RenderMarkdownLine` of that line. |
| `InsightText.RenderWithoutBold` | components/AIPInsightCard.tsx:21-27 | A line without `**` is the single plain run of the whole line. |
| `InsightText.RenderWithoutStar` | components/AIPInsightCard.tsx:21-27 | A line without any `*` is the single plain run of the whole line. |
| `InsightText.SourceLines` | components/AIPInsightCard.tsx:32 | The lines of a text contain no `'\n'`, and joining them with `'\n'` gives back the text. |
| `JsString.IsWhitespace` | components/AIPInsightCard.tsx:34 | The characters `trim` removes: ECMAScript's WhiteSpace and LineTerminator code points (tab, line feed, vertical tab, form feed, carriage return, space, U+00A0, U+1680, U+2000-U+200A, U+2028, U+2029, U+202F, U+205F, U+3000, U+FEFF). It is a definition with no contract. |
| `JsString.Trim` | components/AIPInsightCard.tsx:34 | The result sits inside the input with only whitespace before and after it. Neither of its ends is whitespace. |
| `JsString.TrimStart` | components/AIPInsightCard.tsx:34 | The result is a suffix of the input, and everything removed is whitespace. The result is empty or starts with a non-whitespace character. |
| `JsString.TrimEnd` | components/AIPInsightCard.tsx:34 | The result is a prefix of the input, and everything removed is whitespace. The result is empty or ends with a non-whitespace character. |
| `JsString.TrimUnique` | components/AIPInsightCard.tsx:34 | Any unpadded string that some input pads with whitespace is that input's trim. |
| `JsString.TrimEmptyIff` | components/AIPInsightCard.tsx:34 | Trimming gives the empty string exactly when the input is all whitespace. |
| `JsString.TrimIdempotent` | components/AIPInsightCard.tsx:34 | Trimming twice is the same as trimming once. |
| `JsString.TrimPadded` | components/AIPInsightCard.tsx:34 | Whitespace on both sides of an unpadded string is exactly what trimming removes. |
| `JsString.TrimUnpadded` | components/AIPInsightCard.tsx:34 | A string with no whitespace at either end is its own trim. |
| `JsString.StartsWith` | components/AIPInsightCard.tsx:37 | `line.startsWith(prefix)`: the string is at least as long as `prefix` and begins with it. It is a definition with no contract; `StartsWithRest` characterises it. |
| `JsString.StartsWithRest` | components/AIPInsightCard.tsx:37-38 | A string starts with a prefix exactly when it is that prefix followed by the rest of the string. So the slice after the prefix is what follows the marker. |
| `JsString.IndexOf` | components/AIPInsightCard.tsx:21 | The `StringIndexOf` step of `split`, for a non-empty separator. The result is the first index at or after `from` where the separator occurs. `None` means there is no such index. |
| `JsString.Split` | components/AIPInsightCard.tsx:21 | The result has at least one piece, and joining the pieces with the separator gives back the input. No piece holds the separator. No piece except the last holds an occurrence that runs into the separator after it. |
| `JsString.SplitUnique` | components/AIPInsightCard.tsx:21 | Any leftmost cut of the input that joins back to it is the result of `Split`. |
| `JsString.SplitSingleIff` | components/AIPInsightCard.tsx:21 | The input splits into just itself exactly when it does not contain the separator. |
| `JsString.SplitCount` | components/AIPInsightCard.tsx:21 | The number of pieces is the number of non-overlapping occurrences from a left-to-right scan, plus one. |
| `JsString.OccurrencesSkip` | components/AIPInsightCard.tsx:21 | Skipping a prefix in which no occurrence starts does not change the count. |
| `JsString.OccurrencesOfChar` | components/AIPInsightCard.tsx:32 | For a one-character separator, the scan counts every occurrence of that character. |
| `JsString.ContainsCharIff` | components/AIPInsightCard.tsx:32 | A string contains the one-character separator exactly when it contains that character. |
| `JsString.NotContainsWithoutFirst` | components/AIPInsightCard.tsx:21 | A string without the separator's first character does not contain the separator. |
| `InsightScenarios.PlainLine` | components/AIPInsightCard.tsx:21-27 | `"Drink 2 L of water daily."` gives a single plain run of the whole line. |
| `InsightScenarios.TripleStarSplit` | components/AIPInsightCard.tsx:21 | `"***"` splits on `**` into `["", "*"]`. |
| `InsightScenarios.EmptyTextHasNoDocument` | components/AIPInsightCard.tsx:16 | The empty text gives no document. |
| `InsightScenarios.UnterminatedBold` | components/AIPInsightCard.tsx:21-28 | `"a **b"` gives `[Plain("a "), Emphasized("b")]`. |
| `InsightScenarios.AdjacentDelimiters` | components/AIPInsightCard.tsx:21-27 | `"****"` gives an empty emphasized run between two empty plain runs. |
| `InsightScenarios.BoldRuns` | components/AIPInsightCard.tsx:21-27 | `"a **b** c"` gives `[Plain("a "), Emphasized("b"), Plain(" c")]`. |

## Left out

- The `AIPInsightCard` component (components/AIPInsightCard.tsx:60-165) is UI glue, so it is not modelled. This covers:
  - the HTTP request to the insight service and the JSON parsing (lines 72-109);
  - React state and the re-fetch when the patient changes (lines 67-70, 111-115);
  - the locale- and clock-dependent timestamp (line 98);
  - the card layout.
- Rendering details are not modelled: React `key` props, class names and the concrete elements (`<strong>`, `<span>`, `<li>`, `<p>`, `<br>`). They are replaced by the `Run` and `LineNode` values.
- pages/PatientDetailsPage.tsx is not modelled. It only passes constant props to a component that is not part of this model.
- `FormatInsightText` takes a string. The source's `!text` test would also map `null` or `undefined` to `null`. Its TypeScript type admits only strings, so those inputs are not modelled.
- Strings are sequences of Unicode code points. JavaScript strings are UTF-16 code units. Every character the formatter tests (`'\n'`, `'*'`, `' '` and the whitespace set) is a single code unit, so the results agree. Lone surrogates cannot be represented.
- `IndexOf` requires a non-empty separator. It is only the search step inside `split`; `String.prototype.indexOf` itself, with its clamping of the start position to the string length and its empty-separator case, is not modelled because the formatter never calls it.
- `Split` requires a non-empty separator. The source only splits on `"\n"` and `"**"`. Splitting on the empty string behaves differently in JavaScript and is not modelled.
- Whole-document examples with literal inputs, such as `"a\n\nb"` or `"* item one"`, are not stated as separate lemmas. Dafny's evaluation of the formatter on literals is too costly to verify. These cases follow from general lemmas instead:
  - `FormatsEachSourceLine`, `FormatSingleLine`, `FormatBlankLine`, `FormatUnpaddedParagraph`, `FormatUnpaddedListItem` and `FormatPaddedLine` give the node for each line;
  - the `InsightScenarios` lemmas give the runs.
