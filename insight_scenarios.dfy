/** Concrete inputs and the documents the formatter gives for them. */
module InsightScenarios {
  import opened Wrappers
  import opened JsString
  import opened InsightText

  /** A line without any `*` is one plain run, whatever else it holds. */
  lemma PlainLine()
    ensures RenderMarkdownLine("Drink 2 L of water daily.") == [Plain("Drink 2 L of water daily.")]
  {
    RenderWithoutStar("Drink 2 L of water daily.");
  }

  /** Splitting is non-overlapping and left to right: `***` is an empty piece, then `*`. */
  lemma TripleStarSplit()
    ensures Split("***", "**") == ["", "*"]
  {
    assert !Contains("*", "**");
    assert !Contains("" + "*", "**");
    SplitUnique("***", "**", ["", "*"]);
  }

  lemma EmptyTextHasNoDocument()
    ensures FormatInsightText("") == None
  {
  }

  /** An unterminated delimiter still makes the rest of the line emphasized. */
  lemma UnterminatedBold()
    ensures RenderMarkdownLine("a **b") == [Plain("a "), Emphasized("b")]
  {
    var runs := [Plain("a "), Emphasized("b")];
    assert Texts(runs) == ["a ", "b"];
    NotContainsWithoutFirst("a ", Bold);
    NotContainsWithoutFirst("b", Bold);
    assert !Contains("a " + "*", Bold);
    RenderUnique(runs, "a **b");
  }

  /** Adjacent delimiters give an empty emphasized run between two empty plain runs. */
  lemma AdjacentDelimiters()
    ensures RenderMarkdownLine("****") == [Plain(""), Emphasized(""), Plain("")]
  {
    var runs := [Plain(""), Emphasized(""), Plain("")];
    assert Texts(runs) == ["", "", ""];
    assert !Contains("" + "*", Bold);
    RenderUnique(runs, "****");
  }

  /** Pieces at odd positions are emphasized. */
  lemma BoldRuns()
    ensures RenderMarkdownLine("a **b** c") == [Plain("a "), Emphasized("b"), Plain(" c")]
  {
    var runs := [Plain("a "), Emphasized("b"), Plain(" c")];
    assert Texts(runs) == ["a ", "b", " c"];
    NotContainsWithoutFirst("a ", Bold);
    NotContainsWithoutFirst("b", Bold);
    NotContainsWithoutFirst(" c", Bold);
    assert !Contains("a " + "*", Bold);
    assert !Contains("b" + "*", Bold);
    RenderUnique(runs, "a **b** c");
  }
}
