/**
 * Concrete model outputs and what the output parser makes of them: a bare
 * final answer, a quoted tool call, and a final answer that follows an
 * Action-shaped block.
 */
module ParserScenarios {
  import opened Text
  import opened OutputParser

  /** " Hola!" stripped of whitespace is "Hola!". */
  lemma StripHola()
    ensures Strip(" Hola!", IsSpace) == "Hola!"
  {
    var t := " Hola!";
    assert TrimBounds(t, IsSpace, 1, 6);
    StripUnique(t, IsSpace, 1, 6);
    assert t[1..6] == "Hola!";
  }

  /** " Hola!" is too short to contain the marker. */
  lemma HolaHasNoMarker()
    ensures !Contains(" Hola!", FinalMarker)
  {
  }

  /** A response that is only a final answer finishes with the stripped answer. */
  lemma BareFinalAnswer(text: string)
    requires text == "Final Answer: Hola!"
    ensures Parse(text) == Ok(Finish("Hola!", text))
  {
    assert text == "" + FinalMarker + " Hola!";
    HolaHasNoMarker();
    StripHola();
    FinishTakesTextAfterLastMarker(text, "", " Hola!");
  }

  /** The reply of the scenario below: a complete tool call whose input
      runs on into a final answer. */
  function GreetingThenAnswer(): string {
    ActionText("Greeting", "hola\n" + FinalMarker + " Hola!")
  }

  /** A final answer after a complete tool call still finishes: the regular
      expression matches the tool call, yet the marker takes precedence. */
  lemma FinalAnswerWinsOverAction(text: string)
    requires text == GreetingThenAnswer()
    ensures IsRegexMatch(text, ActionTextMatch("Greeting", "hola\n" + FinalMarker + " Hola!"))
    ensures Parse(text) == Ok(Finish("Hola!", text))
  {
    ActionTextIsRegexMatch("Greeting", "hola\n" + FinalMarker + " Hola!");
    var pre := "Action: " + "Greeting" + "\nAction Input: " + "hola\n";
    assert text == pre + FinalMarker + " Hola!";
    HolaHasNoMarker();
    StripHola();
    FinishTakesTextAfterLastMarker(text, pre, " Hola!");
  }

  /** The tool call below has no 'F', hence no marker. */
  lemma PolicySearchHasNoMarker()
    ensures !Contains(ActionText("PolicySearch", "\"deductible amount\""), FinalMarker)
  {
    var text := ActionText("PolicySearch", "\"deductible amount\"");
    assert 'F' !in text;
    MissingLeadChar(text, FinalMarker);
  }

  /** "PolicySearch" has no surrounding whitespace. */
  lemma StripPolicySearch()
    ensures Strip("PolicySearch", IsSpace) == "PolicySearch"
  {
    var tool := "PolicySearch";
    assert TrimBounds(tool, IsSpace, 0, |tool|);
    StripUnique(tool, IsSpace, 0, |tool|);
  }

  /** A tool input wrapped in one pair of double quotes comes out
      unwrapped, provided the text inside neither starts nor ends with a
      quote. */
  lemma QuotedInputUnwrapped(middle: string)
    requires middle == [] || (!IsQuote(middle[0]) && !IsQuote(middle[|middle| - 1]))
    ensures Strip(Strip(['"'] + middle + ['"'], IsBlank), IsQuote) == middle
  {
    var w := ['"'] + middle + ['"'];
    assert TrimBounds(w, IsBlank, 0, |w|);
    StripUnique(w, IsBlank, 0, |w|);
    assert w[0..|w|] == w;
    assert forall k :: 1 <= k < |w| - 1 ==> w[k] == middle[k - 1];
    assert TrimBounds(w, IsQuote, 1, |w| - 1);
    StripUnique(w, IsQuote, 1, |w| - 1);
    assert w[1..|w| - 1] == middle;
  }

  /** The quoted input of the example, built from its parts. */
  lemma QuotedDeductibleParts()
    ensures ['"'] + "deductible amount" + ['"'] == "\"deductible amount\""
  {
  }

  /** The quoted input of the example loses its quotes. */
  lemma QuotedDeductible()
    ensures Strip(Strip("\"deductible amount\"", IsBlank), IsQuote) == "deductible amount"
  {
    QuotedDeductibleParts();
    QuotedInputUnwrapped("deductible amount");
  }

  /** The example satisfies the layout condition of `WellFormedAction`, and
      its input has no leading whitespace. */
  lemma PolicySearchWellFormed()
    ensures '\n' !in "PolicySearch"
    ensures Skip("\"deductible amount\"", 0, IsSpace) == 0
  {
    var input := "\"deductible amount\"";
    assert !IsSpace(input[0]);
    SkipExact(input, 0, 0, IsSpace);
  }

  /** A quoted tool input loses its quotes. */
  lemma PolicySearchCall(text: string)
    requires text == ActionText("PolicySearch", "\"deductible amount\"")
    ensures Parse(text) == Ok(Act(AgentAction("PolicySearch", "deductible amount", text)))
  {
    PolicySearchHasNoMarker();
    PolicySearchWellFormed();
    StripPolicySearch();
    QuotedDeductible();
    WellFormedAction("PolicySearch", "\"deductible amount\"");
    assert "\"deductible amount\""[0..] == "\"deductible amount\"";
  }

  /** Only spaces go before the quotes: a trailing newline survives
      `.strip(" ")` and then keeps the closing quote from `.strip('"')`. */
  lemma TrailingNewlineKeepsQuote(input: string)
    requires input == "\"x\"\n"
    ensures Strip(Strip(input, IsBlank), IsQuote) == "x\"\n"
  {
    assert TrimBounds(input, IsBlank, 0, |input|);
    StripUnique(input, IsBlank, 0, |input|);
    assert input[0..|input|] == input;
    assert TrimBounds(input, IsQuote, 1, |input|);
    StripUnique(input, IsQuote, 1, |input|);
    assert input[1..|input|] == "x\"\n";
  }
}
