/**
 * The agent's output parser (`CustomOutputParser.parse`): it turns the
 * language model's raw text into a decision. The decision is either to
 * finish with an answer, or to call a tool with some input. Text of neither
 * shape is a parse error.
 *
 * When the text has no "Final Answer:" marker, the parser runs
 *
 *     re.search(r"Action\s*\d*\s*:(.*?)\nAction\s*\d*\s*Input\s*\d*\s*:[\s]*(.*)", text, re.DOTALL)
 *
 * Here that search is a hand-written matcher (`Search`). The declarative
 * predicates `IsMatch` and `IsRegexMatch` describe what the regular
 * expression accepts. Every filler `\s*\d*\s*` is followed by a character
 * that is neither whitespace nor a digit (':' or 'I'). So wherever a filler
 * starts, its end is unique, and backtracking can change only two things:
 * where the match starts, and where the lazy tool group stops.
 */
module OutputParser {
  import opened Wrappers
  import opened Text

  /** The marker whose presence makes the model's output a final answer. */
  const FinalMarker: string := "Final Answer:"

  /** langchain's AgentAction: a tool call plus the raw model text. */
  datatype AgentAction = AgentAction(tool: string, toolInput: string, log: string)

  /** The parser's verdict on one model response. */
  datatype Decision =
    | Act(action: AgentAction)
    | Finish(output: string, finishLog: string)
  {
    /** The raw model text the decision was parsed from. */
    function Log(): string {
      match this
      case Act(a) => a.log
      case Finish(_, l) => l
    }
  }

  /** A decision, or the OutputParserException raised on unparseable text. */
  datatype ParseResult = Ok(decision: Decision) | ParseError(message: string)

  /** The message of the OutputParserException for `text`. */
  function ErrorMessage(text: string): string {
    "Could not parse LLM output: `" + text + "`"
  }

  // ---------------------------------------------------------------------
  // Declarative reading of the regular expression
  // ---------------------------------------------------------------------

  /** s[a..c] splits as whitespace, then digits, then whitespace, at p and q. */
  predicate FillerSplit(s: string, a: int, p: int, q: int, c: int) {
    && 0 <= a <= p <= q <= c <= |s|
    && AllInRange(s, a, p, IsSpace)
    && AllInRange(s, p, q, IsDigit)
    && AllInRange(s, q, c, IsSpace)
  }

  /** s[a..c] matches the filler `\s*\d*\s*`. */
  ghost predicate Filler(s: string, a: int, c: int) {
    exists p, q :: FillerSplit(s, a, p, q, c)
  }

  /** The indices of one way the regular expression matches `s`:
      "Action" at `start`, its ':' at `actionColon`, the lazy group 1 is
      s[actionColon + 1 .. toolEnd], '\n' at `toolEnd`, then "Action",
      "Input" at `inputWord`, ':' at `inputColon`, greedy whitespace, and
      the greedy group 2 is s[inputStart..]. */
  datatype Match = Match(start: nat, actionColon: nat, toolEnd: nat,
                         inputWord: nat, inputColon: nat, inputStart: nat)

  /** The text of the regular expression's group 1 (the tool name). */
  function Group1(s: string, m: Match): string
    requires m.actionColon < m.toolEnd <= |s|
  {
    s[m.actionColon + 1..m.toolEnd]
  }

  /** The text of the regular expression's group 2 (the tool input). */
  function Group2(s: string, m: Match): string
    requires m.inputStart <= |s|
  {
    s[m.inputStart..]
  }

  /** `word`, a filler `\s*\d*\s*` and ':' start at `w`, with the ':' at `c`. */
  ghost predicate WordColonAt(s: string, w: int, word: string, c: int) {
    && 0 <= w && w + |word| <= c < |s|
    && s[w..w + |word|] == word
    && Filler(s, w + |word|, c)
    && s[c] == ':'
  }

  /** The first header `Action\s*\d*\s*:` starts at `i` and has its ':'
      at `c`. */
  ghost predicate ActionHeaderAt(s: string, i: int, c: int) {
    WordColonAt(s, i, "Action", c)
  }

  /** The second header `\nAction\s*\d*\s*Input\s*\d*\s*:` starts with
      the newline at `j`, has "Input" at `w` and its ':' at `c`. */
  ghost predicate InputHeaderAt(s: string, j: int, w: int, c: int) {
    && 0 <= j && j + 7 <= w <= |s|
    && s[j] == '\n' && s[j + 1..j + 7] == "Action"
    && Filler(s, j + 7, w)
    && WordColonAt(s, w, "Input", c)
  }

  /** The greedy `[\s]*` after the ':' at `c` takes all the whitespace and
      stops at `g`. */
  predicate InputStartAt(s: string, c: int, g: int) {
    && 0 <= c < g <= |s|
    && AllInRange(s, c + 1, g, IsSpace)
    && (g == |s| || !IsSpace(s[g]))
  }

  /** `m` describes a match of the regular expression in `s`: the first
      header, group 1 up to a newline, the second header and the greedy
      whitespace. Group 2 (`.*` under DOTALL) then takes the rest. */
  ghost predicate IsMatch(s: string, m: Match) {
    && ActionHeaderAt(s, m.start, m.actionColon)
    && m.actionColon < m.toolEnd
    && InputHeaderAt(s, m.toolEnd, m.inputWord, m.inputColon)
    && InputStartAt(s, m.inputColon, m.inputStart)
  }

  /** The match `re.search` reports: the leftmost start, and from there the
      shortest lazy group 1. */
  ghost predicate IsRegexMatch(s: string, m: Match) {
    && IsMatch(s, m)
    && forall m' :: IsMatch(s, m') ==>
         m.start <= m'.start && (m'.start == m.start ==> m.toolEnd <= m'.toolEnd)
  }

  // ---------------------------------------------------------------------
  // The matcher
  // ---------------------------------------------------------------------

  /** Where a filler starting at `a` ends: skip whitespace, then digits, then
      whitespace. */
  function FillerEnd(s: string, a: nat): (c: nat)
    requires a <= |s|
    ensures a <= c <= |s|
  {
    Skip(s, Skip(s, Skip(s, a, IsSpace), IsDigit), IsSpace)
  }

  /** A filler ending just before a character that is neither whitespace nor
      a digit ends exactly where `FillerEnd` stops. */
  lemma FillerEndExact(s: string, a: nat, c: nat)
    requires a <= c < |s|
    requires !IsSpace(s[c]) && !IsDigit(s[c])
    ensures Filler(s, a, c) <==> FillerEnd(s, a) == c
  {
    var e1 := Skip(s, a, IsSpace);
    var e2 := Skip(s, e1, IsDigit);
    if FillerEnd(s, a) == c {
      assert FillerSplit(s, a, e1, e2, c);
    }
    if Filler(s, a, c) {
      var p, q :| FillerSplit(s, a, p, q, c);
      if p < q {
        SkipExact(s, a, p, IsSpace);
        SkipExact(s, p, q, IsDigit);
        SkipExact(s, q, c, IsSpace);
      } else {
        SkipExact(s, a, c, IsSpace);
        SkipExact(s, c, c, IsDigit);
        SkipExact(s, c, c, IsSpace);
      }
    }
  }

  /** The index of the ':' when `word`, a filler and ':' start at `w`. */
  function WordColon(s: string, w: nat, word: string): Option<nat> {
    if w + |word| <= |s| && s[w..w + |word|] == word then
      var c := FillerEnd(s, w + |word|);
      if c < |s| && s[c] == ':' then Some(c) else None
    else None
  }

  /** The index of the ':' of `Action\s*\d*\s*:` when that header starts at `i`. */
  function ActionColon(s: string, i: nat): Option<nat> {
    WordColon(s, i, "Action")
  }

  /** Positions of "Input" and of its ':' in a second header. */
  datatype InputMarks = InputMarks(word: nat, colon: nat)

  /** The `\nAction\s*\d*\s*Input\s*\d*\s*:` header when it starts at `j`. */
  function InputHeader(s: string, j: nat): Option<InputMarks> {
    if j + 7 <= |s| && s[j] == '\n' && s[j + 1..j + 7] == "Action" then
      var w := FillerEnd(s, j + 7);
      match WordColon(s, w, "Input")
      case Some(c) => Some(InputMarks(w, c))
      case None => None
    else None
  }

  /** The lazy `(.*?)`: the first index at or after `j` where the second
      header starts. */
  function LazyEnd(s: string, j: nat): (r: Option<nat>)
    ensures r.Some? ==> j <= r.value && InputHeader(s, r.value).Some?
  {
    FirstFrom(|s|, j, HeaderStart(s))
  }

  /** Whether a second header starts at an index. */
  function HeaderStart(s: string): nat -> bool {
    (k: nat) => InputHeader(s, k).Some?
  }

  /** `LazyEnd` stops at or before every second header from `j` on: the
      lazy group is the shortest one. */
  lemma LazyEndMinimal(s: string, j: nat, k: nat)
    requires j <= k && InputHeader(s, k).Some?
    ensures LazyEnd(s, j).Some? && LazyEnd(s, j).value <= k
  {
    assert HeaderStart(s)(k);
    FirstFromMinimal(|s|, j, HeaderStart(s), k);
  }

  /** A word, a filler and ':', read declaratively and by the matcher, agree. */
  lemma WordColonDecoded(s: string, w: nat, word: string, c: nat)
    ensures WordColonAt(s, w, word, c) <==> WordColon(s, w, word) == Some(c)
  {
    if w + |word| <= c < |s| && s[c] == ':' {
      FillerEndExact(s, w + |word|, c);
    }
  }

  /** A word followed by a filler and ':' starts with the word's first
      character. */
  lemma WordColonStart(s: string, w: nat, word: string, c: nat)
    requires WordColonAt(s, w, word, c) && |word| > 0
    ensures s[w] == word[0]
  {
    assert s[w..w + |word|][0] == s[w];
  }

  /** The first header, read declaratively and by the matcher, agree. */
  lemma ActionHeaderDecoded(s: string, i: nat, c: nat)
    ensures ActionHeaderAt(s, i, c) <==> ActionColon(s, i) == Some(c)
  {
    WordColonDecoded(s, i, "Action", c);
  }

  /** The second header, read declaratively and by the matcher, agree. */
  lemma InputHeaderDecoded(s: string, j: nat, w: nat, c: nat)
    ensures InputHeaderAt(s, j, w, c) <==> InputHeader(s, j) == Some(InputMarks(w, c))
  {
    if InputHeaderAt(s, j, w, c) {
      InputHeaderFound(s, j, w, c);
    }
    if InputHeader(s, j) == Some(InputMarks(w, c)) {
      InputHeaderSound(s, j, w, c);
    }
  }

  /** A declarative second header is found by the matcher. */
  lemma InputHeaderFound(s: string, j: nat, w: nat, c: nat)
    requires InputHeaderAt(s, j, w, c)
    ensures InputHeader(s, j) == Some(InputMarks(w, c))
  {
    WordColonStart(s, w, "Input", c);
    assert !IsSpace(s[w]) && !IsDigit(s[w]);
    FillerEndExact(s, j + 7, w);
    var w' := FillerEnd(s, j + 7);
    assert w' == w;
    WordColonDecoded(s, w, "Input", c);
    assert WordColon(s, w', "Input") == Some(c);
  }

  /** What the matcher finds is a declarative second header. */
  lemma InputHeaderSound(s: string, j: nat, w: nat, c: nat)
    requires InputHeader(s, j) == Some(InputMarks(w, c))
    ensures InputHeaderAt(s, j, w, c)
  {
    assert w == FillerEnd(s, j + 7);
    WordColonDecoded(s, w, "Input", c);
    WordColonStart(s, w, "Input", c);
    FillerEndExact(s, j + 7, w);
  }

  /** The greedy whitespace, read declaratively and by the matcher, agree. */
  lemma InputStartDecoded(s: string, c: nat, g: nat)
    requires c < |s|
    ensures InputStartAt(s, c, g) <==> Skip(s, c + 1, IsSpace) == g
  {
    if InputStartAt(s, c, g) {
      SkipExact(s, c + 1, g, IsSpace);
    }
  }

  /** Every match is made of the pieces the matcher computes. */
  lemma MatchDecoded(s: string, m: Match)
    requires IsMatch(s, m)
    ensures ActionColon(s, m.start) == Some(m.actionColon)
    ensures InputHeader(s, m.toolEnd) == Some(InputMarks(m.inputWord, m.inputColon))
    ensures Skip(s, m.inputColon + 1, IsSpace) == m.inputStart
  {
    ActionHeaderDecoded(s, m.start, m.actionColon);
    InputHeaderDecoded(s, m.toolEnd, m.inputWord, m.inputColon);
    InputStartDecoded(s, m.inputColon, m.inputStart);
  }

  /** No match starts where the first header is missing. */
  lemma NoMatchWithoutHeader(s: string, i: nat)
    requires ActionColon(s, i).None?
    ensures forall m :: IsMatch(s, m) ==> m.start != i
  {
    forall m | IsMatch(s, m)
      ensures m.start != i
    {
      MatchDecoded(s, m);
    }
  }

  /** Every match starting at `i` has its group 1 ending at or after the
      first second header the matcher finds. */
  lemma LazyEndBelowMatches(s: string, i: nat, c: nat)
    requires ActionColon(s, i) == Some(c)
    ensures forall m :: IsMatch(s, m) && m.start == i ==>
      LazyEnd(s, c + 1).Some? && LazyEnd(s, c + 1).value <= m.toolEnd
  {
    forall m | IsMatch(s, m) && m.start == i
      ensures LazyEnd(s, c + 1).Some? && LazyEnd(s, c + 1).value <= m.toolEnd
    {
      MatchDecoded(s, m);
      LazyEndMinimal(s, c + 1, m.toolEnd);
    }
  }

  /** Conversely, the pieces the matcher computes form a match. */
  lemma DecodedIsMatch(s: string, i: nat, c: nat, j: nat, marks: InputMarks)
    requires ActionColon(s, i) == Some(c)
    requires InputHeader(s, j) == Some(marks)
    requires c < j
    ensures IsMatch(s, Match(i, c, j, marks.word, marks.colon, Skip(s, marks.colon + 1, IsSpace)))
  {
    ActionHeaderDecoded(s, i, c);
    InputHeaderDecoded(s, j, marks.word, marks.colon);
    InputStartDecoded(s, marks.colon, Skip(s, marks.colon + 1, IsSpace));
  }

  /** Two matches with the same start and the same end of group 1 are the
      same match: nothing else is left to choose. */
  lemma MatchDeterminedByEnds(s: string, m: Match, m': Match)
    requires IsMatch(s, m) && IsMatch(s, m')
    requires m.start == m'.start && m.toolEnd == m'.toolEnd
    ensures m == m'
  {
    MatchDecoded(s, m);
    MatchDecoded(s, m');
  }

  /** What `re.search` reports is unique. */
  lemma RegexMatchUnique(s: string, m: Match, m': Match)
    requires IsRegexMatch(s, m) && IsRegexMatch(s, m')
    ensures m == m'
  {
    MatchDeterminedByEnds(s, m, m');
  }

  /** The regular expression tried at start position `i` alone. */
  function MatchAt(s: string, i: nat): (r: Option<Match>)
    ensures r.Some? ==> IsMatch(s, r.value) && r.value.start == i
    ensures r.Some? ==> forall m :: IsMatch(s, m) && m.start == i ==> r.value.toolEnd <= m.toolEnd
    ensures r.None? ==> forall m :: IsMatch(s, m) ==> m.start != i
  {
    match ActionColon(s, i)
    case None =>
      NoMatchWithoutHeader(s, i);
      None
    case Some(c) =>
      LazyEndBelowMatches(s, i, c);
      match LazyEnd(s, c + 1)
      case None => None
      case Some(j) =>
        var marks := InputHeader(s, j).value;
        DecodedIsMatch(s, i, c, j, marks);
        Some(Match(i, c, j, marks.word, marks.colon, Skip(s, marks.colon + 1, IsSpace)))
  }

  /** `re.search` from position `i`: the first start position at or after `i`
      where the regular expression matches. */
  function Search(s: string, i: nat): (r: Option<Match>)
    ensures r.Some? ==> IsMatch(s, r.value) && i <= r.value.start
    ensures r.Some? ==> forall m :: IsMatch(s, m) && i <= m.start ==>
      r.value.start <= m.start && (m.start == r.value.start ==> r.value.toolEnd <= m.toolEnd)
    ensures r.None? ==> forall m :: IsMatch(s, m) ==> m.start < i
    decreases |s| - i
  {
    if i >= |s| then None
    else
      match MatchAt(s, i)
      case Some(m) => Some(m)
      case None => Search(s, i + 1)
  }

  /** The search from the start reports exactly the `re.search` match. */
  lemma SearchFindsRegexMatch(s: string)
    ensures Search(s, 0).Some? <==> exists m :: IsMatch(s, m)
    ensures Search(s, 0).Some? ==> IsRegexMatch(s, Search(s, 0).value)
  {
  }

  // ---------------------------------------------------------------------
  // The parser
  // ---------------------------------------------------------------------

  /** `CustomOutputParser.parse`. */
  function Parse(text: string): (r: ParseResult)
    ensures r.Ok? ==> r.decision.Log() == text
    ensures r.Ok? <==> Contains(text, FinalMarker) || exists m :: IsMatch(text, m)
    ensures (r.Ok? && r.decision.Finish?) <==> Contains(text, FinalMarker)
    ensures r.ParseError? ==> r.message == ErrorMessage(text)
    ensures r.Ok? && r.decision.Act? ==>
      var a := r.decision.action;
      && (a.tool == [] || (!IsSpace(a.tool[0]) && !IsSpace(a.tool[|a.tool| - 1])))
      && (a.toolInput == [] || (a.toolInput[0] != '"' && a.toolInput[|a.toolInput| - 1] != '"'))
  {
    SearchFindsRegexMatch(text);
    if Contains(text, FinalMarker) then
      Ok(Finish(Strip(Last(Split(text, FinalMarker)), IsSpace), text))
    else
      match Search(text, 0)
      case None => ParseError(ErrorMessage(text))
      case Some(m) =>
        var tool := Strip(Group1(text, m), IsSpace);
        var toolInput := Strip(Strip(Group2(text, m), IsBlank), IsQuote);
        Ok(Act(AgentAction(tool, toolInput, text)))
  }

  // ---------------------------------------------------------------------
  // Properties
  // ---------------------------------------------------------------------

  /** "Final Answer:" cannot overlap itself. */
  lemma FinalMarkerLeadUnique()
    ensures LeadUnique(FinalMarker)
  {
  }

  /** With the marker present the answer is the stripped text after its last
      occurrence, and any Action-shaped text is ignored. */
  lemma FinishTakesTextAfterLastMarker(text: string, pre: string, tail: string)
    requires text == pre + FinalMarker + tail
    requires !Contains(tail, FinalMarker)
    ensures Parse(text) == Ok(Finish(Strip(tail, IsSpace), text))
  {
    FinalMarkerLeadUnique();
    assert text[|pre|..|pre| + |FinalMarker|] == FinalMarker;
    assert OccursAt(text, FinalMarker, |pre|);
    LastPieceAfterLastSeparator(text, FinalMarker, pre, tail);
  }

  /** Without the marker, a match of the regular expression yields a tool
      call: the tool is group 1 stripped of whitespace, the input is group 2
      stripped of spaces and then of double quotes. */
  lemma ActionFromRegexMatch(text: string, m: Match)
    requires !Contains(text, FinalMarker)
    requires IsRegexMatch(text, m)
    ensures Parse(text) == Ok(Act(AgentAction(
      Strip(Group1(text, m), IsSpace),
      Strip(Strip(Group2(text, m), IsBlank), IsQuote),
      text)))
  {
    SearchFindsRegexMatch(text);
    RegexMatchUnique(text, Search(text, 0).value, m);
    assert Search(text, 0) == Some(m);
  }

  /** The layout the agent's prompt asks the model to use for a tool call. */
  function ActionText(tool: string, input: string): string {
    "Action: " + tool + "\nAction Input: " + input
  }

  /** Where the pieces of `ActionText(tool, input)` sit. */
  lemma ActionTextLayout(tool: string, input: string)
    ensures var s := ActionText(tool, input); var e := 8 + |tool|;
      && |s| == e + 15 + |input|
      && s[0..6] == "Action" && s[6] == ':' && s[7] == ' '
      && s[8..e] == tool
      && s[e] == '\n' && s[e + 1..e + 7] == "Action" && s[e + 7] == ' '
      && s[e + 8..e + 13] == "Input" && s[e + 13] == ':' && s[e + 14] == ' '
      && s[e + 15..] == input
  {
  }

  /** The match the regular expression finds in `ActionText(tool, input)`:
      the greedy `[\s]*` also takes the whitespace at the start of the input. */
  function ActionTextMatch(tool: string, input: string): Match {
    var e := 8 + |tool|;
    Match(0, 6, e, e + 8, e + 13, e + 15 + Skip(input, 0, IsSpace))
  }

  /** `ActionTextMatch(tool, input)` is a match. */
  lemma ActionTextIsMatch(tool: string, input: string)
    ensures IsMatch(ActionText(tool, input), ActionTextMatch(tool, input))
  {
    var s := ActionText(tool, input);
    var e := 8 + |tool|;
    ActionTextLayout(tool, input);
    assert FillerSplit(s, 6, 6, 6, 6);
    assert FillerSplit(s, e + 7, e + 8, e + 8, e + 8);
    assert FillerSplit(s, e + 13, e + 13, e + 13, e + 13);
    ActionTextInputStart(tool, input);
  }

  /** The greedy whitespace of `ActionTextMatch` runs from the space after
      "Input:" through the input's own leading whitespace. */
  lemma ActionTextInputStart(tool: string, input: string)
    ensures InputStartAt(ActionText(tool, input), 8 + |tool| + 13, 8 + |tool| + 15 + Skip(input, 0, IsSpace))
  {
    var s := ActionText(tool, input);
    var e := 8 + |tool|;
    var lead := Skip(input, 0, IsSpace);
    ActionTextLayout(tool, input);
    forall k | e + 14 <= k < e + 15 + lead
      ensures IsSpace(s[k])
    {
      if k > e + 14 {
        assert s[k] == s[e + 15..][k - e - 15];
      }
    }
    if lead < |input| {
      assert s[e + 15 + lead] == s[e + 15..][lead];
    }
  }

  /** Two matches with the same start have their first ':' in the same place. */
  lemma SameStartSameColon(s: string, m: Match, m': Match)
    requires IsMatch(s, m) && IsMatch(s, m') && m.start == m'.start
    ensures m.actionColon == m'.actionColon
  {
    ActionHeaderDecoded(s, m.start, m.actionColon);
    ActionHeaderDecoded(s, m'.start, m'.actionColon);
  }

  /** The only newline before the input part of `ActionText(tool, input)` is
      the one that ends the tool, when the tool has none. */
  lemma ActionTextFirstNewline(tool: string, input: string, k: int)
    requires '\n' !in tool
    requires 6 < k < |ActionText(tool, input)| && ActionText(tool, input)[k] == '\n'
    ensures 8 + |tool| <= k
  {
    var s := ActionText(tool, input);
    var e := 8 + |tool|;
    ActionTextLayout(tool, input);
    forall i | 6 < i < e
      ensures s[i] != '\n'
    {
      if 8 <= i {
        assert s[i] == s[8..e][i - 8];
      }
    }
  }

  /** With no newline in the tool, it is the match `re.search` reports. */
  lemma ActionTextIsRegexMatch(tool: string, input: string)
    requires '\n' !in tool
    ensures IsRegexMatch(ActionText(tool, input), ActionTextMatch(tool, input))
  {
    var s := ActionText(tool, input);
    var m := ActionTextMatch(tool, input);
    ActionTextIsMatch(tool, input);
    forall m' | IsMatch(s, m')
      ensures m.start <= m'.start && (m'.start == m.start ==> m.toolEnd <= m'.toolEnd)
    {
      if m'.start == 0 {
        SameStartSameColon(s, m, m');
        ActionTextFirstNewline(tool, input, m'.toolEnd);
      }
    }
  }

  /** Well-formed tool calls parse as expected: for text laid out as
      "Action: T\nAction Input: I", with no newline in T and no
      "Final Answer:" anywhere, the tool is T stripped of whitespace. The
      input is I after its leading whitespace (which the regular expression
      consumes), stripped of spaces and then of double quotes. */
  lemma WellFormedAction(tool: string, input: string)
    requires '\n' !in tool
    requires !Contains(ActionText(tool, input), FinalMarker)
    ensures Parse(ActionText(tool, input)) == Ok(Act(AgentAction(
      Strip(tool, IsSpace),
      Strip(Strip(input[Skip(input, 0, IsSpace)..], IsBlank), IsQuote),
      ActionText(tool, input))))
  {
    ActionTextIsRegexMatch(tool, input);
    ActionFromRegexMatch(ActionText(tool, input), ActionTextMatch(tool, input));
    ActionTextGroups(tool, input);
    StripPastDropped(' ', tool, IsSpace);
  }

  /** The groups of `ActionTextMatch(tool, input)`: the tool after one
      space, and the input after its leading whitespace. */
  lemma ActionTextGroups(tool: string, input: string)
    ensures var s := ActionText(tool, input); var m := ActionTextMatch(tool, input);
      && m.actionColon < m.toolEnd <= m.inputStart <= |s|
      && Group1(s, m) == [' '] + tool
      && Group2(s, m) == input[Skip(input, 0, IsSpace)..]
  {
    ActionTextLayout(tool, input);
  }
}
