# Insurance-assistant agent core, modelled in Dafny

The assistant answers insurance questions through a LangChain agent. This
project models the deterministic core of `app/agent_utils.py`, which
surrounds the language model:

- `CustomOutputParser.parse` reads the model's raw text. A "Final Answer:"
  marker ends the turn with an answer. Otherwise the regular expression
  `Action\s*\d*\s*:(.*?)\nAction\s*\d*\s*Input\s*\d*\s*:[\s]*(.*)`
  (DOTALL, `re.search`) picks out a tool call. Text of neither shape raises
  an `OutputParserException`.
- `CustomPromptTemplate.format` computes three prompt variables:
  - the agent scratchpad, built from the earlier (action, observation) steps;
  - the tool listing;
  - the comma-separated tool names.
- `ChatBOT` keeps the conversation history and the cached related document
  across `chat`, `achat`, `clr_history` and `clr_source`.

Modules, one per file:

- `Wrappers` (`wrappers.dfy`): `Option`.
- `Text` (`text.dfy`): the Python string operations the core relies on, with
  their laws:
  - `str.strip(chars)`, with Python's whitespace set for `str.strip()`;
  - `in` on strings;
  - `str.split` and `str.join`.
- `OutputParser` (`output_parser.dfy`): the parser, with two readings of the
  regular expression:
  - a declarative one: `IsMatch` lists the positions of every piece of a
    match, and `IsRegexMatch` picks the leftmost match with the shortest
    lazy group;
  - the matcher `Search`, proved to find exactly that match.
- `ParserScenarios` (`parser_scenarios.dfy`): concrete model outputs and
  their parses.
- `PromptTemplate` (`prompt_template.dfy`): the variables `format`
  computes.
- `Session` (`session.dfy`): `ChatBOT` as an immutable state. The agent run
  and the document lookup are function parameters.

## Model

| member | source | states |
|---|---|---|
| OutputParser.Parse | app/agent_utils.py:27-44 | The text is accepted exactly when it contains "Final Answer:" or the regular expression matches somewhere. It finishes exactly when the marker is present, so the marker wins over a tool call. An accepted result carries the original text as its log. The tool name never has surrounding whitespace, and the tool input neither starts nor ends with a double quote. A rejection carries the message "Could not parse LLM output: `<text>`". |
| OutputParser.FinishTakesTextAfterLastMarker | app/agent_utils.py:29-35 | With the marker present, the answer is the text after its LAST occurrence, stripped of whitespace, whatever precedes it. |
| OutputParser.ActionFromRegexMatch | app/agent_utils.py:37-44 | Without the marker, the `re.search` match gives the call. The tool is group 1 stripped of whitespace. The input is group 2 stripped of spaces, then of double quotes. |
| OutputParser.WellFormedAction | app/agent_utils.py:37-44 | "Action: T\nAction Input: I" with no newline in T and no marker parses to tool `T.strip()`. The input is `I` minus its leading whitespace (consumed by `[\s]*`), then `.strip(" ").strip('"')`. |
| OutputParser.SearchFindsRegexMatch | app/agent_utils.py:37-39 | The matcher finds a match exactly when the regular expression has one, and what it reports is the leftmost match with the shortest lazy group 1. |
| OutputParser.Search | app/agent_utils.py:37-38 | The scan from a position returns a match starting at or after it that no match from there beats: none starts earlier, and none with the same start has a shorter group 1. "No result" means every match starts before the position. |
| OutputParser.MatchAt | app/agent_utils.py:37-38 | At one start position the result is a match, the one with the shortest lazy group 1. "No result" means nothing matches there. |
| OutputParser.RegexMatchUnique | app/agent_utils.py:37-38 | The leftmost, shortest-group match is unique, so the two groups are well defined. |
| OutputParser.MatchDeterminedByEnds | app/agent_utils.py:37 | Two matches with the same start and the same group 1 end agree everywhere: each filler `\s*\d*\s*` can end in only one place. |
| OutputParser.FillerEndExact | app/agent_utils.py:37 | A filler `\s*\d*\s*` followed by a character that is neither whitespace nor a digit ends exactly where skipping whitespace, digits, whitespace stops. |
| OutputParser.WordColonDecoded | app/agent_utils.py:37 | "word, filler, ':'" holds at a position exactly when the matcher finds that ':' there. |
| OutputParser.InputHeaderDecoded | app/agent_utils.py:37 | The second header `\nAction\s*\d*\s*Input\s*\d*\s*:` holds at a position exactly when the matcher finds it there, with the same "Input" and ':' positions. |
| OutputParser.InputStartDecoded | app/agent_utils.py:37 | The greedy `[\s]*` after "Input…:" ends exactly where skipping whitespace stops. |
| OutputParser.LazyEndMinimal | app/agent_utils.py:37 | The lazy `(.*?)` stops at or before every later place where the second header could begin. |
| ParserScenarios.BareFinalAnswer | app/agent_utils.py:29-35 | "Final Answer: Hola!" finishes with "Hola!". |
| ParserScenarios.FinalAnswerWinsOverAction | app/agent_utils.py:28-39 | "Action: Greeting\nAction Input: hola\nFinal Answer: Hola!" is matched by the regular expression, yet it finishes with "Hola!": the marker is checked first. |
| ParserScenarios.QuotedInputUnwrapped | app/agent_utils.py:44 | One pair of quotes around an input that is not itself quoted at either end is removed. |
| ParserScenarios.TrailingNewlineKeepsQuote | app/agent_utils.py:44 | An input `"x"` followed by a newline keeps its closing quote: `.strip(" ")` leaves the newline, and the newline then keeps `.strip('"')` from reaching the quote. |
| ParserScenarios.PolicySearchCall | app/agent_utils.py:37-44 | "Action: PolicySearch\nAction Input: \"deductible amount\"" calls PolicySearch with `deductible amount`. |
| Text.Strip | app/agent_utils.py:41-44 | The stripped result has no strippable character at either end. It is the middle of the input once all-strippable prefix and suffix are cut away. |
| Text.StripUnique | app/agent_utils.py:41-44 | Any cut of the input into a strippable prefix, a kept middle that starts and ends with unstrippable characters, and a strippable suffix has that middle equal to the strip. |
| Text.StripIdempotent | app/agent_utils.py:41 | Stripping twice gives what stripping once gives. |
| Text.SplitParts | app/agent_utils.py:33 | Joining the pieces of `s.split(sep)` with `sep` gives back `s`, and no piece contains `sep`. |
| Text.LastPieceAfterLastSeparator | app/agent_utils.py:33 | For a separator whose first character does not recur in it (as in "Final Answer:", "\n" and ", "), the last piece of `split` is the text after the last occurrence. |
| Text.SplitJoin | app/agent_utils.py:72-74 | For a non-empty list of parts, none containing the separator, and a separator whose first character does not recur in it (as in "Final Answer:", "\n" and ", "), splitting the join gives back the parts. |
| PromptTemplate.BuildScratchpad | app/agent_utils.py:64-70 | The loop builds exactly the concatenation, in step order, of each step's log followed by "\nObservation: <observation>\nThought: ". |
| PromptTemplate.ScratchpadAppend | app/agent_utils.py:66-68 | One more step extends the scratchpad by exactly that step's text. |
| PromptTemplate.ScratchpadConcat | app/agent_utils.py:66-68 | The scratchpad of two runs of steps is their scratchpads in order. |
| PromptTemplate.ScratchpadPrefix | app/agent_utils.py:66-68 | Earlier steps' text is a prefix of the full scratchpad. |
| PromptTemplate.ToolsBlockLines | app/agent_utils.py:72 | For a non-empty tool list whose names and descriptions have no newline, the tools variable splits at newlines into one "name: description" line per tool, in list order. |
| PromptTemplate.ToolNamesList | app/agent_utils.py:74 | For a non-empty tool list where no name contains ", ", the tool names variable splits at ", " into the names, in list order. |
| PromptTemplate.NoToolsNoText | app/agent_utils.py:72-74 | With no tools, both tool variables are empty. |
| PromptTemplate.Variables | app/agent_utils.py:61-75 | Without an "intermediate_steps" argument, `format` fails (the `KeyError` of `kwargs.pop`). Otherwise the template receives the caller's arguments minus "intermediate_steps", plus the scratchpad of the steps, the tools and the tool names. Every other argument passes through unchanged. |
| Session.Chat | app/agent_utils.py:293-298 | The agent sees the history before the turn, joined with newlines, and the query. Exactly one entry is appended, "Preguntas anteriores: q, Respuestas anteriores: a". Earlier entries are untouched. The reply carries the answer, the new history and the document retrieved for the query, which is also cached. |
| Session.GetRelatedDocs | app/agent_utils.py:279-281 | The document related to the current query is returned and cached; the history, answer and query are unchanged. |
| Session.AChat | app/agent_utils.py:300-308 | As `chat`, with the entry "Preguntas anteriores: q,\n\n Respuestas anteriores: a". The cached document is left as it was. |
| Session.ClearHistory | app/agent_utils.py:287-288 | The history becomes empty; the answer, query and cached document are unchanged. |
| Session.ClearSource | app/agent_utils.py:290-291 | The cached document is dropped; the history, answer and query are unchanged. |
| Session.ChatAllHistory | app/agent_utils.py:293-298 | Over a run of `chat` calls, the history grows by one entry per call, in call order, after the entries that were there. |
| Session.ClearThenChat | app/agent_utils.py:287-298 | After `clr_history`, however long the history was, a run of `chat` calls leaves exactly the entries of those calls. |
| Session.ChatAllCachesLast | app/agent_utils.py:279-298 | After a non-empty run of `chat` calls, the cached document is the one related to the last query. |
| Session.FreshChatAll | app/agent_utils.py:271-298 | A new `ChatBOT` (empty history, no cached document) that answers a run of `chat` calls holds exactly the entries of those calls, and caches the document of the last query. |

## Left out

- `create_agent`, `get_agent_prompt`, `get_chat_template`, `get_llm` and `get_tools` (app/agent_utils.py:78-268) wire up LangChain, OpenAI and the tools. They configure library objects and hold no logic of their own. The stop sequence "\nObservation:" and `handle_parsing_errors=True` at 261 and 267 belong to LangChain's executor loop, which is not modelled.
- `custom_filter_chain`, `acustom_filter_chain` and `acustom_doc_retrieval` run a similarity search on a vector store, and `custom_qa` also calls the language model. In `Session.GetRelatedDocs` and `Session.Chat` the lookup is a function parameter, `retrieve`.
- The agent run (`agent.run` / `agent.arun`) is the function parameter `agent`. It is total here: an exception from the model or a tool is not modelled.
- The tools' own bodies are not modelled. `greeting` returns a fixed string; news scraping (`requests`/BeautifulSoup) and question answering are network and model calls.
- `self.template.format(**kwargs)` at line 75 is Python's `str.format` over a template held in another file. `PromptTemplate.Variables` stops at the variables handed to it.
- `Session.Chat`, `Session.AChat`: the extra keyword arguments `**kwargs` that `chat` and `achat` forward to `agent.run` / `agent.arun` (lines 296 and 303) are not modelled. The agent parameter sees only the question.
- `Session.Chat`: the source returns the live `self.chat_history` list (line 298), so later turns also show up in a list a caller already holds. The model's reply holds the history as a value at the time of the call.
- `Session.Chat`: `retrieve` is total. In the source, an exception from `get_related_docs` after the append at line 297 leaves the history extended and `db_response` as it was. That partial update is not modelled.
- `Session.ChatBot`: `aget_related_docs` (lines 283-285) is not modelled. It stores the pair of lists that `acustom_doc_retrieval` returns (lines 111-117), and the cached document type `RelatedDoc` cannot hold that pair. `achat` does not call it (the call at line 304 is commented out).
- `PromptTemplate.Variables`: the argument map holds strings, so the steps that Python passes as the value of "intermediate_steps" are the separate parameter `steps`. Only the presence of the key is read from the map.
- `achat` is asynchronous. Its await is not modelled, and neither is interleaving between concurrent calls on one `ChatBOT`.
- `Session.Chat`, `Session.AChat`: the source wraps the joined history in a one-element Python set literal (`{'\n'.join(...)}`, lines 295 and 302). The model hands the agent the joined string itself.
- `Session.ChatBot`: `chat_history` starts as a class attribute (line 271), so instances share one list until `clr_history` gives an instance its own. Each modelled session owns its history.
- `OutputParser.IsMatch`: `\d` is restricted to ASCII '0'..'9'. Python's `re` also accepts other Unicode decimal digits for `\d`. `\s` does follow Python's full `str.isspace` set.
- `Text.Split`: only non-empty separators are modelled. The source splits only at "Final Answer:".

## Notes on the code's behaviour

These are what the code does; the model follows the code:

- The parser's regular expression is not anchored to line starts. "Action" may appear mid-line, e.g. "Next Action: …".
- The tool input loses ALL leading and trailing double quotes (`.strip('"')`), not one pair.
- Before the quotes, the tool input loses only spaces (`.strip(" ")`). A trailing newline or tab is kept, and it then shields a trailing quote from removal (`ParserScenarios.TrailingNewlineKeepsQuote`).
- The tool input's leading whitespace of any kind is consumed by `[\s]*` in the regular expression.
