/**
 * The chat session (`ChatBOT`): the conversation history and the scratch
 * state of the current question.
 *
 * The session is an immutable value here, and each method is a function
 * from the old session to the new one. The agent run (`agent.run` /
 * `agent.arun`) and the document lookup (`custom_filter_chain`) call out to
 * a language model and a vector store, so they are function parameters.
 *
 * In the source, `chat_history` starts out as a class attribute. Every
 * instance therefore appends to one shared list until its `clr_history`
 * binds a fresh per-instance list. Here each session owns its history.
 */
module Session {
  import opened Wrappers
  import opened Text

  /** What `custom_filter_chain` returns: the most likely document's source
      and its content. */
  datatype RelatedDoc = RelatedDoc(source: string, content: string)

  /** The question handed to the agent: the history joined with newlines,
      and the user's input. */
  datatype AgentQuestion = AgentQuestion(history: string, input: string)

  /** The state of a `ChatBOT`. */
  datatype ChatBot = ChatBot(
    chatHistory: seq<string>,
    answer: string,
    dbQuery: string,
    dbResponse: Option<RelatedDoc>)

  /** A fresh `ChatBOT`, with the class attributes' initial values. */
  const Fresh: ChatBot := ChatBot([], "", "", None)

  /** The history entry `chat` records. */
  function ChatEntry(query: string, answer: string): string {
    "Preguntas anteriores: " + query + ", Respuestas anteriores: " + answer
  }

  /** The history entry `achat` records (note the line break). */
  function AChatEntry(query: string, answer: string): string {
    "Preguntas anteriores: " + query + ",\n\n Respuestas anteriores: " + answer
  }

  /** The question the agent sees for `query`, built before the turn is
      recorded. */
  function Question(bot: ChatBot, query: string): AgentQuestion {
    AgentQuestion(Join(bot.chatHistory, "\n"), query)
  }

  /** `get_related_docs`: look up the document related to the last query
      and cache it; nothing else changes. */
  function GetRelatedDocs(bot: ChatBot, retrieve: string -> RelatedDoc): (r: (ChatBot, RelatedDoc))
    ensures r.1 == retrieve(bot.dbQuery) && r.0.dbResponse == Some(r.1)
    ensures r.0.chatHistory == bot.chatHistory && r.0.answer == bot.answer && r.0.dbQuery == bot.dbQuery
  {
    var related := retrieve(bot.dbQuery);
    (bot.(dbResponse := Some(related)), related)
  }

  /** What `chat` returns: the answer, the history, and the related document. */
  datatype ChatReply = ChatReply(answer: string, history: seq<string>, related: RelatedDoc)

  /** `chat`: ask the agent with the current history, record one entry, and
      then look up the document related to the query. */
  function Chat(bot: ChatBot, query: string, agent: AgentQuestion -> string,
                retrieve: string -> RelatedDoc): (r: (ChatBot, ChatReply))
    ensures r.0.dbQuery == query
    ensures r.0.answer == r.1.answer == agent(Question(bot, query))
    ensures |r.0.chatHistory| == |bot.chatHistory| + 1
    ensures r.0.chatHistory[..|bot.chatHistory|] == bot.chatHistory
    ensures Last(r.0.chatHistory) == ChatEntry(query, r.1.answer)
    ensures r.0.chatHistory == bot.chatHistory + [ChatEntry(query, r.1.answer)]
    ensures r.1.history == r.0.chatHistory
    ensures r.1.related == retrieve(query) && r.0.dbResponse == Some(r.1.related)
  {
    var answer := agent(Question(bot, query));
    var recorded := ChatBot(bot.chatHistory + [ChatEntry(query, answer)], answer, query, bot.dbResponse);
    var (next, related) := GetRelatedDocs(recorded, retrieve);
    (next, ChatReply(answer, next.chatHistory, related))
  }

  /** `achat`: like `chat`, with the other entry format, no document lookup,
      and only the answer returned. */
  function AChat(bot: ChatBot, query: string, agent: AgentQuestion -> string): (r: (ChatBot, string))
    ensures r.0.dbQuery == query
    ensures r.0.answer == r.1 == agent(Question(bot, query))
    ensures |r.0.chatHistory| == |bot.chatHistory| + 1
    ensures r.0.chatHistory[..|bot.chatHistory|] == bot.chatHistory
    ensures Last(r.0.chatHistory) == AChatEntry(query, r.1)
    ensures r.0.dbResponse == bot.dbResponse
  {
    var answer := agent(Question(bot, query));
    (ChatBot(bot.chatHistory + [AChatEntry(query, answer)], answer, query, bot.dbResponse), answer)
  }

  /** `clr_history`: the history becomes empty; nothing else changes. */
  function ClearHistory(bot: ChatBot): (next: ChatBot)
    ensures next.chatHistory == []
    ensures next.answer == bot.answer && next.dbQuery == bot.dbQuery && next.dbResponse == bot.dbResponse
  {
    bot.(chatHistory := [])
  }

  /** `clr_source`: the cached document is dropped; nothing else changes. */
  function ClearSource(bot: ChatBot): (next: ChatBot)
    ensures next.dbResponse == None
    ensures next.chatHistory == bot.chatHistory && next.answer == bot.answer && next.dbQuery == bot.dbQuery
  {
    bot.(dbResponse := None)
  }

  /** The entries `chat` records for the given queries and answers, in order. */
  function ChatEntries(queries: seq<string>, answers: seq<string>): (entries: seq<string>)
    requires |queries| == |answers|
    ensures |entries| == |queries|
  {
    seq(|queries|, i requires 0 <= i < |queries| => ChatEntry(queries[i], answers[i]))
  }

  /** Calling `chat` once per query, in order; returns the final session and
      the answers. */
  function ChatAll(bot: ChatBot, queries: seq<string>, agent: AgentQuestion -> string,
                   retrieve: string -> RelatedDoc): (r: (ChatBot, seq<string>))
    ensures |r.1| == |queries|
    decreases |queries|
  {
    if |queries| == 0 then (bot, [])
    else
      var (next, reply) := Chat(bot, queries[0], agent, retrieve);
      var (final, answers) := ChatAll(next, queries[1..], agent, retrieve);
      (final, [reply.answer] + answers)
  }

  /** A run of turns appends one entry per turn, in call order, and leaves
      the earlier history as it was. */
  lemma {:induction false} ChatAllHistory(bot: ChatBot, queries: seq<string>,
                                          agent: AgentQuestion -> string, retrieve: string -> RelatedDoc)
    ensures var (final, answers) := ChatAll(bot, queries, agent, retrieve);
      final.chatHistory == bot.chatHistory + ChatEntries(queries, answers)
    decreases |queries|
  {
    if |queries| > 0 {
      var (next, reply) := Chat(bot, queries[0], agent, retrieve);
      var (final, answers) := ChatAll(next, queries[1..], agent, retrieve);
      ChatAllHistory(next, queries[1..], agent, retrieve);
      assert ChatEntries(queries, [reply.answer] + answers)
        == [ChatEntry(queries[0], reply.answer)] + ChatEntries(queries[1..], answers);
    }
  }

  /** After `clr_history`, however long the history was, a run of turns
      leaves exactly the entries of those turns. */
  lemma ClearThenChat(bot: ChatBot, queries: seq<string>,
                      agent: AgentQuestion -> string, retrieve: string -> RelatedDoc)
    ensures var (final, answers) := ChatAll(ClearHistory(bot), queries, agent, retrieve);
      final.chatHistory == ChatEntries(queries, answers)
  {
    ChatAllHistory(ClearHistory(bot), queries, agent, retrieve);
  }

  /** A fresh session that answers a run of turns holds exactly the entries
      of those turns, and caches the document of the last query. */
  lemma {:induction false} FreshChatAll(queries: seq<string>, agent: AgentQuestion -> string, retrieve: string -> RelatedDoc)
    ensures var (final, answers) := ChatAll(Fresh, queries, agent, retrieve);
      && final.chatHistory == ChatEntries(queries, answers)
      && (|queries| > 0 ==> final.dbResponse == Some(retrieve(Last(queries))))
  {
    ChatAllHistory(Fresh, queries, agent, retrieve);
    if |queries| > 0 {
      ChatAllCachesLast(Fresh, queries, agent, retrieve);
    }
  }

  /** After a non-empty run of turns, the cached document is the one
      related to the last query. */
  lemma {:induction false} ChatAllCachesLast(bot: ChatBot, queries: seq<string>,
                                             agent: AgentQuestion -> string, retrieve: string -> RelatedDoc)
    requires |queries| > 0
    ensures ChatAll(bot, queries, agent, retrieve).0.dbResponse == Some(retrieve(Last(queries)))
    decreases |queries|
  {
    var (next, reply) := Chat(bot, queries[0], agent, retrieve);
    if |queries| > 1 {
      ChatAllCachesLast(next, queries[1..], agent, retrieve);
      assert Last(queries[1..]) == Last(queries);
    }
  }
}
