/** The session's chat history and one submission of the main flow: translate
    the question, build the context, ask for SQL, run it, record the exchange. */
module Session {
  import opened Exchanges
  import opened Context
  import opened Translator

  /** The history kept in the session state: a list that only grows. */
  class History {
    var exchanges: seq<Exchange>

    ghost predicate Valid()
      reads this
    {
      AllShaped(exchanges)
    }

    /** A new session starts with an empty history. */
    constructor ()
      ensures Valid() && exchanges == []
    {
      exchanges := [];
    }

    /** `chat_history.append(...)`: one more record at the end, the earlier
        ones untouched. */
    method Append(e: Exchange)
      requires Valid() && Shaped(e)
      modifies this
      ensures Valid()
      ensures exchanges == old(exchanges) + [e]
    {
      exchanges := exchanges + [e];
    }
  }

  /** One pass of the main flow for the text in the input box.  The model call
      and the database are parameters: `ask(schema, context, question)` is the
      SQL the hosted model answers for the prompt built from those three texts,
      and `run(sql)` is what executing the SQL returns.  An empty input does
      nothing. */
  method Submit(history: History, query: string, schema: string,
                ask: (string, string, string) -> string, run: string -> QueryOutcome)
    returns (translated: string, context: string, sql: string)
    requires history.Valid()
    requires forall q :: WellFormed(run(q))
    modifies history
    ensures history.Valid()
    ensures query == [] ==> history.exchanges == old(history.exchanges)
    ensures query != [] ==>
              translated == Translated(query, ItemTranslation) &&
              context == ContextOf(old(history.exchanges)) &&
              sql == ask(schema, context, translated) &&
              history.exchanges == old(history.exchanges) + [Record(query, sql, run(sql))]
  {
    translated, context, sql := query, "", "";
    if query != [] {
      translated := TranslateItems(query);
      context := BuildContext(history.exchanges);
      sql := ask(schema, context, translated);
      var outcome := run(sql);
      history.Append(Record(query, sql, outcome));
    }
  }
}
