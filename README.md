# Text-to-SQL chatbot: a verified model of its logic

The application is a Streamlit page. A user types a question about a small
shop database (customers, orders, stocks). The page rewrites Japanese item
names in the question into English. It asks a hosted language model for an
SQLite query, runs the query, records the exchange in the session's chat
history and shows the result as a table with optional chart controls.

This project models the parts of that pipeline that are plain logic:

- **Term translator** (`Translator`, built on `Text`). The fixed item table is
  applied one entry at a time, in the dictionary's order. Each entry is applied
  with Python's `str.replace`, modelled exactly by `Text.Replace`: leftmost
  first, no overlaps, every occurrence, and the empty-pattern case.
- **Conversation context** (`Context`). `ask_chatgpt` writes the last three
  exchanges into the prompt. Each exchange gets `User:` and `SQL:` lines and
  then a summary. The summary is the values of the first `name` column, else
  those of the first `city` column, else the raw rows. With no rows it is an
  `Error:` line, or nothing when there is no error either.
- **Session history** (`Session`). This is a list that only grows. One run
  of the main flow with a non-empty question, in which the schema read and
  the model call succeed, appends exactly one record. That record holds the
  question as typed, before translation. Streamlit repeats this run on every
  widget interaction while the question stays in the input box.
- **Presentation decisions** (`Presentation`). These pick the main panel
  (error, table with chart controls, a "not enough data" note, no extra, or
  "no results"), the chart type and the series to plot, and the sidebar
  transcript.

Module `Exchanges` holds the stored record, Python truthiness (`None`, `""`
and `[]` are false) and the outcome type of `run_sql`.

All source references are to `app.py`. One behaviour of the code is easy to
miss: the error is checked with Python truthiness. So a failed query
whose error text is empty shows "No results found." on the page and in the
sidebar, not an error. `Presentation.SelectView` states this outright.

## Model

| member | source | states |
|---|---|---|
| `Text.Replace` | app.py:103 | Python's `str.replace`; replacing a non-empty key by itself leaves the text unchanged, and a value as long as the key keeps the length; its occurrence properties are the `Replace…` lemmas below |
| `Text.InsertAround` | app.py:103 | the empty-key case of `str.replace`: every one of the len(s)+1 slots starts with a copy of the value, the `i`-th character of the text follows the copy in slot `i`, and the length is len(s) + (len(s)+1)·len(value); slot `i` starts at i·(len(value)+1) (`Text.SlotOffset`) |
| `Text.Join` | app.py:48-53 | `', '.join(items)`; a single item is returned as it is |
| `Text.JoinContains` | app.py:48-53 | every item occurs in the joined text |
| `Text.ReplaceRemoves` | app.py:103 | after `s.replace(key, value)` with a non-empty value that shares no character with the key, the key no longer occurs anywhere |
| `Text.ReplaceAddsNothing` | app.py:102-103 | such a replacement creates no new occurrence of any text `k` that shares no character with the value |
| `Text.ReplaceAbsent` | app.py:103 | a text in which the key does not occur is returned unchanged |
| `Text.ReplaceInserts` | app.py:103 | if the key occurs, the value occurs in the result |
| `Text.ReplaceKeeps` | app.py:102-103 | an occurrence of `w` that no occurrence of the key can overlap survives the replacement |
| `Translator.TableSeparated` | app.py:12-20 | the item table's keys and values are non-empty, and no key character occurs in any value |
| `Translator.TableKeysApart` | app.py:12-20 | no key of the item table can overlap a key that comes later in the table |
| `Translator.Translated` | app.py:101-104 | the left fold of `replace` over the table in order; its properties are `TranslatedConcat`, `TranslatedRemovesKeys`, `TranslatedAbsent`, `TranslatedKeeps` and `TranslatedShowsValue` |
| `Translator.TranslatedConcat` | app.py:102-103 | applying the entries of `a` and then those of `b` is applying `a + b`: entries act one after another in table order |
| `Translator.TranslatedRemovesKeys` | app.py:101-104 | after translating with a separated table, no key of the table occurs in the text |
| `Translator.TranslatedAbsent` | app.py:101-104 | a text containing no key is returned unchanged |
| `Translator.TranslatedKeeps` | app.py:102-103 | a text that no key can overlap survives the whole translation |
| `Translator.TranslatedShowsValue` | app.py:101-104 | if the input contains a key, the translation contains that key's English value |
| `Translator.TranslateItems` | app.py:101-104 | the loop returns the in-order fold of `replace` over the item table; the result contains no Japanese key; a key-free query comes back unchanged; each key present yields its English name |
| `Exchanges.Record` | app.py:112-118 | the stored record keeps the question and SQL; on success it holds exactly the outcome's rows and column names and no error; on failure exactly the outcome's error text and neither rows nor columns; well-formed query rows give a well-shaped record |
| `Context.IndexOf` | app.py:47 | `columns.index(x)` is the position of the first occurrence of `x` |
| `Context.ColumnValues` | app.py:47 | the list comprehension yields one cell per row, in row order, taken from the given column |
| `Context.TupleText` | app.py:53 | a row written in tuple punctuation, starting with `(`; every cell of the row occurs in it |
| `Context.RowsText` | app.py:53 | the rows written in list punctuation, starting with `[`; every row's tuple, and so every cell of every row, occurs in it |
| `Context.Summary` | app.py:44-55 | the summary line of one exchange; which kind it is and what it lists are `SummaryKinds`, `SummaryNames`, `SummaryCities` and `SummaryRaw` |
| `Context.SummaryKinds` | app.py:44-55 | each summary kind has its own lead text, and a kind is chosen exactly when its condition holds: names if rows and a `name` column; cities if rows, a `city` column and no `name`; raw rows if rows and neither; `Error:` only when there are no rows and the error is non-empty; empty exactly when there are neither rows nor an error |
| `Context.SummaryNames` | app.py:46-48 | with rows and a `name` column, the summary lists, for every row in order, the cell at the first `name` index, whether or not a `city` column exists too |
| `Context.SummaryCities` | app.py:49-51 | with rows, no `name` column and a `city` column, the summary lists every row's cell at the first `city` index |
| `Context.SummaryRaw` | app.py:52-53 | rows with neither column, or with no column list, are dumped whole: the summary is `Result: ` and the raw list, and every row's tuple and every cell of every row occur in it |
| `Context.EntryText` | app.py:43 | one exchange's `User:` and `SQL:` lines followed by its summary; `ContextOfRecent` states where these texts appear in the context |
| `Context.Window` | app.py:42 | `history[-3:]`: the last min(3, n) exchanges, as a suffix of the history |
| `Context.ContextOf` | app.py:41-55 | the context of a history; `BuildContext` computes it, and `ContextOfRecent`, `ContextForgetsOlder` and `ContextAfterAppend` state what it holds |
| `Context.BuildContext` | app.py:41-55 | the loop over `history[-3:]` builds exactly the context `ContextOf(history)` |
| `Context.ContextOfRecent` | app.py:42-43 | the context is the entry texts of the last min(3, n) exchanges, oldest first; each entry text is the `User:` and `SQL:` lines followed by the summary |
| `Context.ContextForgetsOlder` | app.py:42 | exchanges before the last three do not affect the context |
| `Context.ContextAfterAppend` | app.py:42 | appending an exchange slides the window: the oldest of three drops out and the new exchange's text comes last |
| `Session.History.constructor` | app.py:22-23 | a new session's history is empty |
| `Session.History.Append` | app.py:112-118 | the history grows by exactly the new record, and earlier records are unchanged |
| `Session.Submit` | app.py:106-118 | an empty input changes nothing; otherwise the model is asked with the translated question and the context of the history before this submission, and exactly one record is appended, holding the untranslated question, the SQL and its outcome |
| `Presentation.SelectView` | app.py:120-151 | an error shows only the error; otherwise chart controls appear iff there is a numeric column and more than one row; "not enough data" iff exactly one row; "no results" iff rows are absent or empty; more rows without a numeric column show no extra |
| `Presentation.Label` | app.py:132 | each chart type stands for one of the selector's three options |
| `Presentation.KindOf` | app.py:142-147 | a chart is drawn exactly for the three selector options |
| `Presentation.KindOfLabel` | app.py:132 | each selector option draws its own chart type |
| `Presentation.PlotOf` | app.py:137-140 | the Y column is plotted as a single series iff X equals Y, and otherwise indexed by X |
| `Presentation.ChartFor` | app.py:142-147 | a chosen selector option draws its chart type with the data from `PlotOf` |
| `Presentation.SidebarStatus` | app.py:186-191 | the sidebar shows the error iff the error is truthy, else the rows iff they are truthy, else "No results found." |
| `Presentation.Transcript` | app.py:183-191 | the sidebar lists every exchange in order, numbered from 1, with its question, SQL and status |
| `Presentation.TranscriptAfterAppend` | app.py:183-191 | a new exchange adds one sidebar entry at the end and leaves the others |
| `Presentation.SidebarAgreesWithMain` | app.py:186-191 | the sidebar shows the same error, the same rows, or "no results", just as the main panel did for that exchange |

## Left out

- Reading the schema and the "Suggest Insights" flow (`get_schema`, and the sampling at app.py:153-180) are left out. They are queries against an SQLite file. The schema text is a parameter of `Session.Submit`.
- `run_sql` (app.py:86-99) is a parameter `run` of `Session.Submit`, because it executes SQL against SQLite. Its result shape, rows or an error, is the `QueryOutcome` datatype.
- OpenAI calls and `.strip()` of their answers are left out, because they are network calls with unstructured output. `Session.Submit` takes the answer as a function `ask` of the schema, context and question.
- The prompt template text (app.py:56-78, 167-172) is a constant around the context. It is inside `ask`.
- Streamlit rendering, widgets and the `session_state` mechanics are left out. Only the decisions remain: `Presentation.View`, `Presentation.Chart` and `Presentation.Transcript`. The axis and chart-type choices are parameters.
- pandas dtype detection (app.py:129) is left out. It is the parameter `numericColumns` of `Presentation.SelectView`.
- Cells are modelled as their `str()` text.
- `Session.Submit`: one call is one script run, and it always appends a record for a non-empty question. In the source, an exception from `get_schema` (app.py:32-35) or from the model call (app.py:79-84) stops the run before anything is appended, because neither is inside a `try`. The model's `ask` is total, and the schema is a given text. Streamlit also re-runs the `if user_query:` block (app.py:106) on every widget interaction, such as the chart selectors (app.py:132-134) or the "Suggest Insights" button (app.py:153). Each such re-run appends one more record for the same question. The model covers one run, not the sequence of re-runs.
- `Context.RowsText`: the raw dump writes cells verbatim inside Python's list and tuple punctuation. Python writes each cell's `repr()`, which quotes strings.
- `Context.ColumnValues`: a row shorter than the column list would raise `IndexError` in Python. The model requires rows as wide as the column list (`Exchanges.Shaped`). That is what `run_sql` returns, and `Session.Submit` requires it of `run`.
