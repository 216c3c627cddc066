/** The conversation context that `ask_chatgpt` puts into the prompt: the last
    three exchanges, each as its question, its SQL and a one-line summary of
    its result or error. */
module Context {
  import opened Text
  import opened Exchanges

  /** Python's `xs.index(x)`: the position of the first occurrence of `x`. */
  function IndexOf(xs: seq<string>, x: string): (k: nat)
    requires x in xs
    ensures k < |xs| && xs[k] == x
    ensures forall j :: 0 <= j < k ==> xs[j] != x
  {
    if xs[0] == x then 0 else 1 + IndexOf(xs[1..], x)
  }

  /** `[row[k] for row in rows]`: the cells of column `k`, in row order. */
  function ColumnValues(rows: seq<Row>, k: nat): (cells: seq<string>)
    requires forall i :: 0 <= i < |rows| ==> k < |rows[i]|
    ensures |cells| == |rows|
    ensures forall i :: 0 <= i < |rows| ==> cells[i] == rows[i][k]
  {
    if rows == [] then [] else [rows[0][k]] + ColumnValues(rows[1..], k)
  }

  /** A row rendered inside Python's tuple punctuation: every cell of the row
      occurs in it. */
  function TupleText(row: Row): (r: string)
    ensures r != [] && r[0] == '('
    ensures forall j :: 0 <= j < |row| ==> Contains(r, row[j])
  {
    var cells := Join(", ", row);
    var close := (if |row| == 1 then "," else "") + ")";
    JoinContains(", ", row);
    forall j | 0 <= j < |row| ensures Contains("(" + cells + close, row[j]) {
      ContainsInMiddle("(", cells, close, row[j]);
    }
    assert "(" + cells + (if |row| == 1 then "," else "") + ")" == "(" + cells + close;
    "(" + cells + (if |row| == 1 then "," else "") + ")"
  }

  function TupleTexts(rows: seq<Row>): (texts: seq<string>)
    ensures |texts| == |rows|
    ensures forall i :: 0 <= i < |rows| ==> texts[i] == TupleText(rows[i])
  {
    if rows == [] then [] else [TupleText(rows[0])] + TupleTexts(rows[1..])
  }

  /** A list of rows rendered inside Python's list punctuation: every row's
      tuple, and so every cell of every row, occurs in it. */
  function RowsText(rows: seq<Row>): (r: string)
    ensures r != [] && r[0] == '['
    ensures forall i :: 0 <= i < |rows| ==> Contains(r, TupleText(rows[i]))
    ensures forall i, j :: 0 <= i < |rows| && 0 <= j < |rows[i]| ==> Contains(r, rows[i][j])
  {
    var tuples := Join(", ", TupleTexts(rows));
    RowsTextHolds(rows, tuples);
    "[" + tuples + "]"
  }

  lemma RowsTextHolds(rows: seq<Row>, tuples: string)
    requires tuples == Join(", ", TupleTexts(rows))
    ensures forall i :: 0 <= i < |rows| ==> Contains("[" + tuples + "]", TupleText(rows[i]))
    ensures forall i, j :: 0 <= i < |rows| && 0 <= j < |rows[i]| ==> Contains("[" + tuples + "]", rows[i][j])
  {
    var whole := "[" + tuples + "]";
    JoinContains(", ", TupleTexts(rows));
    forall i | 0 <= i < |rows| ensures Contains(whole, TupleText(rows[i])) {
      ContainsInMiddle("[", tuples, "]", TupleTexts(rows)[i]);
    }
    forall i, j | 0 <= i < |rows| && 0 <= j < |rows[i]| ensures Contains(whole, rows[i][j]) {
      ContainsTrans(whole, TupleText(rows[i]), rows[i][j]);
    }
  }

  const NamesLead: string := "Result: The names are "
  const CitiesLead: string := "Result: The cities are "
  const RawLead: string := "Result: ["

  /** The column list is present and non-empty, and holds `name`. */
  predicate HasColumn(e: Exchange, name: string)
  {
    Truthy(e.columns) && name in e.columns.value
  }

  /** The summary line of one exchange: a list of names, else a list of
      cities, else the raw rows, when there are rows; otherwise the error, if
      there is one. */
  function Summary(e: Exchange): (r: string)
    requires Shaped(e)
  {
    if Truthy(e.results) then
      var rows := e.results.value;
      if HasColumn(e, "name") then
        NamesLead + Join(", ", ColumnValues(rows, IndexOf(e.columns.value, "name"))) + "\n"
      else if HasColumn(e, "city") then
        CitiesLead + Join(", ", ColumnValues(rows, IndexOf(e.columns.value, "city"))) + "\n"
      else
        "Result: " + RowsText(rows) + "\n"
    else if Truthy(e.error) then
      "Error: " + e.error.value + "\n"
    else
      ""
  }

  /** Each kind of summary has a leading text no other kind starts with, and
      the kind is chosen in this order: names, cities, raw rows, error, nothing. */
  lemma SummaryKinds(e: Exchange)
    requires Shaped(e)
    ensures NamesLead <= Summary(e) <==> Truthy(e.results) && HasColumn(e, "name")
    ensures CitiesLead <= Summary(e) <==> Truthy(e.results) && !HasColumn(e, "name") && HasColumn(e, "city")
    ensures RawLead <= Summary(e) <==> Truthy(e.results) && !HasColumn(e, "name") && !HasColumn(e, "city")
    ensures "Error: " <= Summary(e) <==> !Truthy(e.results) && Truthy(e.error)
    ensures Summary(e) == [] <==> !Truthy(e.results) && !Truthy(e.error)
  {
    var r := Summary(e);
    if Truthy(e.results) {
      var rows := e.results.value;
      if HasColumn(e, "name") {
        var x := Join(", ", ColumnValues(rows, IndexOf(e.columns.value, "name"))) + "\n";
        assert r == NamesLead + x;
        assert r[..|NamesLead|] == NamesLead;
        assert r[0] == 'R' && r[8] == 'T' && r[12] == 'n';
      } else if HasColumn(e, "city") {
        var x := Join(", ", ColumnValues(rows, IndexOf(e.columns.value, "city"))) + "\n";
        assert r == CitiesLead + x;
        assert r[..|CitiesLead|] == CitiesLead;
        assert r[0] == 'R' && r[8] == 'T' && r[12] == 'c';
      } else {
        var t := RowsText(rows);
        assert r == "Result: " + t + "\n";
        assert r[..8] == "Result: " && r[8] == t[0] == '[';
        assert r[..|RawLead|] == RawLead;
        assert r[0] == 'R';
      }
    } else if Truthy(e.error) {
      assert r == "Error: " + e.error.value + "\n";
      assert r[..7] == "Error: ";
      assert r[0] == 'E';
    }
  }

  /** What one exchange adds to the context: its `User:` and `SQL:` lines, then
      its summary. */
  function EntryText(e: Exchange): (r: string)
    requires Shaped(e)
  {
    "User: " + e.user + "\nSQL: " + e.sql + "\n" + Summary(e)
  }

  predicate AllShaped(h: seq<Exchange>)
  {
    forall i :: 0 <= i < |h| ==> Shaped(h[i])
  }

  /** The entry texts of `w`, one per exchange, in order. */
  function EntryTexts(w: seq<Exchange>): (texts: seq<string>)
    requires AllShaped(w)
    ensures |texts| == |w|
    ensures forall i :: 0 <= i < |w| ==> texts[i] == EntryText(w[i])
  {
    seq(|w|, i requires 0 <= i < |w| => EntryText(w[i]))
  }

  /** Python's `history[-3:]`. */
  function Window(h: seq<Exchange>): (w: seq<Exchange>)
    ensures |w| == if |h| < 3 then |h| else 3
    ensures w == h[|h| - |w|..]
  {
    if |h| <= 3 then h else h[|h| - 3..]
  }

  /** The context built from a history. */
  function ContextOf(h: seq<Exchange>): (r: string)
    requires AllShaped(h)
  {
    Flatten(EntryTexts(Window(h)))
  }

  /** The context-building loop of `ask_chatgpt`. */
  method BuildContext(history: seq<Exchange>) returns (context: string)
    requires AllShaped(history)
    ensures context == ContextOf(history)
  {
    context := "";
    var recent := if |history| <= 3 then history else history[|history| - 3..];
    for i := 0 to |recent|
      invariant context == Flatten(EntryTexts(recent[..i]))
    {
      var chat := recent[i];
      ghost var before := context;
      var lines := "User: " + chat.user + "\nSQL: " + chat.sql + "\n";
      context := context + lines;
      ghost var head := context;
      if Truthy(chat.results) {
        var rows := chat.results.value;
        if Truthy(chat.columns) && "name" in chat.columns.value {
          var names := ColumnValues(rows, IndexOf(chat.columns.value, "name"));
          var line := "Result: The names are " + Join(", ", names) + "\n";
          context := context + line;
        } else if Truthy(chat.columns) && "city" in chat.columns.value {
          var cities := ColumnValues(rows, IndexOf(chat.columns.value, "city"));
          var line := "Result: The cities are " + Join(", ", cities) + "\n";
          context := context + line;
        } else {
          var line := "Result: " + RowsText(rows) + "\n";
          context := context + line;
        }
      } else if Truthy(chat.error) {
        var line := "Error: " + chat.error.value + "\n";
        context := context + line;
      }
      assert context == head + Summary(chat);
      assert EntryText(chat) == lines + Summary(chat);
      AppendAssoc(before, lines, Summary(chat));
      assert EntryTexts(recent[..i + 1]) == EntryTexts(recent[..i]) + [EntryText(chat)];
    }
    assert recent[..|recent|] == recent;
  }

  // ---------------------------------------------------------------------------
  // Properties of the context

  /** The entry texts of `a + b` are those of `a` followed by those of `b`. */
  lemma EntryTextsAppend(a: seq<Exchange>, b: seq<Exchange>)
    requires AllShaped(a) && AllShaped(b)
    ensures AllShaped(a + b) && EntryTexts(a + b) == EntryTexts(a) + EntryTexts(b)
  {
    assert forall i :: 0 <= i < |a + b| ==> (a + b)[i] == if i < |a| then a[i] else b[i - |a|];
  }

  /** The context holds exactly the last min(3, |h|) exchanges, oldest first. */
  lemma ContextOfRecent(h: seq<Exchange>)
    requires AllShaped(h)
    ensures |h| == 0 ==> ContextOf(h) == ""
    ensures |h| == 1 ==> ContextOf(h) == EntryText(h[0])
    ensures |h| == 2 ==> ContextOf(h) == EntryText(h[0]) + EntryText(h[1])
    ensures |h| >= 3 ==> var n := |h|;
      ContextOf(h) == EntryText(h[n - 3]) + EntryText(h[n - 2]) + EntryText(h[n - 1])
  {
    FlattenFew(EntryTexts(Window(h)));
  }

  /** Exchanges older than the last three have no influence on the context. */
  lemma ContextForgetsOlder(older: seq<Exchange>, h: seq<Exchange>)
    requires AllShaped(older) && AllShaped(h) && |h| >= 3
    ensures AllShaped(older + h) && ContextOf(older + h) == ContextOf(h)
  {
    var all := older + h;
    assert all[|all| - 3..] == h[|h| - 3..];
  }

  /** Appending an exchange slides the window: the oldest of three drops out
      and the new exchange's text comes last. */
  lemma ContextAfterAppend(h: seq<Exchange>, e: Exchange)
    requires AllShaped(h) && Shaped(e)
    ensures AllShaped(h + [e])
    ensures ContextOf(h + [e]) ==
              ContextOf(if |h| < 3 then h else Window(h)[1..]) + EntryText(e)
  {
    var all := h + [e];
    var kept := if |h| < 3 then h else Window(h)[1..];
    assert Window(all) == kept + [e];
    assert Window(kept) == kept;
    EntryTextsAppend(kept, [e]);
    FlattenAppend(EntryTexts(kept), [EntryText(e)]);
    assert [EntryText(e)][..0] == [];
  }

  /** With rows and a `name` column, the summary lists the cell of the first
      `name` column of every row, in row order, whether or not a `city` column
      exists as well. */
  lemma SummaryNames(e: Exchange, k: nat)
    requires Shaped(e) && Truthy(e.results) && Truthy(e.columns)
    requires k < |e.columns.value| && e.columns.value[k] == "name"
    requires forall j :: 0 <= j < k ==> e.columns.value[j] != "name"
    ensures var rows := e.results.value;
      forall i :: 0 <= i < |rows| ==> k < |rows[i]|
    ensures var rows := e.results.value;
      Summary(e) == NamesLead + Join(", ", seq(|rows|, i requires 0 <= i < |rows| => rows[i][k])) + "\n"
  {
    var rows := e.results.value;
    var k' := IndexOf(e.columns.value, "name");
    assert k' == k;
    assert ColumnValues(rows, k) == seq(|rows|, i requires 0 <= i < |rows| => rows[i][k]);
  }

  /** Without a `name` column but with a `city` column, the summary lists the
      cell of the first `city` column of every row, in row order. */
  lemma SummaryCities(e: Exchange, k: nat)
    requires Shaped(e) && Truthy(e.results) && Truthy(e.columns)
    requires "name" !in e.columns.value
    requires k < |e.columns.value| && e.columns.value[k] == "city"
    requires forall j :: 0 <= j < k ==> e.columns.value[j] != "city"
    ensures var rows := e.results.value;
      forall i :: 0 <= i < |rows| ==> k < |rows[i]|
    ensures var rows := e.results.value;
      Summary(e) == CitiesLead + Join(", ", seq(|rows|, i requires 0 <= i < |rows| => rows[i][k])) + "\n"
  {
    var rows := e.results.value;
    var k' := IndexOf(e.columns.value, "city");
    assert k' == k;
    assert ColumnValues(rows, k) == seq(|rows|, i requires 0 <= i < |rows| => rows[i][k]);
  }

  /** Rows with neither a `name` nor a `city` column are dumped whole: the
      summary is the raw list, and every row's tuple and every cell of every
      row occur in it. */
  lemma SummaryRaw(e: Exchange)
    requires Shaped(e) && Truthy(e.results)
    requires !HasColumn(e, "name") && !HasColumn(e, "city")
    ensures Summary(e) == "Result: " + RowsText(e.results.value) + "\n"
    ensures var rows := e.results.value;
      forall i :: 0 <= i < |rows| ==> Contains(Summary(e), TupleText(rows[i]))
    ensures var rows := e.results.value;
      forall i, j :: 0 <= i < |rows| && 0 <= j < |rows[i]| ==> Contains(Summary(e), rows[i][j])
  {
    var rows := e.results.value;
    var t := RowsText(rows);
    assert Summary(e) == "Result: " + t + "\n";
    forall i | 0 <= i < |rows| ensures Contains(Summary(e), TupleText(rows[i])) {
      ContainsInMiddle("Result: ", t, "\n", TupleText(rows[i]));
    }
    forall i, j | 0 <= i < |rows| && 0 <= j < |rows[i]| ensures Contains(Summary(e), rows[i][j]) {
      ContainsInMiddle("Result: ", t, "\n", rows[i][j]);
    }
  }
}
