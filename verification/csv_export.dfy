/** CSV export: generateCSV and escapeCSV (lib/utils/import-export.ts), and
    how the export reads back through parseCSVLine. */
module CsvExport {
  import opened Results
  import opened Text
  import opened Numbers
  import opened CsvImport

  // ---------------------------------------------------------------------
  // escapeCSV
  // ---------------------------------------------------------------------

  /** The value holds a comma, a quote or a line feed. */
  predicate NeedsQuoting(v: string) {
    ',' in v || '"' in v || '\n' in v
  }

  /** `value.replace(/"/g, '""')`: every quote doubled. */
  function DoubleQuotes(v: string): (r: string)
    ensures |r| >= |v|
    ensures '"' !in v ==> r == v
  {
    if v == [] then []
    else if v[0] == '"' then "\"\"" + DoubleQuotes(v[1..])
    else
      assert v == [v[0]] + v[1..];
      [v[0]] + DoubleQuotes(v[1..])
  }

  /** How section 2 of RFC 4180 reads the inside of a quoted field: a pair of
      quotes stands for one quote. */
  function Undouble(s: string): string
    decreases |s|
  {
    if |s| >= 2 && s[0] == '"' && s[1] == '"' then "\"" + Undouble(s[2..])
    else if s == [] then []
    else [s[0]] + Undouble(s[1..])
  }

  /** Doubling quotes is undone by the RFC 4180 reading. */
  lemma {:induction false} UndoubleDoubleQuotes(v: string)
    ensures Undouble(DoubleQuotes(v)) == v
  {
    if v != [] {
      UndoubleDoubleQuotes(v[1..]);
      var d := DoubleQuotes(v[1..]);
      if v[0] == '"' {
        assert ("\"\"" + d)[2..] == d;
      } else {
        assert ([v[0]] + d)[1..] == d;
        if v[0] != '"' {
          assert ([v[0]] + d)[0] != '"';
        }
      }
      assert [v[0]] + v[1..] == v;
    }
  }

  /** escapeCSV. */
  function EscapeCsv(v: string): (r: string)
    ensures v == "" ==> r == ""
    ensures !NeedsQuoting(v) ==> r == v
  {
    if v == "" then ""
    else if NeedsQuoting(v) then "\"" + DoubleQuotes(v) + "\""
    else v
  }

  /** An escaped value reads back as the value under section 2 of RFC 4180:
      unchanged when it needed no quoting, and otherwise enclosed in quotes
      whose inside, with doubled quotes read as one, is the value. */
  lemma EscapeCsvReadsBack(v: string)
    ensures !NeedsQuoting(v) ==> EscapeCsv(v) == v
    ensures NeedsQuoting(v) ==>
      var r := EscapeCsv(v);
      |r| >= 2 && r[0] == '"' && r[|r| - 1] == '"' && Undouble(r[1..|r| - 1]) == v
  {
    if NeedsQuoting(v) {
      var r := EscapeCsv(v);
      assert r[1..|r| - 1] == DoubleQuotes(v);
      UndoubleDoubleQuotes(v);
    }
  }

  /** escapeCSV applied to each value. */
  function EscapeAll(vs: seq<string>): (r: seq<string>)
    ensures |r| == |vs|
    ensures forall k :: 0 <= k < |vs| ==> r[k] == EscapeCsv(vs[k])
  {
    if vs == [] then [] else [EscapeCsv(vs[0])] + EscapeAll(vs[1..])
  }

  /** A quote-free value enclosed in quotes, followed by more text,
      tokenizes to the value at the front of the first field. */
  lemma QuotedChunk(v: string, rest: string)
    requires '"' !in v
    ensures Fields("\"" + v + "\"" + rest, false) == Prepend(v, Fields(rest, false))
  {
    var s := "\"" + v + "\"" + rest;
    assert s[0] == '"' && s[1..] == v + ("\"" + rest);
    FieldsChunk(v, "\"" + rest, true);
    assert ("\"" + rest)[0] == '"' && ("\"" + rest)[1..] == rest;
  }

  /** An escaped value with no quote in it, followed by more text, tokenizes
      to the value at the front of the first field. */
  lemma EscapedChunk(v: string, rest: string)
    requires '"' !in v
    ensures Fields(EscapeCsv(v) + rest, false) == Prepend(v, Fields(rest, false))
  {
    if v == "" {
      assert EscapeCsv(v) + rest == rest;
      PrependEmpty(Fields(rest, false));
    } else if !NeedsQuoting(v) {
      FieldsChunk(v, rest, false);
    } else {
      QuotedChunk(v, rest);
    }
  }

  /** A separating comma starts a new field. */
  lemma CommaThen(tail: string)
    ensures Fields([','] + tail, false) == [""] + Fields(tail, false)
  {
    assert ([','] + tail)[0] == ',' && ([','] + tail)[1..] == tail;
  }

  /** Prepending to a field list that starts with an empty field. */
  lemma PrependToEmpty(v: string, rest: seq<string>)
    ensures Prepend(v, [""] + rest) == [v] + rest
  {
    assert v + "" == v;
    assert ([""] + rest)[1..] == rest;
  }

  /** EscapeAll, one value at a time. */
  lemma EscapeAllCons(vs: seq<string>)
    requires |vs| >= 1
    ensures EscapeAll(vs)[0] == EscapeCsv(vs[0]) && EscapeAll(vs)[1..] == EscapeAll(vs[1..])
  {
  }

  /** Join, one piece at a time. */
  lemma JoinCons(xs: seq<string>, sep: char)
    requires |xs| >= 2
    ensures Join(xs, sep) == xs[0] + ([sep] + Join(xs[1..], sep))
  {
    assert xs[0] + [sep] + Join(xs[1..], sep) == xs[0] + ([sep] + Join(xs[1..], sep));
  }

  /** An escaped quote-free value, a comma, and a tail that reads back as
      rest read back as the value followed by rest. */
  lemma EscapeCommaThen(v: string, tail: string, rest: seq<string>)
    requires '"' !in v
    requires Tokenize(tail) == rest
    ensures Tokenize(EscapeCsv(v) + ([','] + tail)) == [v] + rest
  {
    EscapedChunk(v, [','] + tail);
    CommaThen(tail);
    PrependToEmpty(v, rest);
  }

  /** Escaping quote-free values and joining them with commas reads back
      through parseCSVLine as the same values. */
  lemma {:induction false} EscapeJoinTokenize(vs: seq<string>)
    requires |vs| >= 1
    requires forall k :: 0 <= k < |vs| ==> '"' !in vs[k]
    ensures Tokenize(Join(EscapeAll(vs), ',')) == vs
  {
    var es := EscapeAll(vs);
    EscapeAllCons(vs);
    if |vs| == 1 {
      EscapedChunk(vs[0], "");
      assert es[0] + "" == es[0];
      PrependToEmpty(vs[0], []);
    } else {
      var tail := Join(es[1..], ',');
      EscapeJoinTokenize(vs[1..]);
      JoinCons(es, ',');
      EscapeCommaThen(vs[0], tail, vs[1..]);
      assert [vs[0]] + vs[1..] == vs;
    }
  }

  /** The round trip holds exactly when no value holds a quote: parseCSVLine
      never returns a quote, so a value with one cannot come back. */
  lemma EscapeRoundTripIff(vs: seq<string>)
    requires |vs| >= 1
    ensures Tokenize(Join(EscapeAll(vs), ',')) == vs <==> forall k :: 0 <= k < |vs| ==> '"' !in vs[k]
  {
    if forall k :: 0 <= k < |vs| ==> '"' !in vs[k] {
      EscapeJoinTokenize(vs);
    }
  }

  // ---------------------------------------------------------------------
  // generateCSV
  // ---------------------------------------------------------------------

  /** The fields generateCSV reads from one transaction object, as the
      database query returns it: the joined relations (categories, accounts,
      from_accounts, to_accounts) and the plain objects (category, account,
      fromAccount, toAccount) contribute only their name, None when the
      relation or its name is missing. */
  datatype ExportSource = ExportSource(
    date: string,
    kind: string,
    amount: Num,
    description: Option<string>,
    categories: Option<string>,
    category: Option<string>,
    accounts: Option<string>,
    account: Option<string>,
    fromAccounts: Option<string>,
    fromAccount: Option<string>,
    toAccounts: Option<string>,
    toAccount: Option<string>,
    notes: Option<string>)

  /** `a?.name || b?.name || ""`: the first name that is present and not
      empty, else "". */
  function FallbackName(a: Option<string>, b: Option<string>): (r: string)
    ensures a.Some? && a.value != "" ==> r == a.value
    ensures (a.None? || a.value == "") && b.Some? ==> r == b.value
    ensures (a.None? || a.value == "") && b.None? ==> r == ""
  {
    if a.Some? && a.value != "" then a.value else OrEmpty(b)
  }

  /** The column titles. */
  const ExportHeader: seq<string> :=
    ["Date", "Type", "Amount", "Description", "Category", "Account", "From Account", "To Account", "Notes"]

  /** The nine values of a row before escaping. toLocaleDateString("en-US")
      and Number.prototype.toString are the parameters formatDate and
      renderAmount. */
  function RowValues(t: ExportSource, formatDate: string -> string, renderAmount: Num -> string): (r: seq<string>)
    ensures |r| == |ExportHeader|
  {
    [ formatDate(t.date), t.kind, renderAmount(t.amount),
      OrEmpty(t.description),
      FallbackName(t.categories, t.category),
      FallbackName(t.accounts, t.account),
      FallbackName(t.fromAccounts, t.fromAccount),
      FallbackName(t.toAccounts, t.toAccount),
      OrEmpty(t.notes) ]
  }

  /** The row generateCSV writes for one transaction: date, type and amount
      as they are, the six text fields escaped. */
  function ExportRow(t: ExportSource, formatDate: string -> string, renderAmount: Num -> string): (r: seq<string>)
    ensures |r| == |ExportHeader|
    ensures forall k :: 0 <= k < 3 ==> r[k] == RowValues(t, formatDate, renderAmount)[k]
    ensures forall k :: 3 <= k < |ExportHeader| ==> r[k] == EscapeCsv(RowValues(t, formatDate, renderAmount)[k])
  {
    var v := RowValues(t, formatDate, renderAmount);
    v[..3] + EscapeAll(v[3..])
  }

  /** `rows.map(row => row.join(","))`: one line per transaction, in order. */
  function RowLines(ts: seq<ExportSource>, formatDate: string -> string, renderAmount: Num -> string): (r: seq<string>)
    ensures |r| == |ts|
    ensures forall k :: 0 <= k < |ts| ==> r[k] == Join(ExportRow(ts[k], formatDate, renderAmount), ',')
  {
    if ts == [] then []
    else [Join(ExportRow(ts[0], formatDate, renderAmount), ',')] + RowLines(ts[1..], formatDate, renderAmount)
  }

  /** The lines of the file: the header line, then the row lines. */
  function ExportLines(ts: seq<ExportSource>, formatDate: string -> string, renderAmount: Num -> string): (r: seq<string>)
    ensures |r| == |ts| + 1
  {
    [Join(ExportHeader, ',')] + RowLines(ts, formatDate, renderAmount)
  }

  /** generateCSV. */
  function GenerateCsv(ts: seq<ExportSource>, formatDate: string -> string, renderAmount: Num -> string): string {
    Join(ExportLines(ts, formatDate, renderAmount), '\n')
  }

  /** A character found in no piece and other than the separator is not in
      the joined text. */
  lemma {:induction false} JoinAvoids(xs: seq<string>, sep: char, c: char)
    requires c != sep
    requires forall k :: 0 <= k < |xs| ==> c !in xs[k]
    ensures c !in Join(xs, sep)
  {
    if |xs| > 1 {
      JoinAvoids(xs[1..], sep, c);
    }
  }

  /** Doubling quotes adds no character other than the quote. */
  lemma DoubleQuotesAvoids(v: string, c: char)
    requires c != '"' && c !in v
    ensures c !in DoubleQuotes(v)
  {
    if v != [] {
      DoubleQuotesAvoids(v[1..], c);
    }
  }

  lemma {:induction false} EscapeAllAvoids(vs: seq<string>, c: char)
    requires c != '"'
    requires forall k :: 0 <= k < |vs| ==> c !in vs[k]
    ensures forall k :: 0 <= k < |vs| ==> c !in EscapeAll(vs)[k]
  {
    if vs != [] {
      EscapeAllAvoids(vs[1..], c);
      if NeedsQuoting(vs[0]) {
        DoubleQuotesAvoids(vs[0], c);
      }
    }
  }

  /** None of the nine values holds a line feed. */
  predicate SingleLine(t: ExportSource, formatDate: string -> string, renderAmount: Num -> string) {
    forall k :: 0 <= k < |ExportHeader| ==> '\n' !in RowValues(t, formatDate, renderAmount)[k]
  }

  /** A generated row is one line when none of its values holds a line
      feed. */
  lemma ExportRowSingleLine(t: ExportSource, formatDate: string -> string, renderAmount: Num -> string)
    requires SingleLine(t, formatDate, renderAmount)
    ensures '\n' !in Join(ExportRow(t, formatDate, renderAmount), ',')
  {
    var v := RowValues(t, formatDate, renderAmount);
    EscapeAllAvoids(v[3..], '\n');
    var row := ExportRow(t, formatDate, renderAmount);
    forall j | 0 <= j < |row|
      ensures '\n' !in row[j]
    {
      if j >= 3 {
        assert row[j] == EscapeAll(v[3..])[j - 3];
      } else {
        assert row[j] == v[j];
      }
    }
    JoinAvoids(row, ',', '\n');
  }

  /** Line 0 of the file is the header line and line k + 1 is the row of
      transaction k. */
  lemma ExportLineAt(ts: seq<ExportSource>, formatDate: string -> string, renderAmount: Num -> string, k: nat)
    requires k < |ts|
    ensures ExportLines(ts, formatDate, renderAmount)[0] == Join(ExportHeader, ',')
    ensures ExportLines(ts, formatDate, renderAmount)[k + 1] == Join(ExportRow(ts[k], formatDate, renderAmount), ',')
  {
  }

  /** No row line holds a line feed when no value does. */
  lemma {:induction false} RowLinesSingle(ts: seq<ExportSource>, formatDate: string -> string, renderAmount: Num -> string)
    requires forall k :: 0 <= k < |ts| ==> SingleLine(ts[k], formatDate, renderAmount)
    ensures forall k :: 0 <= k < |ts| ==> '\n' !in RowLines(ts, formatDate, renderAmount)[k]
  {
    if ts != [] {
      RowLinesSingle(ts[1..], formatDate, renderAmount);
      ExportRowSingleLine(ts[0], formatDate, renderAmount);
    }
  }

  /** The header line is one line. */
  lemma HeaderSingleLine()
    ensures '\n' !in Join(ExportHeader, ',')
  {
    forall k | 0 <= k < |ExportHeader|
      ensures '\n' !in ExportHeader[k]
    {
    }
    JoinAvoids(ExportHeader, ',', '\n');
  }

  /** When no value holds a line feed, no line of the file holds one. */
  lemma ExportLinesSingle(ts: seq<ExportSource>, formatDate: string -> string, renderAmount: Num -> string)
    requires forall k :: 0 <= k < |ts| ==> SingleLine(ts[k], formatDate, renderAmount)
    ensures forall k :: 0 <= k < |ts| + 1 ==> '\n' !in ExportLines(ts, formatDate, renderAmount)[k]
  {
    HeaderSingleLine();
    RowLinesSingle(ts, formatDate, renderAmount);
  }

  /** When no value holds a line feed, splitting the file at line feeds gives
      back the header line and one line per transaction, in order. */
  lemma GenerateCsvLines(ts: seq<ExportSource>, formatDate: string -> string, renderAmount: Num -> string)
    requires forall k :: 0 <= k < |ts| ==> SingleLine(ts[k], formatDate, renderAmount)
    ensures Split(GenerateCsv(ts, formatDate, renderAmount), '\n') == ExportLines(ts, formatDate, renderAmount)
    ensures |Split(GenerateCsv(ts, formatDate, renderAmount), '\n')| == |ts| + 1
  {
    ExportLinesSingle(ts, formatDate, renderAmount);
    SplitJoin(ExportLines(ts, formatDate, renderAmount), '\n');
  }

  /** Date, type and amount are written unescaped; when they hold no comma,
      quote or line feed and the text fields hold no quote, parseCSVLine
      reads a generated row back as the nine values. */
  lemma ExportRowTokenizes(t: ExportSource, formatDate: string -> string, renderAmount: Num -> string)
    requires forall k :: 0 <= k < 3 ==> !NeedsQuoting(RowValues(t, formatDate, renderAmount)[k])
    requires forall k :: 3 <= k < |ExportHeader| ==> '"' !in RowValues(t, formatDate, renderAmount)[k]
    ensures Tokenize(Join(ExportRow(t, formatDate, renderAmount), ',')) == RowValues(t, formatDate, renderAmount)
  {
    var v := RowValues(t, formatDate, renderAmount);
    assert ExportRow(t, formatDate, renderAmount) == EscapeAll(v);
    EscapeJoinTokenize(v);
  }
}
