/** CSV import: parseCSV and its quote-aware line tokenizer parseCSVLine
    (lib/utils/import-export.ts). */
module CsvImport {
  import opened Results
  import opened Text
  import opened Numbers
  import opened Transactions

  // ---------------------------------------------------------------------
  // parseCSVLine
  // ---------------------------------------------------------------------

  /** The fields of s read from the given quote state: a '"' flips the
      state and is dropped, a ',' outside quotes ends the current field, and
      every other character (a ',' inside quotes too) is appended to the
      current field. There is always at least one field, and no field holds
      a quote character. */
  function Fields(s: string, inQuotes: bool): (r: seq<string>)
    ensures |r| >= 1
    ensures forall k :: 0 <= k < |r| ==> '"' !in r[k]
  {
    if s == [] then [""]
    else if s[0] == '"' then Fields(s[1..], !inQuotes)
    else if s[0] == ',' && !inQuotes then [""] + Fields(s[1..], inQuotes)
    else Prepend([s[0]], Fields(s[1..], inQuotes))
  }

  /** What parseCSVLine returns for a line. */
  function Tokenize(line: string): seq<string> {
    Fields(line, false)
  }

  /** One character of s consumed at position i. */
  lemma FieldsStep(s: string, i: nat, inQuotes: bool)
    requires i < |s|
    ensures s[i] == '"' ==> Fields(s[i..], inQuotes) == Fields(s[i + 1..], !inQuotes)
    ensures s[i] == ',' && !inQuotes ==> Fields(s[i..], inQuotes) == [""] + Fields(s[i + 1..], inQuotes)
    ensures s[i] != '"' && (s[i] != ',' || inQuotes) ==>
      Fields(s[i..], inQuotes) == Prepend([s[i]], Fields(s[i + 1..], inQuotes))
  {
    assert s[i..][0] == s[i] && s[i..][1..] == s[i + 1..];
  }

  lemma PrependEmpty(fields: seq<string>)
    requires |fields| >= 1
    ensures Prepend("", fields) == fields
  {
    assert "" + fields[0] == fields[0];
    assert [fields[0]] + fields[1..] == fields;
  }

  lemma PrependPrepend(p: string, q: string, fields: seq<string>)
    requires |fields| >= 1
    ensures Prepend(p, Prepend(q, fields)) == Prepend(p + q, fields)
  {
    assert p + (q + fields[0]) == p + q + fields[0];
  }

  /** parseCSVLine: walks the characters once, keeping the current field and
      the in-quotes flag. */
  method ParseCsvLine(line: string) returns (result: seq<string>)
    ensures result == Tokenize(line)
    ensures |result| >= 1
  {
    result := [];
    var current := "";
    var inQuotes := false;
    assert line[0..] == line;
    PrependEmpty(Fields(line, false));
    for i := 0 to |line|
      invariant Tokenize(line) == result + Prepend(current, Fields(line[i..], inQuotes))
    {
      var c := line[i];
      FieldsStep(line, i, inQuotes);
      if c == '"' {
        inQuotes := !inQuotes;
      } else if c == ',' && !inQuotes {
        var rest := Fields(line[i + 1..], inQuotes);
        assert Prepend(current, [""] + rest) == [current] + rest by {
          assert current + "" == current;
          assert ([""] + rest)[1..] == rest;
        }
        PrependEmpty(rest);
        result := result + [current];
        current := "";
      } else {
        PrependPrepend(current, [c], Fields(line[i + 1..], inQuotes));
        current := current + [c];
      }
    }
    assert Fields(line[|line|..], inQuotes) == [""];
    assert current + "" == current;
    result := result + [current];
  }

  /** The line with every quote character removed. */
  function RemoveQuotes(s: string): (r: string)
    ensures '"' !in r
    ensures |r| <= |s|
    ensures '"' !in s ==> r == s
  {
    if s == [] then []
    else if s[0] == '"' then RemoveQuotes(s[1..])
    else
      assert [s[0]] + s[1..] == s;
      [s[0]] + RemoveQuotes(s[1..])
  }

  /** Putting the fields back together with commas gives the line without its
      quotes: commas inside quotes stay inside a field, commas outside quotes
      become the separators, and nothing else is lost. */
  lemma {:induction false} JoinFieldsRemovesQuotes(s: string, inQuotes: bool)
    ensures Join(Fields(s, inQuotes), ',') == RemoveQuotes(s)
  {
    if s != [] {
      if s[0] == '"' {
        JoinFieldsRemovesQuotes(s[1..], !inQuotes);
      } else if s[0] == ',' && !inQuotes {
        JoinFieldsRemovesQuotes(s[1..], inQuotes);
        var f := Fields(s[1..], inQuotes);
        assert ([""] + f)[1..] == f;
      } else {
        JoinFieldsRemovesQuotes(s[1..], inQuotes);
        JoinPrepend([s[0]], Fields(s[1..], inQuotes), ',');
      }
    }
  }

  /** Position k of s lies inside quotes: an odd number of quote characters
      come before it. */
  predicate InsideQuotes(s: string, k: nat)
    requires k <= |s|
  {
    multiset(s[..k])['"'] % 2 == 1
  }

  /** Position k holds a comma that ends a field. */
  predicate IsSeparator(s: string, k: nat)
    requires k < |s|
  {
    s[k] == ',' && !InsideQuotes(s, k)
  }

  /** The number of separating commas among the first n characters. */
  function SeparatorsBefore(s: string, n: nat): nat
    requires n <= |s|
  {
    if n == 0 then 0
    else SeparatorsBefore(s, n - 1) + (if IsSeparator(s, n - 1) then 1 else 0)
  }

  lemma {:induction false} FieldCountFrom(s: string, j: nat)
    requires j <= |s|
    decreases |s| - j
    ensures |Fields(s[j..], InsideQuotes(s, j))| + SeparatorsBefore(s, j) == SeparatorsBefore(s, |s|) + 1
  {
    if j < |s| {
      FieldCountFrom(s, j + 1);
      assert s[..j + 1] == s[..j] + [s[j]];
      assert s[j..][0] == s[j] && s[j..][1..] == s[j + 1..];
      assert InsideQuotes(s, j + 1) == (InsideQuotes(s, j) != (s[j] == '"'));
    }
  }

  /** parseCSVLine returns one more field than the line has commas outside
      quotes. */
  lemma FieldCount(line: string)
    ensures |Tokenize(line)| == SeparatorsBefore(line, |line|) + 1
  {
    FieldCountFrom(line, 0);
    assert line[0..] == line;
    assert line[..0] == [];
  }

  /** A chunk with no quote, and no comma unless it is read inside quotes,
      goes whole into the current field. */
  lemma {:induction false} FieldsChunk(w: string, rest: string, inQuotes: bool)
    requires '"' !in w
    requires !inQuotes ==> ',' !in w
    ensures Fields(w + rest, inQuotes) == Prepend(w, Fields(rest, inQuotes))
  {
    var f := Fields(rest, inQuotes);
    if w == [] {
      assert w + rest == rest;
      assert w + f[0] == f[0];
      assert [f[0]] + f[1..] == f;
    } else {
      assert (w + rest)[0] == w[0];
      assert (w + rest)[1..] == w[1..] + rest;
      FieldsChunk(w[1..], rest, inQuotes);
      assert [w[0]] + (w[1..] + f[0]) == w + f[0];
    }
  }

  /** A line with no quote and no comma is a single field. */
  lemma SingleField(w: string)
    requires '"' !in w && ',' !in w
    ensures Tokenize(w) == [w]
  {
    FieldsChunk(w, "", false);
    assert w + "" == w;
  }

  // ---------------------------------------------------------------------
  // parseCSV
  // ---------------------------------------------------------------------

  /** The header names: the header line split on every comma (quotes are not
      honoured here), each trimmed and lower-cased. */
  function Headers(headerLine: string): seq<string> {
    var parts := Split(headerLine, ',');
    seq(|parts|, k requires 0 <= k < |parts| => Lower(Trim(parts[k])))
  }

  /** `values[index]?.trim() || ""`. */
  function ValueAt(values: seq<string>, j: nat): string {
    if j < |values| then Trim(values[j]) else ""
  }

  /** The row object the forEach over the headers builds from position j on,
      starting from the object built so far: each header name is assigned
      the trimmed value at its position, a later position overwriting an
      earlier one with the same name. */
  function RowMapFrom(headers: seq<string>, values: seq<string>, j: nat, row: map<string, string>): map<string, string>
    requires j <= |headers|
    decreases |headers| - j
  {
    if j == |headers| then row
    else RowMapFrom(headers, values, j + 1, row[headers[j] := ValueAt(values, j)])
  }

  /** The row object the forEach over the headers builds. */
  function RowMap(headers: seq<string>, values: seq<string>): map<string, string> {
    RowMapFrom(headers, values, 0, map[])
  }

  /** No later position carries the header name at position p. */
  predicate IsLastPosition(headers: seq<string>, p: nat)
    requires p < |headers|
  {
    forall k :: p < k < |headers| ==> headers[k] != headers[p]
  }

  /** The row object has a key exactly for the names it started with and the
      header names from position j on. */
  lemma {:induction false} RowMapKeys(headers: seq<string>, values: seq<string>, j: nat, row: map<string, string>, name: string)
    requires j <= |headers|
    decreases |headers| - j
    ensures name in RowMapFrom(headers, values, j, row) <==> name in row || name in headers[j..]
  {
    if j < |headers| {
      RowMapKeys(headers, values, j + 1, row[headers[j] := ValueAt(values, j)], name);
      assert headers[j..] == [headers[j]] + headers[j + 1..];
    }
  }

  /** Each header name is bound to the trimmed value at the last position
      that carries it, or "" when that position is past the end of the
      values. */
  lemma {:induction false} RowMapLast(headers: seq<string>, values: seq<string>, j: nat, row: map<string, string>, p: nat)
    requires j <= p < |headers| && IsLastPosition(headers, p)
    decreases |headers| - j
    ensures headers[p] in RowMapFrom(headers, values, j, row)
    ensures RowMapFrom(headers, values, j, row)[headers[p]] == ValueAt(values, p)
  {
    var next := row[headers[j] := ValueAt(values, j)];
    if p == j {
      if j + 1 < |headers| {
        RowMapKeys(headers, values, j + 1, next, headers[p]);
        RowMapUntouched(headers, values, j + 1, next, headers[p]);
      }
    } else {
      RowMapLast(headers, values, j + 1, next, p);
    }
  }

  /** A name that no header from position j on carries keeps its value. */
  lemma {:induction false} RowMapUntouched(headers: seq<string>, values: seq<string>, j: nat, row: map<string, string>, name: string)
    requires j <= |headers| && name in row
    requires forall k :: j <= k < |headers| ==> headers[k] != name
    decreases |headers| - j
    ensures name in RowMapFrom(headers, values, j, row)
    ensures RowMapFrom(headers, values, j, row)[name] == row[name]
  {
    if j < |headers| {
      RowMapUntouched(headers, values, j + 1, row[headers[j] := ValueAt(values, j)], name);
    }
  }

  /** Every value the forEach adds is the trimmed value (or "") at some
      position of its header name. */
  lemma {:induction false} RowMapSomePosition(headers: seq<string>, values: seq<string>, j: nat, row: map<string, string>, name: string)
    requires j <= |headers|
    requires name in RowMapFrom(headers, values, j, row)
    decreases |headers| - j
    ensures || RowMapFrom(headers, values, j, row)[name] == ValueOrEmpty(row, name)
            || exists p :: j <= p < |headers| && headers[p] == name && RowMapFrom(headers, values, j, row)[name] == ValueAt(values, p)
  {
    if j < |headers| {
      var next := row[headers[j] := ValueAt(values, j)];
      RowMapSomePosition(headers, values, j + 1, next, name);
      if RowMapFrom(headers, values, j + 1, next)[name] == ValueOrEmpty(next, name) && name == headers[j] {
        assert headers[j] == name && RowMapFrom(headers, values, j, row)[name] == ValueAt(values, j);
      }
    }
  }

  /** The forEach that copies the values into the row object. */
  method BindRow(headers: seq<string>, values: seq<string>) returns (row: map<string, string>)
    ensures row == RowMap(headers, values)
  {
    row := map[];
    for j := 0 to |headers|
      invariant RowMap(headers, values) == RowMapFrom(headers, values, j, row)
    {
      row := row[headers[j] := ValueAt(values, j)];
    }
  }

  /** A key's value, undefined read as "". */
  function ValueOrEmpty(row: map<string, string>, name: string): string {
    if name in row then row[name] else ""
  }

  /** A key's value, undefined read as None. */
  function Lookup(row: map<string, string>, name: string): Option<string> {
    if name in row then Some(row[name]) else None
  }

  /** `row[first] || row[second]`: the first key when its value is non-empty,
      the second key's value (even "" or undefined) otherwise. */
  function Either(row: map<string, string>, first: string, second: string): Option<string> {
    if first in row && row[first] != "" then Some(row[first]) else Lookup(row, second)
  }

  /** The ways parseCSV fails; the row errors carry the 1-based line number
      of the offending line. */
  datatype CsvError =
    | TooFewLines
    | MissingRequiredFields(line: nat)
    | InvalidType(line: nat)
    | InvalidAmount(line: nat)

  /** The three required fields are present and non-empty (`!row.date || ...`). */
  predicate HasRequired(row: map<string, string>) {
    ValueOrEmpty(row, "date") != "" && ValueOrEmpty(row, "type") != "" && ValueOrEmpty(row, "amount") != ""
  }

  /** Validation and conversion of one bound row. A row fails when date, type
      or amount is missing, then when the type is not one of the three names
      in any letter case, then when the amount is NaN or not above zero; every
      error carries lineNo. An accepted row has a non-empty date, the type
      lower-cased, a strictly positive amount, the description or "", the
      category, account and notes as bound (undefined when no header names
      them) and the fallback from "fromaccount" to "from account" (and
      "toaccount" to "to account"). */
  function BuildRow(row: map<string, string>, lineNo: nat): Result<TransactionRow, CsvError> {
    if !HasRequired(row) then Failure(MissingRequiredFields(lineNo))
    else
      match KindOf(Lower(row["type"]))
      case None => Failure(InvalidType(lineNo))
      case Some(kind) =>
        var amount := ParseFloat(row["amount"]);
        if !IsPositive(amount) then Failure(InvalidAmount(lineNo))
        else Success(TransactionRow(
          row["date"],
          kind,
          amount,
          ValueOrEmpty(row, "description"),
          Lookup(row, "category"),
          Lookup(row, "account"),
          Either(row, "fromaccount", "from account"),
          Either(row, "toaccount", "to account"),
          Lookup(row, "notes")))
  }

  /** What BuildRow accepts and what it makes of an accepted row. */
  lemma BuildRowSpec(row: map<string, string>, lineNo: nat)
    ensures var r := BuildRow(row, lineNo);
      && (r.Failure? ==> !r.error.TooFewLines? && r.error.line == lineNo)
      && (r.Failure? && r.error.MissingRequiredFields? <==> !HasRequired(row))
      && (r.Failure? && r.error.InvalidType? <==> HasRequired(row) && KindOf(Lower(row["type"])).None?)
      && (r.Failure? && r.error.InvalidAmount? <==>
            HasRequired(row) && KindOf(Lower(row["type"])).Some? && !IsPositive(ParseFloat(row["amount"])))
      && (r.Success? <==>
            HasRequired(row) && KindOf(Lower(row["type"])).Some? && IsPositive(ParseFloat(row["amount"])))
      && (r.Success? ==>
            && r.value.date == row["date"] != ""
            && KindName(r.value.kind) == Lower(row["type"])
            && IsPositive(r.value.amount) && r.value.amount == ParseFloat(row["amount"])
            && r.value.description == ValueOrEmpty(row, "description")
            && r.value.category == Lookup(row, "category")
            && r.value.account == Lookup(row, "account")
            && r.value.fromAccount == Either(row, "fromaccount", "from account")
            && r.value.toAccount == Either(row, "toaccount", "to account")
            && r.value.notes == Lookup(row, "notes"))
  {
  }

  /** The forEach over the headers from position j on followed by the
      validation of the finished row object: BuildRow of RowMapFrom, written
      as one recursion over the header positions. */
  function BindAndBuild(headers: seq<string>, values: seq<string>, j: nat, row: map<string, string>, lineNo: nat)
    : Result<TransactionRow, CsvError>
    requires j <= |headers|
    decreases |headers| - j
  {
    if j == |headers| then BuildRow(row, lineNo)
    else BindAndBuild(headers, values, j + 1, row[headers[j] := ValueAt(values, j)], lineNo)
  }

  lemma {:induction false} BindAndBuildIsBuildRow(headers: seq<string>, values: seq<string>, j: nat, row: map<string, string>, lineNo: nat)
    requires j <= |headers|
    decreases |headers| - j
    ensures BindAndBuild(headers, values, j, row, lineNo) == BuildRow(RowMapFrom(headers, values, j, row), lineNo)
  {
    if j < |headers| {
      var next := row[headers[j] := ValueAt(values, j)];
      BindAndBuildIsBuildRow(headers, values, j + 1, next, lineNo);
      assert RowMapFrom(headers, values, j, row) == RowMapFrom(headers, values, j + 1, next);
    } else {
      assert RowMapFrom(headers, values, j, row) == row;
    }
  }

  /** The outcome for data line `line`, numbered lineNo. */
  function RowOf(headers: seq<string>, line: string, lineNo: nat): Result<TransactionRow, CsvError> {
    BindAndBuild(headers, Tokenize(line), 0, map[], lineNo)
  }

  lemma {:induction false} BindAndBuildLineNumber(headers: seq<string>, values: seq<string>, j: nat, row: map<string, string>, lineNo: nat)
    requires j <= |headers|
    decreases |headers| - j
    ensures var r := BindAndBuild(headers, values, j, row, lineNo);
      && (r.Failure? ==> !r.error.TooFewLines? && r.error.line == lineNo)
      && (r.Success? ==> r.value.date != "" && IsPositive(r.value.amount))
  {
    if j == |headers| {
      BuildRowSpec(row, lineNo);
    } else {
      BindAndBuildLineNumber(headers, values, j + 1, row[headers[j] := ValueAt(values, j)], lineNo);
    }
  }

  lemma RowOfLineNumber(headers: seq<string>, line: string, lineNo: nat)
    ensures var r := RowOf(headers, line, lineNo);
      && (r.Failure? ==> !r.error.TooFewLines? && r.error.line == lineNo)
      && (r.Success? ==> r.value.date != "" && IsPositive(r.value.amount))
  {
    BindAndBuildLineNumber(headers, Tokenize(line), 0, map[], lineNo);
  }

  /** The lines parseCSV works on: the trimmed text split at '\n'. */
  function Lines(text: string): seq<string> {
    Split(Trim(text), '\n')
  }

  /** Rows already converted, followed by the outcome of the rest. */
  function Then(done: seq<TransactionRow>, r: Result<seq<TransactionRow>, CsvError>): Result<seq<TransactionRow>, CsvError> {
    match r
    case Success(rest) => Success(done + rest)
    case Failure(e) => Failure(e)
  }

  /** The per-line conversion parseCSV applies, with the header names fixed. */
  function LineConverter(headers: seq<string>): (string, nat) -> Result<TransactionRow, CsvError> {
    (line: string, lineNo: nat) => RowOf(headers, line, lineNo)
  }

  /** The rows of lines[i..], line k converted as line number k + 1,
      stopping at the first line that does not convert. */
  function ConvertFrom(convert: (string, nat) -> Result<TransactionRow, CsvError>, lines: seq<string>, i: nat)
    : Result<seq<TransactionRow>, CsvError>
    decreases |lines| - i
  {
    if i >= |lines| then Success([])
    else
      match convert(lines[i], i + 1)
      case Failure(e) => Failure(e)
      case Success(row) => Then([row], ConvertFrom(convert, lines, i + 1))
  }

  /** parseCSV as a function of its input. */
  function ParseCsvSpec(text: string): Result<seq<TransactionRow>, CsvError> {
    var lines := Lines(text);
    if |lines| < 2 then Failure(TooFewLines)
    else ConvertFrom(LineConverter(Headers(lines[0])), lines, 1)
  }

  lemma ThenNil(r: Result<seq<TransactionRow>, CsvError>)
    ensures Then([], r) == r
  {
    if r.Success? {
      assert [] + r.value == r.value;
    }
  }

  lemma ThenThen(a: seq<TransactionRow>, b: seq<TransactionRow>, r: Result<seq<TransactionRow>, CsvError>)
    ensures Then(a, Then(b, r)) == Then(a + b, r)
  {
    if r.Success? {
      assert a + (b + r.value) == a + b + r.value;
    }
  }

  /** One turn of parseCSV's loop: a line that fails is the answer, a line
      that converts joins the rows already converted. */
  lemma ConvertStep(convert: (string, nat) -> Result<TransactionRow, CsvError>, lines: seq<string>,
                    done: seq<TransactionRow>, i: nat)
    requires 1 <= i < |lines|
    requires ConvertFrom(convert, lines, 1) == Then(done, ConvertFrom(convert, lines, i))
    ensures convert(lines[i], i + 1).Failure? ==>
      ConvertFrom(convert, lines, 1) == Failure(convert(lines[i], i + 1).error)
    ensures convert(lines[i], i + 1).Success? ==>
      ConvertFrom(convert, lines, 1) == Then(done + [convert(lines[i], i + 1).value], ConvertFrom(convert, lines, i + 1))
  {
    if convert(lines[i], i + 1).Success? {
      ThenThen(done, [convert(lines[i], i + 1).value], ConvertFrom(convert, lines, i + 1));
    }
  }

  /** Before the loop nothing is converted; after it nothing is left. */
  lemma ConvertEnds(convert: (string, nat) -> Result<TransactionRow, CsvError>, lines: seq<string>, done: seq<TransactionRow>)
    ensures ConvertFrom(convert, lines, 1) == Then([], ConvertFrom(convert, lines, 1))
    ensures Then(done, ConvertFrom(convert, lines, |lines|)) == Success(done)
  {
    ThenNil(ConvertFrom(convert, lines, 1));
    assert done + [] == done;
  }

  /** The body of parseCSV's loop for one data line: tokenize it, bind the
      values to the headers, validate and convert. */
  method ConvertLine(headers: seq<string>, line: string, lineNo: nat) returns (built: Result<TransactionRow, CsvError>)
    ensures built == RowOf(headers, line, lineNo)
  {
    var values := ParseCsvLine(line);
    var row := BindRow(headers, values);
    built := BuildRow(row, lineNo);
    BindAndBuildIsBuildRow(headers, values, 0, map[], lineNo);
  }

  /** parseCSV: converts the data lines in order and gives up at the first
      bad one. */
  method ParseCsv(text: string) returns (r: Result<seq<TransactionRow>, CsvError>)
    ensures r == ParseCsvSpec(text)
  {
    var lines := Split(Trim(text), '\n');
    if |lines| < 2 {
      return Failure(TooFewLines);
    }
    var headers := Headers(lines[0]);
    ghost var convert := LineConverter(headers);
    var transactions: seq<TransactionRow> := [];
    ConvertEnds(convert, lines, transactions);
    for i := 1 to |lines|
      invariant ConvertFrom(convert, lines, 1) == Then(transactions, ConvertFrom(convert, lines, i))
    {
      var built := ConvertLine(headers, lines[i], i + 1);
      assert built == convert(lines[i], i + 1);
      ConvertStep(convert, lines, transactions, i);
      if built.Failure? {
        return Failure(built.error);
      }
      transactions := transactions + [built.value];
    }
    ConvertEnds(convert, lines, transactions);
    return Success(transactions);
  }

  /** From line i on, conversion succeeds exactly when every line converts,
      and then gives their rows in order. */
  lemma {:induction false} ConvertSuccess(convert: (string, nat) -> Result<TransactionRow, CsvError>, lines: seq<string>, i: nat)
    requires i <= |lines|
    decreases |lines| - i
    ensures ConvertFrom(convert, lines, i).Success? <==>
      forall k :: i <= k < |lines| ==> convert(lines[k], k + 1).Success?
    ensures ConvertFrom(convert, lines, i).Success? ==>
      && |ConvertFrom(convert, lines, i).value| == |lines| - i
      && forall k :: i <= k < |lines| ==>
           convert(lines[k], k + 1) == Success(ConvertFrom(convert, lines, i).value[k - i])
  {
    if i < |lines| {
      ConvertSuccess(convert, lines, i + 1);
    }
  }

  /** A failure from line i on is the error of the first line that does not
      convert. */
  lemma {:induction false} ConvertFailure(convert: (string, nat) -> Result<TransactionRow, CsvError>, lines: seq<string>, i: nat)
    requires i <= |lines|
    requires ConvertFrom(convert, lines, i).Failure?
    decreases |lines| - i
    ensures exists m :: && i <= m < |lines|
                        && convert(lines[m], m + 1) == Failure(ConvertFrom(convert, lines, i).error)
                        && forall k :: i <= k < m ==> convert(lines[k], k + 1).Success?
  {
    if convert(lines[i], i + 1).Success? {
      ConvertFailure(convert, lines, i + 1);
      var m :| && i + 1 <= m < |lines|
               && convert(lines[m], m + 1) == Failure(ConvertFrom(convert, lines, i + 1).error)
               && forall k :: i + 1 <= k < m ==> convert(lines[k], k + 1).Success?;
      assert convert(lines[m], m + 1) == Failure(ConvertFrom(convert, lines, i).error);
    }
  }

  /** Line k's row, once the whole conversion from i on has succeeded. */
  lemma ConvertRowAt(convert: (string, nat) -> Result<TransactionRow, CsvError>, lines: seq<string>, i: nat, k: nat)
    requires i <= k < |lines|
    requires ConvertFrom(convert, lines, i).Success?
    ensures |ConvertFrom(convert, lines, i).value| == |lines| - i
    ensures convert(lines[k], k + 1) == Success(ConvertFrom(convert, lines, i).value[k - i])
  {
    ConvertSuccess(convert, lines, i);
  }

  /** One line that does not convert makes the whole conversion fail. */
  lemma ConvertFailsAt(convert: (string, nat) -> Result<TransactionRow, CsvError>, lines: seq<string>, i: nat, k: nat)
    requires i <= k < |lines|
    requires convert(lines[k], k + 1).Failure?
    ensures ConvertFrom(convert, lines, i).Failure?
  {
    ConvertSuccess(convert, lines, i);
  }

  /** The error of a failed conversion comes from a line at or before any
      line that fails. */
  lemma ConvertFailureBefore(convert: (string, nat) -> Result<TransactionRow, CsvError>, lines: seq<string>, i: nat, k: nat)
    requires i <= k < |lines|
    requires convert(lines[k], k + 1).Failure?
    ensures ConvertFrom(convert, lines, i).Failure?
    ensures exists m :: i <= m <= k && convert(lines[m], m + 1) == Failure(ConvertFrom(convert, lines, i).error)
  {
    ConvertFailsAt(convert, lines, i, k);
    ConvertFailure(convert, lines, i);
  }

  /** An error that names line number n. */
  predicate NamesLine(e: CsvError, n: nat) {
    !e.TooFewLines? && e.line == n
  }

  /** Every error a line converter reports names the line it was given. */
  ghost predicate NumbersErrors(convert: (string, nat) -> Result<TransactionRow, CsvError>) {
    forall line: string, lineNo: nat :: convert(line, lineNo).Failure? ==> NamesLine(convert(line, lineNo).error, lineNo)
  }

  /** With such a converter, a failure from line i on names a line in range
      whose own conversion gives that very error. */
  lemma ConvertErrorLine(convert: (string, nat) -> Result<TransactionRow, CsvError>, lines: seq<string>, i: nat)
    requires i <= |lines| && NumbersErrors(convert)
    requires ConvertFrom(convert, lines, i).Failure?
    ensures var e := ConvertFrom(convert, lines, i).error;
      !e.TooFewLines? && i + 1 <= e.line <= |lines| && convert(lines[e.line - 1], e.line) == Failure(e)
  {
    ConvertFailure(convert, lines, i);
  }

  /** parseCSV's line converter numbers its errors. */
  lemma LineConverterNumbers(headers: seq<string>)
    ensures NumbersErrors(LineConverter(headers))
  {
    forall line: string, lineNo: nat
      ensures LineConverter(headers)(line, lineNo).Failure? ==> NamesLine(LineConverter(headers)(line, lineNo).error, lineNo)
    {
      RowOfLineNumber(headers, line, lineNo);
    }
  }

  /** Converting data lines 1.. fails only with an error that names a data
      line by its 1-based number, and that line's own error. */
  lemma DataLinesError(headers: seq<string>, lines: seq<string>)
    requires ConvertFrom(LineConverter(headers), lines, 1).Failure?
    ensures var e := ConvertFrom(LineConverter(headers), lines, 1).error;
      && !e.TooFewLines? && 2 <= e.line <= |lines|
      && RowOf(headers, lines[e.line - 1], e.line) == Failure(e)
  {
    LineConverterNumbers(headers);
    ConvertErrorLine(LineConverter(headers), lines, 1);
  }

  /** Every row a line converter accepts has a non-empty date and a
      strictly positive amount. */
  ghost predicate ChecksRows(convert: (string, nat) -> Result<TransactionRow, CsvError>) {
    forall line: string, lineNo: nat :: convert(line, lineNo).Success? ==>
      convert(line, lineNo).value.date != "" && IsPositive(convert(line, lineNo).value.amount)
  }

  /** parseCSV's line converter checks its rows. */
  lemma LineConverterChecks(headers: seq<string>)
    ensures ChecksRows(LineConverter(headers))
  {
    forall line: string, lineNo: nat | LineConverter(headers)(line, lineNo).Success?
      ensures LineConverter(headers)(line, lineNo).value.date != ""
      ensures IsPositive(LineConverter(headers)(line, lineNo).value.amount)
    {
      RowOfLineNumber(headers, line, lineNo);
    }
  }

  /** With such a converter, every row of a successful conversion has a
      non-empty date and a strictly positive amount. */
  lemma ConvertChecked(convert: (string, nat) -> Result<TransactionRow, CsvError>, lines: seq<string>, i: nat, k: nat)
    requires i <= k < |lines| && ChecksRows(convert)
    requires ConvertFrom(convert, lines, i).Success?
    ensures |ConvertFrom(convert, lines, i).value| == |lines| - i
    ensures ConvertFrom(convert, lines, i).value[k - i].date != ""
    ensures IsPositive(ConvertFrom(convert, lines, i).value[k - i].amount)
  {
    ConvertRowAt(convert, lines, i, k);
  }

  /** When data lines 1.. all convert, line k gives row k - 1, which has a
      non-empty date and a strictly positive amount. */
  lemma DataLinesRow(headers: seq<string>, lines: seq<string>, k: nat)
    requires 1 <= k < |lines|
    requires ConvertFrom(LineConverter(headers), lines, 1).Success?
    ensures var rows := ConvertFrom(LineConverter(headers), lines, 1).value;
      && |rows| == |lines| - 1
      && RowOf(headers, lines[k], k + 1) == Success(rows[k - 1])
      && rows[k - 1].date != "" && IsPositive(rows[k - 1].amount)
  {
    ConvertRowAt(LineConverter(headers), lines, 1, k);
    LineConverterChecks(headers);
    ConvertChecked(LineConverter(headers), lines, 1, k);
  }

  /** With such a converter, a line that does not convert makes the whole
      conversion fail, with an error naming that line or an earlier one. */
  lemma ConvertErrorNoLater(convert: (string, nat) -> Result<TransactionRow, CsvError>, lines: seq<string>, i: nat, k: nat)
    requires i <= k < |lines| && NumbersErrors(convert)
    requires convert(lines[k], k + 1).Failure?
    ensures ConvertFrom(convert, lines, i).Failure?
    ensures !ConvertFrom(convert, lines, i).error.TooFewLines?
    ensures ConvertFrom(convert, lines, i).error.line <= k + 1
  {
    ConvertFailureBefore(convert, lines, i, k);
    var m :| i <= m <= k && convert(lines[m], m + 1) == Failure(ConvertFrom(convert, lines, i).error);
    assert NamesLine(convert(lines[m], m + 1).error, m + 1);
  }

  /** A data line that does not convert makes the conversion of the data
      lines fail, with an error naming that line or an earlier one: the
      error is that of the first line that does not convert. */
  lemma DataLinesErrorNoLater(headers: seq<string>, lines: seq<string>, k: nat)
    requires 1 <= k < |lines|
    requires RowOf(headers, lines[k], k + 1).Failure?
    ensures var r := ConvertFrom(LineConverter(headers), lines, 1);
      r.Failure? && !r.error.TooFewLines? && r.error.line <= k + 1
  {
    var convert := LineConverter(headers);
    assert convert(lines[k], k + 1) == RowOf(headers, lines[k], k + 1);
    LineConverterNumbers(headers);
    ConvertErrorNoLater(convert, lines, 1, k);
  }

  /** parseCSV fails with TooFewLines exactly when the trimmed text has fewer
      than two lines. */
  lemma ParseCsvTooFewLines(text: string)
    ensures ParseCsvSpec(text) == Failure(TooFewLines) <==> |Lines(text)| < 2
  {
    var lines := Lines(text);
    if |lines| >= 2 && ParseCsvSpec(text).Failure? {
      DataLinesError(Headers(lines[0]), lines);
    }
  }

  /** On success there is one row per data line, and data line k (0-based,
      k >= 1) converts to row k - 1, which has a non-empty date and a
      strictly positive amount. */
  lemma ParseCsvRow(text: string, k: nat)
    requires ParseCsvSpec(text).Success?
    requires 1 <= k < |Lines(text)|
    ensures var lines := Lines(text); var rows := ParseCsvSpec(text).value;
      && |rows| == |lines| - 1
      && RowOf(Headers(lines[0]), lines[k], k + 1) == Success(rows[k - 1])
      && rows[k - 1].date != "" && IsPositive(rows[k - 1].amount)
  {
    var lines := Lines(text);
    DataLinesRow(Headers(lines[0]), lines, k);
  }

  /** A row error comes from a data line and names it by its 1-based
      number. */
  lemma ParseCsvFirstError(text: string)
    requires ParseCsvSpec(text).Failure? && !ParseCsvSpec(text).error.TooFewLines?
    ensures var lines := Lines(text); var e := ParseCsvSpec(text).error;
      && 2 <= e.line <= |lines|
      && RowOf(Headers(lines[0]), lines[e.line - 1], e.line) == Failure(e)
  {
    var lines := Lines(text);
    DataLinesError(Headers(lines[0]), lines);
  }

  /** A data line that does not convert makes parseCSV fail with an error
      naming that line or an earlier one, so the error it reports is that
      of the first bad line. */
  lemma ParseCsvErrorNoLater(text: string, k: nat)
    requires 1 <= k < |Lines(text)|
    requires RowOf(Headers(Lines(text)[0]), Lines(text)[k], k + 1).Failure?
    ensures ParseCsvSpec(text).Failure? && !ParseCsvSpec(text).error.TooFewLines?
    ensures ParseCsvSpec(text).error.line <= k + 1
  {
    var lines := Lines(text);
    DataLinesErrorNoLater(Headers(lines[0]), lines, k);
  }

  /** Trim leaves nothing only when every character is white space. */
  lemma TrimmedAway(s: string)
    requires Trim(s) == ""
    ensures forall k :: 0 <= k < |s| ==> IsWhiteSpace(s[k])
  {
    var p := SpaceEnd(s, 0);
    var t := TrimStart(s);
    SpaceEndSpec(s, 0);
    SpaceStartSpec(t, |t|);
    assert SpaceStart(t, |t|) == 0;
    BlankConcat(s[..p], t);
    assert s[..p] + t == s;
  }

  /** Two runs of white space make one. */
  lemma BlankConcat(a: string, b: string)
    requires forall k :: 0 <= k < |a| ==> IsWhiteSpace(a[k])
    requires forall k :: 0 <= k < |b| ==> IsWhiteSpace(b[k])
    ensures forall k :: 0 <= k < |a + b| ==> IsWhiteSpace((a + b)[k])
  {
    forall k | 0 <= k < |a + b|
      ensures IsWhiteSpace((a + b)[k])
    {
      if k >= |a| {
        assert (a + b)[k] == b[k - |a|];
      }
    }
  }

  /** The "skip empty lines" test never fires: a blank data line still
      tokenizes to one empty field, so it fails as a row with missing
      required fields. */
  lemma BlankLineFails(headers: seq<string>, line: string, lineNo: nat)
    requires Trim(line) == ""
    ensures RowOf(headers, line, lineNo) == Failure(MissingRequiredFields(lineNo))
  {
    TrimmedAway(line);
    assert '"' !in line && ',' !in line by {
      assert !IsWhiteSpace('"') && !IsWhiteSpace(',');
    }
    SingleField(line);
    BindAndBuildIsBuildRow(headers, [line], 0, map[], lineNo);
    var row := RowMap(headers, [line]);
    if "date" in row {
      RowMapSomePosition(headers, [line], 0, map[], "date");
    }
  }

  /** Hence a text with a blank line between its first and last line is
      rejected as a whole; when every data line before it converts, the
      error reported is the blank line's missing-fields error. */
  lemma BlankLineRejectsFile(text: string, k: nat)
    requires 1 <= k < |Lines(text)|
    requires Trim(Lines(text)[k]) == ""
    ensures ParseCsvSpec(text).Failure?
    ensures (forall m :: 1 <= m < k ==> RowOf(Headers(Lines(text)[0]), Lines(text)[m], m + 1).Success?) ==>
      ParseCsvSpec(text).error == MissingRequiredFields(k + 1)
  {
    var lines := Lines(text);
    var headers := Headers(lines[0]);
    BlankLineFails(headers, lines[k], k + 1);
    ParseCsvErrorNoLater(text, k);
    ParseCsvFirstError(text);
  }
}
