/** The user list an administrator uploads: a header row that names the columns, then one user a row. */
module UserCsv {
  import opened Common
  import opened Text
  import opened Csv

  const CSV_MAX_ROWS := 500

  datatype ParsedRow = ParsedRow(line: nat, email: string, name: string, password: string)

  datatype Outcome = Parsed(rows: seq<ParsedRow>) | Empty | NoEmailColumn | TooManyRows

  function IndexOf(names: seq<string>, name: string): Option<nat> {
    if names == [] then None
    else if names[0] == name then Some(0)
    else
      var r := IndexOf(names[1..], name);
      if r.None? then None else Some(r.value + 1)
  }

  function At(fields: seq<string>, index: Option<nat>): string {
    if index.Some? && index.value < |fields| then fields[index.value] else ""
  }

  function Columns(fields: seq<string>): seq<string> {
    seq(|fields|, i requires 0 <= i < |fields| => Lower(Trim(fields[i])))
  }

  predicate Blank(r: Record) {
    Trim(r.text) == ""
  }

  function SkipBlank(records: seq<Record>): seq<Record> {
    if records != [] && Blank(records[0]) then SkipBlank(records[1..]) else records
  }

  /** The user a row's fields amount to. */
  function FromFields(fields: seq<string>, line: nat, columns: seq<string>): ParsedRow {
    ParsedRow(line, Trim(At(fields, IndexOf(columns, "email"))), Trim(At(fields, IndexOf(columns, "name"))),
              At(fields, IndexOf(columns, "password")))
  }

  function ToRow(r: Record, columns: seq<string>): ParsedRow {
    FromFields(Fields(r), r.line, columns)
  }

  /** The records that are not blank. */
  function Filled(records: seq<Record>): seq<Record> {
    if records == [] then []
    else
      var last := records[|records| - 1];
      Filled(records[..|records| - 1]) + if Blank(last) then [] else [last]
  }

  function ToRows(records: seq<Record>, columns: seq<string>): seq<ParsedRow> {
    seq(|records|, i requires 0 <= i < |records| => ToRow(records[i], columns))
  }

  function Parse(text: string): Outcome {
    ParseRecords(Records(if text != "" && text[0] == BOM then text[1..] else text))
  }

  /** The first record that is not blank names the columns of the others. */
  function ParseRecords(all: seq<Record>): Outcome {
    var records := Filled(all);
    if records == [] then Empty
    else
      var columns := Columns(Fields(records[0]));
      if IndexOf(columns, "email").None? then NoEmailColumn
      else if |records| - 1 > CSV_MAX_ROWS then TooManyRows
      else Parsed(ToRows(records[1..], columns))
  }

  method SkipBlankRecords(records: seq<Record>) returns (headerIndex: nat)
    ensures headerIndex <= |records| && records[headerIndex..] == SkipBlank(records)
  {
    headerIndex := 0;
    while headerIndex < |records| && Blank(records[headerIndex])
      invariant headerIndex <= |records|
      invariant SkipBlank(records[headerIndex..]) == SkipBlank(records)
    {
      assert records[headerIndex..][1..] == records[headerIndex + 1..];
      headerIndex := headerIndex + 1;
    }
  }

  /** The users of the records after the header, unless there are too many. */
  method ReadRows(records: seq<Record>, columns: seq<string>) returns (rows: Option<seq<ParsedRow>>)
    ensures var filled := Filled(records); rows == if |filled| > CSV_MAX_ROWS then None else Some(ToRows(filled, columns))
  {
    var read: seq<ParsedRow> := [];
    var emailAt, nameAt, passwordAt := IndexOf(columns, "email"), IndexOf(columns, "name"), IndexOf(columns, "password");
    for i := 0 to |records|
      invariant read == ToRows(Filled(records[..i]), columns) && |read| <= CSV_MAX_ROWS
    {
      FilledSnoc(records, i);
      if Blank(records[i]) {
        continue;
      }
      var fields := SplitFields(records[i].text);
      read := read + [ParsedRow(records[i].line, Trim(At(fields, emailAt)), Trim(At(fields, nameAt)), At(fields, passwordAt))];
      if |read| > CSV_MAX_ROWS {
        FilledGrows(records, i + 1);
        return None;
      }
    }
    assert records[..|records|] == records;
    rows := Some(read);
  }

  method ParseUserCsv(text: string) returns (outcome: Outcome)
    ensures outcome == Parse(text)
  {
    var normalized := text;
    if text != "" && text[0] == BOM {
      normalized := text[1..];
    }
    var records := SplitRecords(normalized);
    var headerIndex := SkipBlankRecords(records);
    HeaderAndRows(records);
    if headerIndex == |records| {
      return Empty;
    }
    var headerFields := SplitFields(records[headerIndex].text);
    var columns := Columns(headerFields);
    if IndexOf(columns, "email").None? {
      return NoEmailColumn;
    }
    assert SkipBlank(records)[1..] == records[headerIndex + 1..];
    var rows := ReadRows(records[headerIndex + 1..], columns);
    outcome := if rows.None? then TooManyRows else Parsed(rows.value);
  }

  lemma FilledSnoc(records: seq<Record>, i: nat)
    requires i < |records|
    ensures Filled(records[..i + 1]) == Filled(records[..i]) + if Blank(records[i]) then [] else [records[i]]
  {
    assert records[..i + 1][..i] == records[..i];
  }

  lemma {:induction false} FilledConcat(a: seq<Record>, b: seq<Record>)
    ensures Filled(a + b) == Filled(a) + Filled(b)
    decreases |b|
  {
    if b == [] {
      assert a + b == a;
    } else {
      assert (a + b)[..|a + b| - 1] == a + b[..|b| - 1];
      FilledConcat(a, b[..|b| - 1]);
    }
  }

  lemma FilledGrows(records: seq<Record>, i: nat)
    requires i <= |records|
    ensures |Filled(records[..i])| <= |Filled(records)|
  {
    assert records == records[..i] + records[i..];
    FilledConcat(records[..i], records[i..]);
  }

  // ------------------------------------------------------------------------- cells

  /** The first column that goes by this name, in any letter case and whatever white space surrounds it. */
  ghost predicate FirstNamed(header: seq<string>, name: string, i: nat) {
    && i < |header| && Lower(Trim(header[i])) == name
    && forall j :: 0 <= j < i ==> Lower(Trim(header[j])) != name
  }

  /** What a row holds under a column name: nothing when the column or the cell is missing. */
  ghost predicate IsCell(header: seq<string>, row: seq<string>, name: string, value: string) {
    && (forall i: nat | FirstNamed(header, name, i) :: value == if i < |row| then row[i] else "")
    && ((forall i: nat :: !FirstNamed(header, name, i)) ==> value == "")
  }

  /** Address and name without the white space around them, the password to the letter, and the line. */
  ghost predicate IsUser(user: ParsedRow, header: seq<string>, row: seq<string>, line: nat) {
    && user.line == line
    && (exists email :: IsCell(header, row, "email", email) && user.email == Trim(email))
    && (exists name :: IsCell(header, row, "name", name) && user.name == Trim(name))
    && IsCell(header, row, "password", user.password)
  }

  lemma {:induction false} IndexOfIsFirst(names: seq<string>, name: string)
    ensures match IndexOf(names, name)
            case Some(i) => i < |names| && names[i] == name && forall j :: 0 <= j < i ==> names[j] != name
            case None => name !in names
  {
    if names != [] {
      IndexOfIsFirst(names[1..], name);
    }
  }

  lemma CellIs(header: seq<string>, row: seq<string>, name: string)
    ensures IsCell(header, row, name, At(row, IndexOf(Columns(header), name)))
    ensures IndexOf(Columns(header), name).None? <==> forall cell <- header :: Lower(Trim(cell)) != name
  {
    IndexOfIsFirst(Columns(header), name);
    assert forall i :: 0 <= i < |header| ==> Columns(header)[i] == Lower(Trim(header[i])) && header[i] in header;
    if IndexOf(Columns(header), name).Some? {
      assert FirstNamed(header, name, IndexOf(Columns(header), name).value);
    }
  }

  lemma UserIs(header: seq<string>, row: seq<string>, line: nat)
    ensures IsUser(FromFields(row, line, Columns(header)), header, row, line)
  {
    CellIs(header, row, "email");
    CellIs(header, row, "name");
    CellIs(header, row, "password");
  }

  // ------------------------------------------------------------------ blank records

  /** The positions that are not blank, in order. */
  function Shown(blank: seq<bool>): seq<nat> {
    if blank == [] then []
    else
      var n := |blank| - 1;
      Shown(blank[..n]) + if blank[n] then [] else [n]
  }

  lemma {:induction false} ShownMeans(blank: seq<bool>)
    ensures var shown := Shown(blank);
            && (forall i, j :: 0 <= i < j < |shown| ==> shown[i] < shown[j])
            && (forall i :: 0 <= i < |shown| ==> shown[i] < |blank| && !blank[shown[i]])
            && (forall k :: 0 <= k < |blank| && !blank[k] ==> k in shown)
  {
    if blank != [] {
      var n := |blank| - 1;
      ShownMeans(blank[..n]);
      var before := Shown(blank[..n]);
      forall k | 0 <= k < n && !blank[k]
        ensures k in before
      {
        assert !blank[..n][k];
      }
    }
  }

  function BlankRecords(records: seq<Record>): seq<bool> {
    seq(|records|, i requires 0 <= i < |records| => Blank(records[i]))
  }

  /** These are the records at the positions shown. */
  ghost predicate AreAt(filled: seq<Record>, records: seq<Record>, shown: seq<nat>) {
    |filled| == |shown| && forall i :: 0 <= i < |shown| ==> shown[i] < |records| && filled[i] == records[shown[i]]
  }

  lemma AreAtSnoc(filled: seq<Record>, front: seq<Record>, last: Record, shown: seq<nat>)
    requires AreAt(filled, front, shown)
    ensures AreAt(filled, front + [last], shown)
    ensures AreAt(filled + [last], front + [last], shown + [|front|])
  {
  }

  lemma {:induction false} FilledAt(records: seq<Record>)
    ensures AreAt(Filled(records), records, Shown(BlankRecords(records)))
  {
    if records != [] {
      var n := |records| - 1;
      assert BlankRecords(records)[..n] == BlankRecords(records[..n]);
      FilledAt(records[..n]);
      assert records == records[..n] + [records[n]];
      AreAtSnoc(Filled(records[..n]), records[..n], records[n], Shown(BlankRecords(records[..n])));
    }
  }

  /** The header is the first record that is not blank, and the rows are the others. */
  lemma {:induction false} HeaderAndRows(records: seq<Record>)
    ensures SkipBlank(records) == [] <==> Filled(records) == []
    ensures SkipBlank(records) != [] ==> Filled(records) == [SkipBlank(records)[0]] + Filled(SkipBlank(records)[1..])
  {
    if records != [] {
      assert records == [records[0]] + records[1..];
      FilledConcat([records[0]], records[1..]);
      assert Filled([records[0]]) == if Blank(records[0]) then [] else [records[0]];
      HeaderAndRows(records[1..]);
    }
  }

  // ------------------------------------------------------------------ written lists

  /** A line that shows nothing: a single field, not in quotes, of white space at most. */
  predicate BlankRow(row: seq<Field>) {
    |row| == 1 && !row[0].quoted && forall c <- row[0].value :: IsSpace(c)
  }

  function BlankLines(lines: seq<Line>): seq<bool> {
    seq(|lines|, i requires 0 <= i < |lines| => BlankRow(lines[i].row))
  }

  lemma BlankIff(row: seq<Field>, line: nat)
    requires Writable(row)
    ensures Blank(Record(PrintRow(SettleRow(row)), line)) <==> BlankRow(row)
  {
    var text, first := PrintRow(SettleRow(row)), PrintField(Settle(row[0]));
    assert row[0] in row;
    TrimsAwayIff(text);
    if |row| > 1 {
      assert text == first + ("," + PrintRow(SettleRow(row)[1..]));
      assert text[|first|] == ',' && !IsSpace(',');
    } else {
      assert text == first;
      if row[0].quoted {
        assert text[0] == '\"' && !IsSpace('\"');
      } else {
        NormalizeKeepsIff(row[0].value);
      }
    }
  }

  /** What rows, numbered by lines, have to be read as when only those at the positions shown count. */
  ghost predicate ReadAs(outcome: Outcome, rows: seq<seq<string>>, numbers: seq<nat>, shown: seq<nat>)
    requires |numbers| == |rows| && forall i :: 0 <= i < |shown| ==> shown[i] < |rows|
  {
    if shown == [] then outcome == Empty
    else if forall cell <- rows[shown[0]] :: Lower(Trim(cell)) != "email" then outcome == NoEmailColumn
    else if |shown| - 1 > 500 then outcome == TooManyRows
    else
      && outcome.Parsed? && |outcome.rows| == |shown| - 1
      && forall i :: 1 <= i < |shown| ==>
           IsUser(outcome.rows[i - 1], rows[shown[0]], rows[shown[i]], numbers[shown[i]])
  }

  function FieldsOf(records: seq<Record>): seq<seq<string>> {
    seq(|records|, i requires 0 <= i < |records| => Fields(records[i]))
  }

  function NumbersOf(records: seq<Record>): seq<nat> {
    seq(|records|, i requires 0 <= i < |records| => records[i].line)
  }

  /** What the records that are not blank are read as. */
  lemma FilledAreRead(records: seq<Record>)
    ensures var filled := Filled(records);
            var outcome := ParseRecords(records);
            if filled == [] then outcome == Empty
            else if forall cell <- Fields(filled[0]) :: Lower(Trim(cell)) != "email" then outcome == NoEmailColumn
            else if |filled| - 1 > 500 then outcome == TooManyRows
            else
              && outcome.Parsed? && |outcome.rows| == |filled| - 1
              && forall i :: 1 <= i < |filled| ==>
                   IsUser(outcome.rows[i - 1], Fields(filled[0]), Fields(filled[i]), filled[i].line)
  {
    var filled := Filled(records);
    if filled != [] {
      CellIs(Fields(filled[0]), [], "email");
      RowsAreUsers(filled[1..], Fields(filled[0]));
      assert forall i :: 1 <= i < |filled| ==> filled[1..][i - 1] == filled[i];
    }
  }

  lemma RowsAreUsers(records: seq<Record>, header: seq<string>)
    ensures |ToRows(records, Columns(header))| == |records|
    ensures forall i :: 0 <= i < |records| ==>
              IsUser(ToRows(records, Columns(header))[i], header, Fields(records[i]), records[i].line)
  {
    forall i | 0 <= i < |records|
      ensures IsUser(ToRow(records[i], Columns(header)), header, Fields(records[i]), records[i].line)
    {
      UserIs(header, Fields(records[i]), records[i].line);
    }
  }

  lemma RecordsAreRead(records: seq<Record>)
    ensures forall i :: 0 <= i < |Shown(BlankRecords(records))| ==> Shown(BlankRecords(records))[i] < |records|
    ensures ReadAs(ParseRecords(records), FieldsOf(records), NumbersOf(records), Shown(BlankRecords(records)))
  {
    FilledAt(records);
    FilledAreRead(records);
    ShownMeans(BlankRecords(records));
  }

  /** The rows of a table with every line break inside them a newline. */
  function Rows(lines: seq<Line>): seq<seq<string>> {
    seq(|lines|, k requires 0 <= k < |lines| => Values(SettleRow(lines[k].row)))
  }

  /** The physical line each row starts on. */
  function Numbers(lines: seq<Line>): seq<nat> {
    seq(|lines|, k requires 0 <= k < |lines| => 1 + Breaks(PrintLines(lines[..k])))
  }

  /** What the records of a written list are, and which of them are blank. */
  lemma RecordsOfLines(lines: seq<Line>)
    requires WellWritten(lines)
    ensures var records := Records(PrintLines(lines));
            BlankRecords(records) == BlankLines(lines) && FieldsOf(records) == Rows(lines) && NumbersOf(records) == Numbers(lines)
  {
    var records := Records(PrintLines(lines));
    RecordsReadLines(lines, 1);
    if lines != [] {
      NumberedAt(lines, 1, 0);
    }
    forall k | 0 <= k < |lines|
      ensures BlankRecords(records)[k] == BlankLines(lines)[k]
      ensures FieldsOf(records)[k] == Rows(lines)[k] && NumbersOf(records)[k] == Numbers(lines)[k]
    {
      NumberedAt(lines, 1, k);
      LineIsWritable(lines, k);
      BlankIff(lines[k].row, records[k].line);
      SettledIsWritable(lines[k].row);
      FieldsOfRow(SettleRow(lines[k].row));
    }
  }

  /**
   * A list comes back user by user however it is written: with or without quotes, with
   * any line endings, blank lines and column order, and with or without a byte order mark.
   */
  lemma WrittenListIsParsed(lines: seq<Line>)
    requires WellWritten(lines) && !StartsWith(PrintLines(lines), BOM)
    ensures var shown := Shown(BlankLines(lines));
            && (forall i :: 0 <= i < |shown| ==> shown[i] < |lines|)
            && ReadAs(Parse(PrintLines(lines)), Rows(lines), Numbers(lines), shown)
            && ReadAs(Parse([BOM] + PrintLines(lines)), Rows(lines), Numbers(lines), shown)
  {
    var text := PrintLines(lines);
    assert ([BOM] + text)[1..] == text;
    RecordsOfLines(lines);
    RecordsAreRead(Records(text));
  }
}
