/**
 * CSV: what may be written, field by field with or without quotes and line by line
 * with any ending, how it is split into records and fields, and what comes back
 * (section 2 of RFC 4180).
 */
module Csv {
  // ----------------------------------------------------------------------- writing

  /** Every quote in the value doubled. */
  function Escape(value: string): string {
    if value == "" then ""
    else (if value[0] == '\"' then "\"\"" else [value[0]]) + Escape(value[1..])
  }

  function Quote(value: string): string {
    "\"" + Escape(value) + "\""
  }

  /** A field as somebody writes it: in quotes or as it is. */
  datatype Field = Field(value: string, quoted: bool)

  function PrintField(f: Field): string {
    if f.quoted then Quote(f.value) else f.value
  }

  function PrintRow(row: seq<Field>): string {
    if row == [] then ""
    else if |row| == 1 then PrintField(row[0])
    else PrintField(row[0]) + ("," + PrintRow(row[1..]))
  }

  function Values(row: seq<Field>): seq<string> {
    seq(|row|, i requires 0 <= i < |row| => row[i].value)
  }

  /** A row and what ends its line. */
  datatype Line = Line(row: seq<Field>, end: string)

  function PrintLines(lines: seq<Line>): string {
    if lines == [] then "" else PrintRow(lines[0].row) + (lines[0].end + PrintLines(lines[1..]))
  }

  /** Without quotes a value holds no quote, comma or line break. */
  predicate Writable(row: seq<Field>) {
    row != [] && forall f <- row :: f.quoted || forall c <- f.value :: c !in {'\"', ',', '\n', '\r'}
  }

  predicate StartsWith(text: string, c: char) {
    text != "" && text[0] == c
  }

  /** Any line break ends a line; the last line may also end with the text, unless it is empty. */
  predicate Ends(line: Line, rest: string) {
    || line.end == "\n"
    || line.end == "\r\n"
    || (line.end == "\r" && !StartsWith(rest, '\n'))
    || (line.end == "" && rest == "" && PrintRow(line.row) != "")
  }

  predicate WellWritten(lines: seq<Line>) {
    lines == [] || (Writable(lines[0].row) && Ends(lines[0], PrintLines(lines[1..])) && WellWritten(lines[1..]))
  }

  // ------------------------------------------------------------------- line breaks

  predicate IsBreak(c: char) {
    c == '\n' || c == '\r'
  }

  /** How many characters the line break at the start of `rest` takes. */
  function BreakLength(rest: string): nat
    requires rest != ""
  {
    if rest[0] == '\r' && |rest| > 1 && rest[1] == '\n' then 2 else 1
  }

  /** Every line break as a newline. */
  function Normalize(text: string): string {
    if text == "" then ""
    else if IsBreak(text[0]) then "\n" + Normalize(text[BreakLength(text)..])
    else [text[0]] + Normalize(text[1..])
  }

  /** How many line breaks a text holds. */
  function Breaks(text: string): nat {
    if text == "" then 0
    else if IsBreak(text[0]) then 1 + Breaks(text[BreakLength(text)..])
    else Breaks(text[1..])
  }

  // --------------------------------------------------------------------- splitting

  /** The fields still to come, with `current` begun, inside or outside quotes. */
  function FieldsFrom(rest: string, current: string, inQuotes: bool): seq<string>
    decreases |rest|
  {
    if rest == "" then [current]
    else if inQuotes && rest[0] == '\"' then
      if StartsWith(rest[1..], '\"') then FieldsFrom(rest[2..], current + "\"", true)
      else FieldsFrom(rest[1..], current, false)
    else if inQuotes then FieldsFrom(rest[1..], current + [rest[0]], true)
    else if rest[0] == '\"' then FieldsFrom(rest[1..], current, true)
    else if rest[0] == ',' then [current] + FieldsFrom(rest[1..], "", false)
    else FieldsFrom(rest[1..], current + [rest[0]], false)
  }

  datatype Record = Record(text: string, line: nat)

  /** The records still to come, with `current` begun on line `start` and reading at line `line`. */
  function RecordsFrom(rest: string, current: string, inQuotes: bool, line: nat, start: nat): seq<Record>
    decreases |rest|
  {
    if rest == "" then
      if current != "" then [Record(current, start)] else []
    else if rest[0] == '\"' then
      if inQuotes && StartsWith(rest[1..], '\"') then RecordsFrom(rest[2..], current + "\"\"", true, line, start)
      else RecordsFrom(rest[1..], current + "\"", !inQuotes, line, start)
    else if IsBreak(rest[0]) then
      var k := BreakLength(rest);
      if inQuotes then RecordsFrom(rest[k..], current + "\n", true, line + 1, start)
      else [Record(current, start)] + RecordsFrom(rest[k..], "", false, line + 1, line + 1)
    else RecordsFrom(rest[1..], current + [rest[0]], inQuotes, line, start)
  }

  /** The records a text splits into. */
  function Records(text: string): seq<Record> {
    RecordsFrom(text, "", false, 1, 1)
  }

  function Fields(r: Record): seq<string> {
    FieldsFrom(r.text, "", false)
  }

  method SplitFields(line: string) returns (fields: seq<string>)
    ensures fields == FieldsFrom(line, "", false)
  {
    fields := [];
    var current, inQuotes := "", false;
    var i := 0;
    while i < |line|
      invariant 0 <= i <= |line|
      invariant fields + FieldsFrom(line[i..], current, inQuotes) == FieldsFrom(line, "", false)
    {
      var c := line[i];
      ghost var rest := line[i..];
      assert rest[1..] == line[i + 1..];
      if inQuotes {
        if c == '\"' {
          if i + 1 < |line| && line[i + 1] == '\"' {
            assert rest[2..] == line[i + 2..];
            current := current + "\"";
            i := i + 1;
          } else {
            inQuotes := false;
          }
        } else {
          current := current + [c];
        }
      } else if c == '\"' {
        inQuotes := true;
      } else if c == ',' {
        fields := fields + [current];
        current := "";
      } else {
        current := current + [c];
      }
      i := i + 1;
    }
    assert line[i..] == "";
    fields := fields + [current];
  }

  method SplitRecords(text: string) returns (records: seq<Record>)
    ensures records == Records(text)
  {
    records := [];
    var current, inQuotes := "", false;
    var physicalLine, startLine := 1, 1;
    var i := 0;
    while i < |text|
      invariant 0 <= i <= |text|
      invariant records + RecordsFrom(text[i..], current, inQuotes, physicalLine, startLine)
                == RecordsFrom(text, "", false, 1, 1)
    {
      var c := text[i];
      ghost var rest := text[i..];
      assert rest[1..] == text[i + 1..];
      if c == '\"' {
        if inQuotes && i + 1 < |text| && text[i + 1] == '\"' {
          assert rest[2..] == text[i + 2..];
          current := current + "\"\"";
          i := i + 2;
          continue;
        }
        inQuotes := !inQuotes;
        current := current + "\"";
      } else if c == '\n' || c == '\r' {
        if c == '\r' && i + 1 < |text| && text[i + 1] == '\n' {
          assert rest[2..] == text[i + 2..];
          i := i + 1;
        }
        physicalLine := physicalLine + 1;
        if inQuotes {
          current := current + "\n";
        } else {
          records := records + [Record(current, startLine)];
          current := "";
          startLine := physicalLine;
        }
      } else {
        current := current + [c];
      }
      i := i + 1;
    }
    assert text[i..] == "";
    if current != "" {
      records := records + [Record(current, startLine)];
    }
  }

  // -------------------------------------------------------------- what breaks mean

  /** The first line break of `a`, or its first character, is that of the whole text. */
  lemma FirstOfConcat(a: string, b: string) returns (k: nat)
    requires a != "" && !(a[|a| - 1] == '\r' && StartsWith(b, '\n'))
    ensures 1 <= k <= |a| && k == (if IsBreak(a[0]) then BreakLength(a) else 1)
    ensures (a + b)[k..] == a[k..] + b && (a + b)[0] == a[0] && (IsBreak(a[0]) ==> BreakLength(a + b) == k)
  {
    k := if IsBreak(a[0]) then BreakLength(a) else 1;
  }

  lemma {:induction false} NormalizeConcat(a: string, b: string)
    requires !(a != "" && a[|a| - 1] == '\r' && StartsWith(b, '\n'))
    ensures Normalize(a + b) == Normalize(a) + Normalize(b)
    decreases |a|
  {
    if a == "" {
      assert a + b == b;
    } else {
      var k := FirstOfConcat(a, b);
      NormalizeConcat(a[k..], b);
    }
  }

  lemma {:induction false} BreaksConcat(a: string, b: string)
    requires !(a != "" && a[|a| - 1] == '\r' && StartsWith(b, '\n'))
    ensures Breaks(a + b) == Breaks(a) + Breaks(b)
    decreases |a|
  {
    if a == "" {
      assert a + b == b;
    } else {
      var k := FirstOfConcat(a, b);
      BreaksConcat(a[k..], b);
    }
  }

  /** Text without carriage returns stays, and no other text does. */
  lemma {:induction false} NormalizeKeepsIff(text: string)
    ensures '\r' !in Normalize(text)
    ensures Normalize(text) == text <==> '\r' !in text
  {
    if text != "" {
      var k := if IsBreak(text[0]) then BreakLength(text) else 1;
      NormalizeKeepsIff(text[k..]);
      assert text == text[..k] + text[k..];
    }
  }

  /** A line break of any kind becomes one newline. */
  lemma NormalizeMeans(before: string, newline: string, after: string)
    requires newline in {"\n", "\r\n", "\r"}
    requires newline == "\r" ==> !StartsWith(after, '\n')
    requires newline == "\n" ==> !(before != "" && before[|before| - 1] == '\r')
    ensures Normalize(before + newline + after) == Normalize(before) + "\n" + Normalize(after)
    ensures Breaks(before + newline + after) == Breaks(before) + 1 + Breaks(after)
  {
    assert newline[BreakLength(newline)..] == "";
    NormalizeConcat(before + newline, after);
    NormalizeConcat(before, newline);
    BreaksConcat(before + newline, after);
    BreaksConcat(before, newline);
  }

  // ------------------------------------------------------------------ reading fields

  lemma Regroup(a: string, b: string, c: string)
    ensures a + b + c == a + (b + c)
  {
  }

  function EscapeFirst(value: string): string
    requires value != ""
  {
    if value[0] == '\"' then "\"\"" else [value[0]]
  }

  lemma EscapeSplits(value: string, current: string, end: string)
    requires value != ""
    ensures var first := EscapeFirst(value);
            && Escape(value) + end == first + (Escape(value[1..]) + end)
            && current + Escape(value) == current + first + Escape(value[1..])
  {
    assert Escape(value) == EscapeFirst(value) + Escape(value[1..]);
    Regroup(EscapeFirst(value), Escape(value[1..]), end);
    Regroup(current, EscapeFirst(value), Escape(value[1..]));
  }

  lemma FieldsReadEscaped(c: char, current: string, rest: string)
    ensures FieldsFrom(EscapeFirst([c]) + rest, current, true) == FieldsFrom(rest, current + [c], true)
  {
  }

  lemma FirstAndRest(value: string, current: string)
    requires value != ""
    ensures current + [value[0]] + value[1..] == current + value
  {
  }

  /** Inside quotes an escaped value reads as the value, up to where the text ends or the closing quote stands. */
  lemma {:induction false} FieldsReadValue(value: string, current: string, end: string)
    requires end == "" || (end[0] == '\"' && !StartsWith(end[1..], '\"'))
    ensures FieldsFrom(Escape(value) + end, current, true)
            == if end == "" then [current + value] else FieldsFrom(end[1..], current + value, false)
  {
    if value == "" {
      assert Escape(value) + end == end;
      assert current + value == current;
    } else {
      EscapeSplits(value, current, end);
      FieldsReadEscaped(value[0], current, Escape(value[1..]) + end);
      FieldsReadValue(value[1..], current + [value[0]], end);
      FirstAndRest(value, current);
    }
  }

  lemma QuoteSplits(value: string, tail: string)
    ensures Quote(value) + tail == "\"" + (Escape(value) + ("\"" + tail))
  {
  }

  lemma FieldsReadQuoted(value: string, current: string, tail: string)
    requires !StartsWith(tail, '\"')
    ensures FieldsFrom(Quote(value) + tail, current, false) == FieldsFrom(tail, current + value, false)
  {
    QuoteSplits(value, tail);
    assert (Quote(value) + tail)[1..] == Escape(value) + ("\"" + tail);
    FieldsReadValue(value, current, "\"" + tail);
  }

  lemma {:induction false} FieldsReadBare(value: string, current: string, tail: string)
    requires forall c <- value :: c !in {'\"', ','}
    ensures FieldsFrom(value + tail, current, false) == FieldsFrom(tail, current + value, false)
  {
    if value == "" {
      assert value + tail == tail && current + value == current;
    } else {
      assert value[0] in value && forall c <- value[1..] :: c in value;
      assert (value + tail)[1..] == value[1..] + tail;
      FieldsReadBare(value[1..], current + [value[0]], tail);
      FirstAndRest(value, current);
    }
  }

  /** Quotes may open anywhere in a field, and without its closing quote a field runs to the end of the text. */
  lemma FieldsReadMixed(bare: string, quoted: string, tail: string)
    requires (forall c <- bare :: c !in {'\"', ','}) && !StartsWith(tail, '\"')
    ensures FieldsFrom(bare + (Quote(quoted) + tail), "", false) == FieldsFrom(tail, bare + quoted, false)
    ensures FieldsFrom(bare + ("\"" + Escape(quoted)), "", false) == [bare + quoted]
  {
    assert "" + bare == bare;
    FieldsReadBare(bare, "", Quote(quoted) + tail);
    FieldsReadQuoted(quoted, bare, tail);
    FieldsReadBare(bare, "", "\"" + Escape(quoted));
    assert ("\"" + Escape(quoted))[1..] == Escape(quoted) == Escape(quoted) + "";
    FieldsReadValue(quoted, bare, "");
  }

  lemma FieldsReadField(f: Field, tail: string)
    requires (f.quoted && !StartsWith(tail, '\"')) || (!f.quoted && forall c <- f.value :: c !in {'\"', ','})
    ensures FieldsFrom(PrintField(f) + tail, "", false) == FieldsFrom(tail, f.value, false)
  {
    assert "" + f.value == f.value;
    if f.quoted {
      FieldsReadQuoted(f.value, "", tail);
    } else {
      FieldsReadBare(f.value, "", tail);
    }
  }

  lemma FieldsReadComma(current: string, tail: string)
    ensures FieldsFrom("," + tail, current, false) == [current] + FieldsFrom(tail, "", false)
  {
  }

  /** The fields of a written row are its values, whichever of them stand in quotes. */
  lemma {:induction false} FieldsOfRow(row: seq<Field>)
    requires Writable(row)
    ensures FieldsFrom(PrintRow(row), "", false) == Values(row)
  {
    assert row[0] in row;
    if |row| == 1 {
      FieldsReadField(row[0], "");
      assert PrintField(row[0]) + "" == PrintField(row[0]) && row == [row[0]];
    } else {
      var rest := row[1..];
      FieldsReadField(row[0], "," + PrintRow(rest));
      FieldsReadComma(row[0].value, PrintRow(rest));
      assert forall f <- rest :: f in row;
      FieldsOfRow(rest);
      assert Values(row) == [row[0].value] + Values(rest);
    }
  }

  // ----------------------------------------------------------------- reading records

  /** The field as it is read: with every line break a newline. */
  function Settle(f: Field): Field {
    f.(value := Normalize(f.value))
  }

  function SettleRow(row: seq<Field>): seq<Field> {
    seq(|row|, i requires 0 <= i < |row| => Settle(row[i]))
  }

  lemma EscapeRest(value: string)
    requires value != ""
    ensures var k := if IsBreak(value[0]) then BreakLength(value) else 1;
            Escape(value) == (if k == 2 then "\r\n" else EscapeFirst(value)) + Escape(value[k..])
  {
    if IsBreak(value[0]) && BreakLength(value) == 2 {
      assert value[1..][1..] == value[2..];
      assert Escape(value[1..]) == "\n" + Escape(value[2..]);
    }
  }

  lemma {:induction false} EscapeStart(value: string)
    ensures StartsWith(Escape(value), '\n') <==> StartsWith(value, '\n')
  {
  }

  lemma RecordsReadEscaped(c: char, current: string, rest: string, line: nat, start: nat)
    requires !IsBreak(c)
    ensures RecordsFrom(EscapeFirst([c]) + rest, current, true, line, start)
            == RecordsFrom(rest, current + EscapeFirst([c]), true, line, start)
  {
  }

  lemma RecordsReadInnerBreak(newline: string, current: string, rest: string, line: nat, start: nat)
    requires newline in {"\n", "\r\n", "\r"} && (newline == "\r" ==> !StartsWith(rest, '\n'))
    ensures RecordsFrom(newline + rest, current, true, line, start) == RecordsFrom(rest, current + "\n", true, line + 1, start)
  {
    assert (newline + rest)[|newline|..] == rest;
  }

  /** What the first character of a value, or its first line break, adds to the record and to the line. */
  lemma RecordsReadFirst(value: string, current: string, end: string, line: nat, start: nat)
    requires value != "" && !StartsWith(end, '\n')
    ensures var k := if IsBreak(value[0]) then BreakLength(value) else 1;
            RecordsFrom(Escape(value) + end, current, true, line, start)
            == RecordsFrom(Escape(value[k..]) + end, current + EscapeFirst(Normalize(value)), true,
                           line + (if IsBreak(value[0]) then 1 else 0), start)
  {
    if IsBreak(value[0]) {
      var k := BreakLength(value);
      var newline := if k == 2 then "\r\n" else [value[0]];
      EscapeRest(value);
      EscapeStart(value[k..]);
      Regroup(newline, Escape(value[k..]), end);
      RecordsReadInnerBreak(newline, current, Escape(value[k..]) + end, line, start);
    } else {
      EscapeSplits(value, current, end);
      RecordsReadEscaped(value[0], current, Escape(value[1..]) + end, line, start);
    }
  }

  lemma AfterFirst(value: string, current: string, end: string, line: nat, start: nat)
    returns (rest: string, first: string, breaks: nat)
    requires value != "" && !StartsWith(end, '\n')
    ensures |rest| < |value|
    ensures current + first + Escape(Normalize(rest)) == current + Escape(Normalize(value))
    ensures Breaks(value) == breaks + Breaks(rest)
    ensures RecordsFrom(Escape(value) + end, current, true, line, start)
            == RecordsFrom(Escape(rest) + end, current + first, true, line + breaks, start)
  {
    rest := value[if IsBreak(value[0]) then BreakLength(value) else 1..];
    first, breaks := EscapeFirst(Normalize(value)), if IsBreak(value[0]) then 1 else 0;
    RecordsReadFirst(value, current, end, line, start);
    assert Normalize(value) == [Normalize(value)[0]] + Normalize(rest);
    Regroup(current, first, Escape(Normalize(rest)));
  }

  lemma RecordsReadEnd(current: string, end: string, line: nat, start: nat)
    requires end == "" || (end[0] == '\"' && !StartsWith(end[1..], '\"'))
    ensures RecordsFrom(end, current, true, line, start)
            == if end != "" then RecordsFrom(end[1..], current + "\"", false, line, start)
               else if current != "" then [Record(current, start)] else []
  {
  }

  /** Inside quotes a value only lengthens the record, its line breaks as newlines, until its quote or the text ends. */
  lemma {:induction false} RecordsReadValue(value: string, current: string, end: string, line: nat, start: nat)
    requires end == "" || (end[0] == '\"' && !StartsWith(end[1..], '\"'))
    ensures var current' := current + Escape(Normalize(value));
            RecordsFrom(Escape(value) + end, current, true, line, start)
            == if end != "" then RecordsFrom(end[1..], current' + "\"", false, line + Breaks(value), start)
               else if current' != "" then [Record(current', start)] else []
    decreases |value|
  {
    if value == "" {
      assert Escape(value) + end == end && current + Escape(Normalize(value)) == current;
      RecordsReadEnd(current, end, line, start);
    } else {
      var rest, first, breaks := AfterFirst(value, current, end, line, start);
      RecordsReadValue(rest, current + first, end, line + breaks, start);
    }
  }

  lemma {:induction false} BreaksOfEscape(value: string)
    ensures Breaks(Escape(value)) == Breaks(value)
    decreases |value|
  {
    if value != "" {
      var k := if IsBreak(value[0]) then BreakLength(value) else 1;
      var first := if k == 2 then "\r\n" else EscapeFirst(value);
      EscapeRest(value);
      EscapeStart(value[k..]);
      BreaksConcat(first, Escape(value[k..]));
      BreaksOfEscape(value[k..]);
      assert Breaks(first) == if IsBreak(value[0]) then 1 else 0;
    }
  }

  lemma BreaksOfQuote(value: string)
    ensures Breaks(Quote(value)) == Breaks(value)
  {
    BreaksOfEscape(value);
    BreaksConcat("\"" + Escape(value), "\"");
    BreaksConcat("\"", Escape(value));
    assert Breaks("\"") == 0;
  }

  lemma {:induction false} RecordsReadBare(value: string, current: string, tail: string, line: nat, start: nat)
    requires forall c <- value :: c !in {'\"', '\n', '\r'}
    ensures RecordsFrom(value + tail, current, false, line, start) == RecordsFrom(tail, current + value, false, line, start)
    ensures Breaks(value) == 0
  {
    if value == "" {
      assert value + tail == tail && current + value == current;
    } else {
      assert value[0] in value && forall c <- value[1..] :: c in value;
      assert (value + tail)[1..] == value[1..] + tail;
      RecordsReadBare(value[1..], current + [value[0]], tail, line, start);
      FirstAndRest(value, current);
    }
  }

  lemma RecordsReadQuoted(value: string, current: string, tail: string, line: nat, start: nat)
    requires !StartsWith(tail, '\"')
    ensures RecordsFrom(Quote(value) + tail, current, false, line, start)
            == RecordsFrom(tail, current + Quote(Normalize(value)), false, line + Breaks(value), start)
  {
    QuoteSplits(value, tail);
    assert (Quote(value) + tail)[1..] == Escape(value) + ("\"" + tail);
    RecordsReadValue(value, current + "\"", "\"" + tail, line, start);
    Regroup(current, "\"", Escape(Normalize(value)));
    Regroup(current, "\"" + Escape(Normalize(value)), "\"");
  }

  /** Without its closing quote a value takes the rest of the text, line breaks and all, into one record. */
  lemma UnclosedQuoteTakesAll(value: string, current: string, line: nat, start: nat)
    ensures RecordsFrom("\"" + Escape(value), current, false, line, start)
            == [Record(current + "\"" + Escape(Normalize(value)), start)]
  {
    assert ("\"" + Escape(value))[1..] == Escape(value) == Escape(value) + "";
    RecordsReadValue(value, current + "\"", "", line, start);
  }

  lemma RecordsReadField(f: Field, current: string, tail: string, line: nat, start: nat)
    requires Writable([f]) && !StartsWith(tail, '\"')
    ensures RecordsFrom(PrintField(f) + tail, current, false, line, start)
            == RecordsFrom(tail, current + PrintField(Settle(f)), false, line + Breaks(PrintField(f)), start)
  {
    assert f in [f];
    if f.quoted {
      RecordsReadQuoted(f.value, current, tail, line, start);
      BreaksOfQuote(f.value);
    } else {
      RecordsReadBare(f.value, current, tail, line, start);
      NormalizeKeepsIff(f.value);
    }
  }

  lemma RecordsReadComma(current: string, tail: string, line: nat, start: nat)
    ensures RecordsFrom("," + tail, current, false, line, start) == RecordsFrom(tail, current + ",", false, line, start)
  {
  }

  /** Read outside quotes, the text only lengthens the record, by `added`, and passes so many line breaks. */
  ghost predicate Lengthens(text: string, added: string, breaks: nat) {
    forall current, tail, line: nat, start: nat | !StartsWith(tail, '\"') ::
      RecordsFrom(text + tail, current, false, line, start) == RecordsFrom(tail, current + added, false, line + breaks, start)
  }

  lemma FieldLengthens(f: Field)
    requires Writable([f])
    ensures Lengthens(PrintField(f), PrintField(Settle(f)), Breaks(PrintField(f)))
  {
    forall current, tail, line: nat, start: nat | !StartsWith(tail, '\"')
      ensures RecordsFrom(PrintField(f) + tail, current, false, line, start)
              == RecordsFrom(tail, current + PrintField(Settle(f)), false, line + Breaks(PrintField(f)), start)
    {
      RecordsReadField(f, current, tail, line, start);
    }
  }

  lemma LengthensWithComma(a: string, a': string, m: nat, b: string, b': string, n: nat, row: string, row': string, breaks: nat)
    requires Lengthens(a, a', m) && Lengthens(b, b', n)
    requires row == a + ("," + b) && row' == a' + ("," + b') && breaks == m + n
    ensures Lengthens(row, row', breaks)
  {
    forall current, tail, line: nat, start: nat | !StartsWith(tail, '\"')
      ensures RecordsFrom(row + tail, current, false, line, start)
              == RecordsFrom(tail, current + row', false, line + breaks, start)
    {
      Regroup(a, "," + b, tail);
      Regroup(",", b, tail);
      RecordsReadComma(current + a', b + tail, line + m, start);
      Regroup(current, a', "," + b');
      Regroup(current + a', ",", b');
    }
  }

  lemma WritableSplits(row: seq<Field>)
    requires Writable(row)
    ensures Writable([row[0]]) && (|row| > 1 ==> Writable(row[1..]))
  {
    assert row[0] in row && forall f <- row[1..] :: f in row;
  }

  lemma RowSplits(row: seq<Field>)
    requires |row| > 1
    ensures PrintRow(row) == PrintField(row[0]) + ("," + PrintRow(row[1..]))
    ensures PrintRow(SettleRow(row)) == PrintField(Settle(row[0])) + ("," + PrintRow(SettleRow(row[1..])))
    ensures Breaks(PrintRow(row)) == Breaks(PrintField(row[0])) + Breaks(PrintRow(row[1..]))
  {
    assert SettleRow(row)[1..] == SettleRow(row[1..]);
    BreaksConcat(PrintField(row[0]), "," + PrintRow(row[1..]));
    BreaksConcat(",", PrintRow(row[1..]));
    assert Breaks(",") == 0;
  }

  lemma SingleLengthens(row: seq<Field>)
    requires |row| == 1 && Writable(row)
    ensures Lengthens(PrintRow(row), PrintRow(SettleRow(row)), Breaks(PrintRow(row)))
  {
    WritableSplits(row);
    FieldLengthens(row[0]);
    assert SettleRow(row) == [Settle(row[0])];
  }

  /** A written row lengthens the record by the row, its line breaks as newlines. */
  lemma {:induction false} RowLengthens(row: seq<Field>)
    requires Writable(row)
    ensures Lengthens(PrintRow(row), PrintRow(SettleRow(row)), Breaks(PrintRow(row)))
  {
    if |row| == 1 {
      SingleLengthens(row);
    } else {
      var rest := row[1..];
      WritableSplits(row);
      FieldLengthens(row[0]);
      RowLengthens(rest);
      RowSplits(row);
      LengthensWithComma(PrintField(row[0]), PrintField(Settle(row[0])), Breaks(PrintField(row[0])),
                         PrintRow(rest), PrintRow(SettleRow(rest)), Breaks(PrintRow(rest)),
                         PrintRow(row), PrintRow(SettleRow(row)), Breaks(PrintRow(row)));
    }
  }

  /** The rows as read, each with the number of the line it starts on. */
  function Numbered(lines: seq<Line>, line: nat): seq<Record> {
    if lines == [] then []
    else [Record(PrintRow(SettleRow(lines[0].row)), line)]
         + Numbered(lines[1..], line + Breaks(PrintRow(lines[0].row)) + 1)
  }

  /** A line break of any kind ends the record. */
  lemma RecordsReadBreak(end: string, current: string, tail: string, line: nat, start: nat)
    requires end in {"\n", "\r\n", "\r"} && (end == "\r" ==> !StartsWith(tail, '\n'))
    ensures RecordsFrom(end + tail, current, false, line, start)
            == [Record(current, start)] + RecordsFrom(tail, "", false, line + 1, line + 1)
  {
    assert (end + tail)[|end|..] == tail;
  }

  lemma RecordsReadLine(first: Line, rest: string, line: nat)
    requires Writable(first.row) && Ends(first, rest)
    ensures RecordsFrom(PrintRow(first.row) + (first.end + rest), "", false, line, line)
            == [Record(PrintRow(SettleRow(first.row)), line)]
               + var next := line + Breaks(PrintRow(first.row)) + 1; RecordsFrom(rest, "", false, next, next)
  {
    var settled := PrintRow(SettleRow(first.row));
    var next := line + Breaks(PrintRow(first.row));
    assert "" + settled == settled;
    assert !StartsWith(first.end + rest, '\"') by {
      if first.end == "" { assert first.end + rest == ""; }
    }
    RowLengthens(first.row);
    if first.end == "" {
      assert first.end + rest == "";
      SettledIsThere(first.row);
      assert RecordsFrom("", settled, false, next, line) == [Record(settled, line)];
    } else {
      RecordsReadBreak(first.end, settled, rest, next, line);
    }
  }

  lemma SettledIsThere(row: seq<Field>)
    requires Writable(row)
    ensures PrintRow(SettleRow(row)) == "" <==> PrintRow(row) == ""
  {
    if |row| == 1 && !row[0].quoted {
      NormalizeKeepsIff(row[0].value);
    }
  }

  /** The first line becomes the first record. */
  lemma RecordsReadFirstLine(lines: seq<Line>, line: nat)
    requires lines != [] && WellWritten(lines)
    ensures var next := line + Breaks(PrintRow(lines[0].row)) + 1;
            RecordsFrom(PrintLines(lines), "", false, line, line)
            == [Record(PrintRow(SettleRow(lines[0].row)), line)] + RecordsFrom(PrintLines(lines[1..]), "", false, next, next)
  {
    RecordsReadLine(lines[0], PrintLines(lines[1..]), line);
  }

  lemma {:induction false} RecordsReadLines(lines: seq<Line>, line: nat)
    requires WellWritten(lines)
    ensures RecordsFrom(PrintLines(lines), "", false, line, line) == Numbered(lines, line)
    decreases |lines|
  {
    if lines != [] {
      RecordsReadFirstLine(lines, line);
      RecordsReadLines(lines[1..], line + Breaks(PrintRow(lines[0].row)) + 1);
    }
  }

  // ------------------------------------------------------------------- coming back

  lemma FieldEnds(f: Field)
    requires Writable([f])
    ensures PrintField(f) != "" ==> PrintField(f)[|PrintField(f)| - 1] != '\r'
  {
    assert f in [f];
    if !f.quoted && f.value != "" {
      assert f.value[|f.value| - 1] in f.value;
    }
  }

  /** A row does not end where a newline after it would make one line break of two characters. */
  lemma {:induction false} RowEnds(row: seq<Field>)
    requires Writable(row)
    ensures PrintRow(row) != "" ==> PrintRow(row)[|PrintRow(row)| - 1] != '\r'
  {
    WritableSplits(row);
    FieldEnds(row[0]);
    if |row| > 1 {
      RowEnds(row[1..]);
    }
  }

  lemma {:induction false} PrintedPrefix(lines: seq<Line>, k: nat)
    requires k <= |lines|
    ensures PrintLines(lines[..k]) <= PrintLines(lines)
  {
    if k > 0 {
      PrintedPrefix(lines[1..], k - 1);
      assert lines[..k][1..] == lines[1..][..k - 1];
      var row, end := PrintRow(lines[0].row), lines[0].end;
      Regroup(row, end, PrintLines(lines[..k][1..]));
      Regroup(row, end, PrintLines(lines[1..]));
    }
  }

  lemma BreaksOfLine(lines: seq<Line>, k: nat)
    requires WellWritten(lines) && 0 < k < |lines|
    ensures Breaks(PrintLines(lines[..k])) == Breaks(PrintRow(lines[0].row)) + 1 + Breaks(PrintLines(lines[1..][..k - 1]))
  {
    var row, end, rest := PrintRow(lines[0].row), lines[0].end, PrintLines(lines[1..][..k - 1]);
    assert lines[..k][1..] == lines[1..][..k - 1];
    PrintedPrefix(lines[1..], k - 1);
    assert PrintLines(lines[1..]) != "";
    RowEnds(lines[0].row);
    BreaksConcat(row, end + rest);
    BreaksConcat(end, rest);
    assert Breaks(end) == 1 by {
      assert end[BreakLength(end)..] == "";
    }
  }

  lemma {:induction false} NumberedAt(lines: seq<Line>, line: nat, k: nat)
    requires WellWritten(lines) && k < |lines|
    ensures |Numbered(lines, line)| == |lines|
    ensures Numbered(lines, line)[k] == Record(PrintRow(SettleRow(lines[k].row)), line + Breaks(PrintLines(lines[..k])))
    decreases |lines|
  {
    if |lines| > 1 {
      NumberedAt(lines[1..], line + Breaks(PrintRow(lines[0].row)) + 1, if k == 0 then 0 else k - 1);
    }
    if k > 0 {
      BreaksOfLine(lines, k);
    }
  }

  lemma {:induction false} LineIsWritable(lines: seq<Line>, k: nat)
    requires WellWritten(lines) && k < |lines|
    ensures Writable(lines[k].row)
    decreases |lines|
  {
    if k > 0 {
      LineIsWritable(lines[1..], k - 1);
    }
  }

  lemma SettledIsWritable(row: seq<Field>)
    requires Writable(row)
    ensures Writable(SettleRow(row))
  {
    forall f | f in SettleRow(row)
      ensures f.quoted || forall c <- f.value :: c !in {'\"', ',', '\n', '\r'}
    {
      var i :| 0 <= i < |row| && SettleRow(row)[i] == f;
      assert row[i] in row;
      NormalizeKeepsIff(row[i].value);
    }
  }

  /**
   * Whatever way a table is written, splitting returns it: one record a line, with the
   * fields of the line, line breaks inside them as newlines, and numbered with the
   * physical line it starts on.
   */
  lemma TableComesBack(lines: seq<Line>, k: nat)
    requires WellWritten(lines) && k < |lines|
    ensures var records, row := Records(PrintLines(lines)), lines[k].row;
            && |records| == |lines|
            && |Fields(records[k])| == |row|
            && (forall i :: 0 <= i < |row| ==> Fields(records[k])[i] == Normalize(row[i].value))
            && records[k].line == 1 + Breaks(PrintLines(lines[..k]))
  {
    RecordsReadLines(lines, 1);
    NumberedAt(lines, 1, k);
    LineIsWritable(lines, k);
    SettledIsWritable(lines[k].row);
    FieldsOfRow(SettleRow(lines[k].row));
  }

  predicate ComesBack(lines: seq<Line>) {
    var records := Records(PrintLines(lines));
    |records| == |lines| && forall k :: 0 <= k < |lines| ==> Fields(records[k]) == Values(lines[k].row)
  }

  /** A table comes back as it was exactly when no field holds a carriage return, alone or before a newline. */
  lemma ComesBackIff(lines: seq<Line>)
    requires WellWritten(lines)
    ensures ComesBack(lines) <==> forall line <- lines :: NoReturns(line.row)
  {
    var records := Records(PrintLines(lines));
    RecordsReadLines(lines, 1);
    assert |records| == |lines| by {
      if lines != [] { TableComesBack(lines, 0); }
    }
    forall k | 0 <= k < |lines|
      ensures Fields(records[k]) == Values(lines[k].row) <==> NoReturns(lines[k].row)
    {
      TableComesBack(lines, k);
      RowComesBackIff(lines[k].row, Fields(records[k]));
    }
  }

  lemma RowComesBackIff(row: seq<Field>, fields: seq<string>)
    requires |fields| == |row| && forall i :: 0 <= i < |row| ==> fields[i] == Normalize(row[i].value)
    ensures fields == Values(row) <==> NoReturns(row)
  {
    forall i | 0 <= i < |row|
      ensures fields[i] == Values(row)[i] <==> '\r' !in row[i].value
    {
      NormalizeKeepsIff(row[i].value);
    }
    if fields == Values(row) {
      forall f | f in row
        ensures '\r' !in f.value
      {
        var i :| 0 <= i < |row| && row[i] == f;
        assert fields[i] == Values(row)[i];
      }
    }
  }

  predicate NoReturns(row: seq<Field>) {
    forall f <- row :: '\r' !in f.value
  }

  lemma ValuesOf(row: seq<Field>)
    ensures NoReturns(row) <==> forall value <- Values(row) :: '\r' !in value
  {
    assert forall i :: 0 <= i < |row| ==> Values(row)[i] == row[i].value && row[i] in row;
    assert forall value <- Values(row) :: exists i :: 0 <= i < |row| && row[i].value == value;
  }

  // ------------------------------------------------------------------------ export

  /** The audit log as it is exported: every field in quotes, a newline between rows. */
  function Exported(rows: seq<seq<string>>): seq<Line> {
    if rows == [] then []
    else [Line(seq(|rows[0]|, i requires 0 <= i < |rows[0]| => Field(rows[0][i], true)), if |rows| == 1 then "" else "\n")]
         + Exported(rows[1..])
  }

  lemma {:induction false} ExportedIsWellWritten(rows: seq<seq<string>>)
    requires forall row <- rows :: row != []
    ensures WellWritten(Exported(rows)) && |Exported(rows)| == |rows|
    ensures forall k :: 0 <= k < |rows| ==> Values(Exported(rows)[k].row) == rows[k]
  {
    if rows != [] {
      assert rows[0] in rows && forall row <- rows[1..] :: row in rows;
      ExportedIsWellWritten(rows[1..]);
      assert Values(Exported(rows)[0].row) == rows[0];
    }
  }

  /** An export of non-empty rows comes back exactly when no field holds a carriage return. */
  lemma ExportComesBackIff(rows: seq<seq<string>>)
    requires forall row <- rows :: row != []
    ensures var records := Records(PrintLines(Exported(rows)));
            (|records| == |rows| && forall k :: 0 <= k < |rows| ==> Fields(records[k]) == rows[k])
            <==> forall row <- rows, value <- row :: '\r' !in value
  {
    var lines := Exported(rows);
    ExportedIsWellWritten(rows);
    ComesBackIff(lines);
    forall k | 0 <= k < |rows|
      ensures NoReturns(lines[k].row) <==> forall value <- rows[k] :: '\r' !in value
    {
      ValuesOf(lines[k].row);
    }
  }

  // -------------------------------------------------------------- carriage returns

  /** Reading never puts a carriage return into a record: it comes out as a newline. */
  lemma {:induction false} RecordsHoldNoReturn(rest: string, current: string, inQuotes: bool, line: nat, start: nat)
    requires '\r' !in current
    ensures forall r <- RecordsFrom(rest, current, inQuotes, line, start) :: '\r' !in r.text
    decreases |rest|
  {
    if rest == "" {
    } else if rest[0] == '\"' {
      if inQuotes && StartsWith(rest[1..], '\"') {
        RecordsHoldNoReturn(rest[2..], current + "\"\"", true, line, start);
      } else {
        RecordsHoldNoReturn(rest[1..], current + "\"", !inQuotes, line, start);
      }
    } else if IsBreak(rest[0]) {
      var k := BreakLength(rest);
      if inQuotes {
        RecordsHoldNoReturn(rest[k..], current + "\n", true, line + 1, start);
      } else {
        RecordsHoldNoReturn(rest[k..], "", false, line + 1, line + 1);
      }
    } else {
      RecordsHoldNoReturn(rest[1..], current + [rest[0]], inQuotes, line, start);
    }
  }

  /** Splitting a record into fields adds no character. */
  lemma {:induction false} FieldsHoldNoReturn(rest: string, current: string, inQuotes: bool)
    requires '\r' !in rest && '\r' !in current
    ensures forall f <- FieldsFrom(rest, current, inQuotes) :: '\r' !in f
    decreases |rest|
  {
    if rest == "" {
    } else if inQuotes && rest[0] == '\"' {
      if StartsWith(rest[1..], '\"') {
        FieldsHoldNoReturn(rest[2..], current + "\"", true);
      } else {
        FieldsHoldNoReturn(rest[1..], current, false);
      }
    } else if inQuotes {
      FieldsHoldNoReturn(rest[1..], current + [rest[0]], true);
    } else if rest[0] == '\"' {
      FieldsHoldNoReturn(rest[1..], current, true);
    } else if rest[0] == ',' {
      FieldsHoldNoReturn(rest[1..], "", false);
    } else {
      FieldsHoldNoReturn(rest[1..], current + [rest[0]], false);
    }
  }

  /** Whatever the text, no field read from it holds a carriage return. */
  lemma NoFieldHoldsReturn(text: string, k: nat, i: nat)
    requires k < |Records(text)| && i < |Fields(Records(text)[k])|
    ensures '\r' !in Fields(Records(text)[k])[i]
  {
    RecordsHoldNoReturn(text, "", false, 1, 1);
    FieldsHoldNoReturn(Records(text)[k].text, "", false);
  }
}
