/**
 * Markdown to page blocks and back, line by line. Bold text and references are read;
 * rendering drops them.
 */
module Markdown {
  import opened Common
  import opened Text

  datatype Align = Left | Center | Right

  datatype Kind = Plain | H1 | H2 | H3

  datatype Block = Paragraph(kind: Kind, text: string, align: Option<Align>) | ListItem(numbered: bool, text: string) | Divider
                 | Image(source: string, width: nat, height: nat)

  // ------------------------------------------------------------------------- lines

  predicate StartsWith(s: string, prefix: string) {
    prefix <= s
  }

  /** No character that ends a line for a regular expression. */
  predicate NoBreaks(s: string) {
    forall c <- s :: c !in {'\n', '\r', '\U{2028}', '\U{2029}'}
  }

  /** `prefix`, one white space character, and then a single line. */
  predicate StartsWithWord(s: string, prefix: string) {
    StartsWith(s, prefix) && |s| > |prefix| && IsSpace(s[|prefix|]) && NoBreaks(s[|prefix| + 1..])
  }

  /** The alignment a line asks for and the line that remains. */
  function AlignOf(line: string): Option<(Align, string)> {
    if StartsWithWord(line, ":::left") then Some((Left, line[8..]))
    else if StartsWithWord(line, ":::center") then Some((Center, line[10..]))
    else if StartsWithWord(line, ":::right") then Some((Right, line[9..]))
    else None
  }

  predicate IsDigit(c: char) {
    '0' <= c <= '9'
  }

  // ------------------------------------------------------------------------ images

  /** The words still to come, with `current` begun. */
  function Words(s: string, current: string): seq<string> {
    if s == "" then (if current == "" then [] else [current])
    else if IsSpace(s[0]) then (if current == "" then [] else [current]) + Words(s[1..], "")
    else Words(s[1..], current + [s[0]])
  }

  predicate AllDigits(s: string) {
    forall c <- s :: IsDigit(c)
  }

  function NumberOf(digits: string): nat
    requires AllDigits(digits)
  {
    if digits == "" then 0
    else
      var last := digits[|digits| - 1];
      assert last in digits;
      NumberOf(digits[..|digits| - 1]) * 10 + (last as int - '0' as int)
  }

  /** `:::image`, a blob key, a width and a height. */
  function ImageOf(line: string): Option<Block> {
    if StartsWith(line, ":::image") && |line| > 8 && IsSpace(line[8]) then
      var words := Words(line[8..], "");
      if |words| == 3 && AllDigits(words[1]) && AllDigits(words[2])
      then Some(Image(words[0], NumberOf(words[1]), NumberOf(words[2])))
      else None
    else None
  }

  // ----------------------------------------------------------------- inline markup

  function StarFree(s: string): (n: nat)
    ensures n <= |s|
  {
    if s == "" || s[0] == '*' then 0 else StarFree(s[1..]) + 1
  }

  /** The text between two pairs of stars at the start. */
  function BoldAtStart(s: string): (r: Option<string>)
    ensures r.Some? ==> |r.value| + 4 <= |s| && r.value == s[2..2 + |r.value|]
  {
    if !StartsWith(s, "**") then None
    else
      var k := StarFree(s[2..]);
      if k > 0 && StartsWith(s[2 + k..], "**") then Some(s[2..2 + k]) else None
  }

  predicate IsIdChar(c: char) {
    IsDigit(c) || 'a' <= c <= 'z' || 'A' <= c <= 'Z' || c == '_' || c == '-'
  }

  function IdLength(s: string): (n: nat)
    ensures n <= |s|
  {
    if s != "" && IsIdChar(s[0]) then IdLength(s[1..]) + 1 else 0
  }

  /** The length of a reference to another document at the start, zero if there is none. */
  function ReferenceLength(s: string): (n: nat)
    ensures n <= |s|
  {
    if !StartsWith(s, "[[") then 0
    else
      var k := IdLength(s[2..]);
      if k > 0 && StartsWith(s[2 + k..], "]]") then k + 4 else 0
  }

  /** Every reference becomes one blank that carries it. */
  function WithReferences(s: string): string {
    if s == "" then ""
    else if ReferenceLength(s) > 0 then " " + WithReferences(s[ReferenceLength(s)..])
    else [s[0]] + WithReferences(s[1..])
  }

  /** The text of a block filled from `s`, with `plain` before it still to be searched for references. */
  function FilledFrom(s: string, plain: string): string
    decreases |s|
  {
    if s == "" then WithReferences(plain)
    else if BoldAtStart(s).Some? then
      var bold := BoldAtStart(s).value;
      WithReferences(plain) + WithReferences(bold) + FilledFrom(s[|bold| + 4..], "")
    else FilledFrom(s[1..], plain + [s[0]])
  }

  /** The characters a block shows for a line's text: markup gone, its effect in attributes. */
  function Filled(text: string): string {
    FilledFrom(text, "")
  }

  predicate NoReferences(s: string) {
    forall i :: 0 <= i < |s| ==> ReferenceLength(s[i..]) == 0
  }

  predicate NoBold(s: string) {
    forall i :: 0 <= i < |s| ==> BoldAtStart(s[i..]).None?
  }

  /** Nowhere in the text does bold text or a reference start. */
  predicate NoMarkup(s: string) {
    NoReferences(s) && NoBold(s)
  }

  lemma NoReferencesRest(s: string)
    requires s != ""
    ensures NoReferences(s) <==> ReferenceLength(s) == 0 && NoReferences(s[1..])
  {
    assert s[0..] == s;
    assert forall i :: 0 <= i < |s| - 1 ==> s[1..][i..] == s[i + 1..];
    if ReferenceLength(s) == 0 && NoReferences(s[1..]) {
      forall i | 0 <= i < |s|
        ensures ReferenceLength(s[i..]) == 0
      {
        assert i > 0 ==> s[i..] == s[1..][i - 1..];
      }
    }
  }

  lemma NoBoldRest(s: string)
    requires s != ""
    ensures NoBold(s) <==> BoldAtStart(s).None? && NoBold(s[1..])
  {
    assert s[0..] == s;
    assert forall i :: 0 <= i < |s| - 1 ==> s[1..][i..] == s[i + 1..];
    if BoldAtStart(s).None? && NoBold(s[1..]) {
      forall i | 0 <= i < |s|
        ensures BoldAtStart(s[i..]).None?
      {
        assert i > 0 ==> s[i..] == s[1..][i - 1..];
      }
    }
  }

  /** A reference takes more room than the blank it becomes. */
  lemma {:induction false} ReferencesShorten(s: string)
    ensures |WithReferences(s)| <= |s| && (WithReferences(s) == s <==> NoReferences(s))
  {
    if s != "" {
      NoReferencesRest(s);
      if ReferenceLength(s) > 0 {
        ReferencesShorten(s[ReferenceLength(s)..]);
      } else {
        ReferencesShorten(s[1..]);
        assert s == [s[0]] + s[1..];
      }
    }
  }

  /** Bold text loses its four stars. */
  lemma {:induction false} MarkupShortens(s: string, plain: string)
    ensures |FilledFrom(s, plain)| <= |plain| + |s|
    ensures BoldAtStart(s).Some? ==> |FilledFrom(s, plain)| < |plain| + |s|
    decreases |s|
  {
    ReferencesShorten(plain);
    if s != "" {
      if BoldAtStart(s).Some? {
        var bold := BoldAtStart(s).value;
        ReferencesShorten(bold);
        MarkupShortens(s[|bold| + 4..], "");
      } else {
        MarkupShortens(s[1..], plain + [s[0]]);
      }
    }
  }

  lemma {:induction false} KeptIff(s: string, plain: string)
    ensures FilledFrom(s, plain) == plain + s <==> NoReferences(plain + s) && NoBold(s)
    decreases |s|
  {
    if s == "" {
      assert plain + s == plain;
      ReferencesShorten(plain);
    } else {
      NoBoldRest(s);
      if BoldAtStart(s).Some? {
        MarkupShortens(s, plain);
      } else {
        assert plain + [s[0]] + s[1..] == plain + s;
        KeptIff(s[1..], plain + [s[0]]);
      }
    }
  }

  /** Text is shown as it is exactly when no markup starts anywhere in it. */
  lemma FilledIsTextIff(text: string)
    ensures Filled(text) == text <==> NoMarkup(text)
  {
    assert "" + text == text;
    KeptIff(text, "");
  }

  /** No two stars or opening brackets in a row. */
  predicate Bare(s: string) {
    forall i :: 0 <= i < |s| - 1 ==> !(s[i] == s[i + 1] && s[i] in {'*', '['})
  }

  lemma BareSuffix(s: string, i: nat)
    requires Bare(s) && i <= |s|
    ensures Bare(s[i..]) && !StartsWith(s[i..], "**") && !StartsWith(s[i..], "[[")
  {
    assert "**"[0] == '*' && "**"[1] == '*' && "[["[0] == '[' && "[["[1] == '[';
  }

  /** Text without doubled stars or brackets is shown as it is. */
  lemma BareIsShown(text: string)
    requires Bare(text)
    ensures NoMarkup(text) && Filled(text) == text
  {
    forall i | 0 <= i < |text|
      ensures ReferenceLength(text[i..]) == 0 && BoldAtStart(text[i..]).None?
    {
      BareSuffix(text, i);
    }
    FilledIsTextIff(text);
  }

  lemma {:induction false} ReferencesAddBlanks(s: string)
    ensures forall c <- WithReferences(s) :: c in s || c == ' '
  {
    if s != "" {
      if ReferenceLength(s) > 0 {
        ReferencesAddBlanks(s[ReferenceLength(s)..]);
      } else {
        ReferencesAddBlanks(s[1..]);
      }
    }
  }

  lemma {:induction false} FillingAddsBlanks(s: string, plain: string)
    ensures forall c <- FilledFrom(s, plain) :: c in s || c in plain || c == ' '
    decreases |s|
  {
    ReferencesAddBlanks(plain);
    if s != "" {
      if BoldAtStart(s).Some? {
        var bold := BoldAtStart(s).value;
        ReferencesAddBlanks(bold);
        FillingAddsBlanks(s[|bold| + 4..], "");
      } else {
        FillingAddsBlanks(s[1..], plain + [s[0]]);
      }
    }
  }

  /** Whatever follows `before`, its references apart it is shown as `shown`. */
  ghost predicate ShownAs(before: string, shown: string) {
    forall t :: WithReferences(before + t) == shown + WithReferences(t)
  }

  lemma ShownAsAt(before: string, shown: string, t: string, rest: string)
    requires ShownAs(before, shown)
    ensures WithReferences(before + t) + rest == shown + (WithReferences(t) + rest)
    ensures WithReferences(before + t) == shown + WithReferences(t)
  {
    assert WithReferences(before + t) == shown + WithReferences(t);
    Associate(shown, WithReferences(t), rest);
  }

  lemma Associate(a: string, b: string, c: string)
    ensures a + b + c == a + (b + c)
  {
  }

  lemma {:induction false} FilledBehind(s: string, before: string, shown: string, plain: string)
    requires ShownAs(before, shown)
    ensures FilledFrom(s, before + plain) == shown + FilledFrom(s, plain)
    decreases |s|
  {
    if s == "" {
      ShownAsAt(before, shown, plain, "");
    } else if BoldAtStart(s).Some? {
      var bold := BoldAtStart(s).value;
      var rest := WithReferences(bold) + FilledFrom(s[|bold| + 4..], "");
      ShownAsAt(before, shown, plain, rest);
      BoldSplits(s, plain);
      BoldSplits(s, before + plain);
    } else {
      assert before + plain + [s[0]] == before + (plain + [s[0]]);
      FilledBehind(s[1..], before, shown, plain + [s[0]]);
    }
  }

  lemma BoldSplits(s: string, plain: string)
    requires BoldAtStart(s).Some?
    ensures var bold := BoldAtStart(s).value;
            FilledFrom(s, plain) == WithReferences(plain) + (WithReferences(bold) + FilledFrom(s[|bold| + 4..], ""))
  {
  }

  lemma {:induction false} StarlessIsPassed(s: string, rest: string, plain: string)
    requires '*' !in s
    ensures FilledFrom(s + rest, plain) == FilledFrom(rest, plain + s)
    decreases |s|
  {
    if s == "" {
      assert s + rest == rest && plain + s == plain;
    } else {
      assert s[0] in s && (s + rest)[0] == s[0] && (s + rest)[1..] == s[1..] + rest;
      assert BoldAtStart(s + rest).None?;
      assert plain + [s[0]] + s[1..] == plain + s;
      StarlessIsPassed(s[1..], rest, plain + [s[0]]);
    }
  }

  lemma {:induction false} UnbracketedStays(before: string, t: string)
    requires '[' !in before
    ensures WithReferences(before + t) == before + WithReferences(t)
  {
    if before == "" {
      assert before + t == t;
    } else {
      assert before[0] in before && (before + t)[1..] == before[1..] + t;
      UnbracketedStays(before[1..], t);
    }
  }

  /** Text without stars and opening brackets is shown as it is, whatever follows it. */
  lemma PlainIsShown(text: string, rest: string)
    requires '*' !in text && '[' !in text
    ensures Filled(text + rest) == text + Filled(rest)
  {
    StarlessIsPassed(text, rest, "");
    forall t
      ensures WithReferences(text + t) == text + WithReferences(t)
    {
      UnbracketedStays(text, t);
    }
    FilledBehind(rest, text, text, "");
    assert text + "" == text == "" + text;
  }

  lemma {:induction false} StarFreeOf(s: string, rest: string)
    requires '*' !in s && rest != "" && rest[0] == '*'
    ensures StarFree(s + rest) == |s|
  {
    if s == "" {
      assert s + rest == rest;
    } else {
      assert s[0] in s && (s + rest)[1..] == s[1..] + rest;
      StarFreeOf(s[1..], rest);
    }
  }

  /** Between two pairs of stars the text is shown without them. */
  lemma BoldIsShown(text: string, rest: string)
    requires text != "" && '*' !in text && '[' !in text
    ensures Filled("**" + text + "**" + rest) == text + Filled(rest)
  {
    var s := "**" + text + "**" + rest;
    var tail := "**" + rest;
    assert s == "**" + (text + tail) && s[2..] == text + tail;
    StarFreeOf(text, tail);
    assert s[2 + |text|..] == (text + tail)[|text|..] == tail && s[2..2 + |text|] == text;
    assert s[|text| + 4..] == tail[2..] == rest;
    assert BoldAtStart(s) == Some(text);
    UnbracketedStays(text, "");
    assert text + "" == text;
  }

  lemma {:induction false} IdLengthOf(id: string, rest: string)
    requires (forall c <- id :: IsIdChar(c)) && rest != "" && rest[0] == ']'
    ensures IdLength(id + rest) == |id|
  {
    if id == "" {
      assert id + rest == rest;
    } else {
      assert id[0] in id && (id + rest)[1..] == id[1..] + rest;
      IdLengthOf(id[1..], rest);
    }
  }

  lemma ReferenceIsBlank(id: string, t: string)
    requires id != "" && forall c <- id :: IsIdChar(c)
    ensures WithReferences("[[" + id + "]]" + t) == " " + WithReferences(t)
  {
    var s, tail := "[[" + id + "]]" + t, "]]" + t;
    assert s == "[[" + (id + tail);
    assert s[2..] == id + tail;
    IdLengthOf(id, tail);
    assert s[2 + |id|..] == (id + tail)[|id|..] == tail;
    assert s[|id| + 4..] == tail[2..] == t;
    assert ReferenceLength(s) == |id| + 4;
  }

  /** A reference to a document is shown as one blank. */
  lemma ReferenceIsShown(id: string, rest: string)
    requires id != "" && forall c <- id :: IsIdChar(c)
    ensures Filled("[[" + id + "]]" + rest) == " " + Filled(rest)
  {
    var link := "[[" + id + "]]";
    StarlessIsPassed(link, rest, "");
    forall t
      ensures WithReferences(link + t) == " " + WithReferences(t)
    {
      ReferenceIsBlank(id, t);
    }
    FilledBehind(rest, link, " ", "");
    assert link + "" == link == "" + link;
  }

  // ------------------------------------------------------------------ block markup

  function CountDigits(s: string): (n: nat)
    ensures n <= |s| && (forall i :: 0 <= i < n ==> IsDigit(s[i])) && (n < |s| ==> !IsDigit(s[n]))
  {
    if s == "" || !IsDigit(s[0]) then 0 else CountDigits(s[1..]) + 1
  }

  /** The text behind digits, a dot and a white space character. */
  function NumberedText(line: string): Option<string> {
    var k := CountDigits(line);
    if k > 0 && k + 1 < |line| && line[k] == '.' && IsSpace(line[k + 1]) && NoBreaks(line[k + 2..]) then Some(line[k + 2..]) else None
  }

  /** What a block of the line starts with; a divider is all marker. */
  function Marker(line: string): (m: string)
    ensures m <= line
  {
    if StartsWith(line, "### ") then "### "
    else if StartsWith(line, "## ") then "## "
    else if StartsWith(line, "# ") then "# "
    else if line == "---" then "---"
    else if StartsWith(line, "- ") then "- "
    else ""
  }

  /** A line whose alignment has been taken off. */
  function ParseBody(line: string, align: Option<Align>): Block {
    if StartsWith(line, "### ") then Paragraph(H3, Filled(line[4..]), align)
    else if StartsWith(line, "## ") then Paragraph(H2, Filled(line[3..]), align)
    else if StartsWith(line, "# ") then Paragraph(H1, Filled(line[2..]), align)
    else if line == "---" then Divider
    else if StartsWith(line, "- ") then ListItem(false, Filled(line[2..]))
    else if NumberedText(line).Some? then ListItem(true, Filled(NumberedText(line).value))
    else Paragraph(Plain, Filled(line), align)
  }

  /** The line without its alignment. */
  function BodyOf(line: string): string {
    if AlignOf(line).Some? then AlignOf(line).value.1 else line
  }

  function ParseLine(line: string): Block {
    if ImageOf(line).Some? then ImageOf(line).value
    else ParseBody(BodyOf(line), if AlignOf(line).Some? then Some(AlignOf(line).value.0) else None)
  }

  function Digit(n: nat): char
    requires n < 10
  {
    '0' + n as char
  }

  function Decimal(n: nat): string {
    if n < 10 then [Digit(n)] else Decimal(n / 10) + [Digit(n % 10)]
  }

  /** Rendering knows nothing of alignment; `number` is the place in a run of numbered items. */
  function RenderBlock(b: Block, number: nat): string {
    match b
    case Paragraph(H1, text, _) => "# " + text
    case Paragraph(H2, text, _) => "## " + text
    case Paragraph(H3, text, _) => "### " + text
    case Paragraph(Plain, text, _) => text
    case ListItem(true, text) => Decimal(if number == 0 then 1 else number) + ". " + text
    case ListItem(false, text) => "- " + text
    case Divider => "---"
    case Image(_, _, _) => ""
  }

  function Unaligned(b: Block): Block {
    if b.Paragraph? then b.(align := None) else b
  }

  /** A text that is read as a plain paragraph, its own text in full. */
  predicate IsPlain(text: string) {
    ImageOf(text).None? && AlignOf(text).None? && Marker(text) == "" && NumberedText(text).None?
  }

  /** What the block shows holds no more markup of any kind; images show nothing. */
  predicate Settled(b: Block) {
    match b
    case Divider => true
    case Image(_, _, _) => false
    case ListItem(_, text) => NoMarkup(text)
    case Paragraph(kind, text, _) => NoMarkup(text) && (kind == Plain ==> IsPlain(text))
  }

  /** Behind its alignment the line asks for another one, or for an image. */
  predicate DoublyMarked(line: string) {
    AlignOf(line).Some? && (AlignOf(BodyOf(line)).Some? || ImageOf(BodyOf(line)).Some?)
  }

  lemma {:induction false} DecimalIsDigits(n: nat)
    ensures Decimal(n) != "" && forall i :: 0 <= i < |Decimal(n)| ==> IsDigit(Decimal(n)[i])
  {
    if n >= 10 {
      DecimalIsDigits(n / 10);
    }
  }

  lemma {:induction false} CountDigitsOf(digits: string, rest: string)
    requires (forall i :: 0 <= i < |digits| ==> IsDigit(digits[i])) && (rest == "" || !IsDigit(rest[0]))
    ensures CountDigits(digits + rest) == |digits|
  {
    if digits == "" {
      assert digits + rest == rest;
    } else {
      assert (digits + rest)[1..] == digits[1..] + rest;
      CountDigitsOf(digits[1..], rest);
    }
  }

  lemma NotAligned(line: string)
    requires line != "" && line[0] != ':'
    ensures AlignOf(line).None? && ImageOf(line).None?
  {
  }

  lemma DigitFirst(line: string)
    requires line != "" && IsDigit(line[0])
    ensures ParseLine(line) == if NumberedText(line).Some? then ListItem(true, Filled(NumberedText(line).value))
                               else Paragraph(Plain, Filled(line), None)
  {
    NotAligned(line);
  }

  /** Digits, a dot and white space begin a numbered item, whatever the number. */
  lemma NumberedReads(digits: string, gap: char, text: string)
    requires digits != "" && (forall i :: 0 <= i < |digits| ==> IsDigit(digits[i])) && IsSpace(gap) && NoBreaks(text)
    ensures ParseLine(digits + "." + [gap] + text) == ListItem(true, Filled(text))
  {
    var k, behind := |digits|, "." + [gap] + text;
    var line := digits + "." + [gap] + text;
    assert line == digits + behind;
    CountDigitsOf(digits, behind);
    assert line[k..] == behind && behind[2..] == text;
    assert line[k] == '.' && line[k + 1] == gap && line[k + 2..] == text;
    assert NumberedText(line) == Some(text);
    assert line[0] == digits[0];
    DigitFirst(line);
  }

  /** A number as printed is read as the start of a numbered item. */
  lemma NumberedReadsBack(n: nat, text: string)
    requires NoBreaks(text)
    ensures ParseLine(Decimal(n) + ". " + text) == ListItem(true, Filled(text))
  {
    DecimalIsDigits(n);
    NumberedReads(Decimal(n), ' ', text);
    assert Decimal(n) + "." + [' '] == Decimal(n) + ". ";
  }

  /** What the printed prefixes say is what they are read as. */
  lemma PrefixReadsBack(prefix: string, text: string)
    requires prefix in {"# ", "## ", "### ", "- "}
    ensures ParseLine("---") == Divider
    ensures ParseLine(prefix + text) ==
            if prefix == "# " then Paragraph(H1, Filled(text), None)
            else if prefix == "## " then Paragraph(H2, Filled(text), None)
            else if prefix == "### " then Paragraph(H3, Filled(text), None)
            else ListItem(false, Filled(text))
  {
    var line := prefix + text;
    assert line[|prefix|..] == text;
    assert forall i :: 0 <= i < |prefix| ==> line[i] == prefix[i];
    NotAligned(line);
    assert StartsWith(line, prefix);
    assert "### "[0] == '#' && "### "[1] == '#' && "### "[2] == '#';
    assert "## "[0] == '#' && "## "[1] == '#' && "## "[2] == ' ';
    assert "# "[0] == '#' && "# "[1] == ' ' && "- "[0] == '-' && "- "[1] == ' ';
    assert "---"[0] == '-' && "---"[1] == '-';
  }

  /** An aligned line is the block of the rest of the line with that alignment, where a block can have one. */
  lemma AlignedReads(side: Align, gap: char, text: string)
    requires IsSpace(gap) && NoBreaks(text) && AlignOf(text).None? && ImageOf(text).None?
    ensures var prefix := if side == Left then ":::left" else if side == Center then ":::center" else ":::right";
            ParseLine(prefix + [gap] + text)
            == match ParseLine(text) {
                 case Paragraph(kind, shown, _) => Paragraph(kind, shown, Some(side))
                 case other => other
               }
  {
    var prefix := if side == Left then ":::left" else if side == Center then ":::center" else ":::right";
    SideIsRead(side, prefix, gap, text);
    assert BodyOf(prefix + [gap] + text) == text == BodyOf(text);
  }

  lemma SideIsRead(side: Align, prefix: string, gap: char, text: string)
    requires IsSpace(gap) && NoBreaks(text)
    requires prefix == if side == Left then ":::left" else if side == Center then ":::center" else ":::right"
    ensures AlignOf(prefix + [gap] + text) == Some((side, text)) && ImageOf(prefix + [gap] + text).None?
  {
    var line := prefix + [gap] + text;
    assert line[|prefix|] == gap && line[|prefix| + 1..] == text;
    assert line[3] == prefix[3] && ":::left"[3] == 'l' && ":::center"[3] == 'c' && ":::right"[3] == 'r' && ":::image"[3] == 'i';
    assert StartsWith(line, prefix);
  }

  /** Decimal notation: a digit more is ten times as much, no number begins with a zero but zero, and it reads back. */
  lemma {:induction false} DecimalMeans(n: nat, d: nat)
    requires d < 10
    ensures Decimal(d) == ["0123456789"[d]]
    ensures n > 0 ==> Decimal(10 * n + d) == Decimal(n) + ["0123456789"[d]] && Decimal(n)[0] != '0'
    ensures AllDigits(Decimal(n)) && NumberOf(Decimal(n)) == n
    decreases n
  {
    DecimalIsDigits(n);
    if n >= 10 {
      DecimalMeans(n / 10, n % 10);
      assert Decimal(n)[..|Decimal(n)| - 1] == Decimal(n / 10);
    }
  }

  lemma {:induction false} WordIsRead(word: string, current: string, rest: string)
    requires (forall c <- word :: !IsSpace(c)) && current + word != "" && (rest == "" || IsSpace(rest[0]))
    ensures Words(word + rest, current) == [current + word] + Words(rest, "")
  {
    if word == "" {
      assert word + rest == rest && current + word == current;
    } else {
      assert word[0] in word && forall c <- word[1..] :: c in word;
      assert (word + rest)[1..] == word[1..] + rest && current + [word[0]] + word[1..] == current + word;
      WordIsRead(word[1..], current + [word[0]], rest);
    }
  }

  lemma SpacedWordIsRead(word: string, rest: string)
    requires (forall c <- word :: !IsSpace(c)) && word != "" && (rest == "" || IsSpace(rest[0]))
    ensures Words(" " + (word + rest), "") == [word] + Words(rest, "")
  {
    assert (" " + (word + rest))[1..] == word + rest && "" + word == word;
    WordIsRead(word, "", rest);
  }

  lemma ThreeWords(a: string, b: string, c: string)
    requires a != "" && b != "" && c != ""
    requires (forall x <- a :: !IsSpace(x)) && (forall x <- b :: !IsSpace(x)) && forall x <- c :: !IsSpace(x)
    ensures Words(" " + (a + (" " + (b + (" " + c)))), "") == [a, b, c]
  {
    var third, second := " " + (c + ""), " " + (b + (" " + (c + "")));
    assert c + "" == c;
    SpacedWordIsRead(c, "");
    SpacedWordIsRead(b, third);
    SpacedWordIsRead(a, second);
  }

  /** An image line gives the key, the width and the height it names. */
  lemma ImageReads(key: string, width: nat, height: nat)
    requires key != "" && forall c <- key :: !IsSpace(c)
    ensures ParseLine(":::image " + key + " " + Decimal(width) + " " + Decimal(height)) == Image(key, width, height)
  {
    DecimalMeans(width, 0);
    DecimalMeans(height, 0);
    DecimalIsDigits(width);
    DecimalIsDigits(height);
    ImageOfWords(key, Decimal(width), Decimal(height));
  }

  lemma ImageOfWords(key: string, w: string, h: string)
    requires key != "" && w != "" && h != "" && AllDigits(w) && AllDigits(h) && forall c <- key :: !IsSpace(c)
    ensures ImageOf(":::image " + key + " " + w + " " + h) == Some(Image(key, NumberOf(w), NumberOf(h)))
  {
    var line := ":::image " + key + " " + w + " " + h;
    assert line[8..] == " " + (key + (" " + (w + (" " + h))));
    assert StartsWith(line, ":::image") && line[8] == ' ';
    ThreeWords(key, w, h);
  }

  lemma PlainReadsBackIff(text: string)
    ensures ParseLine(text) == Paragraph(Plain, text, None) <==> IsPlain(text) && Filled(text) == text
  {
  }

  lemma FilledHasNoBreak(text: string)
    requires NoBreaks(text)
    ensures NoBreaks(Filled(text))
  {
    FillingAddsBlanks(text, "");
  }

  lemma NumberedHasNoBreak(line: string)
    requires ParseLine(line).ListItem? && ParseLine(line).numbered
    ensures NoBreaks(ParseLine(line).text)
  {
    FilledHasNoBreak(NumberedText(BodyOf(line)).value);
  }

  /** What a line's block renders to is read as the same block, but for alignment, exactly when the block is settled. */
  lemma LineRoundTripIff(line: string, number: nat)
    ensures ParseLine(RenderBlock(ParseLine(line), number)) == Unaligned(ParseLine(line)) <==> Settled(ParseLine(line))
  {
    var b := ParseLine(line);
    match b
    case Divider =>
    case Image(_, _, _) => PlainReadsBackIff("");
    case ListItem(true, text) =>
      NumberedHasNoBreak(line);
      NumberedReadsBack(if number == 0 then 1 else number, text);
      FilledIsTextIff(text);
    case ListItem(false, text) =>
      PrefixReadsBack("- ", text);
      FilledIsTextIff(text);
    case Paragraph(Plain, text, _) =>
      PlainReadsBackIff(text);
      FilledIsTextIff(text);
    case Paragraph(kind, text, _) =>
      PrefixReadsBack(if kind == H1 then "# " else if kind == H2 then "## " else "### ", text);
      FilledIsTextIff(text);
  }

  /** Where `t` stands in the line as its end. */
  predicate EndsLine(t: string, line: string) {
    |t| <= |line| && t == line[|line| - |t|..]
  }

  lemma TextEndsLine(line: string)
    ensures EndsLine(BodyOf(line), line)
    ensures NumberedText(BodyOf(line)).Some? ==> EndsLine(NumberedText(BodyOf(line)).value, BodyOf(line))
  {
  }

  /** The text of the block of a body without inline markup, as it stands there. */
  lemma BareBodyText(line: string)
    requires Bare(line)
    ensures var body := BodyOf(line);
            && NoMarkup(body[|Marker(body)|..]) && Filled(body[|Marker(body)|..]) == body[|Marker(body)|..]
            && (NumberedText(body).Some? ==>
                  NoMarkup(NumberedText(body).value) && Filled(NumberedText(body).value) == NumberedText(body).value)
  {
    var body := BodyOf(line);
    TextEndsLine(line);
    BareSuffix(line, |line| - |body|);
    BareRest(body, body[|Marker(body)|..]);
    if NumberedText(body).Some? {
      BareRest(body, NumberedText(body).value);
    }
  }

  lemma BareRest(body: string, rest: string)
    requires Bare(body) && EndsLine(rest, body)
    ensures NoMarkup(rest) && Filled(rest) == rest
  {
    BareSuffix(body, |body| - |rest|);
    BareIsShown(rest);
  }

  /** Of the blocks of a line whose text holds no inline markup, only plain paragraphs need a second look. */
  lemma SettledBodyIff(body: string, align: Option<Align>)
    requires NoMarkup(body[|Marker(body)|..]) && (NumberedText(body).Some? ==> NoMarkup(NumberedText(body).value))
    requires Filled(body[|Marker(body)|..]) == body[|Marker(body)|..]
    requires NumberedText(body).Some? ==> Filled(NumberedText(body).value) == NumberedText(body).value
    ensures Settled(ParseBody(body, align))
            <==> (Marker(body) == "" && NumberedText(body).None? ==> ImageOf(body).None? && AlignOf(body).None?)
  {
    var b := ParseBody(body, align);
    if Marker(body) == "" {
      assert body[0..] == body;
      assert b == if NumberedText(body).Some? then ListItem(true, NumberedText(body).value) else Paragraph(Plain, body, align);
    } else if Marker(body) == "---" {
      assert b == Divider;
    } else {
      assert b.Paragraph? ==> b.kind != Plain;
      assert (b.Paragraph? || b.ListItem?) && b.text == body[|Marker(body)|..];
    }
  }

  /** A line without inline markup is settled unless it is an image or marked twice. */
  lemma BareLineSettledIff(line: string)
    requires Bare(line)
    ensures Settled(ParseLine(line)) <==> ImageOf(line).None? && !DoublyMarked(line)
  {
    if ImageOf(line).None? {
      var body := BodyOf(line);
      BareBodyText(line);
      SettledBodyIff(body, if AlignOf(line).Some? then Some(AlignOf(line).value.0) else None);
      if AlignOf(body).Some? || ImageOf(body).Some? {
        ColonIsPlain(body);
      }
    }
  }

  lemma ColonIsPlain(body: string)
    requires AlignOf(body).Some? || ImageOf(body).Some?
    ensures Marker(body) == "" && NumberedText(body).None? && body != "---"
  {
    assert body[0] == ':';
    assert "### "[0] == '#' && "## "[0] == '#' && "# "[0] == '#' && "- "[0] == '-' && "---"[0] == '-';
  }

  /** What a line looks like after the way there and back. */
  function Shown(line: string, number: nat): string {
    var body := BodyOf(line);
    if ImageOf(line).Some? then ""
    else if Marker(body) == "" && NumberedText(body).Some?
    then Decimal(if number == 0 then 1 else number) + ". " + Filled(NumberedText(body).value)
    else Marker(body) + Filled(body[|Marker(body)|..])
  }

  /** The line stays, but for images, alignment, inline markup and, in numbered items, the number and the gap. */
  lemma RenderKeepsText(line: string, number: nat)
    ensures RenderBlock(ParseLine(line), number) == Shown(line, number)
    ensures Bare(line) && ImageOf(line).None? && !(Marker(BodyOf(line)) == "" && NumberedText(BodyOf(line)).Some?) ==>
              Shown(line, number) == BodyOf(line)
  {
    BodyRenders(BodyOf(line), if AlignOf(line).Some? then Some(AlignOf(line).value.0) else None, number);
    if Bare(line) {
      var body := BodyOf(line);
      BareBodyText(line);
      assert Marker(body) + body[|Marker(body)|..] == body;
    }
  }

  lemma BodyRenders(body: string, align: Option<Align>, number: nat)
    ensures RenderBlock(ParseBody(body, align), number)
            == if Marker(body) == "" && NumberedText(body).Some?
               then Decimal(if number == 0 then 1 else number) + ". " + Filled(NumberedText(body).value)
               else Marker(body) + Filled(body[|Marker(body)|..])
  {
  }

  // --------------------------------------------------------------------- documents

  /** `markdown.split('\n')` */
  function Split(text: string): (lines: seq<string>)
    ensures lines != [] && forall line <- lines :: '\n' !in line
  {
    if text == "" then [""]
    else
      var rest := Split(text[1..]);
      if text[0] == '\n' then [""] + rest else [[text[0]] + rest[0]] + rest[1..]
  }

  function Join(lines: seq<string>): string {
    if lines == [] then ""
    else if |lines| == 1 then lines[0]
    else lines[0] + "\n" + Join(lines[1..])
  }

  lemma {:induction false} SplitLine(line: string, rest: string)
    requires '\n' !in line
    ensures Split(line + "\n" + rest) == [line] + Split(rest)
  {
    var text := line + "\n" + rest;
    if line == "" {
      assert text[1..] == rest;
    } else {
      assert text[1..] == line[1..] + "\n" + rest;
      SplitLine(line[1..], rest);
      assert text[0] == line[0] && line[0] in line;
      assert Split(text[1..])[1..] == Split(rest);
      assert [line[0]] + line[1..] == line;
    }
  }

  lemma {:induction false} SplitLast(line: string)
    requires '\n' !in line
    ensures Split(line) == [line]
  {
    if line != "" {
      SplitLast(line[1..]);
      assert line[0] in line && [line[0]] + line[1..] == line;
    }
  }

  lemma {:induction false} SplitJoin(lines: seq<string>)
    requires lines != [] && forall line <- lines :: '\n' !in line
    ensures Split(Join(lines)) == lines
  {
    assert lines[0] in lines;
    if |lines| == 1 {
      SplitLast(lines[0]);
    } else {
      assert forall line <- lines[1..] :: line in lines;
      SplitLine(lines[0], Join(lines[1..]));
      SplitJoin(lines[1..]);
    }
  }

  lemma JoinNewLine(lines: seq<string>)
    requires lines != []
    ensures Join([""] + lines) == "\n" + Join(lines)
  {
    assert ([""] + lines)[1..] == lines;
  }

  lemma JoinLonger(c: char, lines: seq<string>)
    requires lines != []
    ensures Join([[c] + lines[0]] + lines[1..]) == [c] + Join(lines)
  {
    var longer := [[c] + lines[0]] + lines[1..];
    assert longer[1..] == lines[1..];
    if |lines| > 1 {
      assert [c] + lines[0] + "\n" + Join(lines[1..]) == [c] + (lines[0] + "\n" + Join(lines[1..]));
    }
  }

  lemma {:induction false} JoinSplit(text: string)
    ensures Join(Split(text)) == text
  {
    if text != "" {
      var rest := Split(text[1..]);
      JoinSplit(text[1..]);
      JoinNewLine(rest);
      JoinLonger(text[0], rest);
      assert text == [text[0]] + text[1..];
    }
  }

  predicate IsNumbered(b: Block) {
    b.ListItem? && b.numbered
  }

  /** The place of block `i` in its run of numbered items, zero for other blocks. */
  function Number(blocks: seq<Block>, i: nat): nat
    requires i < |blocks|
  {
    if !IsNumbered(blocks[i]) then 0 else if i == 0 then 1 else Number(blocks, i - 1) + 1
  }

  /** Numbered items count from one, up from the first item of their run. */
  lemma {:induction false} NumberMeans(blocks: seq<Block>, i: nat)
    requires i < |blocks|
    ensures var n := Number(blocks, i);
            && (n == 0 <==> !IsNumbered(blocks[i]))
            && n <= i + 1
            && (forall j :: i - n < j <= i ==> IsNumbered(blocks[j]))
            && (n > 0 && i - n >= 0 ==> !IsNumbered(blocks[i - n]))
  {
    if IsNumbered(blocks[i]) && i > 0 {
      NumberMeans(blocks, i - 1);
    }
  }

  function ParseLines(lines: seq<string>): seq<Block> {
    seq(|lines|, i requires 0 <= i < |lines| => ParseLine(lines[i]))
  }

  function RenderLines(blocks: seq<Block>): seq<string> {
    seq(|blocks|, i requires 0 <= i < |blocks| => RenderBlock(blocks[i], Number(blocks, i)))
  }

  method MarkdownToBlocks(markdown: string) returns (blocks: seq<Block>)
    ensures blocks == ParseLines(Split(markdown))
  {
    var lines := Split(markdown);
    blocks := [];
    for i := 0 to |lines|
      invariant |blocks| == i && forall k :: 0 <= k < i ==> blocks[k] == ParseLine(lines[k])
    {
      blocks := blocks + [ParseLine(lines[i])];
    }
  }

  method BlocksToMarkdown(blocks: seq<Block>) returns (markdown: string)
    ensures markdown == Join(RenderLines(blocks))
  {
    var lines: seq<string> := [];
    var numberedCounter := 0;
    for i := 0 to |blocks|
      invariant numberedCounter == if i == 0 then 0 else Number(blocks, i - 1)
      invariant |lines| == i && forall k :: 0 <= k < i ==> lines[k] == RenderBlock(blocks[k], Number(blocks, k))
    {
      if IsNumbered(blocks[i]) {
        numberedCounter := numberedCounter + 1;
      } else {
        numberedCounter := 0;
      }
      lines := lines + [RenderBlock(blocks[i], numberedCounter)];
    }
    assert lines == RenderLines(blocks);
    markdown := Join(lines);
  }

  lemma {:induction false} DecimalHasNoBreak(n: nat)
    ensures '\n' !in Decimal(n)
  {
    DecimalIsDigits(n);
  }

  lemma RenderedHasNoBreak(line: string, number: nat)
    requires '\n' !in line
    ensures '\n' !in RenderBlock(ParseLine(line), number)
  {
    RenderKeepsText(line, number);
    DecimalHasNoBreak(if number == 0 then 1 else number);
    var body := BodyOf(line);
    assert '\n' !in body;
    FillingAddsBlanks(body[|Marker(body)|..], "");
    if NumberedText(body).Some? {
      assert NoBreaks(NumberedText(body).value);
      FillingAddsBlanks(NumberedText(body).value, "");
    }
  }

  /**
   * Rendering and parsing again gives the same blocks without their alignment exactly
   * when every block is settled; and each line comes back as `Shown` says, numbered
   * items counting from one in each run.
   */
  lemma DocumentRoundTripIff(markdown: string)
    ensures var lines := Split(markdown);
            var blocks := ParseLines(lines);
            var again := Split(Join(RenderLines(blocks)));
            && |again| == |lines|
            && (forall i :: 0 <= i < |lines| ==> again[i] == Shown(lines[i], Number(blocks, i)))
            && (ParseLines(again) == UnalignedAll(blocks) <==> forall b <- blocks :: Settled(b))
  {
    var lines := Split(markdown);
    var blocks := ParseLines(lines);
    var again := RenderLines(blocks);
    forall i | 0 <= i < |lines|
      ensures '\n' !in again[i] && again[i] == Shown(lines[i], Number(blocks, i))
      ensures ParseLines(again)[i] == UnalignedAll(blocks)[i] <==> Settled(blocks[i])
    {
      assert lines[i] in lines;
      RenderedHasNoBreak(lines[i], Number(blocks, i));
      RenderKeepsText(lines[i], Number(blocks, i));
      LineRoundTripIff(lines[i], Number(blocks, i));
    }
    SplitJoin(again);
    SettledByPosition(blocks);
    assert ParseLines(again) == UnalignedAll(blocks) <==>
           forall i :: 0 <= i < |lines| ==> ParseLines(again)[i] == UnalignedAll(blocks)[i];
  }

  lemma SettledByPosition(blocks: seq<Block>)
    ensures (forall b <- blocks :: Settled(b)) <==> forall i :: 0 <= i < |blocks| ==> Settled(blocks[i])
  {
  }

  function UnalignedAll(blocks: seq<Block>): seq<Block> {
    seq(|blocks|, i requires 0 <= i < |blocks| => Unaligned(blocks[i]))
  }

  /** A text without inline markup, images, alignment and numbered items comes back character by character. */
  lemma PlainTextIsKept(markdown: string)
    requires forall line <- Split(markdown) ::
               Bare(line) && ImageOf(line).None? && AlignOf(line).None? && !IsNumbered(ParseLine(line))
    ensures Join(RenderLines(ParseLines(Split(markdown)))) == markdown
  {
    var lines := Split(markdown);
    forall i | 0 <= i < |lines|
      ensures RenderLines(ParseLines(lines))[i] == lines[i]
    {
      assert lines[i] in lines;
      RenderKeepsText(lines[i], Number(ParseLines(lines), i));
    }
    assert RenderLines(ParseLines(lines)) == lines;
    JoinSplit(markdown);
  }
}
