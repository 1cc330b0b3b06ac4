/**
  The grammar of the lines that `csv_parse_line` reads (src/storage/storage.c), in
  files written by anyone: which fields a line spells, and what is wrong with a line
  that spells none.
*/
module CsvGrammar {
  import opened Wrappers
  import opened Text
  import opened CsvCodec

  /**
    One field as it stands in a line: text that does not begin with a quote, or a
    quoted value. Carriage returns and newlines in front of the quote are passed over.
  */
  datatype Cell = Plain(text: string) | Quoted(skipped: string, value: string, blanks: string)

  /** How a line ends: with a last field, inside an open quote, or with something behind a closing quote. */
  datatype Ending = Last(cell: Cell) | Open(skipped: string, value: string) | Broken(cell: Cell, c: char, rest: string)

  predicate AllIn(s: string, chars: string) {
    forall i :: 0 <= i < |s| ==> s[i] in chars
  }

  /** A text without its carriage returns and newlines. */
  function Visible(text: string): string {
    if text == "" then "" else (if text[0] in "\r\n" then "" else [text[0]]) + Visible(text[1..])
  }

  predicate ValidCell(cell: Cell) {
    match cell
    case Plain(text) => ',' !in text && (Visible(text) == "" || Visible(text)[0] != '"')
    case Quoted(skipped, _, blanks) => AllIn(skipped, "\r\n") && AllIn(blanks, " \t")
  }

  predicate ValidEnding(ending: Ending) {
    match ending
    case Last(cell) => ValidCell(cell)
    case Open(skipped, _) => AllIn(skipped, "\r\n")
    case Broken(cell, c, _) => cell.Quoted? && ValidCell(cell) && c !in ", \t" && (cell.blanks == "" ==> c != '"')
  }

  predicate AllValid(cells: seq<Cell>) {
    forall i :: 0 <= i < |cells| ==> ValidCell(cells[i])
  }

  function Spelled(cell: Cell): string {
    match cell
    case Plain(text) => text
    case Quoted(skipped, value, blanks) => skipped + ("\"" + (DoubleQuotes(value) + ("\"" + blanks)))
  }

  function SpelledEnding(ending: Ending): string {
    match ending
    case Last(cell) => Spelled(cell)
    case Open(skipped, value) => skipped + ("\"" + DoubleQuotes(value))
    case Broken(cell, c, rest) => Spelled(cell) + ([c] + rest)
  }

  /** A line: fields with a comma behind each, and an ending. */
  function LineOf(cells: seq<Cell>, ending: Ending): string {
    if cells == [] then SpelledEnding(ending) else Spelled(cells[0]) + ("," + LineOf(cells[1..], ending))
  }

  /** Unquoted text is trimmed, its inner quotes kept; a quoted value keeps the blanks behind its closing quote. */
  function ReadAs(cell: Cell): string {
    match cell
    case Plain(text) => Trim(Visible(text))
    case Quoted(_, value, blanks) => value + blanks
  }

  function Values(cells: seq<Cell>): seq<string> {
    if cells == [] then [] else [ReadAs(cells[0])] + Values(cells[1..])
  }

  /** What a line of this form is read as. */
  function Reading(cells: seq<Cell>, ending: Ending): Result<seq<string>> {
    match ending
    case Last(cell) => Ok(Values(cells) + [ReadAs(cell)])
    case Open(_, _) => Err("unterminated quoted CSV field")
    case Broken(_, _, _) => Err("unexpected character after quoted CSV field")
  }

  // ----- Every line of the grammar is read as it should be -------------------

  function Fresh(fields: seq<string>): ParseState {
    ParseState(false, false, None, fields)
  }

  lemma VisibleStep(text: string)
    requires text != ""
    ensures Visible(text) == if IsLineEnd(text[0]) then Visible(text[1..]) else [text[0]] + Visible(text[1..])
  {
    CharacterClasses(text[0]);
    assert "" + Visible(text[1..]) == Visible(text[1..]);
  }

  lemma {:induction false} ReadsPlain(text: string, rest: string, s: ParseState)
    requires !s.inQuotes && !s.justClosed && ',' !in text
    requires s.buffer.Some? || Visible(text) == "" || Visible(text)[0] != '"'
    ensures ParseRest(text + rest, s) == ParseRest(rest, s.(buffer := Joined(s.buffer, Visible(text))))
    decreases |text|
  {
    if text == "" {
      assert text + rest == rest;
    } else {
      var more := text + rest;
      assert more[1..] == text[1..] + rest;
      VisibleStep(text);
      if IsLineEnd(text[0]) {
        ReadsPlain(text[1..], rest, s);
      } else {
        ReadsPlain(text[1..], rest, Buffered(s, text[0]));
        assert Visible(text)[1..] == Visible(text[1..]);
        JoinedStep(s, Visible(text));
      }
    }
  }

  lemma {:induction false} ReadsBlanks(blanks: string, rest: string, s: ParseState)
    requires !s.inQuotes && s.justClosed && AllIn(blanks, " \t")
    ensures ParseRest(blanks + rest, s) == ParseRest(rest, s.(buffer := Joined(s.buffer, blanks)))
    decreases |blanks|
  {
    if blanks == "" {
      assert blanks + rest == rest;
    } else {
      assert (blanks + rest)[1..] == blanks[1..] + rest && blanks[0] in " \t";
      ReadsBlanks(blanks[1..], rest, Buffered(s, blanks[0]));
      JoinedStep(s, blanks);
    }
  }

  lemma {:induction false} SkipsLineEnds(skipped: string, rest: string, fields: seq<string>)
    requires AllIn(skipped, "\r\n")
    ensures ParseRest(skipped + rest, Fresh(fields)) == ParseRest(rest, Fresh(fields))
    decreases |skipped|
  {
    if skipped == "" {
      assert skipped + rest == rest;
    } else {
      assert (skipped + rest)[1..] == skipped[1..] + rest && skipped[0] in "\r\n";
      SkipsLineEnds(skipped[1..], rest, fields);
    }
  }

  /** The state behind a quoted value and the blanks that follow it. */
  function Closed(value: string, blanks: string, fields: seq<string>): ParseState {
    ParseState(false, true, Joined(Joined(None, value), blanks), fields)
  }

  lemma ReadsQuoted(cell: Cell, rest: string, fields: seq<string>)
    requires cell.Quoted? && ValidCell(cell) && (cell.blanks + rest == "" || (cell.blanks + rest)[0] != '"')
    ensures ParseRest(Spelled(cell) + rest, Fresh(fields)) == ParseRest(rest, Closed(cell.value, cell.blanks, fields))
  {
    hide DoubleQuotes, AllIn;
    var behind := DoubleQuotes(cell.value) + ("\"" + (cell.blanks + rest));
    assert Spelled(cell) + rest == cell.skipped + ("\"" + behind);
    SkipsLineEnds(cell.skipped, "\"" + behind, fields);
    assert ("\"" + behind)[1..] == behind;
    var s := Fresh(fields).(inQuotes := true);
    ParseQuoted(cell.value, cell.blanks + rest, s);
    ReadsBlanks(cell.blanks, rest, ParseState(false, true, Joined(None, cell.value), fields));
  }

  /** A field that stands at a comma or at the end of the line. */
  lemma ReadsCell(cell: Cell, rest: string, fields: seq<string>)
    requires ValidCell(cell) && AtFieldEnd(rest)
    ensures ParseRest(Spelled(cell) + rest, Fresh(fields)) ==
      var read := fields + [ReadAs(cell)]; if rest == "" then Ok(read) else ParseRest(rest[1..], Fresh(read))
  {
    hide DoubleQuotes, Trim, Visible, AllIn;
    match cell {
      case Plain(text) => ReadsPlain(text, rest, Fresh(fields));
      case Quoted(skipped, value, blanks) =>
        BlanksAreNoQuotes(blanks, rest);
        ReadsQuoted(cell, rest, fields);
        assert value + "" == value && "" + blanks == blanks;
    }
  }

  lemma BlanksAreNoQuotes(blanks: string, rest: string)
    requires AllIn(blanks, " \t") && (rest == "" || rest[0] != '"')
    ensures blanks + rest == "" || (blanks + rest)[0] != '"'
  {
    assert blanks != "" ==> blanks[0] in " \t";
  }

  lemma {:induction false} NeverCloses(value: string, s: ParseState)
    requires s.inQuotes
    ensures ParseRest(DoubleQuotes(value), s) == Err(UNTERMINATED)
    decreases |value|
  {
    if value != "" {
      var text, tail := DoubleQuotes(value), DoubleQuotes(value[1..]);
      assert if value[0] == '"' then text[2..] == tail else text[1..] == tail;
      NeverCloses(value[1..], Buffered(s, value[0]));
    }
  }

  lemma ReadsEnding(ending: Ending, fields: seq<string>)
    requires ValidEnding(ending)
    ensures ParseRest(SpelledEnding(ending), Fresh(fields)) ==
      match ending
      case Last(cell) => Ok(fields + [ReadAs(cell)])
      case Open(_, _) => Err(UNTERMINATED)
      case Broken(_, _, _) => Err(UNEXPECTED)
  {
    hide DoubleQuotes, ReadAs;
    match ending {
      case Last(cell) =>
        assert Spelled(cell) + "" == Spelled(cell);
        ReadsCell(cell, "", fields);
      case Open(skipped, value) =>
        SkipsLineEnds(skipped, "\"" + DoubleQuotes(value), fields);
        assert ("\"" + DoubleQuotes(value))[1..] == DoubleQuotes(value);
        NeverCloses(value, Fresh(fields).(inQuotes := true));
      case Broken(cell, c, rest) =>
        if cell.blanks != "" {
          assert cell.blanks[0] in " \t";
        }
        ReadsQuoted(cell, [c] + rest, fields);
        var s := Closed(cell.value, cell.blanks, fields);
        assert ([c] + rest)[0] == c;
    }
  }

  lemma {:induction false} ReadsLine(cells: seq<Cell>, ending: Ending, fields: seq<string>)
    requires AllValid(cells) && ValidEnding(ending)
    ensures ParseRest(LineOf(cells, ending), Fresh(fields)) ==
      match Reading(cells, ending) case Ok(values) => Ok(fields + values) case Err(message) => Err(message)
    decreases |cells|
  {
    hide ParseRest, Spelled, SpelledEnding, ReadAs, ValidCell, ValidEnding;
    if cells == [] {
      ReadsEnding(ending, fields);
      assert [] + (if ending.Last? then [ReadAs(ending.cell)] else []) ==
        (if ending.Last? then [ReadAs(ending.cell)] else []);
    } else {
      var first, more := ReadAs(cells[0]), LineOf(cells[1..], ending);
      ReadsCell(cells[0], "," + more, fields);
      assert ("," + more)[1..] == more;
      ReadsLine(cells[1..], ending, fields + [first]);
      if ending.Last? {
        var last := [ReadAs(ending.cell)];
        assert fields + [first] + (Values(cells[1..]) + last) == fields + ([first] + Values(cells[1..]) + last);
      }
    }
  }

  // ----- Every text is a line of the grammar ---------------------------------

  /** A text behind an opening quote: a doubled value, and then either nothing or the closing quote. */
  lemma {:induction false} SplitQuoted(s: string) returns (value: string, closed: bool, tail: string)
    ensures if closed then s == DoubleQuotes(value) + ("\"" + tail) && (tail == "" || tail[0] != '"')
            else s == DoubleQuotes(value) && tail == ""
    decreases |s|
  {
    value, closed, tail := "", false, "";
    if s != "" {
      if s[0] == '"' && !(|s| > 1 && s[1] == '"') {
        closed, tail := true, s[1..];
        assert s == "" + ("\"" + tail);
      } else {
        var k := if s[0] == '"' then 2 else 1;
        value, closed, tail := SplitQuoted(s[k..]);
        var first := s[0];
        Doubling(first, value);
        assert s == s[..k] + s[k..] && s[..k] == (if first == '"' then "\"\"" else [first]);
        value := [first] + value;
        assert closed ==> s == s[..k] + DoubleQuotes(value[1..]) + ("\"" + tail);
      }
    }
  }

  lemma Doubling(first: char, value: string)
    ensures DoubleQuotes([first] + value) == (if first == '"' then "\"\"" else [first]) + DoubleQuotes(value)
    ensures ([first] + value)[1..] == value
  {
  }

  lemma {:induction false} SplitWhile(s: string, chars: string) returns (front: string, tail: string)
    ensures s == front + tail && AllIn(front, chars) && (tail == "" || tail[0] !in chars)
    decreases |s|
  {
    front, tail := "", s;
    if s != "" && s[0] in chars {
      front, tail := SplitWhile(s[1..], chars);
      assert s == [s[0]] + s[1..];
      front := [s[0]] + front;
    }
  }

  lemma {:induction false} SplitAtComma(s: string) returns (text: string, rest: string)
    ensures s == text + rest && ',' !in text && AtFieldEnd(rest)
    decreases |s|
  {
    text, rest := "", s;
    if s != "" && s[0] != ',' {
      text, rest := SplitAtComma(s[1..]);
      assert s == [s[0]] + s[1..];
      text := [s[0]] + text;
    }
  }

  lemma {:induction false} VisibleBegins(front: string, tail: string)
    requires AllIn(front, "\r\n") && (tail == "" || tail[0] !in "\r\n")
    ensures Visible(front + tail) == "" || (tail != "" && Visible(front + tail)[0] == tail[0])
    decreases |front|
  {
    if front == "" {
      assert front + tail == tail;
    } else {
      assert (front + tail)[1..] == front[1..] + tail && front[0] in "\r\n";
      VisibleBegins(front[1..], tail);
    }
  }

  /** Any text begins with a field that ends at a comma or at the end, or it is an ending that goes wrong. */
  lemma FirstCell(s: string) returns (cell: Cell, rest: string, wrong: Ending)
    ensures ValidEnding(wrong)
    ensures if wrong.Last? then ValidCell(cell) && AtFieldEnd(rest) && s == Spelled(cell) + rest
            else s == SpelledEnding(wrong)
  {
    hide DoubleQuotes, Visible;
    wrong := Last(Quoted("", "", ""));
    cell, rest := wrong.cell, "";
    var skipped, tail := SplitWhile(s, "\r\n");
    if tail != "" && tail[0] == '"' {
      var value, closed, behind := SplitQuoted(tail[1..]);
      assert tail == "\"" + tail[1..];
      if !closed {
        wrong := Open(skipped, value);
      } else {
        var blanks, more := SplitWhile(behind, " \t");
        cell, rest := Quoted(skipped, value, blanks), more;
        assert s == Spelled(cell) + rest;
        if !AtFieldEnd(rest) {
          assert rest == [rest[0]] + rest[1..];
          assert blanks == "" ==> behind == more;
          wrong := Broken(cell, rest[0], rest[1..]);
        }
      }
    } else {
      var text, more := SplitAtComma(s);
      cell, rest := Plain(text), more;
      PlainBegins(s, skipped, tail, text, more);
    }
  }

  lemma PlainBegins(s: string, skipped: string, tail: string, text: string, rest: string)
    requires s == skipped + tail == text + rest && AllIn(skipped, "\r\n") && AtFieldEnd(rest) && ',' !in text
    requires tail == "" || (tail[0] !in "\r\n" && tail[0] != '"')
    ensures Visible(text) == "" || Visible(text)[0] != '"'
  {
    if |text| <= |skipped| {
      forall i | 0 <= i < |text| ensures text[i] in "\r\n" {
        assert text[i] == (text + rest)[i] == (skipped + tail)[i] == skipped[i];
      }
      VisibleBegins(text, "");
      assert text + "" == text;
    } else {
      var more := text[|skipped|..];
      assert text[..|skipped|] == (text + rest)[..|skipped|] == (skipped + tail)[..|skipped|] == skipped;
      assert more[0] == (text + rest)[|skipped|] == (skipped + tail)[|skipped|] == tail[0];
      assert text == skipped + more;
      VisibleBegins(skipped, more);
    }
  }

  /** Every text is a line of exactly this form. */
  lemma {:induction false} EveryTextIsLine(s: string) returns (cells: seq<Cell>, ending: Ending)
    ensures AllValid(cells) && ValidEnding(ending) && s == LineOf(cells, ending)
    decreases |s|
  {
    hide ValidCell, Spelled;
    var cell, rest, wrong := FirstCell(s);
    cells, ending := [], wrong;
    if wrong.Last? {
      if rest == "" {
        ending := Last(cell);
        assert Spelled(cell) + "" == Spelled(cell);
        LastIsValid(cell);
      } else {
        var more;
        more, ending := EveryTextIsLine(rest[1..]);
        assert rest == "," + rest[1..];
        cells := [cell] + more;
        assert cells[1..] == more;
      }
    }
  }

  lemma LastIsValid(cell: Cell)
    requires ValidCell(cell)
    ensures ValidEnding(Last(cell))
  {
  }

  // ----- The law -------------------------------------------------------------

  predicate IsLineOf(line: string, cells: seq<Cell>, ending: Ending) {
    AllValid(cells) && ValidEnding(ending) && line == LineOf(cells, ending)
  }

  /** The line has a form of the grammar that is read as `r`. */
  ghost predicate Reads(line: string, r: Result<seq<string>>) {
    exists cells, ending :: IsLineOf(line, cells, ending) && Reading(cells, ending) == r
  }

  /** `csv_parse_line` reads every line as its form says, fields and complaints alike. */
  lemma ParsesByGrammar(line: string, r: Result<seq<string>>)
    ensures ParseCsv(line) == r <==> Reads(line, r)
  {
    hide LineOf, Reading, AllValid, ValidEnding, ParseRest;
    var cells, ending := EveryTextIsLine(line);
    FormDecides(line, cells, ending);
    assert IsLineOf(line, cells, ending);
    if Reads(line, r) {
      var cells', ending' :| IsLineOf(line, cells', ending') && Reading(cells', ending') == r;
      FormDecides(line, cells', ending');
    }
  }

  lemma FormDecides(line: string, cells: seq<Cell>, ending: Ending)
    requires IsLineOf(line, cells, ending)
    ensures ParseCsv(line) == Reading(cells, ending)
  {
    hide LineOf, ParseRest, AllValid, ValidEnding;
    ReadsLine(cells, ending, []);
    if ending.Last? {
      var values := Values(cells) + [ReadAs(ending.cell)];
      assert [] + values == values;
    }
  }
}
