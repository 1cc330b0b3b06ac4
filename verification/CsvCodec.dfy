/**
  The CSV printer and parser of src/storage/storage.c. Quoting follows section 2
  of RFC 4180; unquoted fields lose the spaces around them when they are read.
*/
module CsvCodec {
  import opened Wrappers
  import opened Text

  // ----- Printing ------------------------------------------------------------

  predicate Special(c: char) {
    c == '"' || c == ',' || IsLineEnd(c)
  }

  predicate NeedsQuotes(value: string) {
    exists i :: 0 <= i < |value| && Special(value[i])
  }

  function DoubleQuotes(value: string): string {
    if value == [] then []
    else if value[0] == '"' then "\"\"" + DoubleQuotes(value[1..])
    else [value[0]] + DoubleQuotes(value[1..])
  }

  function EscapeField(value: string): string {
    if value == "" then "\"\""
    else if NeedsQuotes(value) then "\"" + DoubleQuotes(value) + "\""
    else value
  }

  /** `csv_escape_field`. */
  method CsvEscapeField(value: string) returns (escaped: string)
    ensures escaped == EscapeField(value)
  {
    if |value| == 0 {
      return "\"\"";
    }
    var needsQuotes := false;
    var index := 0;
    while index < |value|
      invariant index <= |value|
      invariant needsQuotes <==> exists i :: 0 <= i < index && Special(value[i])
    {
      if value[index] == '"' || value[index] == ',' || value[index] == '\n' || value[index] == '\r' {
        needsQuotes := true;
      }
      index := index + 1;
    }
    if !needsQuotes {
      return value;
    }
    escaped := "\"";
    index := 0;
    while index < |value|
      invariant index <= |value|
      invariant escaped + DoubleQuotes(value[index..]) == "\"" + DoubleQuotes(value)
    {
      if value[index] == '"' {
        escaped := escaped + "\"";
      }
      escaped := escaped + [value[index]];
      assert value[index..][1..] == value[index + 1..];
      index := index + 1;
    }
    escaped := escaped + "\"";
  }

  /** A field is written as it is exactly when it is not empty and holds no quote, comma or line end. */
  lemma EscapeForm(value: string)
    ensures EscapeField(value) == value <==> value != "" && forall c :: c in "\",\r\n" ==> c !in value
    ensures EscapeField(value) != value ==> EscapeField(value) == "\"" + DoubleQuotes(value) + "\""
  {
    assert NeedsQuotes(value) <==> exists c :: c in "\",\r\n" && c in value by {
      SpecialCharacters(value);
    }
    DoublingNeverShrinks(value);
  }

  lemma SpecialCharacters(value: string)
    ensures NeedsQuotes(value) <==> exists c :: c in "\",\r\n" && c in value
  {
    if NeedsQuotes(value) {
      var i :| 0 <= i < |value| && Special(value[i]);
      assert value[i] in "\",\r\n";
    }
    if c :| c in "\",\r\n" && c in value {
      var i :| 0 <= i < |value| && value[i] == c;
      assert Special(value[i]);
    }
  }

  lemma {:induction false} DoublingNeverShrinks(value: string)
    ensures |DoubleQuotes(value)| >= |value|
  {
    if value != "" {
      DoublingNeverShrinks(value[1..]);
    }
  }

  /** A row as `append_row_csv` writes it. */
  function EncodeRow(row: seq<string>): string {
    if row == [] then ""
    else if |row| == 1 then EscapeField(row[0])
    else EscapeField(row[0]) + "," + EncodeRow(row[1..])
  }

  // ----- Parsing -------------------------------------------------------------

  /** The state of `csv_parse_line` between two characters; `buffer` is `None` for a null pointer. */
  datatype ParseState = ParseState(inQuotes: bool, justClosed: bool, buffer: Option<string>, fields: seq<string>)

  const FRESH := ParseState(false, false, None, [])

  function Buffered(s: ParseState, c: char): ParseState {
    s.(buffer := Some(if s.buffer.Some? then s.buffer.value + [c] else [c]))
  }

  /** The field ends: quoted text is kept as it is, other text is trimmed. */
  function Pushed(s: ParseState): ParseState {
    var text := if s.buffer.Some? then s.buffer.value else "";
    ParseState(false, false, None, s.fields + [if s.justClosed then text else Trim(text)])
  }

  const UNTERMINATED := "unterminated quoted CSV field"
  const UNEXPECTED := "unexpected character after quoted CSV field"

  /** Parsing what is left of a line. */
  function ParseRest(rest: string, s: ParseState): Result<seq<string>>
    decreases |rest|
  {
    if s.inQuotes then
      if rest == [] then Err(UNTERMINATED)
      else if rest[0] == '"' then
        if |rest| > 1 && rest[1] == '"' then ParseRest(rest[2..], Buffered(s, '"'))
        else ParseRest(rest[1..], s.(inQuotes := false, justClosed := true))
      else ParseRest(rest[1..], Buffered(s, rest[0]))
    else if rest == [] then Ok(Pushed(s).fields)
    else if rest[0] == ',' then ParseRest(rest[1..], Pushed(s))
    else if rest[0] == '"' && s.buffer.None? then ParseRest(rest[1..], s.(inQuotes := true))
    else if s.justClosed && rest[0] != ' ' && rest[0] != '\t' then Err(UNEXPECTED)
    else if IsLineEnd(rest[0]) then ParseRest(rest[1..], s)
    else ParseRest(rest[1..], Buffered(s, rest[0]))
  }

  function ParseCsv(line: string): Result<seq<string>> {
    ParseRest(line, FRESH)
  }

  /** `csv_parse_line`: one pass over the line with two flags and a growing buffer. */
  method CsvParseLine(line: string) returns (r: Result<seq<string>>)
    ensures r == ParseCsv(line)
  {
    var s := FRESH;
    var cursor := 0;
    while true
      invariant cursor <= |line|
      invariant ParseCsv(line) == ParseRest(line[cursor..], s)
      decreases |line| - cursor
    {
      var rest := line[cursor..];
      assert |rest| > 0 ==> rest[1..] == line[cursor + 1..];
      assert |rest| > 1 ==> rest[2..] == line[cursor + 2..];
      if s.inQuotes {
        if cursor == |line| {
          return Err(UNTERMINATED);
        } else if line[cursor] == '"' {
          if cursor + 1 < |line| && line[cursor + 1] == '"' {
            s := Buffered(s, '"');
            cursor := cursor + 1;
          } else {
            s := s.(inQuotes := false, justClosed := true);
          }
        } else {
          s := Buffered(s, line[cursor]);
        }
      } else if cursor == |line| || line[cursor] == ',' {
        var text := if s.buffer.Some? then s.buffer.value else "";
        if !s.justClosed {
          text := TrimWhitespace(text);
        }
        s := ParseState(false, false, None, s.fields + [text]);
        if cursor == |line| {
          return Ok(s.fields);
        }
      } else if line[cursor] == '"' && s.buffer.None? {
        s := s.(inQuotes := true);
      } else if s.justClosed && line[cursor] != ' ' && line[cursor] != '\t' {
        return Err(UNEXPECTED);
      } else if line[cursor] != '\r' && line[cursor] != '\n' {
        s := Buffered(s, line[cursor]);
      }
      cursor := cursor + 1;
    }
  }

  // ----- Round trip ----------------------------------------------------------

  /** What a value is once written and read again. */
  function Norm(value: string): string {
    if NeedsQuotes(value) then value else Trim(value)
  }

  function NormRow(row: seq<string>): (r: seq<string>)
    ensures |r| == |row| && forall i :: 0 <= i < |row| ==> r[i] == Norm(row[i])
  {
    seq(|row|, i requires 0 <= i < |row| => Norm(row[i]))
  }

  lemma NormIdempotent(value: string)
    ensures Norm(Norm(value)) == Norm(value)
  {
    if !NeedsQuotes(value) {
      TrimmedEnds(value);
      TrimIdempotent(value);
      assert forall c :: c in value ==> !Special(c);
    }
  }

  /** A value that needs quotes, is empty, or has no space around it comes back exactly. */
  lemma NormIsExact(value: string)
    ensures Norm(value) == value <==>
      NeedsQuotes(value) || value == "" || (!IsSpace(value[0]) && !IsSpace(value[|value| - 1]))
  {
    TrimmedEnds(value);
  }

  predicate AtFieldEnd(rest: string) {
    rest == [] || rest[0] == ','
  }

  /** A buffer after taking in a whole value. */
  function Joined(buffer: Option<string>, value: string): Option<string> {
    if value == "" then buffer else Some(if buffer.Some? then buffer.value + value else value)
  }

  lemma JoinedStep(s: ParseState, value: string)
    requires value != ""
    ensures Joined(Buffered(s, value[0]).buffer, value[1..]) == Joined(s.buffer, value)
  {
    assert value == [value[0]] + value[1..];
    assert value[1..] == "" ==> value == [value[0]];
    if s.buffer.Some? {
      assert s.buffer.value + [value[0]] + value[1..] == s.buffer.value + value;
    }
  }

  lemma {:induction false} ParsePlain(value: string, rest: string, s: ParseState)
    requires !s.inQuotes && !s.justClosed && AtFieldEnd(rest)
    requires forall i :: 0 <= i < |value| ==> !Special(value[i])
    ensures ParseRest(value + rest, s) == ParseRest(rest, s.(buffer := Joined(s.buffer, value)))
  {
    if value == "" {
      assert value + rest == rest;
    } else {
      assert (value + rest)[1..] == value[1..] + rest;
      ParsePlain(value[1..], rest, Buffered(s, value[0]));
      JoinedStep(s, value);
    }
  }

  lemma {:induction false} ParseQuoted(value: string, rest: string, s: ParseState)
    requires s.inQuotes && (rest == "" || rest[0] != '"')
    ensures ParseRest(DoubleQuotes(value) + ("\"" + rest), s) ==
      ParseRest(rest, ParseState(false, true, Joined(s.buffer, value), s.fields))
  {
    var text := DoubleQuotes(value) + ("\"" + rest);
    if value == "" {
      assert text == "\"" + rest && text[1..] == rest;
    } else {
      var tail := DoubleQuotes(value[1..]) + ("\"" + rest);
      if value[0] == '"' {
        assert text == "\"\"" + tail && text[2..] == tail;
      } else {
        assert text == [value[0]] + tail && text[1..] == tail;
      }
      ParseQuoted(value[1..], rest, Buffered(s, value[0]));
      JoinedStep(s, value);
    }
  }

  lemma ParseEscaped(value: string, rest: string, fields: seq<string>)
    requires AtFieldEnd(rest)
    ensures var done := ParseState(false, false, None, fields + [Norm(value)]);
      ParseRest(EscapeField(value) + rest, ParseState(false, false, None, fields)) ==
        if rest == [] then Ok(done.fields) else ParseRest(rest[1..], done)
  {
    hide DoubleQuotes;
    var s := ParseState(false, false, None, fields);
    if value == "" || NeedsQuotes(value) {
      EscapedIsQuoted(value, rest);
      ParseQuoted(value, rest, s.(inQuotes := true));
    } else {
      ParsePlain(value, rest, s);
    }
  }

  lemma EscapedIsQuoted(value: string, rest: string)
    requires value == "" || NeedsQuotes(value)
    ensures var text := EscapeField(value) + rest;
      text != "" && text[0] == '"' && text[1..] == DoubleQuotes(value) + ("\"" + rest)
  {
    assert EscapeField(value) + rest == "\"" + (DoubleQuotes(value) + ("\"" + rest));
  }

  /** What follows the first field of a row. */
  function Tail(row: seq<string>): string {
    if |row| <= 1 then "" else "," + EncodeRow(row[1..])
  }

  lemma EncodeFirst(row: seq<string>)
    requires row != []
    ensures EncodeRow(row) == EscapeField(row[0]) + Tail(row) && AtFieldEnd(Tail(row))
    ensures if |row| == 1 then Tail(row) == "" else Tail(row) != "" && Tail(row)[1..] == EncodeRow(row[1..])
  {
    hide EscapeField;
    if |row| > 1 {
      var first, rest := EscapeField(row[0]), EncodeRow(row[1..]);
      assert first + "," + rest == first + ("," + rest);
      assert ("," + rest)[1..] == rest;
    } else {
      assert EscapeField(row[0]) + "" == EscapeField(row[0]);
    }
  }

  lemma NormFirst(row: seq<string>, fields: seq<string>)
    requires row != []
    ensures fields + NormRow(row) == fields + [Norm(row[0])] + NormRow(row[1..])
    ensures |row| == 1 ==> fields + NormRow(row) == fields + [Norm(row[0])]
  {
    hide Norm;
  }

  lemma {:induction false} ParseEncoded(row: seq<string>, fields: seq<string>)
    requires row != []
    ensures ParseRest(EncodeRow(row), ParseState(false, false, None, fields)) == Ok(fields + NormRow(row))
    decreases |row|
  {
    hide *;
    EncodeFirst(row);
    ParseEscaped(row[0], Tail(row), fields);
    NormFirst(row, fields);
    if |row| > 1 {
      ParseEncoded(row[1..], fields + [Norm(row[0])]);
    }
  }

  /** Reading back a written row gives the same number of fields, each in normal form. */
  lemma RowRoundTrip(row: seq<string>)
    requires row != []
    ensures ParseCsv(EncodeRow(row)) == Ok(NormRow(row))
  {
    ParseEncoded(row, []);
    assert [] + NormRow(row) == NormRow(row);
  }

  // ----- What an encoded row looks like --------------------------------------

  /** A field value the INSERT path lets through: a C string without a line end. */
  predicate OneLine(text: string) {
    forall i :: 0 <= i < |text| ==> !IsLineEnd(text[i]) && text[i] != NUL
  }

  predicate OneLineRow(row: seq<string>) {
    forall i :: 0 <= i < |row| ==> OneLine(row[i])
  }

  lemma {:induction false} DoubleQuotesOneLine(value: string)
    requires OneLine(value)
    ensures OneLine(DoubleQuotes(value))
  {
    if value != "" {
      DoubleQuotesOneLine(value[1..]);
    }
  }

  lemma {:induction false} EncodedOneLine(row: seq<string>)
    requires row != [] && OneLineRow(row)
    ensures OneLine(EncodeRow(row)) && EncodeRow(row) != ""
  {
    DoubleQuotesOneLine(row[0]);
    if |row| > 1 {
      EncodedOneLine(row[1..]);
    }
  }
}
