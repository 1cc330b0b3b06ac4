/**
  A table's CSV file as a sequence of bytes: how `fgets` cuts it into lines, which
  data rows it holds and where they start, and what appending a row does to it
  (src/storage/storage.c).
*/
module CsvFile {
  import opened Wrappers
  import opened Text
  import opened CsvCodec

  /** `fgets(line, 4096, file)` reads at most this many bytes. */
  const LINE_MAX := 4095

  const EMPTY_TABLE := "table data file is empty"

  /** A data row: the byte offset of its line and its parsed fields. */
  datatype Row = Row(offset: nat, fields: seq<string>)

  /** The rows met before the end of the file or before the first line that does not parse. */
  datatype Scan = Scan(rows: seq<Row>, error: Option<string>)

  /** The end of what `fgets` reads at `pos`: behind a newline, at the end of the file, or when the buffer is full. */
  function ChunkEnd(bytes: string, pos: nat, room: nat): (end: nat)
    requires pos <= |bytes|
    ensures pos <= end <= |bytes| && end <= pos + room
    ensures pos < |bytes| && room > 0 ==> pos < end
    ensures forall i :: pos <= i < end - 1 ==> bytes[i] != '\n'
    ensures end < |bytes| && end < pos + room ==> pos < end && bytes[end - 1] == '\n'
    decreases room
  {
    if pos == |bytes| || room == 0 then pos
    else if bytes[pos] == '\n' then pos + 1
    else ChunkEnd(bytes, pos + 1, room - 1)
  }

  /** The C string in the buffer ends at the first NUL. */
  function UpToNul(s: string): string {
    if s == [] || s[0] == NUL then [] else [s[0]] + UpToNul(s[1..])
  }

  function LineEndAt(bytes: string, pos: nat): (end: nat)
    requires pos < |bytes|
    ensures pos < end <= |bytes| && end <= pos + LINE_MAX
  {
    ChunkEnd(bytes, pos, LINE_MAX)
  }

  /** The text of the line that `fgets` reads at `pos`, without its line end. */
  function LineAt(bytes: string, pos: nat): string
    requires pos < |bytes|
  {
    Strip(UpToNul(bytes[pos..LineEndAt(bytes, pos)]))
  }

  function ScanFrom(bytes: string, pos: nat): Scan
    requires pos <= |bytes|
    decreases |bytes| - pos
  {
    if pos == |bytes| then Scan([], None)
    else
      var text := LineAt(bytes, pos);
      var next := LineEndAt(bytes, pos);
      if text == "" then ScanFrom(bytes, next)
      else
        match ParseCsv(text)
        case Err(message) => Scan([], Some(message))
        case Ok(fields) =>
          var rest := ScanFrom(bytes, next);
          Scan([Row(pos, fields)] + rest.rows, rest.error)
  }

  /** `scan_rows_csv`: the first line is the header, blank lines are skipped. */
  function ScanFile(bytes: string): Scan {
    if bytes == "" then Scan([], Some(EMPTY_TABLE)) else ScanFrom(bytes, LineEndAt(bytes, 0))
  }

  lemma NothingToScan()
    ensures ScanFile("") == Scan([], Some("table data file is empty"))
  {
  }

  /** `read_row_at_offset_csv`. */
  function ReadRowAt(bytes: string, offset: int): Result<seq<string>> {
    if offset < 0 then Err("failed to seek row offset")
    else if offset >= |bytes| then Err("failed to read row at offset")
    else if LineAt(bytes, offset) == "" then Err("row at offset is empty")
    else ParseCsv(LineAt(bytes, offset))
  }

  /** `fgets` followed by `strip_line_endings`: the text of the line at `pos` and where the next one starts. */
  method ReadLine(bytes: string, pos: nat) returns (text: string, next: nat)
    requires pos < |bytes|
    ensures text == LineAt(bytes, pos) && next == LineEndAt(bytes, pos)
  {
    next := LineEndAt(bytes, pos);
    text := StripLineEndings(UpToNul(bytes[pos..next]));
  }

  method ReadRowAtOffset(bytes: string, offset: int) returns (r: Result<seq<string>>)
    ensures r == ReadRowAt(bytes, offset)
  {
    if offset < 0 {
      return Err("failed to seek row offset");
    }
    if offset >= |bytes| {
      return Err("failed to read row at offset");
    }
    var text, _ := ReadLine(bytes, offset);
    if text == "" {
      return Err("row at offset is empty");
    }
    r := CsvParseLine(text);
  }

  // ----- Appending -----------------------------------------------------------

  function Separator(bytes: string): string {
    if bytes != "" && bytes[|bytes| - 1] != '\n' then "\n" else ""
  }

  /** Where `append_row_csv` puts the next row. */
  function AppendOffset(bytes: string): nat {
    |bytes + Separator(bytes)|
  }

  /** The file after `append_row_csv`: a newline first when the last line has none, none afterwards. */
  function Appended(bytes: string, row: seq<string>): string {
    bytes + Separator(bytes) + EncodeRow(row)
  }

  /** The new row starts a line of its own, and nothing is put in front of it that is not needed for that. */
  lemma AppendStartsLine(bytes: string, row: seq<string>)
    ensures var bytes', offset := Appended(bytes, row), AppendOffset(bytes);
      && bytes <= bytes' && |bytes| <= offset <= |bytes'| && bytes'[offset..] == EncodeRow(row)
      && (offset > 0 ==> bytes'[offset - 1] == '\n')
      && (bytes == "" || bytes[|bytes| - 1] == '\n' ==> offset == |bytes|)
      && bytes'[|bytes|..offset] <= "\n"
  {
    hide EncodeRow;
  }

  /**
    `append_row_csv`, when `fields` calls of `csv_escape_field` succeed before one runs
    out of memory: a row with more fields is cut off where the failing one would start.
  */
  method AppendRow(bytes: string, row: seq<string>, fields: nat) returns (ok: bool, bytes': string, offset: nat)
    ensures ok == (|row| <= fields) && offset == AppendOffset(bytes)
    ensures bytes' == Appended(bytes, if ok then row else row[..fields])
  {
    hide EncodeRow;
    bytes' := bytes;
    if |bytes| > 0 && bytes[|bytes| - 1] != '\n' {
      bytes' := bytes' + "\n";
    }
    offset := |bytes'|;
    assert bytes' == bytes + Separator(bytes);
    var written;
    ok, written := WriteFields(row, fields);
    bytes' := bytes' + written;
  }

  /** The loop of `append_row_csv` over the fields. */
  method WriteFields(row: seq<string>, fields: nat) returns (ok: bool, written: string)
    ensures ok == (|row| <= fields) && written == EncodeRow(if ok then row else row[..fields])
  {
    hide EncodeRow, EscapeField;
    written := "";
    var index := 0;
    EncodeNothing();
    while index < |row|
      invariant index <= |row| && index <= fields && written == EncodeRow(row[..index])
    {
      if index == fields {
        return false, written;
      }
      var escaped := CsvEscapeField(row[index]);
      assert row[..index + 1] == row[..index] + [row[index]];
      EncodeOneMore(row[..index], row[index]);
      if index > 0 {
        written := written + ",";
      }
      written := written + escaped;
      index := index + 1;
    }
    assert row[..index] == row;
    ok := true;
  }

  lemma EncodeNothing()
    ensures EncodeRow([]) == ""
  {
  }

  lemma {:induction false} EncodeOneMore(row: seq<string>, last: string)
    ensures EncodeRow(row + [last]) == EncodeRow(row) + (if row != [] then "," else "") + EscapeField(last)
    decreases |row|
  {
    hide EscapeField;
    if row == [] {
      assert row + [last] == [last];
    } else {
      var rest := row[1..];
      assert (row + [last])[1..] == rest + [last];
      EncodeOneMore(rest, last);
      if rest == [] {
        assert rest + [last] == [last];
      }
    }
  }

  // ----- Laws ----------------------------------------------------------------

  lemma {:induction false} StripUpToNul(s: string)
    ensures Strip(UpToNul(s + "\n")) == Strip(UpToNul(s))
  {
    if NUL in s {
      UpToNulPrefix(s, "\n");
    } else {
      UpToNulAll(s);
      UpToNulAll(s + "\n");
      StripIgnoresNewline(s);
    }
  }

  lemma {:induction false} UpToNulPrefix(s: string, more: string)
    requires NUL in s
    ensures UpToNul(s + more) == UpToNul(s)
  {
    if s[0] != NUL {
      assert (s + more)[1..] == s[1..] + more;
      UpToNulPrefix(s[1..], more);
    }
  }

  lemma {:induction false} UpToNulAll(s: string)
    requires NUL !in s
    ensures UpToNul(s) == s
  {
    if s != [] {
      UpToNulAll(s[1..]);
    }
  }

  lemma {:induction false} ChunkEndFirst(bytes: string, pos: nat, room: nat, end: nat)
    requires pos <= end <= |bytes| && end <= pos + room && (pos < end || pos == |bytes| || room == 0)
    requires forall i :: pos <= i < end - 1 ==> bytes[i] != '\n'
    requires end < |bytes| && end < pos + room ==> bytes[end - 1] == '\n'
    requires end > pos && bytes[end - 1] != '\n' ==> end == |bytes| || end == pos + room
    ensures ChunkEnd(bytes, pos, room) == end
    decreases room
  {
  }

  lemma UnfinishedLineAfterAppend(bytes: string, more: string, pos: nat)
    requires pos < |bytes| && LineEndAt(bytes, pos) == |bytes| < pos + LINE_MAX && bytes[|bytes| - 1] != '\n'
    ensures var bytes' := bytes + "\n" + more;
      LineAt(bytes', pos) == LineAt(bytes, pos) && LineEndAt(bytes', pos) == |bytes| + 1
  {
    var bytes', end := bytes + "\n" + more, |bytes|;
    assert forall i :: 0 <= i < |bytes| ==> bytes'[i] == bytes[i];
    assert bytes'[end] == '\n';
    ChunkEndFirst(bytes', pos, LINE_MAX, end + 1);
    assert bytes'[pos..end + 1] == bytes[pos..end] + "\n";
    StripUpToNul(bytes[pos..end]);
  }

  lemma FinishedLineAfterAppend(bytes: string, more: string, pos: nat)
    requires pos < |bytes|
    requires var end := LineEndAt(bytes, pos); end < |bytes| || end == pos + LINE_MAX || bytes[end - 1] == '\n'
    ensures LineAt(bytes + more, pos) == LineAt(bytes, pos) && LineEndAt(bytes + more, pos) == LineEndAt(bytes, pos)
  {
    var bytes', end := bytes + more, LineEndAt(bytes, pos);
    assert forall i :: 0 <= i < |bytes| ==> bytes'[i] == bytes[i];
    ChunkEndFirst(bytes', pos, LINE_MAX, end);
    assert bytes'[pos..end] == bytes[pos..end];
  }

  /** A line of the old file is read as before; only an unfinished last line may gain a newline. */
  lemma LineAfterAppend(bytes: string, more: string, pos: nat)
    requires pos < |bytes|
    ensures var bytes' := bytes + Separator(bytes) + more;
      && LineAt(bytes', pos) == LineAt(bytes, pos)
      && (LineEndAt(bytes', pos) == LineEndAt(bytes, pos)
          || (LineEndAt(bytes, pos) == |bytes| && LineEndAt(bytes', pos) == |bytes + Separator(bytes)|))
  {
    hide LineAt, ChunkEnd;
    var end := LineEndAt(bytes, pos);
    if end == |bytes| && end < pos + LINE_MAX && bytes[end - 1] != '\n' {
      UnfinishedLineAfterAppend(bytes, more, pos);
    } else {
      FinishedLineAfterAppend(bytes, Separator(bytes) + more, pos);
      assert bytes + (Separator(bytes) + more) == bytes + Separator(bytes) + more;
    }
  }

  /** What is scanned from `pos` on, with the rows from `offset` on behind it. */
  function Followed(scan: Scan, after: Scan): Scan {
    if scan.error.Some? then scan else Scan(scan.rows + after.rows, after.error)
  }

  lemma FollowedStep(row: Row, rest: Scan, after: Scan)
    ensures Followed(Scan([row] + rest.rows, rest.error), after) ==
      var f := Followed(rest, after); Scan([row] + f.rows, f.error)
  {
  }

  lemma {:induction false} ScanAfterAppend(bytes: string, more: string, pos: nat)
    requires pos <= |bytes|
    ensures var bytes', offset := bytes + Separator(bytes) + more, |bytes + Separator(bytes)|;
      ScanFrom(bytes', pos) == Followed(ScanFrom(bytes, pos), ScanFrom(bytes', offset))
    decreases |bytes| - pos
  {
    var bytes', offset := bytes + Separator(bytes) + more, |bytes + Separator(bytes)|;
    if pos == |bytes| {
      SkipSeparator(bytes, more);
    } else {
      var next := LineEndAt(bytes, pos);
      LineAfterAppend(bytes, more, pos);
      ScanAfterAppend(bytes, more, next);
      if next == |bytes| {
        SkipSeparator(bytes, more);
      }
      if ParseCsv(LineAt(bytes, pos)).Ok? {
        FollowedStep(Row(pos, ParseCsv(LineAt(bytes, pos)).value), ScanFrom(bytes, next), ScanFrom(bytes', offset));
      }
    }
  }

  /** The separator alone is a blank line. */
  lemma SkipSeparator(bytes: string, more: string)
    ensures var bytes', offset := bytes + Separator(bytes) + more, |bytes + Separator(bytes)|;
      ScanFrom(bytes', |bytes|) == ScanFrom(bytes', offset)
  {
    hide UpToNul, Strip, LineEndAt, ParseCsv;
    var bytes' := bytes + Separator(bytes) + more;
    if Separator(bytes) == "\n" {
      assert bytes'[|bytes|] == '\n';
      BlankLine(bytes', |bytes|);
    } else {
      assert bytes + "" == bytes;
    }
  }

  lemma BlankLine(bytes: string, pos: nat)
    requires pos < |bytes| && bytes[pos] == '\n'
    ensures LineEndAt(bytes, pos) == pos + 1 && LineAt(bytes, pos) == ""
  {
    hide UpToNul;
    assert bytes[pos..pos + 1] == "\n";
    UpToNulAll("\n");
    assert Strip("\n") == Strip("\n"[..0]);
  }

  lemma OneLineText(bytes: string, pos: nat)
    requires pos < |bytes| && OneLine(bytes[pos..])
    ensures LineEndAt(bytes, pos) == (if |bytes| <= pos + LINE_MAX then |bytes| else pos + LINE_MAX)
    ensures LineAt(bytes, pos) == bytes[pos..LineEndAt(bytes, pos)] != ""
  {
    var end := LineEndAt(bytes, pos);
    assert forall i :: pos <= i < |bytes| ==> bytes[i] == bytes[pos..][i - pos];
    ChunkEndFirst(bytes, pos, LINE_MAX, if |bytes| <= pos + LINE_MAX then |bytes| else pos + LINE_MAX);
    UpToNulAll(bytes[pos..end]);
  }

  /** Scanning the appended row by itself finds one row exactly when its text fits the line buffer. */
  lemma ScanLastRow(bytes: string, pos: nat, row: seq<string>)
    requires pos <= |bytes| && bytes[pos..] == EncodeRow(row)
    requires row != [] && OneLineRow(row)
    ensures ScanFrom(bytes, pos) == Scan([Row(pos, NormRow(row))], None) <==> |EncodeRow(row)| <= LINE_MAX
  {
    EncodedOneLine(row);
    OneLineText(bytes, pos);
    var next := LineEndAt(bytes, pos);
    if |EncodeRow(row)| <= LINE_MAX {
      assert bytes[pos..next] == EncodeRow(row);
      RowRoundTrip(row);
    } else {
      LongLastRow(bytes, pos, row);
    }
  }

  /** What a non-empty file scans to after an append: the old scan, then what is found from the offset on. */
  lemma AppendedScan(bytes: string, row: seq<string>)
    requires bytes != ""
    ensures var bytes', offset := Appended(bytes, row), AppendOffset(bytes);
      && offset <= |bytes'| && bytes'[offset..] == EncodeRow(row)
      && ScanFile(bytes') == Followed(ScanFile(bytes), ScanFrom(bytes', offset))
  {
    hide LineAt, LineEndAt, ParseCsv, EncodeRow;
    var more := EncodeRow(row);
    LineAfterAppend(bytes, more, 0);
    ScanAfterAppend(bytes, more, LineEndAt(bytes, 0));
    if LineEndAt(Appended(bytes, row), 0) != LineEndAt(bytes, 0) {
      SkipSeparator(bytes, more);
    }
  }

  /**
    Appending commutes with scanning. For any file that scans, with or without a
    final newline, the appended file scans to the old rows at their old offsets and
    one more row, the normal form of the appended one, at the offset the append
    returned - if and only if the encoded row fits the 4095 bytes of one `fgets`.
  */
  lemma AppendThenScan(bytes: string, row: seq<string>)
    requires ScanFile(bytes).error.None?
    requires row != [] && OneLineRow(row)
    ensures ScanFile(Appended(bytes, row)) ==
        Scan(ScanFile(bytes).rows + [Row(AppendOffset(bytes), NormRow(row))], None)
      <==> |EncodeRow(row)| <= LINE_MAX
  {
    hide EncodeRow, Appended, ScanFrom, LineEndAt, OneLineRow;
    var bytes', offset := Appended(bytes, row), AppendOffset(bytes);
    AppendedScan(bytes, row);
    ScanLastRow(bytes', offset, row);
    CancelRows(ScanFile(bytes).rows, ScanFrom(bytes', offset).rows, [Row(offset, NormRow(row))]);
  }

  /** Otherwise the file no longer scans, or the row counts as more than one. */
  lemma LongRowMiscounts(bytes: string, row: seq<string>)
    requires ScanFile(bytes).error.None?
    requires row != [] && OneLineRow(row) && |EncodeRow(row)| > LINE_MAX
    ensures var scan := ScanFile(Appended(bytes, row));
      scan.error.Some? || |scan.rows| > |ScanFile(bytes).rows| + 1
  {
    hide EncodeRow, Appended, ScanFrom, LineEndAt, OneLineRow;
    AppendedScan(bytes, row);
    LongLastRow(Appended(bytes, row), AppendOffset(bytes), row);
  }

  /** A file that does not scan does not scan again for being appended to. */
  lemma ErrorsStay(bytes: string, row: seq<string>)
    requires bytes != "" && ScanFile(bytes).error.Some?
    ensures ScanFile(Appended(bytes, row)).error.Some?
  {
    hide EncodeRow, Appended, ScanFrom, LineEndAt;
    AppendedScan(bytes, row);
  }

  lemma LongLastRow(bytes: string, pos: nat, row: seq<string>)
    requires pos <= |bytes| && bytes[pos..] == EncodeRow(row)
    requires row != [] && OneLineRow(row) && |EncodeRow(row)| > LINE_MAX
    ensures ScanFrom(bytes, pos).error.Some? || |ScanFrom(bytes, pos).rows| > 1
  {
    hide LineEndAt, LineAt, ParseCsv, EncodeRow, OneLineRow, ScanFrom;
    EncodedOneLine(row);
    OneLineText(bytes, pos);
    var next := LineEndAt(bytes, pos);
    assert bytes[next..] == bytes[pos..][next - pos..];
    OneLineText(bytes, next);
    TwoLinesTwoRows(bytes, pos);
  }

  /** Two lines of text in a row do not scan to a single row. */
  lemma TwoLinesTwoRows(bytes: string, pos: nat)
    requires pos < |bytes| && LineEndAt(bytes, pos) < |bytes|
    requires LineAt(bytes, pos) != "" && LineAt(bytes, LineEndAt(bytes, pos)) != ""
    ensures ScanFrom(bytes, pos).error.Some? || |ScanFrom(bytes, pos).rows| > 1
  {
    hide LineEndAt, LineAt, ParseCsv;
  }

  lemma CancelRows(a: seq<Row>, b: seq<Row>, c: seq<Row>)
    ensures a + b == a + c <==> b == c
  {
    if a + b == a + c {
      assert b == (a + b)[|a|..] && c == (a + c)[|a|..];
    }
  }

  /**
    An append that memory cuts off behind `k` fields: the file scans to the old rows,
    and only to those, if and only if `k` is 0 and so at most a newline was added.
  */
  lemma CutAppendScans(bytes: string, row: seq<string>, k: nat)
    requires ScanFile(bytes).error.None?
    requires OneLineRow(row) && k <= |row|
    ensures ScanFile(Appended(bytes, row[..k])) == ScanFile(bytes) <==> k == 0
    ensures k > 0 ==> ScanFile(Appended(bytes, row[..k])).error.None? ==>
      |ScanFile(Appended(bytes, row[..k])).rows| > |ScanFile(bytes).rows|
  {
    hide ScanFile, Appended, EncodeRow;
    var part := row[..k];
    if k == 0 {
      assert part == [];
      SeparatorAddsNoRow(bytes);
    } else if |EncodeRow(part)| <= LINE_MAX {
      AppendThenScan(bytes, part);
    } else {
      LongRowMiscounts(bytes, part);
    }
  }

  lemma SeparatorAddsNoRow(bytes: string)
    requires ScanFile(bytes).error.None?
    ensures ScanFile(Appended(bytes, [])) == ScanFile(bytes)
  {
    hide LineAt, LineEndAt, ParseCsv;
    AppendedScan(bytes, []);
  }

  /** Whatever is appended, the rows that were there are still there, at the same offsets. */
  lemma AppendKeepsRows(bytes: string, row: seq<string>)
    ensures ScanFile(bytes).rows <= ScanFile(Appended(bytes, row)).rows
  {
    hide LineAt, LineEndAt, ParseCsv, EncodeRow, Appended;
    if bytes != "" {
      AppendedScan(bytes, row);
    }
  }

  /** The offset of every scanned row leads back to exactly that row. */
  lemma {:induction false} OffsetsLeadToRows(bytes: string, pos: nat, i: nat)
    requires pos <= |bytes| && i < |ScanFrom(bytes, pos).rows|
    ensures var row := ScanFrom(bytes, pos).rows[i];
      pos <= row.offset < |bytes| && ReadRowAt(bytes, row.offset) == Ok(row.fields)
    decreases |bytes| - pos
  {
    hide LineEndAt, LineAt, ParseCsv;
    var next := LineEndAt(bytes, pos);
    if LineAt(bytes, pos) == "" {
      OffsetsLeadToRows(bytes, next, i);
    } else if i > 0 {
      OffsetsLeadToRows(bytes, next, i - 1);
    }
  }

  /** Offsets increase from row to row, so no two rows share one. */
  lemma {:induction false} OffsetsIncrease(bytes: string, pos: nat, i: nat, j: nat)
    requires pos <= |bytes| && i < j < |ScanFrom(bytes, pos).rows|
    ensures ScanFrom(bytes, pos).rows[i].offset < ScanFrom(bytes, pos).rows[j].offset
    decreases |bytes| - pos
  {
    hide LineEndAt, LineAt, ReadRowAt;
    var next := LineEndAt(bytes, pos);
    if LineAt(bytes, pos) == "" {
      OffsetsIncrease(bytes, next, i, j);
    } else if i > 0 {
      OffsetsIncrease(bytes, next, i - 1, j - 1);
    } else {
      OffsetsLeadToRows(bytes, next, j - 1);
    }
  }

  /** A file and a row too long for the line buffer, which does come back as something else. */
  const LONG_VALUE: string := seq(LINE_MAX + 1, _ => 'x')

  lemma LongRowIsCut()
    ensures var bytes, row := "name\n", [LONG_VALUE];
      && ScanFile(bytes) == Scan([], None) && OneLineRow(row) && |EncodeRow(row)| == 4096
      && ScanFile(Appended(bytes, row)) != Scan([Row(5, [LONG_VALUE])], None)
  {
    var bytes, row := "name\n", [LONG_VALUE];
    assert forall i :: 0 <= i < |LONG_VALUE| ==> !Special(LONG_VALUE[i]);
    assert EncodeRow(row) == LONG_VALUE;
    assert ScanFile(bytes) == ScanFrom(bytes, 5) by {
      ChunkEndFirst(bytes, 0, LINE_MAX, 5);
    }
    AppendThenScan(bytes, row);
    assert Norm(LONG_VALUE) == LONG_VALUE by {
      NormIsExact(LONG_VALUE);
    }
    assert NormRow(row) == row;
  }

  /** A value that must be quoted, and is cut off before its closing quote. */
  const LONG_COMMAS: string := seq(LINE_MAX, _ => ',')

  lemma {:induction false} NeverClosed(rest: string, s: ParseState)
    requires s.inQuotes && '"' !in rest
    ensures ParseRest(rest, s) == Err(UNTERMINATED)
    decreases |rest|
  {
    if rest != "" {
      NeverClosed(rest[1..], Buffered(s, rest[0]));
    }
  }

  lemma {:induction false} NothingDoubled(value: string)
    requires '"' !in value
    ensures DoubleQuotes(value) == value
  {
    if value != "" {
      NothingDoubled(value[1..]);
    }
  }

  lemma LongCommasEncoded()
    ensures EncodeRow([LONG_COMMAS]) == "\"" + LONG_COMMAS + "\"" && OneLineRow([LONG_COMMAS])
    ensures NeedsQuotes(LONG_COMMAS)
  {
    assert LONG_COMMAS[0] == ',';
    NothingDoubled(LONG_COMMAS);
  }

  /** Whatever file it is appended to, that value makes it fail to scan. */
  lemma LongCommasBreakScan(bytes: string)
    requires ScanFile(bytes).error.None?
    ensures ScanFile(Appended(bytes, [LONG_COMMAS])) == Scan(ScanFile(bytes).rows, Some(UNTERMINATED))
  {
    hide EncodeRow, Appended, LineEndAt, LineAt, OneLineRow, Norm, DoubleQuotes;
    var row := [LONG_COMMAS];
    var bytes', offset := Appended(bytes, row), AppendOffset(bytes);
    AppendedScan(bytes, row);
    LongCommasEncoded();
    EncodedOneLine(row);
    OneLineText(bytes', offset);
    var text := LineAt(bytes', offset);
    assert text == bytes'[offset..][..LINE_MAX];
    assert text[0] == '"' && text[1..] == LONG_COMMAS[..LINE_MAX - 1];
    NeverClosed(text[1..], FRESH.(inQuotes := true));
  }
}
