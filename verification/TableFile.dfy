/** A table's CSV file as a byte sequence: reading it in `fgets` pieces, the data rows it holds,
    reading a row at an offset and appending a row (`storage/storage.c`). */
module TableFile {
  import opened Basics
  import opened Text
  import Csv = CsvFormat

  /** `fgets` on a 4096-byte buffer reads at most this many bytes. */
  const MAX_LINE: nat := 4095

  /** Where a read of at most `room` bytes from `off` stops: after a newline, at the end of the
      file, or when the buffer is full. */
  function ReadEnd(f: string, off: nat, room: nat): (end: nat)
    requires off <= |f|
    ensures off <= end <= |f| && end <= off + room
    ensures off < |f| && room > 0 ==> off < end
    decreases room
  {
    if off == |f| || room == 0 then off
    else if f[off] == '\n' then off + 1
    else ReadEnd(f, off + 1, room - 1)
  }

  function LineEnd(f: string, off: nat): (end: nat)
    requires off <= |f|
    ensures off <= end <= |f| && (off < |f| ==> off < end)
  {
    ReadEnd(f, off, MAX_LINE)
  }

  /** The text a reader sees of a piece of the file. */
  function Visible(piece: string): string { StripLineEndings(CString(piece)) }

  function LineText(f: string, off: nat): string
    requires off <= |f|
  {
    Visible(f[off..LineEnd(f, off)])
  }

  datatype Row = Row(offset: nat, text: string)

  /** The non-blank lines from `off` on. */
  function RowsFrom(f: string, off: nat): seq<Row>
    requires off <= |f|
    decreases |f| - off
  {
    if off == |f| then [] else
    var rest := RowsFrom(f, LineEnd(f, off));
    if LineText(f, off) == "" then rest else [Row(off, LineText(f, off))] + rest
  }

  /** The data rows of a table: the first line is the header. */
  function DataRows(f: string): seq<Row> { RowsFrom(f, LineEnd(f, 0)) }

  // ----- appending ----------------------------------------------------------------------

  function Separator(f: string): string {
    if f != "" && f[|f| - 1] != '\n' then "\n" else ""
  }

  function AppendOffset(f: string): nat { |f| + |Separator(f)| }

  function Appended(f: string, row: string): string { f + Separator(f) + row }

  /** Text that stays one visible line: not empty and without line ends or NUL. */
  predicate OneLine(row: string) {
    row != "" && forall i :: 0 <= i < |row| ==> row[i] != '\n' && row[i] != '\r' && row[i] != '\0'
  }

  lemma {:induction false} ReadEndSplit(g: string, x: string, off: nat, room: nat)
    requires off < |g| && g[|g| - 1] == '\n'
    ensures ReadEnd(g + x, off, room) == ReadEnd(g, off, room)
    decreases room
  {
    if room > 0 && g[off] != '\n' { ReadEndSplit(g, x, off + 1, room - 1); }
  }

  /** Behind a newline the old rows stay as they are and the new text starts afresh. */
  lemma {:induction false} RowsSplit(g: string, x: string, off: nat)
    requires off <= |g| && g != "" && g[|g| - 1] == '\n'
    ensures RowsFrom(g + x, off) == RowsFrom(g, off) + RowsFrom(g + x, |g|)
    decreases |g| - off
  {
    hide ReadEnd, Visible;
    if off == |g| {
      assert RowsFrom(g, off) == [];
    } else {
      LineSplit(g, x, off);
      var end := LineEnd(g, off);
      RowsSplit(g, x, end);
      var rest, more := RowsFrom(g, end), RowsFrom(g + x, |g|);
      var row := Row(off, LineText(g, off));
      assert [row] + (rest + more) == [row] + rest + more;
    }
  }

  lemma LineSplit(g: string, x: string, off: nat)
    requires off < |g| && g[|g| - 1] == '\n'
    ensures LineEnd(g + x, off) == LineEnd(g, off) && LineText(g + x, off) == LineText(g, off)
  {
    hide ReadEnd, Visible;
    ReadEndSplit(g, x, off, MAX_LINE);
    var end := LineEnd(g, off);
    assert (g + x)[off..end] == g[off..end];
  }

  lemma {:induction false} ReadEndNewline(f: string, off: nat, room: nat)
    requires off <= |f|
    ensures var end := ReadEnd(f, off, room);
            var open := end == |f| && end < off + room && (end == 0 || end == off || f[end - 1] != '\n');
            ReadEnd(f + "\n", off, room) == if open then end + 1 else end
    decreases room
  {
    if off < |f| && room > 0 && f[off] != '\n' { ReadEndNewline(f, off + 1, room - 1); }
  }

  /** A newline at the end of a line is not visible. */
  lemma VisibleNewline(piece: string)
    ensures Visible(piece + "\n") == Visible(piece)
  {
    CStringAppend(piece, '\n');
    if '\0' !in piece {
      CStringWhole(piece);
      assert (piece + "\n")[..|piece|] == piece;
    }
  }

  lemma ReadEndAtNewline(g: string, off: nat, room: nat)
    requires off < |g| && g[off] == '\n' && room > 0
    ensures ReadEnd(g, off, room) == off + 1
  {
  }

  lemma BlankLine(f: string)
    ensures RowsFrom(f + "\n", |f|) == []
  {
    hide ReadEnd, Visible;
    var g := f + "\n";
    ReadEndAtNewline(g, |f|, MAX_LINE);
    LastByte(f);
    VisibleNothing();
    assert LineText(g, |f|) == "" && LineEnd(g, |f|) == |g|;
  }

  lemma LastByte(f: string)
    ensures (f + "\n")[|f|..|f| + 1] == "\n"
  {
  }

  lemma VisibleNothing()
    ensures Visible("\n") == ""
  {
    VisibleNewline("");
    assert "" + "\n" == "\n";
  }

  /** Terminating the last line does not change the rows. */
  lemma {:induction false} RowsNewline(f: string, off: nat)
    requires off <= |f| && f != "" && f[|f| - 1] != '\n'
    ensures RowsFrom(f + "\n", off) == RowsFrom(f, off)
    decreases |f| - off
  {
    hide ReadEnd, Visible;
    var g := f + "\n";
    BlankLine(f);
    if off < |f| {
      ReadEndNewline(f, off, MAX_LINE);
      var end := LineEnd(f, off);
      if LineEnd(g, off) == end {
        assert g[off..end] == f[off..end];
        RowsNewline(f, end);
      } else {
        assert g[off..end + 1] == f[off..end] + "\n";
        VisibleNewline(f[off..end]);
      }
    }
  }

  lemma DataRowsNewline(f: string)
    requires f != "" && f[|f| - 1] != '\n'
    ensures DataRows(f + "\n") == DataRows(f)
  {
    ReadEndNewline(f, 0, MAX_LINE);
    var end := LineEnd(f, 0);
    if LineEnd(f + "\n", 0) == end {
      RowsNewline(f, end);
    }
  }

  lemma {:induction false} ReadEndPlain(g: string, off: nat, room: nat)
    requires off <= |g| && forall i :: off <= i < |g| ==> g[i] != '\n'
    ensures ReadEnd(g, off, room) == if |g| - off <= room then |g| else off + room
    decreases room
  {
    if off < |g| && room > 0 { ReadEndPlain(g, off + 1, room - 1); }
  }

  lemma VisibleOneLine(row: string)
    requires OneLine(row)
    ensures Visible(row) == row
  {
    CStringWhole(row);
  }

  /** The first line read from a freshly written row. */
  lemma NewLineText(g: string, row: string)
    requires OneLine(row)
    ensures LineEnd(g + row, |g|) == |g| + if |row| <= MAX_LINE then |row| else MAX_LINE
    ensures LineText(g + row, |g|) == if |row| <= MAX_LINE then row else row[..MAX_LINE]
  {
    ReadEndPlain(g + row, |g|, MAX_LINE);
    var n := if |row| <= MAX_LINE then |row| else MAX_LINE;
    assert (g + row)[|g|..|g| + n] == row[..n];
    assert row[..|row|] == row;
    VisibleOneLine(row[..n]);
  }

  lemma NewRows(g: string, row: string)
    requires OneLine(row)
    ensures |row| <= MAX_LINE ==> RowsFrom(g + row, |g|) == [Row(|g|, row)]
    ensures |row| > MAX_LINE ==> RowsFrom(g + row, |g|) != [] && RowsFrom(g + row, |g|)[0].text != row
  {
    hide ReadEnd, LineText;
    NewLineText(g, row);
  }

  /** A row longer than the buffer is read back as several rows. */
  lemma LongRow(g: string, row: string)
    requires OneLine(row) && |row| > MAX_LINE
    ensures |RowsFrom(g + row, |g|)| >= 2
  {
    hide ReadEnd, LineText;
    NewLineText(g, row);
    var g', row' := g + row[..MAX_LINE], row[MAX_LINE..];
    assert g' + row' == g + row;
    NewRows(g', row');
  }

  lemma AppendedRows(f: string, row: string)
    requires f != "" && OneLine(row)
    ensures AppendOffset(f) <= |Appended(f, row)|
    ensures DataRows(Appended(f, row)) == DataRows(f) + RowsFrom(Appended(f, row), AppendOffset(f))
  {
    hide ReadEnd, RowsFrom, LineText;
    var g := f + Separator(f);
    if Separator(f) == "" { assert g == f; } else { DataRowsNewline(f); }
    ReadEndSplit(g, row, 0, MAX_LINE);
    RowsSplit(g, row, LineEnd(g, 0));
  }

  /** Appending a row adds exactly this row at the reported offset and keeps every earlier row
      and offset -- if and only if the row fits one `fgets` buffer.  A longer row comes back as
      several rows. */
  lemma AppendAddsRow(f: string, row: string)
    requires f != "" && OneLine(row)
    ensures DataRows(Appended(f, row)) == DataRows(f) + [Row(AppendOffset(f), row)] <==> |row| <= MAX_LINE
    ensures |row| > MAX_LINE ==> |DataRows(Appended(f, row))| >= |DataRows(f)| + 2
  {
    hide ReadEnd, RowsFrom, LineText;
    var g := f + Separator(f);
    AppendedRows(f, row);
    if |row| <= MAX_LINE { NewRows(g, row); } else { LongRow(g, row); }
  }

  // ----- reading --------------------------------------------------------------------------

  datatype ReadError = NothingThere | EmptyRow | BadCsv(error: Csv.CsvError)

  /** `read_row_at_offset_csv`. */
  function ReadRowAt(f: string, off: nat): Result<seq<string>, ReadError> {
    if off >= |f| then Err(NothingThere)
    else if LineText(f, off) == "" then Err(EmptyRow)
    else match Csv.ParseLine(LineText(f, off))
         case Ok(fields) => Ok(fields)
         case Err(e) => Err(BadCsv(e))
  }

  /** Every data row is found again at its offset. */
  lemma {:induction false} RowAtOffset(f: string, off: nat, i: nat)
    requires off <= |f| && i < |RowsFrom(f, off)|
    ensures var row := RowsFrom(f, off)[i];
            off <= row.offset < |f| && row.text != "" && LineText(f, row.offset) == row.text
    decreases |f| - off
  {
    if LineText(f, off) == "" {
      RowAtOffset(f, LineEnd(f, off), i);
    } else if i > 0 {
      RowAtOffset(f, LineEnd(f, off), i - 1);
    }
  }

  /** The fields of every data row, or the first parse error. */
  function ParseRows(rows: seq<Row>): Result<seq<seq<string>>, Csv.CsvError> {
    if rows == [] then Ok([]) else
    match Csv.ParseLine(rows[0].text)
    case Err(e) => Err(e)
    case Ok(fields) =>
      match ParseRows(rows[1..])
      case Err(e) => Err(e)
      case Ok(more) => Ok([fields] + more)
  }

  lemma SeparatorAdded(f: string)
    ensures f + Separator(f) == if f != "" && f[|f| - 1] != '\n' then f + ['\n'] else f
    ensures AppendOffset(f) == |f + Separator(f)|
  {
  }

  /** The bytes after writing the first `n` values of a row. */
  predicate Extended(before: string, values: seq<string>, n: nat, bytes: string)
    requires n <= |values|
  {
    bytes == before + Csv.EncodeRow(values[..n])
  }

  lemma NothingWritten(before: string, values: seq<string>)
    ensures Extended(before, values, 0, before)
  {
    assert values[..0] == [];
  }

  lemma FieldWritten(before: string, values: seq<string>, n: nat, bytes: string)
    requires n < |values| && Extended(before, values, n, bytes)
    ensures Extended(before, values, n + 1, (if n > 0 then bytes + [','] else bytes) + Csv.EscapeField(values[n]))
  {
    hide Csv.EncodeRow, Csv.EscapeField;
    Csv.EncodeSnoc(values[..n], values[n]);
    assert values[..n + 1] == values[..n] + [values[n]];
    var row, field := Csv.EncodeRow(values[..n]), Csv.EscapeField(values[n]);
    if n > 0 {
      assert before + (row + "," + field) == before + row + "," + field;
    } else {
      assert before + (row + "" + field) == before + row + field;
    }
  }

  lemma AllWritten(before: string, values: seq<string>, bytes: string)
    requires Extended(before, values, |values|, bytes)
    ensures bytes == before + Csv.EncodeRow(values)
  {
    assert values[..|values|] == values;
  }

  /** The file's bytes, changed in place by appending. */
  class File {
    var bytes: string

    constructor (bytes: string)
      ensures this.bytes == bytes
    {
      this.bytes := bytes;
    }

    /** Writes the escaped values behind the last line and reports where the row starts. */
    method AppendRow(values: seq<string>) returns (rowOffset: nat)
      modifies this
      ensures bytes == Appended(old(bytes), Csv.EncodeRow(values)) && rowOffset == AppendOffset(old(bytes))
    {
      hide Separator, Csv.EncodeRow;
      SeparatorAdded(bytes);
      if bytes != "" {
        var last := bytes[|bytes| - 1];
        if last != '\n' {
          bytes := bytes + ['\n'];
        }
      }
      rowOffset := |bytes|;
      WriteFields(values);
    }

    method WriteFields(values: seq<string>)
      modifies this
      ensures bytes == old(bytes) + Csv.EncodeRow(values)
    {
      hide Extended, Csv.EscapeField;
      NothingWritten(bytes, values);
      for index := 0 to |values|
        invariant Extended(old(bytes), values, index, bytes)
      {
        ghost var before := bytes;
        if index > 0 {
          bytes := bytes + [','];
        }
        var escaped := Csv.EscapeCsvField(values[index]);
        bytes := bytes + escaped;
        FieldWritten(old(bytes), values, index, before);
      }
      AllWritten(old(bytes), values, bytes);
    }

    method ReadRow(rowOffset: nat) returns (r: Result<seq<string>, ReadError>)
      ensures r == ReadRowAt(bytes, rowOffset)
    {
      if rowOffset >= |bytes| {
        return Err(NothingThere);
      }
      var line := LineText(bytes, rowOffset);
      if line == "" {
        return Err(EmptyRow);
      }
      var fields := Csv.ParseCsvLine(line);
      if fields.Err? {
        return Err(BadCsv(fields.error));
      }
      return Ok(fields.value);
    }
  }
}
