/** A table file as its lines: the data rows are the non-blank lines behind the header, in order, each at its byte
    offset, with LF or CR LF as line ends (`scan_rows_csv` in `storage/storage.c`). */
module TableLines {
  import opened Text
  import opened TableFile

  /** A line that fits the readers' buffer. */
  datatype TextLine = TextLine(text: string, end: string)

  predicate Proper(l: TextLine) {
    && '\n' !in l.text && '\0' !in l.text && (l.text != "" ==> l.text[|l.text| - 1] != '\r')
    && (l.end == "\n" || l.end == "\r\n") && |l.text| + |l.end| <= 4095
  }

  function Bytes(l: TextLine): string { l.text + l.end }

  function FileOf(lines: seq<TextLine>): string {
    if lines == [] then "" else Bytes(lines[0]) + FileOf(lines[1..])
  }

  /** The non-blank lines with their offsets, the first line being at `at`. */
  function NonBlank(lines: seq<TextLine>, at: nat): seq<Row> {
    if lines == [] then [] else
    (if lines[0].text == "" then [] else [Row(at, lines[0].text)]) + NonBlank(lines[1..], at + |Bytes(lines[0])|)
  }

  lemma {:induction false} ReadToNewline(f: string, off: nat, nl: nat, room: nat)
    requires off <= nl < |f| && f[nl] == '\n' && nl + 1 - off <= room && forall i :: off <= i < nl ==> f[i] != '\n'
    ensures ReadEnd(f, off, room) == nl + 1
    decreases nl - off
  {
    if off < nl { ReadToNewline(f, off + 1, nl, room - 1); }
  }

  lemma {:induction false} StripEnd(text: string, end: string)
    requires (text == "" || !IsLineEnd(text[|text| - 1])) && forall i :: 0 <= i < |end| ==> IsLineEnd(end[i])
    ensures StripLineEndings(text + end) == text
    decreases |end|
  {
    if end == "" {
      assert text + end == text;
    } else {
      var n := |end| - 1;
      assert (text + end)[..|text| + n] == text + end[..n];
      StripEnd(text, end[..n]);
    }
  }

  lemma VisibleLine(l: TextLine)
    requires Proper(l)
    ensures Visible(Bytes(l)) == l.text
  {
    hide StripLineEndings;
    assert '\0' !in Bytes(l);
    CStringWhole(Bytes(l));
    assert l.text != "" ==> l.text[|l.text| - 1] in l.text;
    StripEnd(l.text, l.end);
  }

  /** A reader at the start of a line reads that line. */
  lemma LineAt(f: string, off: nat, l: TextLine, rest: string)
    requires Proper(l) && off <= |f| && f[off..] == Bytes(l) + rest
    ensures var next := off + |Bytes(l)|;
            next <= |f| && f[next..] == rest && LineEnd(f, off) == next && LineText(f, off) == l.text
  {
    hide ReadEnd, Visible;
    var t, n := f[off..], |Bytes(l)|;
    var next := off + n;
    assert |t| == n + |rest|;
    assert t[..n] == Bytes(l) && t[n..] == rest;
    assert f[off..next] == t[..n] && f[next..] == t[n..];
    assert forall i :: 0 <= i < n ==> f[off + i] == Bytes(l)[i];
    LineBytes(l);
    assert f[next - 1] == Bytes(l)[n - 1];
    forall i | off <= i < next - 1 ensures f[i] != '\n' { assert f[i] == Bytes(l)[i - off]; }
    ReadToNewline(f, off, next - 1, MAX_LINE);
    VisibleLine(l);
  }

  lemma LineBytes(l: TextLine)
    requires Proper(l)
    ensures var b := Bytes(l); 0 < |b| <= 4095 && b[|b| - 1] == '\n' && forall i :: 0 <= i < |b| - 1 ==> b[i] != '\n'
  {
    assert forall i :: 0 <= i < |l.text| ==> l.text[i] in l.text;
  }

  lemma {:induction false} RowsOfLines(f: string, off: nat, lines: seq<TextLine>)
    requires off <= |f| && f[off..] == FileOf(lines) && forall l <- lines :: Proper(l)
    ensures RowsFrom(f, off) == NonBlank(lines, off)
    decreases |lines|
  {
    hide ReadEnd, LineText, Bytes, Proper;
    if lines == [] {
      assert |f[off..]| == |f| - off;
    } else {
      assert lines[0] in lines;
      LineAt(f, off, lines[0], FileOf(lines[1..]));
      SomeBytes(lines[0]);
      RowsOfLines(f, off + |Bytes(lines[0])|, lines[1..]);
      var rest := NonBlank(lines[1..], off + |Bytes(lines[0])|);
      assert [] + rest == rest;
    }
  }

  lemma SomeBytes(l: TextLine)
    requires Proper(l)
    ensures Bytes(l) != ""
  {
  }

  /** The data rows of a file. */
  lemma DataRowsOfLines(header: TextLine, lines: seq<TextLine>)
    requires Proper(header) && forall l <- lines :: Proper(l)
    ensures DataRows(FileOf([header] + lines)) == NonBlank(lines, |Bytes(header)|)
  {
    hide ReadEnd, LineText, Bytes, Proper, RowsFrom;
    var f := FileOf([header] + lines);
    assert ([header] + lines)[1..] == lines && f[0..] == f;
    LineAt(f, 0, header, FileOf(lines));
    RowsOfLines(f, |Bytes(header)|, lines);
  }
}
