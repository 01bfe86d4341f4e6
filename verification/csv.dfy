/**
 * The CSV format of the planner's export and import (app.js and api/index.ts): a field is
 * quoted, with its quotes doubled, exactly when it holds a quote, a comma, CR or LF
 * (section 2, items 6 and 7 of RFC 4180); fields are joined by commas and lines by CRLF.
 * The importer's parser is a character-by-character state machine.
 */
module Csv {

  /** The characters that force a field into quotes. */
  predicate IsSpecial(c: char) {
    c == '"' || c == ',' || c == '\n' || c == '\r'
  }

  /** The field holds a special character. */
  predicate NeedsQuoting(s: string) {
    s != [] && (IsSpecial(s[0]) || NeedsQuoting(s[1..]))
  }

  /** `s.replace(/"/g, '""')`. */
  function DoubleQuotes(s: string): (r: string)
    ensures |r| >= |s|
  {
    if s == [] then []
    else (if s[0] == '"' then "\"\"" else [s[0]]) + DoubleQuotes(s[1..])
  }

  /** `csvEscape`: the field as it is written into a line. */
  function Escape(s: string): (r: string)
    ensures !NeedsQuoting(s) ==> r == s
    ensures NeedsQuoting(s) ==> |r| >= |s| + 2 && r[0] == '"' && r[|r| - 1] == '"'
  {
    if NeedsQuoting(s) then "\"" + DoubleQuotes(s) + "\"" else s
  }

  /** `parts.join(sep)`. */
  function Join(parts: seq<string>, sep: string): string {
    if parts == [] then []
    else if |parts| == 1 then parts[0]
    else parts[0] + sep + Join(parts[1..], sep)
  }

  /** One line of the export: the escaped fields joined by commas. */
  function EncodeLine(fields: seq<string>): string {
    if fields == [] then []
    else if |fields| == 1 then Escape(fields[0])
    else Escape(fields[0]) + "," + EncodeLine(fields[1..])
  }

  /** A whole export: the encoded lines joined by CRLF. */
  function EncodeRows(rows: seq<seq<string>>): string {
    if rows == [] then []
    else if |rows| == 1 then EncodeLine(rows[0])
    else EncodeLine(rows[0]) + "\r\n" + EncodeRows(rows[1..])
  }

  /** `fields.map(csvEscape)`. */
  function EscapeEach(fields: seq<string>): (r: seq<string>)
    ensures |r| == |fields|
  {
    if fields == [] then [] else [Escape(fields[0])] + EscapeEach(fields[1..])
  }

  lemma {:induction false} EscapeEachIndex(fields: seq<string>)
    ensures forall k :: 0 <= k < |fields| ==> EscapeEach(fields)[k] == Escape(fields[k])
  {
    if fields != [] {
      EscapeEachIndex(fields[1..]);
      assert forall k :: 0 < k < |fields| ==> fields[1..][k - 1] == fields[k];
    }
  }

  /** Escaping the fields and joining them with commas is the encoding of the line. */
  lemma {:induction false} JoinEscaped(fields: seq<string>)
    ensures Join(EscapeEach(fields), ",") == EncodeLine(fields)
  {
    if |fields| > 1 {
      JoinEscaped(fields[1..]);
      assert EscapeEach(fields)[1..] == EscapeEach(fields[1..]);
    }
  }

  /** Fields without special characters, joined by commas, are the encoding of the line. */
  lemma JoinPlain(fields: seq<string>)
    requires forall k, i :: 0 <= k < |fields| && 0 <= i < |fields[k]| ==> !IsSpecial(fields[k][i])
    ensures Join(fields, ",") == EncodeLine(fields)
  {
    JoinEscaped(fields);
    EscapeEachIndex(fields);
    forall k | 0 <= k < |fields|
      ensures Escape(fields[k]) == fields[k]
    {
      PlainField(fields[k]);
    }
    assert EscapeEach(fields) == fields;
  }

  /** `rows.map(r => r.map(csvEscape).join(','))`: the encoded lines, one per row. */
  function EncodeEach(rows: seq<seq<string>>): (lines: seq<string>)
    ensures |lines| == |rows|
  {
    if rows == [] then [] else [EncodeLine(rows[0])] + EncodeEach(rows[1..])
  }

  lemma {:induction false} EncodeEachAppend(a: seq<seq<string>>, b: seq<seq<string>>)
    ensures EncodeEach(a + b) == EncodeEach(a) + EncodeEach(b)
  {
    if a == [] {
      assert a + b == b;
    } else {
      assert (a + b)[1..] == a[1..] + b;
      EncodeEachAppend(a[1..], b);
    }
  }

  /** Joining the encoded lines with CRLF is the encoding of the rows. */
  lemma {:induction false} JoinEncoded(rows: seq<seq<string>>)
    ensures Join(EncodeEach(rows), "\r\n") == EncodeRows(rows)
  {
    if |rows| > 1 {
      JoinEncoded(rows[1..]);
      assert EncodeEach(rows)[1..] == EncodeEach(rows[1..]);
    }
  }

  /** A field without special characters is written as it is. */
  lemma {:induction false} PlainField(s: string)
    requires forall k :: 0 <= k < |s| ==> !IsSpecial(s[k])
    ensures !NeedsQuoting(s) && Escape(s) == s
    decreases |s|
  {
    if s != [] {
      assert !IsSpecial(s[0]);
      PlainField(s[1..]);
    }
  }

  /** The byte-order mark the parser drops from the front of its input. */
  const Bom: char := '\U{FEFF}'

  /** The state of `parseCSV` between two characters. */
  datatype Scan = Scan(field: string, row: seq<string>, rows: seq<seq<string>>, inQuotes: bool)

  const Start: Scan := Scan([], [], [], false)

  /** A line break outside quotes: close the field and the row; keep the row unless it is one empty field. */
  function EndLine(s: Scan): (t: Scan)
    ensures t.field == [] && t.row == [] && !t.inQuotes
    ensures t.rows == s.rows || t.rows == s.rows + [s.row + [s.field]]
    ensures t.rows == s.rows <==> s.row == [] && s.field == []
  {
    var row := s.row + [s.field];
    Scan([], [], if |row| > 1 || (|row| == 1 && row[0] != "") then s.rows + [row] else s.rows, false)
  }

  /** The end of the input: the last row is kept when it holds anything. */
  function Finish(s: Scan): (rows: seq<seq<string>>)
    ensures rows == s.rows || rows == s.rows + [s.row + [s.field]]
    ensures rows == s.rows <==> s.row == [] && s.field == []
  {
    if |s.field| > 0 || |s.row| > 0 then s.rows + [s.row + [s.field]] else s.rows
  }

  /** The parser's effect on `text` from its `i`-th character on, in state `s`. */
  function Run(text: string, i: nat, s: Scan): seq<seq<string>>
    decreases |text| - i
  {
    if i >= |text| then Finish(s)
    else if text[i] == '"' then
      if s.inQuotes && i + 1 < |text| && text[i + 1] == '"' then Run(text, i + 2, s.(field := s.field + "\""))
      else Run(text, i + 1, s.(inQuotes := !s.inQuotes))
    else if !s.inQuotes && text[i] == ',' then Run(text, i + 1, Scan([], s.row + [s.field], s.rows, false))
    else if !s.inQuotes && (text[i] == '\n' || text[i] == '\r') then
      Run(text, if text[i] == '\r' && i + 1 < |text| && text[i + 1] == '\n' then i + 2 else i + 1, EndLine(s))
    else Run(text, i + 1, s.(field := s.field + [text[i]]))
  }

  /** What `parseCSV` returns for `text`. */
  function Parse(text: string): seq<seq<string>> {
    if text != [] && text[0] == Bom then Run(text[1..], 0, Start) else Run(text, 0, Start)
  }

  /** `parseCSV`, as the loop over a cursor it is. */
  method ParseCsv(text: string) returns (rows: seq<seq<string>>)
    ensures rows == Parse(text)
  {
    var t := text;
    if t != [] && t[0] == Bom {
      t := t[1..];
    }
    var i := 0;
    var field: string := [];
    var row: seq<string> := [];
    rows := [];
    var inQuotes := false;
    while i < |t|
      invariant 0 <= i <= |t|
      invariant Run(t, i, Scan(field, row, rows, inQuotes)) == Parse(text)
      decreases |t| - i
    {
      var ch := t[i];
      if ch == '"' {
        if inQuotes && i + 1 < |t| && t[i + 1] == '"' {
          field := field + "\"";
          i := i + 2;
          continue;
        }
        inQuotes := !inQuotes;
        i := i + 1;
        continue;
      }
      if !inQuotes && ch == ',' {
        row := row + [field];
        field := [];
        i := i + 1;
        continue;
      }
      if !inQuotes && (ch == '\n' || ch == '\r') {
        row := row + [field];
        field := [];
        if |row| > 1 || (|row| == 1 && row[0] != "") {
          rows := rows + [row];
        }
        row := [];
        if ch == '\r' && i + 1 < |t| && t[i + 1] == '\n' {
          i := i + 2;
        } else {
          i := i + 1;
        }
        continue;
      }
      field := field + [ch];
      i := i + 1;
    }
    if |field| > 0 || |row| > 0 {
      row := row + [field];
      rows := rows + [row];
    }
  }

  /** `piece` occurs in `text` at index `i`. */
  predicate At(text: string, i: nat, piece: string)
    decreases |piece|
  {
    piece == [] || (i < |text| && text[i] == piece[0] && At(text, i + 1, piece[1..]))
  }

  lemma {:induction false} AtIndex(text: string, i: nat, piece: string, k: nat)
    requires At(text, i, piece) && k < |piece|
    ensures i + k < |text| && text[i + k] == piece[k]
    decreases k
  {
    if k > 0 {
      AtIndex(text, i + 1, piece[1..], k - 1);
    }
  }

  lemma {:induction false} AtSplit(text: string, i: nat, a: string, b: string)
    requires At(text, i, a + b)
    ensures At(text, i, a) && At(text, i + |a|, b)
    decreases |a|
  {
    if a == [] {
      assert a + b == b;
    } else {
      assert (a + b)[0] == a[0] && (a + b)[1..] == a[1..] + b;
      AtSplit(text, i + 1, a[1..], b);
    }
  }

  lemma {:induction false} AtSuffix(text: string, i: nat)
    requires i <= |text|
    ensures At(text, i, text[i..])
    decreases |text| - i
  {
    if i < |text| {
      assert text[i..][1..] == text[i + 1..];
      AtSuffix(text, i + 1);
    }
  }

  /** Characters that are not special are copied into the field. */
  lemma {:induction false} PlainChars(text: string, i: nat, f: string, s: Scan)
    requires At(text, i, f)
    requires !s.inQuotes && !NeedsQuoting(f)
    ensures Run(text, i, s) == Run(text, i + |f|, s.(field := s.field + f))
    decreases |f|
  {
    if f == [] {
      assert s.field + f == s.field;
    } else {
      PlainChars(text, i + 1, f[1..], s.(field := s.field + [f[0]]));
      assert s.field + [f[0]] + f[1..] == s.field + f;
    }
  }

  /** Inside quotes, a doubled quote stands for one quote and the closing quote ends the quoting. */
  lemma {:induction false} QuotedChars(text: string, i: nat, f: string, s: Scan)
    requires At(text, i, DoubleQuotes(f) + "\"")
    requires i + |DoubleQuotes(f)| + 1 >= |text| || text[i + |DoubleQuotes(f)| + 1] != '"'
    requires s.inQuotes
    ensures Run(text, i, s) == Run(text, i + |DoubleQuotes(f)| + 1, s.(field := s.field + f, inQuotes := false))
    decreases |f|
  {
    if f == [] {
      AtIndex(text, i, DoubleQuotes(f) + "\"", 0);
      assert s.field + f == s.field;
    } else {
      var head := if f[0] == '"' then "\"\"" else [f[0]];
      var tail := DoubleQuotes(f[1..]) + "\"";
      assert DoubleQuotes(f) + "\"" == head + tail;
      AtSplit(text, i, head, tail);
      AtIndex(text, i, head, 0);
      if f[0] == '"' {
        AtIndex(text, i, head, 1);
        QuotedChars(text, i + 2, f[1..], s.(field := s.field + "\""));
      } else {
        QuotedChars(text, i + 1, f[1..], s.(field := s.field + [f[0]]));
      }
      assert s.field + [f[0]] + f[1..] == s.field + f;
    }
  }

  /** An escaped field, followed by a comma, CR or the end, parses back to the field. */
  lemma EscapedField(text: string, i: nat, f: string, s: Scan)
    requires At(text, i, Escape(f))
    requires i + |Escape(f)| >= |text| || text[i + |Escape(f)|] == ',' || text[i + |Escape(f)|] == '\r'
    requires !s.inQuotes && s.field == []
    ensures Run(text, i, s) == Run(text, i + |Escape(f)|, s.(field := f))
  {
    if NeedsQuoting(f) {
      QuotedField(text, i, f, s);
    } else {
      PlainChars(text, i, f, s);
      assert s.field + f == f;
    }
  }

  /** A field in quotes: the opening quote, the field with its quotes doubled, the closing quote. */
  lemma QuotedField(text: string, i: nat, f: string, s: Scan)
    requires At(text, i, "\"" + DoubleQuotes(f) + "\"")
    requires i + |DoubleQuotes(f)| + 2 >= |text| || text[i + |DoubleQuotes(f)| + 2] != '"'
    requires !s.inQuotes && s.field == []
    ensures Run(text, i, s) == Run(text, i + |DoubleQuotes(f)| + 2, s.(field := f))
  {
    var body := DoubleQuotes(f) + "\"";
    assert "\"" + DoubleQuotes(f) + "\"" == "\"" + body;
    AtSplit(text, i, "\"", body);
    AtIndex(text, i, "\"", 0);
    var inside := s.(inQuotes := true);
    assert Run(text, i, s) == Run(text, i + 1, inside);
    QuotedChars(text, i + 1, f, inside);
    assert inside.(field := inside.field + f, inQuotes := false) == s.(field := f);
  }

  /** An escaped field and the comma after it close the field into the row. */
  lemma FieldThenComma(text: string, i: nat, f: string, s: Scan)
    requires At(text, i, Escape(f) + ",")
    requires !s.inQuotes && s.field == []
    ensures Run(text, i, s) == Run(text, i + |Escape(f)| + 1, Scan([], s.row + [f], s.rows, false))
  {
    AtSplit(text, i, Escape(f), ",");
    AtIndex(text, i + |Escape(f)|, ",", 0);
    EscapedField(text, i, f, s);
  }

  /** The state after the fields of a line: all but the last are in the row, the last is the open field. */
  function Opened(s: Scan, fields: seq<string>): Scan
    requires fields != []
  {
    s.(field := fields[|fields| - 1], row := s.row + fields[..|fields| - 1])
  }

  /**
   * A line of escaped fields, followed by CR or the end, fills the row with all fields but
   * the last, which stays the open field.
   */
  lemma {:induction false} EncodedFields(text: string, i: nat, end: nat, fields: seq<string>, s: Scan)
    requires fields != []
    requires At(text, i, EncodeLine(fields)) && end == i + |EncodeLine(fields)|
    requires end >= |text| || text[end] == '\r'
    requires !s.inQuotes && s.field == []
    ensures Run(text, i, s) == Run(text, end, Opened(s, fields))
    decreases |fields|, 1
  {
    if |fields| == 1 {
      assert EncodeLine(fields) == Escape(fields[0]);
      EscapedField(text, i, fields[0], s);
      assert s.row + fields[..0] == s.row;
    } else {
      EncodedFieldsCons(text, i, end, fields, s);
    }
  }

  /** The case of `EncodedFields` with more than one field: the first field and its comma, then the rest. */
  lemma {:induction false} EncodedFieldsCons(text: string, i: nat, end: nat, fields: seq<string>, s: Scan)
    requires |fields| > 1
    requires At(text, i, EncodeLine(fields)) && end == i + |EncodeLine(fields)|
    requires end >= |text| || text[end] == '\r'
    requires !s.inQuotes && s.field == []
    ensures Run(text, i, s) == Run(text, end, Opened(s, fields))
    decreases |fields|, 0
  {
    var n := |fields|;
    var more := fields[1..];
    var j := i + |Escape(fields[0])| + 1;
    var s' := Scan([], s.row + [fields[0]], s.rows, false);
    assert Run(text, i, s) == Run(text, j, s') by {
      FieldsLayout(text, i, fields);
      FieldThenComma(text, i, fields[0], s);
    }
    assert Run(text, j, s') == Run(text, end, Opened(s', more)) by {
      FieldsLayout(text, i, fields);
      EncodedFields(text, j, end, more, s');
    }
    assert Opened(s', more) == Opened(s, fields) by {
      assert more[|more| - 1] == fields[n - 1];
      assert s'.row + more[..|more| - 1] == s.row + fields[..n - 1];
    }
  }

  /** Where the first field, its comma and the remaining fields sit in the text. */
  lemma FieldsLayout(text: string, i: nat, fields: seq<string>)
    requires |fields| > 1
    requires At(text, i, EncodeLine(fields))
    ensures At(text, i, Escape(fields[0]) + ",")
    ensures At(text, i + |Escape(fields[0])| + 1, EncodeLine(fields[1..]))
    ensures |EncodeLine(fields)| == |Escape(fields[0])| + 1 + |EncodeLine(fields[1..])|
  {
    var head := Escape(fields[0]) + ",";
    assert EncodeLine(fields) == head + EncodeLine(fields[1..]);
    AtSplit(text, i, head, EncodeLine(fields[1..]));
  }

  /** A row the encoding can carry: at least one field, and not a single empty field. */
  predicate Carried(row: seq<string>) {
    row != [] && row != [""]
  }

  /** The parser keeps the row that a carried line of fields leaves open. */
  lemma CloseRow(r: seq<string>, done: seq<seq<string>>)
    requires Carried(r)
    ensures Finish(Opened(Scan([], [], done, false), r)) == done + [r]
    ensures EndLine(Opened(Scan([], [], done, false), r)) == Scan([], [], done + [r], false)
  {
    assert [] + r[..|r| - 1] + [r[|r| - 1]] == r;
    assert |r| == 1 ==> r[0] != "";
  }

  /** Encoded rows joined by CRLF, up to the end of the text, parse back, appended to the rows read so far. */
  lemma {:induction false} EncodedRowsFrom(text: string, i: nat, rows: seq<seq<string>>, done: seq<seq<string>>)
    requires At(text, i, EncodeRows(rows)) && i + |EncodeRows(rows)| == |text|
    requires forall k :: 0 <= k < |rows| ==> Carried(rows[k])
    ensures Run(text, i, Scan([], [], done, false)) == done + rows
    decreases |rows|, 1
  {
    if rows == [] {
      assert done + rows == done;
    } else if |rows| == 1 {
      assert EncodeRows(rows) == EncodeLine(rows[0]);
      LastRow(text, i, rows[0], done);
      assert done + [rows[0]] == done + rows;
    } else {
      EncodedRowsCons(text, i, rows, done);
    }
  }

  /** The case of `EncodedRowsFrom` with one row: its line runs to the end of the text. */
  lemma LastRow(text: string, i: nat, row: seq<string>, done: seq<seq<string>>)
    requires At(text, i, EncodeLine(row)) && i + |EncodeLine(row)| == |text|
    requires Carried(row)
    ensures Run(text, i, Scan([], [], done, false)) == done + [row]
  {
    var s := Scan([], [], done, false);
    EncodedFields(text, i, |text|, row, s);
    CloseRow(row, done);
  }

  /** The case of `EncodedRowsFrom` with more than one row: the first line and its CRLF, then the rest. */
  lemma {:induction false} EncodedRowsCons(text: string, i: nat, rows: seq<seq<string>>, done: seq<seq<string>>)
    requires At(text, i, EncodeRows(rows)) && i + |EncodeRows(rows)| == |text|
    requires |rows| > 1
    requires forall k :: 0 <= k < |rows| ==> Carried(rows[k])
    ensures Run(text, i, Scan([], [], done, false)) == done + rows
    decreases |rows|, 0
  {
    var next := i + |EncodeLine(rows[0])| + 2;
    var done' := done + [rows[0]];
    FirstLine(text, i, rows, done);
    CarriedTail(rows);
    EncodedRowsFrom(text, next, rows[1..], done');
    assert done' + rows[1..] == done + rows;
  }

  lemma CarriedTail(rows: seq<seq<string>>)
    requires rows != [] && forall k :: 0 <= k < |rows| ==> Carried(rows[k])
    ensures forall k :: 0 <= k < |rows[1..]| ==> Carried(rows[1..][k])
  {
    forall k | 0 <= k < |rows[1..]| ensures Carried(rows[1..][k]) {
      assert rows[1..][k] == rows[k + 1];
    }
  }

  /** The first line of several and its CRLF add the first row and leave the parser at the next line. */
  lemma FirstLine(text: string, i: nat, rows: seq<seq<string>>, done: seq<seq<string>>)
    requires At(text, i, EncodeRows(rows)) && i + |EncodeRows(rows)| == |text|
    requires |rows| > 1 && Carried(rows[0])
    ensures At(text, i + |EncodeLine(rows[0])| + 2, EncodeRows(rows[1..]))
    ensures i + |EncodeLine(rows[0])| + 2 + |EncodeRows(rows[1..])| == |text|
    ensures Run(text, i, Scan([], [], done, false))
         == Run(text, i + |EncodeLine(rows[0])| + 2, Scan([], [], done + [rows[0]], false))
  {
    var s := Scan([], [], done, false);
    var r := rows[0];
    var end := i + |EncodeLine(r)|;
    assert At(text, end + 2, EncodeRows(rows[1..])) && end + 2 + |EncodeRows(rows[1..])| == |text| by {
      RowsLayout(text, i, rows);
    }
    assert Run(text, i, s) == Run(text, end, Opened(s, r)) by {
      RowsLayout(text, i, rows);
      EncodedFields(text, i, end, r, s);
    }
    assert Run(text, end, Opened(s, r)) == Run(text, end + 2, Scan([], [], done + [r], false)) by {
      RowsLayout(text, i, rows);
      LineBreak(text, end, r, done);
    }
  }

  /** Where the first line, its CRLF and the remaining lines sit in the text. */
  lemma RowsLayout(text: string, i: nat, rows: seq<seq<string>>)
    requires At(text, i, EncodeRows(rows)) && i + |EncodeRows(rows)| == |text|
    requires |rows| > 1
    ensures At(text, i, EncodeLine(rows[0]))
    ensures i + |EncodeLine(rows[0])| + 2 + |EncodeRows(rows[1..])| == |text|
    ensures text[i + |EncodeLine(rows[0])|] == '\r' && text[i + |EncodeLine(rows[0])| + 1] == '\n'
    ensures At(text, i + |EncodeLine(rows[0])| + 2, EncodeRows(rows[1..]))
  {
    var line := EncodeLine(rows[0]);
    var rest := EncodeRows(rows[1..]);
    assert EncodeRows(rows) == line + "\r\n" + rest;
    AtSplit(text, i, line + "\r\n", rest);
    AtSplit(text, i, line, "\r\n");
    AtIndex(text, i + |line|, "\r\n", 0);
    AtIndex(text, i + |line|, "\r\n", 1);
  }

  /** CRLF after the fields of a carried row closes the row. */
  lemma LineBreak(text: string, end: nat, r: seq<string>, done: seq<seq<string>>)
    requires Carried(r)
    requires end + 2 <= |text| && text[end] == '\r' && text[end + 1] == '\n'
    ensures Run(text, end, Opened(Scan([], [], done, false), r)) == Run(text, end + 2, Scan([], [], done + [r], false))
  {
    CloseRow(r, done);
  }

  /** An encoded line whose first field does not start with a byte-order mark does not start with one. */
  lemma FirstChar(r: seq<string>)
    requires Carried(r)
    requires r[0] != [] ==> r[0][0] != Bom
    ensures EncodeLine(r) != [] && EncodeLine(r)[0] != Bom
  {
    var line := EncodeLine(r);
    var e := Escape(r[0]);
    if |r| == 1 {
      assert line == e;
    }
    assert line[..|e|] == e;
    if NeedsQuoting(r[0]) {
      assert line[0] == '"';
    } else if r[0] != [] {
      assert line[0] == r[0][0];
    } else {
      assert line[0] == ',';
    }
  }

  /**
   * `parseCSV` inverts the export encoding: rows of escaped fields joined by CRLF parse back
   * to the same rows, provided no row is a single empty field (such a line is dropped) and
   * the text does not begin with a byte-order mark (which is stripped).
   */
  lemma EncodedRowsParse(rows: seq<seq<string>>)
    requires forall k :: 0 <= k < |rows| ==> Carried(rows[k])
    requires rows != [] && rows[0] != [] && rows[0][0] != [] ==> rows[0][0][0] != Bom
    ensures Parse(EncodeRows(rows)) == rows
  {
    var text := EncodeRows(rows);
    if rows != [] {
      FirstChar(rows[0]);
      assert text[0] == EncodeLine(rows[0])[0];
    }
    AtSuffix(text, 0);
    assert text[0..] == text;
    EncodedRowsFrom(text, 0, rows, []);
  }

  /** A single empty field encodes to an empty line, which the parser drops. */
  lemma EmptyRowDropped()
    ensures EncodeRows([[""]]) == ""
    ensures Parse(EncodeRows([[""]])) == []
  {
    assert !NeedsQuoting("");
  }
}
