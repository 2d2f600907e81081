/** The hand-written CSV reader of `assets/csv.js`: a character scanner with two
    states (inside or outside double quotes) that splits text into rows of
    fields, followed by the conversion of rows into header-keyed records. */
module Csv {
  import opened JsText
  import opened Lists

  /** A record built from a data row: header name to cell text. */
  type Record = map<string, string>

  /** The scanner's variables: the field being read, the fields of the row
      being read, the finished rows, and whether a quote is open. */
  datatype Scanner = Scanner(field: string, row: seq<string>, rows: seq<seq<string>>, inQuotes: bool)

  const Start := Scanner("", [], [], false)

  /** One pass of the scanning loop at the front of `t`; it returns the new
      state and how many characters it consumed. */
  function Step(t: string, s: Scanner): (r: (Scanner, nat))
    requires t != []
    ensures 1 <= r.1 <= |t|
    ensures r.1 == 2 <==> s.inQuotes && |t| > 1 && t[0] == '"' && t[1] == '"'
    ensures r.0.inQuotes == (if t[0] == '"' && r.1 == 1 then !s.inQuotes else s.inQuotes)
    ensures r.0.rows == (if !s.inQuotes && t[0] == '\n' then s.rows + [s.row + [s.field]] else s.rows)
    ensures !s.inQuotes && t[0] == ',' ==> r.0 == s.(row := s.row + [s.field], field := "")
    ensures !s.inQuotes && !IsSpecial(t[0]) ==> r.0 == s.(field := s.field + [t[0]])
  {
    var c := t[0];
    if s.inQuotes then
      if c == '"' then
        if |t| > 1 && t[1] == '"' then (s.(field := s.field + ['"']), 2)
        else (s.(inQuotes := false), 1)
      else (s.(field := s.field + [c]), 1)
    else if c == '"' then (s.(inQuotes := true), 1)
    else if c == ',' then (s.(row := s.row + [s.field], field := ""), 1)
    else if c == '\r' then (s, 1)
    else if c == '\n' then (s.(rows := s.rows + [s.row + [s.field]], row := [], field := ""), 1)
    else (s.(field := s.field + [c]), 1)
  }

  /** The characters the scanner treats specially outside quotes. */
  predicate IsSpecial(c: char) {
    c == '"' || c == ',' || c == '\r' || c == '\n'
  }

  /** The rows the scanner produces from state `s` on the remaining text `t`,
      including the final flush of the last field and row. */
  function Run(t: string, s: Scanner): (rows: seq<seq<string>>)
    ensures |rows| > |s.rows| && rows[..|s.rows|] == s.rows
    decreases |t|
  {
    if t == [] then s.rows + [s.row + [s.field]]
    else
      var (s', n) := Step(t, s);
      var rows := Run(t[n..], s');
      assert rows[..|s.rows|] == rows[..|s'.rows|][..|s.rows|];
      rows
  }

  /** A pass of the loop that consumes one character. */
  lemma RunOne(c: char, tail: string, s: Scanner, next: Scanner)
    requires Step([c] + tail, s) == (next, 1)
    ensures Run([c] + tail, s) == Run(tail, next)
  {
    assert ([c] + tail)[1..] == tail;
  }

  /** A pass of the loop that consumes two characters (a doubled quote inside quotes). */
  lemma RunTwo(c: char, d: char, tail: string, s: Scanner, next: Scanner)
    requires Step([c, d] + tail, s) == (next, 2)
    ensures Run([c, d] + tail, s) == Run(tail, next)
  {
    assert ([c, d] + tail)[2..] == tail;
  }

  /** The raw rows of `text`, header row included. */
  function Tokenize(text: string): (rows: seq<seq<string>>)
    ensures |rows| >= 1
  {
    Run(text, Start)
  }

  /** The scanning loop of `parseCSV` with its final flush. */
  method ScanRows(text: string) returns (rows: seq<seq<string>>)
    ensures rows == Tokenize(text)
  {
    var i := 0;
    var field := "";
    var row: seq<string> := [];
    var inQuotes := false;
    rows := [];
    while i < |text|
      invariant 0 <= i <= |text|
      invariant Run(text[i..], Scanner(field, row, rows, inQuotes)) == Tokenize(text)
      decreases |text| - i
    {
      ghost var t := text[i..];
      ghost var s := Scanner(field, row, rows, inQuotes);
      assert t[0] == text[i];
      var c := text[i];
      if inQuotes {
        if c == '"' {
          if i + 1 < |text| && text[i + 1] == '"' {
            assert t[1] == text[i + 1] && t[2..] == text[i + 2..];
            field := field + ['"'];
            i := i + 2;
            continue;
          }
          assert !(|t| > 1 && t[1] == '"');
          inQuotes := false;
          i := i + 1;
          assert t[1..] == text[i..];
          continue;
        } else {
          field := field + [c];
          i := i + 1;
          assert t[1..] == text[i..];
          continue;
        }
      } else {
        if c == '"' {
          inQuotes := true;
          i := i + 1;
          assert t[1..] == text[i..];
          continue;
        }
        if c == ',' {
          row := row + [field];
          field := "";
          i := i + 1;
          assert t[1..] == text[i..];
          continue;
        }
        if c == '\r' {
          i := i + 1;
          assert t[1..] == text[i..];
          continue;
        }
        if c == '\n' {
          row := row + [field];
          rows := rows + [row];
          field := "";
          row := [];
          i := i + 1;
          assert t[1..] == text[i..];
          continue;
        }
        field := field + [c];
        i := i + 1;
        assert t[1..] == text[i..];
        continue;
      }
    }
    assert text[i..] == [];
    row := row + [field];
    rows := rows + [row];
  }

  // ----- How many rows: one per newline outside quotes, plus one -----

  /** The newlines the scanner meets while no quote is open, tracking only its
      quote state (a doubled quote inside quotes is skipped as one unit). */
  function UnquotedNewlines(t: string, inQuotes: bool): nat
    decreases |t|
  {
    if t == [] then 0
    else if inQuotes then
      if t[0] == '"' then
        if |t| > 1 && t[1] == '"' then UnquotedNewlines(t[2..], true)
        else UnquotedNewlines(t[1..], false)
      else UnquotedNewlines(t[1..], true)
    else if t[0] == '"' then UnquotedNewlines(t[1..], true)
    else (if t[0] == '\n' then 1 else 0) + UnquotedNewlines(t[1..], false)
  }

  lemma {:induction false} RunRowCount(t: string, s: Scanner)
    ensures |Run(t, s)| == |s.rows| + UnquotedNewlines(t, s.inQuotes) + 1
    decreases |t|
  {
    if t != [] {
      var (s', n) := Step(t, s);
      RunRowCount(t[n..], s');
    }
  }

  /** The raw row count is the number of newlines outside quotes plus one;
      in particular the empty text gives one (empty) raw row. */
  lemma TokenizeRowCount(text: string)
    ensures |Tokenize(text)| == UnquotedNewlines(text, false) + 1
  {
    RunRowCount(text, Start);
  }

  /** Without any quote character, every newline ends a row. */
  lemma {:induction false} UnquotedNewlinesWithoutQuotes(t: string)
    requires '"' !in t
    ensures UnquotedNewlines(t, false) == multiset(t)['\n']
  {
    if t != [] {
      assert t == [t[0]] + t[1..];
      UnquotedNewlinesWithoutQuotes(t[1..]);
    }
  }

  // ----- Carriage returns outside quotes are dropped -----

  function DropCarriageReturns(t: string): (r: string) {
    if t == [] then []
    else (if t[0] == '\r' then [] else [t[0]]) + DropCarriageReturns(t[1..])
  }

  lemma {:induction false} RunIgnoresCarriageReturns(t: string, s: Scanner)
    requires '"' !in t && !s.inQuotes
    ensures Run(t, s) == Run(DropCarriageReturns(t), s)
    decreases |t|
  {
    if t != [] {
      var (s', n) := Step(t, s);
      assert n == 1 && !s'.inQuotes;
      assert '"' !in t[1..] by { assert forall i :: 0 <= i < |t[1..]| ==> t[1..][i] == t[i + 1]; }
      RunIgnoresCarriageReturns(t[1..], s');
      var d := DropCarriageReturns(t[1..]);
      assert Run(t, s) == Run(t[1..], s');
      if t[0] == '\r' {
        assert s' == s;
        assert DropCarriageReturns(t) == [] + d;
        assert [] + d == d;
      } else {
        var u := [t[0]] + d;
        assert DropCarriageReturns(t) == u;
        assert u[0] == t[0] && u[1..] == d;
        assert Step(u, s) == (s', 1);
      }
    }
  }

  /** A file without quotes reads the same with CRLF as with LF line endings. */
  lemma TokenizeIgnoresCarriageReturns(text: string)
    requires '"' !in text
    ensures Tokenize(text) == Tokenize(DropCarriageReturns(text))
  {
    RunIgnoresCarriageReturns(text, Start);
  }

  // ----- No bare quote reaches a field -----

  /** `t` never has two quote characters in a row. */
  predicate NoDoubledQuote(t: string) {
    forall k :: 0 <= k < |t| - 1 ==> !(t[k] == '"' && t[k + 1] == '"')
  }

  predicate QuoteFreeFields(row: seq<string>) {
    forall j :: 0 <= j < |row| ==> '"' !in row[j]
  }

  predicate QuoteFreeRows(rows: seq<seq<string>>) {
    forall i :: 0 <= i < |rows| ==> QuoteFreeFields(rows[i])
  }

  predicate QuoteFreeScanner(s: Scanner) {
    '"' !in s.field && QuoteFreeFields(s.row) && QuoteFreeRows(s.rows)
  }

  lemma {:induction false} RunQuoteFree(t: string, s: Scanner)
    requires NoDoubledQuote(t) && QuoteFreeScanner(s)
    ensures QuoteFreeRows(Run(t, s))
    decreases |t|
  {
    if t == [] {
      assert QuoteFreeFields(s.row + [s.field]);
    } else {
      var (s', n) := Step(t, s);
      assert t[0] == '"' && |t| > 1 ==> t[1] != '"';
      assert QuoteFreeScanner(s') by {
        if s'.rows != s.rows {
          assert QuoteFreeFields(s.row + [s.field]);
          assert s'.rows == s.rows + [s.row + [s.field]];
        }
        if s'.row != s.row && s'.rows == s.rows {
          assert s'.row == s.row + [s.field];
        }
      }
      assert NoDoubledQuote(t[n..]) by {
        forall k | 0 <= k < |t[n..]| - 1 ensures !(t[n..][k] == '"' && t[n..][k + 1] == '"') {
          assert t[n..][k] == t[k + n] && t[n..][k + 1] == t[k + n + 1];
        }
      }
      RunQuoteFree(t[n..], s');
    }
  }

  /** Every quote character that reaches a field comes from a doubled quote
      inside quotes: text without `""` yields fields without `"`. */
  lemma TokenizeQuoteFree(text: string)
    requires NoDoubledQuote(text)
    ensures QuoteFreeRows(Tokenize(text))
  {
    RunQuoteFree(text, Start);
  }

  // ----- Where the quote characters of the fields come from -----

  /** The doubled quotes `""` the scanner consumes while a quote is open,
      tracking only its quote state. */
  function DoubledQuotes(t: string, inQuotes: bool): nat
    decreases |t|
  {
    if t == [] then 0
    else if inQuotes then
      if t[0] == '"' then
        if |t| > 1 && t[1] == '"' then 1 + DoubledQuotes(t[2..], true)
        else DoubledQuotes(t[1..], false)
      else DoubledQuotes(t[1..], true)
    else DoubledQuotes(t[1..], t[0] == '"')
  }

  /** The quote characters of one field. */
  function FieldQuotes(f: string): nat {
    multiset(f)['"']
  }

  /** The quote characters over the fields of a row. */
  function RowQuotes(row: seq<string>): nat {
    if row == [] then 0 else RowQuotes(row[..|row| - 1]) + FieldQuotes(row[|row| - 1])
  }

  /** The quote characters over the fields of some rows. */
  function RowsQuotes(rows: seq<seq<string>>): nat {
    if rows == [] then 0 else RowsQuotes(rows[..|rows| - 1]) + RowQuotes(rows[|rows| - 1])
  }

  /** The quote characters held by a scanner's field, row and finished rows. */
  function ScannerQuotes(s: Scanner): nat {
    FieldQuotes(s.field) + RowQuotes(s.row) + RowsQuotes(s.rows)
  }

  lemma FieldQuotesSnoc(f: string, c: char)
    ensures FieldQuotes(f + [c]) == FieldQuotes(f) + (if c == '"' then 1 else 0)
  {
    assert multiset(f + [c]) == multiset(f) + multiset{c};
  }

  lemma RowQuotesSnoc(row: seq<string>, f: string)
    ensures RowQuotes(row + [f]) == RowQuotes(row) + FieldQuotes(f)
  {
    assert (row + [f])[..|row|] == row;
  }

  lemma RowsQuotesSnoc(rows: seq<seq<string>>, r: seq<string>)
    ensures RowsQuotes(rows + [r]) == RowsQuotes(rows) + RowQuotes(r)
  {
    assert (rows + [r])[..|rows|] == rows;
  }

  /** One pass of the loop adds a quote to the fields exactly when it consumes
      a doubled quote inside quotes. */
  lemma StepQuotes(t: string, s: Scanner)
    requires t != []
    ensures ScannerQuotes(Step(t, s).0) + DoubledQuotes(t[Step(t, s).1..], Step(t, s).0.inQuotes)
         == ScannerQuotes(s) + DoubledQuotes(t, s.inQuotes)
  {
    var c := t[0];
    assert FieldQuotes("") == 0;
    if s.inQuotes {
      FieldQuotesSnoc(s.field, c);
    } else if c == ',' {
      RowQuotesSnoc(s.row, s.field);
    } else if c == '\n' {
      RowQuotesSnoc(s.row, s.field);
      RowsQuotesSnoc(s.rows, s.row + [s.field]);
      assert RowQuotes([]) == 0;
    } else if c != '"' && c != '\r' {
      FieldQuotesSnoc(s.field, c);
    }
  }

  /** Every quote character in the fields the scanner produces comes from a
      doubled quote read inside quotes: the count over the fields is the count
      already held by the scanner plus the doubled quotes it consumes. */
  lemma {:induction false} RunQuotes(t: string, s: Scanner)
    ensures RowsQuotes(Run(t, s)) == ScannerQuotes(s) + DoubledQuotes(t, s.inQuotes)
    decreases |t|
  {
    if t == [] {
      RowQuotesSnoc(s.row, s.field);
      RowsQuotesSnoc(s.rows, s.row + [s.field]);
    } else {
      var (s', n) := Step(t, s);
      RunQuotes(t[n..], s');
      StepQuotes(t, s);
    }
  }

  /** The fields of a whole file hold one quote character per `""` met inside
      quotes, and no other. */
  lemma TokenizeQuotes(text: string)
    ensures RowsQuotes(Tokenize(text)) == DoubledQuotes(text, false)
  {
    StartQuotes();
    RunQuotes(text, Start);
  }

  lemma StartQuotes()
    ensures ScannerQuotes(Start) == 0
  {
    assert FieldQuotes("") == 0;
  }

  /** Each doubled quote uses two quote characters of the text. */
  lemma {:induction false} DoubledQuotesBound(t: string, inQuotes: bool)
    ensures 2 * DoubledQuotes(t, inQuotes) <= multiset(t)['"']
    decreases |t|
  {
    if t != [] {
      assert t == [t[0]] + t[1..];
      if inQuotes && t[0] == '"' && |t| > 1 && t[1] == '"' {
        DoubledQuotesBound(t[2..], true);
        assert t[1..] == [t[1]] + t[2..];
      } else {
        DoubledQuotesBound(t[1..], if inQuotes then !(t[0] == '"') else t[0] == '"');
      }
    }
  }

  // ----- Quoting round trip (section 2 of RFC 4180) -----

  /** Doubles every quote character. */
  function Escape(f: string): string {
    if f == [] then [] else (if f[0] == '"' then "\"\"" else [f[0]]) + Escape(f[1..])
  }

  /** A field wrapped in quotes with its inner quotes doubled. */
  function Quote(f: string): string {
    "\"" + Escape(f) + "\""
  }

  lemma EscapeCons(f: string, rest: string)
    requires f != []
    ensures Escape(f) + "\"" + rest
         == (if f[0] == '"' then ['"', '"'] else [f[0]]) + (Escape(f[1..]) + "\"" + rest)
  {
  }

  lemma {:induction false} RunEscaped(f: string, rest: string, s: Scanner)
    requires s.inQuotes
    requires rest == [] || rest[0] != '"'
    ensures Run(Escape(f) + "\"" + rest, s) == Run(rest, s.(field := s.field + f, inQuotes := false))
    decreases |f|
  {
    if f == [] {
      assert Escape(f) + "\"" + rest == ['"'] + rest;
      assert s.field + f == s.field;
      RunOne('"', rest, s, s.(inQuotes := false));
    } else {
      var tail := Escape(f[1..]) + "\"" + rest;
      var s1 := s.(field := s.field + [f[0]]);
      RunEscaped(f[1..], rest, s1);
      assert s1.field + f[1..] == s.field + f;
      EscapeCons(f, rest);
      if f[0] == '"' {
        RunTwo('"', '"', tail, s, s1);
      } else {
        RunOne(f[0], tail, s, s1);
      }
    }
  }

  /** A quoted field reads back as its original text (commas, newlines, carriage
      returns and quotes included) as long as no quote follows the closing one. */
  lemma QuoteCons(f: string, rest: string)
    ensures Quote(f) + rest == ['"'] + (Escape(f) + "\"" + rest)
  {
  }

  lemma QuotedFieldRoundTrip(f: string, rest: string, s: Scanner)
    requires !s.inQuotes
    requires rest == [] || rest[0] != '"'
    ensures Run(Quote(f) + rest, s) == Run(rest, s.(field := s.field + f))
  {
    var tail := Escape(f) + "\"" + rest;
    QuoteCons(f, rest);
    RunOne('"', tail, s, s.(inQuotes := true));
    RunEscaped(f, rest, s.(inQuotes := true));
  }

  /** A row of quoted fields separated by commas. */
  function EncodeRow(row: seq<string>): string
    requires |row| >= 1
  {
    if |row| == 1 then Quote(row[0]) else Quote(row[0]) + "," + EncodeRow(row[1..])
  }

  /** The two line breaks a file may use: LF, or the CRLF of rule 1 of
      section 2 of RFC 4180. */
  predicate LineBreak(eol: string) {
    eol == "\n" || eol == "\r\n"
  }

  /** Rows of quoted fields, each but the last ended by the line break `eol`. */
  function EncodeRows(rows: seq<seq<string>>, eol: string): string
    requires |rows| >= 1 && forall i :: 0 <= i < |rows| ==> |rows[i]| >= 1
    requires LineBreak(eol)
  {
    if |rows| == 1 then EncodeRow(rows[0]) else EncodeRow(rows[0]) + eol + EncodeRows(rows[1..], eol)
  }

  lemma {:induction false} RunEncodedRow(row: seq<string>, rest: string, s: Scanner)
    requires |row| >= 1 && !s.inQuotes && s.field == ""
    requires rest == [] || rest[0] != '"'
    ensures Run(EncodeRow(row) + rest, s)
         == Run(rest, s.(row := s.row + row[..|row| - 1], field := row[|row| - 1]))
    decreases |row|
  {
    if |row| == 1 {
      RunLastField(row, rest, s);
    } else {
      EncodeRowCons(row, rest);
      RunFieldComma(row[0], EncodeRow(row[1..]) + rest, s);
      RunEncodedRow(row[1..], rest, s.(row := s.row + [row[0]]));
      RowSplit(row, s.row);
    }
  }

  lemma RunLastField(row: seq<string>, rest: string, s: Scanner)
    requires |row| == 1 && !s.inQuotes && s.field == ""
    requires rest == [] || rest[0] != '"'
    ensures Run(EncodeRow(row) + rest, s)
         == Run(rest, s.(row := s.row + row[..|row| - 1], field := row[|row| - 1]))
  {
    QuotedFieldRoundTrip(row[0], rest, s);
    assert s.field + row[0] == row[0];
    assert s.row + row[..0] == s.row;
  }

  /** A quoted field and the comma after it add the field to the row. */
  lemma RunFieldComma(f: string, tail: string, s: Scanner)
    requires !s.inQuotes && s.field == ""
    ensures Run(Quote(f) + ([','] + tail), s) == Run(tail, s.(row := s.row + [f]))
  {
    QuotedFieldRoundTrip(f, [','] + tail, s);
    assert s.field + f == f;
    RunOne(',', tail, s.(field := f), s.(row := s.row + [f]));
  }

  lemma EncodeRowCons(row: seq<string>, rest: string)
    requires |row| >= 2
    ensures EncodeRow(row) + rest == Quote(row[0]) + ([','] + (EncodeRow(row[1..]) + rest))
  {
  }

  lemma RowSplit(row: seq<string>, pre: seq<string>)
    requires |row| >= 2
    ensures row[1..][|row[1..]| - 1] == row[|row| - 1]
    ensures (pre + [row[0]]) + row[1..][..|row[1..]| - 1] == pre + row[..|row| - 1]
  {
    assert row[..|row| - 1] == [row[0]] + row[1..][..|row[1..]| - 1];
  }

  /** The newline after a row's last field closes the row. */
  lemma RunRowEnd(r: seq<string>, tail: string, s: Scanner)
    requires |r| >= 1 && !s.inQuotes && s.field == "" && s.row == []
    ensures Run(['\n'] + tail, s.(row := s.row + r[..|r| - 1], field := r[|r| - 1]))
         == Run(tail, s.(rows := s.rows + [r]))
  {
    var s1 := s.(row := s.row + r[..|r| - 1], field := r[|r| - 1]);
    assert s1.row + [s1.field] == r by {
      assert s.row + r[..|r| - 1] == r[..|r| - 1];
      assert r[..|r| - 1] + [r[|r| - 1]] == r;
    }
    RunOne('\n', tail, s1, s.(rows := s.rows + [r]));
  }

  /** A row of quoted fields and the line break after it add exactly that row;
      the carriage return of a CRLF is skipped. */
  lemma RunEncodedRowNewline(r: seq<string>, eol: string, tail: string, s: Scanner)
    requires |r| >= 1 && !s.inQuotes && s.field == "" && s.row == []
    requires LineBreak(eol)
    ensures Run(EncodeRow(r) + (eol + tail), s) == Run(tail, s.(rows := s.rows + [r]))
  {
    RunEncodedRow(r, eol + tail, s);
    if eol == "\r\n" {
      var s1 := s.(row := s.row + r[..|r| - 1], field := r[|r| - 1]);
      assert eol + tail == ['\r'] + (['\n'] + tail);
      RunOne('\r', ['\n'] + tail, s1, s1);
    } else {
      assert eol + tail == ['\n'] + tail;
    }
    RunRowEnd(r, tail, s);
  }

  lemma {:induction false} RunEncodedRows(rows: seq<seq<string>>, eol: string, s: Scanner)
    requires |rows| >= 1 && forall i :: 0 <= i < |rows| ==> |rows[i]| >= 1
    requires LineBreak(eol)
    requires !s.inQuotes && s.field == "" && s.row == []
    ensures Run(EncodeRows(rows, eol), s) == s.rows + rows
    decreases |rows|
  {
    var r := rows[0];
    if |rows| == 1 {
      RunLastRow(r, eol, s);
      assert rows == [r];
    } else {
      EncodeRowsCons(rows, eol);
      RunEncodedRowNewline(r, eol, EncodeRows(rows[1..], eol), s);
      RunEncodedRows(rows[1..], eol, s.(rows := s.rows + [r]));
      RowsCons(s.rows, rows);
    }
  }

  lemma RunLastRow(r: seq<string>, eol: string, s: Scanner)
    requires |r| >= 1 && LineBreak(eol)
    requires !s.inQuotes && s.field == "" && s.row == []
    ensures Run(EncodeRows([r], eol), s) == s.rows + [r]
  {
    assert EncodeRows([r], eol) == EncodeRow(r) + [];
    RunEncodedRow(r, [], s);
    LastRowCloses(r, s.row);
  }

  lemma LastRowCloses(r: seq<string>, pre: seq<string>)
    requires |r| >= 1 && pre == []
    ensures (pre + r[..|r| - 1]) + [r[|r| - 1]] == r
  {
    assert pre + r[..|r| - 1] == r[..|r| - 1];
  }

  lemma RowsCons(pre: seq<seq<string>>, rows: seq<seq<string>>)
    requires |rows| >= 1
    ensures pre + [rows[0]] + rows[1..] == pre + rows
  {
    assert rows == [rows[0]] + rows[1..];
  }

  lemma EncodeRowsCons(rows: seq<seq<string>>, eol: string)
    requires |rows| >= 2 && forall i :: 0 <= i < |rows| ==> |rows[i]| >= 1
    requires LineBreak(eol)
    ensures EncodeRows(rows, eol) == EncodeRow(rows[0]) + (eol + EncodeRows(rows[1..], eol))
  {
  }

  /** Rows written with every field quoted are read back exactly, with LF and
      with CRLF line breaks. */
  lemma TokenizeEncodedRows(rows: seq<seq<string>>, eol: string)
    requires |rows| >= 1 && forall i :: 0 <= i < |rows| ==> |rows[i]| >= 1
    requires LineBreak(eol)
    ensures Tokenize(EncodeRows(rows, eol)) == rows
  {
    RunEncodedRows(rows, eol, Start);
  }

  // ----- Unquoted fields -----

  /** A field that can be written without quotes. */
  predicate PlainField(f: string) {
    forall i :: 0 <= i < |f| ==> !IsSpecial(f[i])
  }

  predicate PlainRow(row: seq<string>) {
    forall k :: 0 <= k < |row| ==> PlainField(row[k])
  }

  predicate PlainRows(rows: seq<seq<string>>) {
    forall i :: 0 <= i < |rows| ==> PlainRow(rows[i])
  }

  lemma PlainRowTail(row: seq<string>)
    requires |row| >= 1 && PlainRow(row)
    ensures PlainField(row[0]) && PlainRow(row[1..])
  {
    forall k | 0 <= k < |row[1..]| ensures PlainField(row[1..][k]) {
      assert row[1..][k] == row[k + 1];
    }
  }

  /** Outside quotes the characters of a plain field are appended to the field
      being read, whatever follows them. */
  lemma {:induction false} RunPlainField(f: string, rest: string, s: Scanner)
    requires !s.inQuotes && PlainField(f)
    ensures Run(f + rest, s) == Run(rest, s.(field := s.field + f))
    decreases |f|
  {
    if f == [] {
      assert f + rest == rest;
      assert s.field + f == s.field;
    } else {
      var s1 := s.(field := s.field + [f[0]]);
      assert f + rest == [f[0]] + (f[1..] + rest);
      RunOne(f[0], f[1..] + rest, s, s1);
      RunPlainField(f[1..], rest, s1);
      assert s1.field + f[1..] == s.field + f;
    }
  }

  /** A row of plain fields separated by commas. */
  function JoinRow(row: seq<string>): string
    requires |row| >= 1
  {
    if |row| == 1 then row[0] else row[0] + "," + JoinRow(row[1..])
  }

  /** Rows of plain fields separated by newlines. */
  function JoinRows(rows: seq<seq<string>>): string
    requires |rows| >= 1 && forall i :: 0 <= i < |rows| ==> |rows[i]| >= 1
  {
    if |rows| == 1 then JoinRow(rows[0]) else JoinRow(rows[0]) + "\n" + JoinRows(rows[1..])
  }

  /** A plain field and the comma after it add the field to the row. */
  lemma RunPlainComma(f: string, tail: string, s: Scanner)
    requires !s.inQuotes && s.field == "" && PlainField(f)
    ensures Run(f + ([','] + tail), s) == Run(tail, s.(row := s.row + [f]))
  {
    RunPlainField(f, [','] + tail, s);
    assert s.field + f == f;
    RunOne(',', tail, s.(field := f), s.(row := s.row + [f]));
  }

  lemma JoinRowCons(row: seq<string>, rest: string)
    requires |row| >= 2
    ensures JoinRow(row) + rest == row[0] + ([','] + (JoinRow(row[1..]) + rest))
  {
  }

  /** A comma-separated row of plain fields leaves its last field open and
      every other field in the row, whatever follows it. */
  lemma {:induction false} RunPlainRow(row: seq<string>, rest: string, s: Scanner)
    requires |row| >= 1 && PlainRow(row)
    requires !s.inQuotes && s.field == ""
    ensures Run(JoinRow(row) + rest, s)
         == Run(rest, s.(row := s.row + row[..|row| - 1], field := row[|row| - 1]))
    decreases |row|
  {
    if |row| == 1 {
      RunPlainField(row[0], rest, s);
      assert s.field + row[0] == row[0];
      assert s.row + row[..0] == s.row;
    } else {
      PlainRowTail(row);
      JoinRowCons(row, rest);
      RunPlainComma(row[0], JoinRow(row[1..]) + rest, s);
      RunPlainRow(row[1..], rest, s.(row := s.row + [row[0]]));
      RowSplit(row, s.row);
    }
  }

  lemma {:induction false} RunPlainRows(rows: seq<seq<string>>, s: Scanner)
    requires |rows| >= 1 && forall i :: 0 <= i < |rows| ==> |rows[i]| >= 1
    requires PlainRows(rows)
    requires !s.inQuotes && s.field == "" && s.row == []
    ensures Run(JoinRows(rows), s) == s.rows + rows
    decreases |rows|
  {
    var r := rows[0];
    if |rows| == 1 {
      assert JoinRows(rows) == JoinRow(r) + [];
      RunPlainRow(r, [], s);
      LastRowCloses(r, s.row);
      assert rows == [r];
    } else {
      var tail := JoinRows(rows[1..]);
      assert JoinRows(rows) == JoinRow(r) + (['\n'] + tail);
      RunPlainRow(r, ['\n'] + tail, s);
      RunRowEnd(r, tail, s);
      assert PlainRows(rows[1..]) by {
        forall i | 0 <= i < |rows[1..]| ensures PlainRow(rows[1..][i]) {
          assert rows[1..][i] == rows[i + 1];
        }
      }
      RunPlainRows(rows[1..], s.(rows := s.rows + [r]));
      RowsCons(s.rows, rows);
    }
  }

  /** Rows of fields without quotes, commas and line breaks, written with
      commas and newlines and no quoting, are read back exactly. */
  lemma TokenizePlainRows(rows: seq<seq<string>>)
    requires |rows| >= 1 && forall i :: 0 <= i < |rows| ==> |rows[i]| >= 1
    requires PlainRows(rows)
    ensures Tokenize(JoinRows(rows)) == rows
  {
    RunPlainRows(rows, Start);
  }

  /** A small document of the site's shape. */
  lemma TokenizeTitleYear()
    ensures Tokenize("Title,Year\nFoo,2020") == [["Title", "Year"], ["Foo", "2020"]]
  {
    var rows := [["Title", "Year"], ["Foo", "2020"]];
    assert JoinRow(rows[0]) == "Title,Year" by {
      assert JoinRow(rows[0][1..]) == "Year";
    }
    assert JoinRow(rows[1]) == "Foo,2020" by {
      assert JoinRow(rows[1][1..]) == "2020";
    }
    assert JoinRows(rows) == "Title,Year\nFoo,2020" by {
      assert JoinRows(rows[1..]) == JoinRow(rows[1]);
    }
    assert PlainRows(rows) by {
      assert PlainField("Title") && PlainField("Year") && PlainField("Foo") && PlainField("2020");
    }
    TokenizePlainRows(rows);
  }

  // ----- From rows to records -----

  /** The header row with every name trimmed. */
  function Headers(header: seq<string>): (h: seq<string>)
    ensures |h| == |header|
    ensures forall j :: 0 <= j < |h| ==> h[j] == Trim(header[j])
  {
    seq(|header|, j requires 0 <= j < |header| => Trim(header[j]))
  }

  /** The data-row filter: some cell is not blank after trimming. */
  predicate Kept(r: seq<string>)
    ensures Kept(r) <==> |r| > 0 && exists j :: 0 <= j < |r| && !AllWhitespace(r[j])
  {
    BlankCells(r);
    |r| > 0 && exists j :: 0 <= j < |r| && Trim(r[j]) != ""
  }

  /** A cell trims to `''` exactly when it is whitespace only. */
  lemma BlankCells(r: seq<string>)
    ensures forall j :: 0 <= j < |r| ==> (Trim(r[j]) == "" <==> AllWhitespace(r[j]))
  {
    forall j | 0 <= j < |r| ensures Trim(r[j]) == "" <==> AllWhitespace(r[j]) {
      TrimEmptyIff(r[j]);
    }
  }

  /** The value stored for column `j`: the untrimmed cell, or `''` past the row's end. */
  function Cell(r: seq<string>, j: nat): (c: string)
    ensures j < |r| ==> c == r[j]
    ensures j >= |r| ==> c == ""
  {
    if j < |r| then r[j] else ""
  }

  /** The last column named `k`. */
  function LastIndex(h: seq<string>, k: string): (j: nat)
    requires k in h
    ensures j < |h| && h[j] == k
    ensures forall j' :: j < j' < |h| ==> h[j'] != k
  {
    if h[|h| - 1] == k then |h| - 1 else LastIndex(h[..|h| - 1], k)
  }

  /** The record a data row becomes: one entry per header name, taken from the
      last column carrying that name. */
  function RecordOf(h: seq<string>, r: seq<string>): (rec: Record)
    ensures rec.Keys == set k | k in h
    ensures forall j :: 0 <= j < |h| && (forall j' :: j < j' < |h| ==> h[j'] != h[j])
                        ==> rec[h[j]] == Cell(r, j)
  {
    var rec := map k | k in h :: Cell(r, LastIndex(h, k));
    assert forall j :: 0 <= j < |h| && (forall j' :: j < j' < |h| ==> h[j'] != h[j])
                       ==> LastIndex(h, h[j]) == j;
    rec
  }

  /** The `for` loop over the headers building one object. */
  method ToRecord(h: seq<string>, r: seq<string>) returns (obj: Record)
    ensures obj == RecordOf(h, r)
  {
    obj := map[];
    for j := 0 to |h|
      invariant obj.Keys == set k | k in h[..j]
      invariant forall k :: k in obj ==> obj[k] == Cell(r, LastIndex(h[..j], k))
    {
      assert h[..j + 1][..j] == h[..j];
      assert forall k :: k in h[..j + 1] <==> k in h[..j] || k == h[j];
      obj := obj[h[j] := if j < |r| then r[j] else ""];
    }
    assert h[..|h|] == h;
  }

  /** The records of a document: rows after the header that pass the filter,
      each turned into a record keyed by the trimmed header names. */
  function ToRecords(rows: seq<seq<string>>): (records: seq<Record>)
    ensures rows == [] ==> records == []
    ensures rows != [] ==> |records| <= |rows| - 1
    ensures rows != [] ==> forall i :: 0 <= i < |records| ==>
              records[i].Keys == set k | k in Headers(rows[0])
  {
    if rows == [] then []
    else
      var h := Headers(rows[0]);
      var data := Filter(rows[1..], Kept);
      seq(|data|, i requires 0 <= i < |data| => RecordOf(h, data[i]))
  }

  /** `parseCSV`: scan the text, then convert the rows to records. */
  method Parse(text: string) returns (records: seq<Record>)
    ensures records == ToRecords(Tokenize(text))
  {
    var rows := ScanRows(text);
    if |rows| == 0 {
      return [];
    }
    var headers := Headers(rows[0]);
    var data := Filter(rows[1..], Kept);
    records := [];
    for k := 0 to |data|
      invariant |records| == k && Converted(records, headers, data)
    {
      var obj := ToRecord(headers, data[k]);
      ConvertedSnoc(records, headers, data, obj);
      records := records + [obj];
    }
    LoopRecords(rows, records);
  }

  /** Empty text has no records. */
  lemma ParseEmpty()
    ensures ToRecords(Tokenize("")) == []
  {
  }

  /** At most one record per newline outside quotes. */
  lemma RecordCount(text: string)
    ensures |ToRecords(Tokenize(text))| <= UnquotedNewlines(text, false)
  {
    TokenizeRowCount(text);
  }

  /** A data row is dropped exactly when it is empty or every cell is whitespace
      only; the others survive with their multiplicity, in their order. */
  lemma DataRowsKept(rows: seq<seq<string>>, r: seq<string>)
    requires rows != []
    ensures multiset(Filter(rows[1..], Kept))[r]
         == if |r| > 0 && exists j :: 0 <= j < |r| && !AllWhitespace(r[j]) then multiset(rows[1..])[r] else 0
    ensures IsSubsequence(Filter(rows[1..], Kept), rows[1..])
  {
    FilterMultiset(rows[1..], Kept, r);
    FilterIsSubsequence(rows[1..], Kept);
    forall j | 0 <= j < |r| ensures Trim(r[j]) != "" <==> !AllWhitespace(r[j]) {
      TrimEmptyIff(r[j]);
    }
  }

  /** A document written with every field quoted is read back as one record per
      non-blank data row, in order; a document whose data rows all have a
      non-blank cell gives one record per data row. */
  lemma EncodedDocumentRecords(header: seq<string>, data: seq<seq<string>>, eol: string)
    requires |header| >= 1
    requires forall i :: 0 <= i < |data| ==> |data[i]| >= 1
    requires LineBreak(eol)
    ensures var records := ToRecords(Tokenize(EncodeRows([header] + data, eol)));
            var kept := Filter(data, Kept);
            |records| == |kept| &&
            forall i :: 0 <= i < |kept| ==> records[i] == RecordOf(Headers(header), kept[i])
    ensures (forall i :: 0 <= i < |data| ==> Kept(data[i])) ==> Filter(data, Kept) == data
  {
    var rows := [header] + data;
    TokenizeEncodedRows(rows, eol);
    HeaderAndData(header, data, rows);
    RecordsOfRows(rows);
    if forall i :: 0 <= i < |data| ==> Kept(data[i]) {
      FilterAll(data, Kept);
    }
  }

  /** The same for a document written without any quoting, the form of the
      site's own files. */
  lemma PlainDocumentRecords(header: seq<string>, data: seq<seq<string>>)
    requires |header| >= 1
    requires forall i :: 0 <= i < |data| ==> |data[i]| >= 1
    requires PlainRows([header] + data)
    ensures var records := ToRecords(Tokenize(JoinRows([header] + data)));
            var kept := Filter(data, Kept);
            |records| == |kept| &&
            forall i :: 0 <= i < |kept| ==> records[i] == RecordOf(Headers(header), kept[i])
  {
    var rows := [header] + data;
    TokenizePlainRows(rows);
    HeaderAndData(header, data, rows);
    RecordsOfRows(rows);
  }

  lemma HeaderAndData(header: seq<string>, data: seq<seq<string>>, rows: seq<seq<string>>)
    requires rows == [header] + data
    ensures rows != [] && rows[0] == header && rows[1..] == data
  {
  }

  /** The first records of the data rows, each converted under the headers `h`. */
  ghost predicate Converted(records: seq<Record>, h: seq<string>, data: seq<seq<string>>) {
    |records| <= |data| && forall i :: 0 <= i < |records| ==> records[i] == RecordOf(h, data[i])
  }

  /** One turn of the conversion loop of `Parse`. */
  lemma ConvertedSnoc(records: seq<Record>, h: seq<string>, data: seq<seq<string>>, obj: Record)
    requires Converted(records, h, data) && |records| < |data|
    requires obj == RecordOf(h, data[|records|])
    ensures Converted(records + [obj], h, data)
  {
  }

  /** What the conversion loop of `Parse` builds is `ToRecords`. */
  lemma LoopRecords(rows: seq<seq<string>>, records: seq<Record>)
    requires rows != []
    requires |records| == |Filter(rows[1..], Kept)|
    requires Converted(records, Headers(rows[0]), Filter(rows[1..], Kept))
    ensures records == ToRecords(rows)
  {
    RecordsOfRows(rows);
  }

  /** The records of some rows, one per kept data row. */
  lemma RecordsOfRows(rows: seq<seq<string>>)
    requires rows != []
    ensures |ToRecords(rows)| == |Filter(rows[1..], Kept)|
    ensures forall i :: 0 <= i < |Filter(rows[1..], Kept)| ==>
              ToRecords(rows)[i] == RecordOf(Headers(rows[0]), Filter(rows[1..], Kept)[i])
  {
  }
}
