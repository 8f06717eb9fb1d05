/** The comma-separated-values tokenizer `parseCSV`: one left-to-right scan
    with an "inside quotes" flag, a conditional flush of the last row, and a
    final trim of every cell. */
module Csv {
  import opened Text

  type Row = seq<string>

  /** The variables the scan updates: the finished rows, the row being built,
      the cell being built and the quote mode. */
  datatype ScanState = ScanState(rows: seq<Row>, row: Row, cell: string, inQuotes: bool)

  const Initial := ScanState([], [], "", false)

  predicate RowsNonEmpty(rows: seq<Row>) {
    forall k :: 0 <= k < |rows| ==> |rows[k]| > 0
  }

  /** The scan of the characters `s` still to be read, from state `st`.  Inside
      quotes a doubled quote stands for one quote and consumes two characters;
      a lone quote leaves quote mode; anything else, comma and newline
      included, goes into the cell.  Outside quotes a quote enters quote mode,
      a comma ends the cell, a newline ends the cell and the row, a carriage
      return is dropped, and anything else goes into the cell. */
  function Scan(s: string, st: ScanState): ScanState
    decreases |s|
  {
    if s == [] then st
    else
      var ch := s[0];
      if st.inQuotes then
        if ch == '"' && |s| > 1 && s[1] == '"' then Scan(s[2..], st.(cell := st.cell + "\""))
        else if ch == '"' then Scan(s[1..], st.(inQuotes := false))
        else Scan(s[1..], st.(cell := st.cell + [ch]))
      else if ch == '"' then Scan(s[1..], st.(inQuotes := true))
      else if ch == ',' then Scan(s[1..], st.(row := st.row + [st.cell], cell := ""))
      else if ch == '\n' then Scan(s[1..], st.(rows := st.rows + [st.row + [st.cell]], row := [], cell := ""))
      else if ch == '\r' then Scan(s[1..], st)
      else Scan(s[1..], st.(cell := st.cell + [ch]))
  }

  /** Whether the end of input leaves a cell or row to flush. */
  predicate Pending(st: ScanState) {
    |st.cell| > 0 || |st.row| > 0
  }

  /** Every cell of a row, trimmed. */
  function TrimRow(row: Row): (r: Row)
    ensures |r| == |row|
    ensures forall j :: 0 <= j < |r| ==> r[j] == Trim(row[j])
  {
    if row == [] then [] else [Trim(row[0])] + TrimRow(row[1..])
  }

  /** Every cell of every row, trimmed. */
  function TrimRows(rows: seq<Row>): (r: seq<Row>)
    ensures |r| == |rows|
    ensures forall k :: 0 <= k < |r| ==> r[k] == TrimRow(rows[k])
  {
    if rows == [] then [] else [TrimRow(rows[0])] + TrimRows(rows[1..])
  }

  /** The end of `parseCSV`: flush the pending cell and row, then trim. */
  function Finish(st: ScanState): seq<Row> {
    TrimRows(if Pending(st) then st.rows + [st.row + [st.cell]] else st.rows)
  }

  /** What `parseCSV` returns for `text`. */
  function Parse(text: string): seq<Row> {
    Finish(Scan(text, Initial))
  }

  /** `parseCSV` as the source runs it: a loop that reads one character, or two
      for an escaped quote, per iteration and updates the scan variables. */
  method ParseCSV(text: string) returns (result: seq<Row>)
    ensures result == Parse(text)
  {
    var rows: seq<Row> := [];
    var row: Row := [];
    var cell := "";
    var inQuotes := false;
    var i := 0;
    while i < |text|
      invariant 0 <= i <= |text|
      invariant Scan(text[i..], ScanState(rows, row, cell, inQuotes)) == Scan(text, Initial)
    {
      var ch := text[i];
      assert text[i..][1..] == text[i + 1..];
      if inQuotes {
        if ch == '"' && i + 1 < |text| && text[i + 1] == '"' {
          assert text[i..][2..] == text[i + 2..];
          cell := cell + "\"";
          i := i + 1;
        } else if ch == '"' {
          inQuotes := false;
        } else {
          cell := cell + [ch];
        }
      } else {
        if ch == '"' {
          inQuotes := true;
        } else if ch == ',' {
          row := row + [cell];
          cell := "";
        } else if ch == '\n' {
          row := row + [cell];
          rows := rows + [row];
          row := [];
          cell := "";
        } else if ch == '\r' {
        } else {
          cell := cell + [ch];
        }
      }
      i := i + 1;
    }
    if |cell| > 0 || |row| > 0 {
      row := row + [cell];
      rows := rows + [row];
    }
    result := TrimRows(rows);
  }
}

/** Properties of `parseCSV`: the shape of its result, quoting, line endings,
    and agreement with plain splitting on text without quotes. */
module CsvProperties {
  import opened Text
  import opened Csv

  /** Empty input yields no rows. */
  lemma ParseEmpty()
    ensures Parse("") == []
  {
  }

  /** Finished rows are never changed, and every finished row has at least
      one cell. */
  lemma {:induction false} ScanKeepsRows(s: string, st: ScanState)
    ensures |st.rows| <= |Scan(s, st).rows| && Scan(s, st).rows[..|st.rows|] == st.rows
    ensures RowsNonEmpty(st.rows) ==> RowsNonEmpty(Scan(s, st).rows)
    decreases |s|
  {
    if s != [] {
      var ch := s[0];
      if st.inQuotes {
        if ch == '"' && |s| > 1 && s[1] == '"' {
          ScanKeepsRows(s[2..], st.(cell := st.cell + "\""));
        } else if ch == '"' {
          ScanKeepsRows(s[1..], st.(inQuotes := false));
        } else {
          ScanKeepsRows(s[1..], st.(cell := st.cell + [ch]));
        }
      } else if ch == '"' {
        ScanKeepsRows(s[1..], st.(inQuotes := true));
      } else if ch == ',' {
        ScanKeepsRows(s[1..], st.(row := st.row + [st.cell], cell := ""));
      } else if ch == '\n' {
        var st' := st.(rows := st.rows + [st.row + [st.cell]], row := [], cell := "");
        ScanKeepsRows(s[1..], st');
        assert Scan(s, st).rows[..|st'.rows|][..|st.rows|] == st.rows;
      } else if ch == '\r' {
        ScanKeepsRows(s[1..], st);
      } else {
        ScanKeepsRows(s[1..], st.(cell := st.cell + [ch]));
      }
    }
  }

  /** Every returned cell equals its own trim, and every row has a cell. */
  lemma ParseShape(text: string)
    ensures RowsNonEmpty(Parse(text))
    ensures forall k, j :: 0 <= k < |Parse(text)| && 0 <= j < |Parse(text)[k]| ==>
      Trim(Parse(text)[k][j]) == Parse(text)[k][j]
  {
    ScanKeepsRows(text, Initial);
    var rows := Parse(text);
    forall k, j | 0 <= k < |rows| && 0 <= j < |rows[k]| ensures Trim(rows[k][j]) == rows[k][j] {
      var st := Scan(text, Initial);
      var raw := if Pending(st) then st.rows + [st.row + [st.cell]] else st.rows;
      TrimIdempotent(raw[k][j]);
    }
  }

  lemma TrimRowsConcat(a: seq<Row>, b: seq<Row>)
    ensures TrimRows(a + b) == TrimRows(a) + TrimRows(b)
  {
  }

  /** Scanning a concatenation is scanning one part after the other, unless
      the second part starts with a quote that could pair with a quote that
      ends the first part. */
  lemma {:induction false} ScanConcat(a: string, b: string, st: ScanState)
    requires b == [] || b[0] != '"'
    ensures Scan(a + b, st) == Scan(b, Scan(a, st))
    decreases |a|
  {
    if a == [] {
      assert a + b == b;
    } else {
      var s := a + b;
      var ch := a[0];
      assert s[0] == ch;
      assert s[1..] == a[1..] + b;
      if st.inQuotes {
        if ch == '"' && |a| > 1 && a[1] == '"' {
          assert s[2..] == a[2..] + b;
          ScanConcat(a[2..], b, st.(cell := st.cell + "\""));
        } else if ch == '"' {
          ScanConcat(a[1..], b, st.(inQuotes := false));
        } else {
          ScanConcat(a[1..], b, st.(cell := st.cell + [ch]));
        }
      } else if ch == '"' {
        ScanConcat(a[1..], b, st.(inQuotes := true));
      } else if ch == ',' {
        ScanConcat(a[1..], b, st.(row := st.row + [st.cell], cell := ""));
      } else if ch == '\n' {
        ScanConcat(a[1..], b, st.(rows := st.rows + [st.row + [st.cell]], row := [], cell := ""));
      } else if ch == '\r' {
        ScanConcat(a[1..], b, st);
      } else {
        ScanConcat(a[1..], b, st.(cell := st.cell + [ch]));
      }
    }
  }

  lemma TrimAppendWhitespace(x: string, c: char)
    requires IsWhitespace(c)
    ensures Trim(x + [c]) == Trim(x)
  {
    var y := x + [c];
    StartSpec(x);
    EndSpec(x);
    if Start(x) < End(x) {
      TrimPieces(y, Start(x), End(x));
      assert y[Start(x)..End(x)] == x[Start(x)..End(x)];
    } else {
      assert forall i :: 0 <= i < |x| ==> IsWhitespace(x[i]);
      TrimPieces(y, 0, 0);
    }
  }

  /** A newline at the end of the text adds no row when the text leaves a
      cell or row pending, and adds one empty row when it does not (the text
      is empty or already ends its last row). */
  lemma TrailingNewline(t: string)
    ensures Pending(Scan(t, Initial)) ==> Parse(t + "\n") == Parse(t)
    ensures !Pending(Scan(t, Initial)) ==> Parse(t + "\n") == Parse(t) + [[""]]
  {
    var st := Scan(t, Initial);
    ScanConcat(t, "\n", Initial);
    assert "\n"[1..] == [];
    if st.inQuotes {
      FinalNewlineInQuotes(st);
    } else {
      FinalNewlineOutsideQuotes(st);
    }
  }

  /** A newline that ends the text inside quotes joins the pending cell,
      and the trim then removes it. */
  lemma FinalNewlineInQuotes(st: ScanState)
    requires st.inQuotes
    ensures Pending(st) ==> Finish(Scan("\n", st)) == Finish(st)
    ensures !Pending(st) ==> Finish(Scan("\n", st)) == Finish(st) + [[""]]
  {
    assert "\n"[1..] == [];
    var st' := st.(cell := st.cell + "\n");
    assert Scan("\n", st) == st';
    assert Pending(st');
    var last := st.row + [st.cell + "\n"];
    assert Finish(st') == TrimRows(st.rows + [last]);
    TrimAppendWhitespace(st.cell, '\n');
    TrimRowsConcat(st.rows, [last]);
    if Pending(st) {
      TrimLastCell(st.row, st.cell + "\n", st.cell);
      TrimRowsConcat(st.rows, [st.row + [st.cell]]);
    } else {
      assert st.cell == "" && st.row == [];
      assert Finish(st) == TrimRows(st.rows);
      TrimLastCell([], "\n", "");
      assert last == [] + ["\n"];
      EmptyRowTrimmed();
    }
  }

  lemma EmptyRowTrimmed()
    ensures TrimRows([[""]]) == [[""]]
  {
    TrimPieces("", 0, 0);
    assert TrimRow([""]) == [""];
  }

  lemma TrimLastCell(row: Row, a: string, b: string)
    requires Trim(a) == Trim(b)
    ensures TrimRows([row + [a]]) == TrimRows([row + [b]])
  {
    var x, y := TrimRows([row + [a]]), TrimRows([row + [b]]);
    assert |x[0]| == |y[0]|;
    forall j | 0 <= j < |x[0]| ensures x[0][j] == y[0][j] {
      if j < |row| {
        assert (row + [a])[j] == (row + [b])[j];
      }
    }
    assert x[0] == y[0];
  }

  /** A newline that ends the text outside quotes ends the row, which the
      flush at the end would have done unless nothing was pending. */
  lemma FinalNewlineOutsideQuotes(st: ScanState)
    requires !st.inQuotes
    ensures Pending(st) ==> Finish(Scan("\n", st)) == Finish(st)
    ensures !Pending(st) ==> Finish(Scan("\n", st)) == Finish(st) + [[""]]
  {
    assert "\n"[1..] == [];
    var done := st.rows + [st.row + [st.cell]];
    var st' := st.(rows := done, row := [], cell := "");
    assert Scan("\n", st) == st';
    assert Finish(st') == TrimRows(done);
    if !Pending(st) {
      assert Finish(st) == TrimRows(st.rows);
      assert st.row + [st.cell] == [""];
      TrimRowsConcat(st.rows, [[""]]);
      EmptyRowTrimmed();
    }
  }

  /** The quoting a writer of comma-separated values applies to a field:
      quotes around it and every quote inside it doubled. */
  function Escape(f: string): (r: string)
    ensures |r| >= |f|
  {
    if f == [] then [] else (if f[0] == '"' then "\"\"" else [f[0]]) + Escape(f[1..])
  }

  function Quote(f: string): string {
    "\"" + Escape(f) + "\""
  }

  lemma {:induction false} ScanEscaped(f: string, rest: string, st: ScanState)
    requires st.inQuotes
    requires rest == [] || rest[0] != '"'
    ensures Scan(Escape(f) + "\"" + rest, st) == Scan(rest, st.(cell := st.cell + f, inQuotes := false))
    decreases |f|
  {
    var s := Escape(f) + "\"" + rest;
    if f == [] {
      assert s == "\"" + rest;
      assert s[1..] == rest;
      assert st.cell + f == st.cell;
    } else if f[0] == '"' {
      assert s == "\"\"" + (Escape(f[1..]) + "\"" + rest);
      assert s[2..] == Escape(f[1..]) + "\"" + rest;
      ScanEscaped(f[1..], rest, st.(cell := st.cell + "\""));
      assert st.cell + "\"" + f[1..] == st.cell + f;
    } else {
      assert s == [f[0]] + (Escape(f[1..]) + "\"" + rest);
      assert s[1..] == Escape(f[1..]) + "\"" + rest;
      ScanEscaped(f[1..], rest, st.(cell := st.cell + [f[0]]));
      assert st.cell + [f[0]] + f[1..] == st.cell + f;
    }
  }

  /** A quoted field is read back as the field itself, whatever commas,
      newlines, carriage returns or quotes it holds, provided the next
      character is not a quote. */
  lemma ScanQuoted(f: string, rest: string, st: ScanState)
    requires !st.inQuotes
    requires rest == [] || rest[0] != '"'
    ensures Scan(Quote(f) + rest, st) == Scan(rest, st.(cell := st.cell + f))
  {
    QuoteOpens(f, rest);
    ScanEscaped(f, rest, st.(inQuotes := true));
  }

  lemma QuoteOpens(f: string, rest: string)
    ensures (Quote(f) + rest)[0] == '"'
    ensures (Quote(f) + rest)[1..] == Escape(f) + "\"" + rest
  {
    assert Quote(f) + rest == "\"" + (Escape(f) + "\"" + rest);
  }

  /** One row written with every field quoted, fields separated by commas
      and the row ended by a newline. */
  function Line(r: Row): string
    requires |r| > 0
    decreases |r|
  {
    if |r| == 1 then Quote(r[0]) + "\n" else Quote(r[0]) + "," + Line(r[1..])
  }

  function Serialize(rows: seq<Row>): string
    requires RowsNonEmpty(rows)
  {
    if rows == [] then "" else Line(rows[0]) + Serialize(rows[1..])
  }

  lemma {:induction false} ScanLine(r: Row, rest: string, rows: seq<Row>, row: Row)
    requires |r| > 0
    ensures Scan(Line(r) + rest, ScanState(rows, row, "", false))
         == Scan(rest, ScanState(rows + [row + r], [], "", false))
    decreases |r|
  {
    var st := ScanState(rows, row, "", false);
    var st' := ScanState(rows, row, r[0], false);
    assert st.(cell := st.cell + r[0]) == st';
    LineParts(r, rest);
    if |r| == 1 {
      ScanQuoted(r[0], ['\n'] + rest, st);
      ScanNewline(rest, st');
      assert row + [r[0]] == row + r;
    } else {
      var tail := Line(r[1..]) + rest;
      ScanQuoted(r[0], [','] + tail, st);
      ScanComma(tail, st');
      ScanLine(r[1..], rest, rows, row + [r[0]]);
      assert row + [r[0]] + r[1..] == row + r;
    }
  }

  lemma LineParts(r: Row, rest: string)
    requires |r| > 0
    ensures |r| == 1 ==> Line(r) + rest == Quote(r[0]) + (['\n'] + rest)
    ensures |r| > 1 ==> Line(r) + rest == Quote(r[0]) + ([','] + (Line(r[1..]) + rest))
  {
    if |r| == 1 {
      Associate(Quote(r[0]), ['\n'], rest);
    } else {
      Associate(Quote(r[0]), [','], Line(r[1..]));
      Associate(Quote(r[0]) + [','], Line(r[1..]), rest);
      Associate(Quote(r[0]), [','], Line(r[1..]) + rest);
    }
  }

  lemma Associate(a: string, b: string, c: string)
    ensures a + b + c == a + (b + c)
  {
  }

  lemma {:induction false} ScanSerialized(rows: seq<Row>, done: seq<Row>)
    requires RowsNonEmpty(rows)
    ensures Scan(Serialize(rows), ScanState(done, [], "", false)) == ScanState(done + rows, [], "", false)
    decreases |rows|
  {
    if rows == [] {
      assert done + rows == done;
    } else {
      assert Serialize(rows) == Line(rows[0]) + Serialize(rows[1..]);
      ScanLine(rows[0], Serialize(rows[1..]), done, []);
      assert [] + rows[0] == rows[0];
      ScanSerialized(rows[1..], done + [rows[0]]);
      assert done + [rows[0]] + rows[1..] == done + rows;
    }
  }

  /** Writing rows with every field quoted and parsing the text gives the
      rows back, each cell trimmed. */
  lemma ParseSerialize(rows: seq<Row>)
    requires RowsNonEmpty(rows)
    ensures Parse(Serialize(rows)) == TrimRows(rows)
  {
    ScanSerialized(rows, []);
    assert [] + rows == rows;
  }

  /** What `parseCSV` returns can be written out and parsed back unchanged. */
  lemma ParseSerializeParse(text: string)
    ensures RowsNonEmpty(Parse(text))
    ensures Parse(Serialize(Parse(text))) == Parse(text)
  {
    var rows := Parse(text);
    ParseShape(text);
    ParseSerialize(rows);
    TrimRowsOfTrimmed(rows);
  }

  lemma TrimRowsOfTrimmed(rows: seq<Row>)
    requires forall k, j :: 0 <= k < |rows| && 0 <= j < |rows[k]| ==> Trim(rows[k][j]) == rows[k][j]
    ensures TrimRows(rows) == rows
  {
    var r := TrimRows(rows);
    forall k | 0 <= k < |rows| ensures r[k] == rows[k] {
    }
  }

  /** A row whose cells are their own trims is left as it is by the final trim. */
  lemma TrimmedRow(row: Row)
    requires forall j :: 0 <= j < |row| ==> Trim(row[j]) == row[j]
    ensures TrimRows([row]) == [row]
  {
    assert TrimRow(row) == row;
  }

  /** Parsing ends by trimming what the scan built. */
  lemma ParseOfScan(text: string, st: ScanState)
    requires Scan(text, Initial) == st
    ensures Parse(text) == Finish(st)
  {
  }

  /** The example row `a,"b,c",d`: the quoted comma stays in the cell. */
  lemma QuotedCommaExample()
    ensures Parse("a,\"b,c\",d\n") == [["a", "b,c", "d"]]
  {
    var row := ["a", "b,c", "d"];
    QuotedCommaText();
    ScanQuotedCommaExample();
    ParseOfScan("a,\"b,c\",d\n", ScanState([row], [], "", false));
    QuotedCommaCells();
    TrimmedRow(row);
  }

  lemma QuotedCommaText()
    ensures "a,\"b,c\",d\n" == ['a'] + ([','] + (Quote("b,c") + ([','] + (['d'] + ['\n']))))
  {
    assert Escape("b,c") == "b,c";
  }

  lemma QuotedCommaCells()
    ensures Trim("a") == "a" && Trim("b,c") == "b,c" && Trim("d") == "d"
  {
    TrimPieces("a", 0, 1);
    TrimPieces("b,c", 0, 3);
    TrimPieces("d", 0, 1);
  }

  lemma ScanQuotedCommaExample()
    ensures Scan(['a'] + ([','] + (Quote("b,c") + ([','] + (['d'] + ['\n'])))), Initial)
         == ScanState([["a", "b,c", "d"]], [], "", false)
  {
    var tail := ['d'] + ['\n'];
    var afterQuote := [','] + tail;
    var s2 := ScanState([], ["a"], "", false);
    var s1 := ScanState([], [], "a", false);
    ScanOther('a', [','] + (Quote("b,c") + afterQuote), Initial);
    assert Initial.(cell := Initial.cell + ['a']) == s1;
    ScanComma(Quote("b,c") + afterQuote, s1);
    assert s1.(row := s1.row + [s1.cell], cell := "") == s2;
    ScanQuoted("b,c", afterQuote, s2);
    assert s2.(cell := s2.cell + "b,c") == ScanState([], ["a"], "b,c", false);
    ScanQuotedCommaTail();
  }

  lemma ScanQuotedCommaTail()
    ensures Scan([','] + (['d'] + ['\n']), ScanState([], ["a"], "b,c", false))
         == ScanState([["a", "b,c", "d"]], [], "", false)
  {
    var s4 := ScanState([], ["a", "b,c"], "", false);
    var s5 := ScanState([], ["a", "b,c"], "d", false);
    var s3 := ScanState([], ["a"], "b,c", false);
    ScanComma(['d'] + ['\n'], s3);
    assert s3.(row := s3.row + [s3.cell], cell := "") == s4;
    ScanOther('d', ['\n'], s4);
    assert s4.(cell := s4.cell + ['d']) == s5;
    assert ['\n'] == ['\n'] + [];
    ScanNewline([], s5);
    assert s5.row + [s5.cell] == ["a", "b,c", "d"];
    assert s5.rows + [["a", "b,c", "d"]] == [["a", "b,c", "d"]];
  }

  /** Inside quotes every character but a quote, comma, newline and
      carriage return included, goes into the cell: neither the cell nor the
      row ends, and the finished rows are untouched. */
  lemma QuotedCharKept(c: char, rest: string, st: ScanState)
    requires st.inQuotes && c != '"'
    ensures Scan([c] + rest, st) == Scan(rest, st.(cell := st.cell + [c]))
  {
    assert ([c] + rest)[1..] == rest;
  }

  lemma ScanOther(c: char, s: string, st: ScanState)
    requires !st.inQuotes && c != '"' && c != ',' && c != '\n' && c != '\r'
    ensures Scan([c] + s, st) == Scan(s, st.(cell := st.cell + [c]))
  {
    assert ([c] + s)[1..] == s;
  }

  lemma ScanComma(s: string, st: ScanState)
    requires !st.inQuotes
    ensures Scan([','] + s, st) == Scan(s, st.(row := st.row + [st.cell], cell := ""))
  {
    assert ([','] + s)[1..] == s;
  }

  lemma ScanNewline(s: string, st: ScanState)
    requires !st.inQuotes
    ensures Scan(['\n'] + s, st) == Scan(s, st.(rows := st.rows + [st.row + [st.cell]], row := [], cell := ""))
  {
    assert (['\n'] + s)[1..] == s;
  }

  /** The example row `x,"""q"""`: a doubled quote inside quotes is one quote. */
  lemma EscapedQuoteExample()
    ensures Parse("x,\"\"\"q\"\"\"\n") == [["x", "\"q\""]]
  {
    var row := ["x", "\"q\""];
    EscapedQuoteText();
    ScanEscapedQuoteExample();
    ParseOfScan("x,\"\"\"q\"\"\"\n", ScanState([row], [], "", false));
    EscapedQuoteCells();
    TrimmedRow(row);
  }

  lemma EscapedQuoteText()
    ensures "x,\"\"\"q\"\"\"\n" == ['x'] + ([','] + (Quote("\"q\"") + ['\n']))
  {
    assert Escape("\"q\"") == "\"\"q\"\"";
  }

  lemma EscapedQuoteCells()
    ensures Trim("x") == "x" && Trim("\"q\"") == "\"q\""
  {
    TrimPieces("x", 0, 1);
    TrimPieces("\"q\"", 0, 3);
  }

  lemma ScanEscapedQuoteExample()
    ensures Scan(['x'] + ([','] + (Quote("\"q\"") + ['\n'])), Initial) == ScanState([["x", "\"q\""]], [], "", false)
  {
    var f := "\"q\"";
    var s2 := ScanState([], ["x"], "", false);
    var s3 := ScanState([], ["x"], f, false);
    var s1 := ScanState([], [], "x", false);
    ScanOther('x', [','] + (Quote(f) + ['\n']), Initial);
    assert Initial.(cell := Initial.cell + ['x']) == s1;
    ScanComma(Quote(f) + ['\n'], s1);
    assert s1.(row := s1.row + [s1.cell], cell := "") == s2;
    ScanQuoted(f, ['\n'], s2);
    assert s2.(cell := s2.cell + f) == s3;
    assert ['\n'] == ['\n'] + [];
    ScanNewline([], s3);
    assert s3.row + [s3.cell] == ["x", f];
    assert s3.rows + [["x", f]] == [["x", f]];
  }

  /** A carriage return inside a quoted field is kept: only outside quotes
      does the scan drop it. */
  lemma QuotedCarriageReturnKept()
    ensures Parse("\"a\rb\"") == [["a\rb"]]
  {
    var f := "a\rb";
    var st := ScanState([], [], f, false);
    ScanQuotedCarriageReturn();
    ParseOfScan("\"a\rb\"", st);
    FinishPendingCell(f);
    CarriageReturnCell();
    TrimmedRow([f]);
  }

  lemma FinishPendingCell(f: string)
    requires f != ""
    ensures Finish(ScanState([], [], f, false)) == TrimRows([[f]])
  {
    var st := ScanState([], [], f, false);
    assert Pending(st);
    assert st.row + [st.cell] == [f];
    assert st.rows + [[f]] == [[f]];
  }

  lemma CarriageReturnCell()
    ensures Trim("a\rb") == "a\rb"
  {
    TrimPieces("a\rb", 0, 3);
  }

  lemma ScanQuotedCarriageReturn()
    ensures Scan("\"a\rb\"", Initial) == ScanState([], [], "a\rb", false)
  {
    var f := "a\rb";
    QuotedCarriageReturnText();
    ScanQuoted(f, [], Initial);
    assert Initial.(cell := "" + f) == ScanState([], [], f, false);
  }

  lemma QuotedCarriageReturnText()
    ensures "\"a\rb\"" == Quote("a\rb") + []
  {
    assert Escape("a\rb") == "a\rb";
  }

  /** JavaScript's `s.split(sep)`: the pieces between separators, at least one. */
  function Split(s: string, sep: char): (parts: seq<string>)
    ensures |parts| >= 1
    decreases |s|
  {
    if s == [] then [""]
    else
      var p := Split(s[..|s| - 1], sep);
      var c := s[|s| - 1];
      if c == sep then p + [""]
      else p[..|p| - 1] + [p[|p| - 1] + [c]]
  }

  /** The pieces joined again with the separator between them. */
  function Join(parts: seq<string>, sep: char): string
    requires |parts| >= 1
    decreases |parts|
  {
    if |parts| == 1 then parts[0] else Join(parts[..|parts| - 1], sep) + [sep] + parts[|parts| - 1]
  }

  /** No piece holds the separator. */
  lemma {:induction false} SplitNoSeparator(s: string, sep: char)
    ensures forall k :: 0 <= k < |Split(s, sep)| ==> sep !in Split(s, sep)[k]
    decreases |s|
  {
    if s != [] {
      var u, c := s[..|s| - 1], s[|s| - 1];
      SplitNoSeparator(u, sep);
      var p := Split(u, sep);
      if c != sep {
        assert sep !in p[|p| - 1] + [c];
      }
    }
  }

  /** Joining the pieces with the separator gives the text back. */
  lemma {:induction false} JoinSplit(s: string, sep: char)
    ensures Join(Split(s, sep), sep) == s
    decreases |s|
  {
    if s != [] {
      var u, c := s[..|s| - 1], s[|s| - 1];
      var p := Split(u, sep);
      JoinSplit(u, sep);
      assert s == u + [c];
      if c == sep {
        JoinSnocEmpty(p, sep);
      } else {
        JoinExtendLast(p, sep, c);
      }
    }
  }

  lemma JoinSnocEmpty(p: seq<string>, sep: char)
    requires |p| >= 1
    ensures Join(p + [""], sep) == Join(p, sep) + [sep]
  {
    assert (p + [""])[..|p|] == p;
  }

  lemma JoinExtendLast(p: seq<string>, sep: char, c: char)
    requires |p| >= 1
    ensures Join(p[..|p| - 1] + [p[|p| - 1] + [c]], sep) == Join(p, sep) + [c]
  {
    var q := p[..|p| - 1] + [p[|p| - 1] + [c]];
    if |p| > 1 {
      assert q[..|q| - 1] == p[..|p| - 1];
    }
  }

  lemma SplitOnlyEmpty(s: string, sep: char)
    ensures Split(s, sep) == [""] <==> s == ""
  {
    if Split(s, sep) == [""] {
      JoinSplit(s, sep);
      assert Join([""], sep) == "";
    }
  }

  /** The text without its carriage returns. */
  function RemoveCR(s: string): (r: string)
    ensures '\r' !in r
    ensures forall c :: c in r ==> c in s
    decreases |s|
  {
    if s == [] then []
    else RemoveCR(s[..|s| - 1]) + (if s[|s| - 1] == '\r' then [] else [s[|s| - 1]])
  }

  function CellsOf(lines: seq<string>): (rows: seq<Row>)
    ensures |rows| == |lines|
    ensures forall k :: 0 <= k < |lines| ==> rows[k] == Split(lines[k], ',')
  {
    seq(|lines|, k requires 0 <= k < |lines| => Split(lines[k], ','))
  }

  lemma CellsOfSnoc(lines: seq<string>)
    requires |lines| >= 1
    ensures CellsOf(lines) == CellsOf(lines[..|lines| - 1]) + [Split(lines[|lines| - 1], ',')]
  {
  }

  /** The rows of a text without quotes, by plain splitting: drop the carriage
      returns, split into lines at newlines, split each line at commas, and
      leave out the last line when it is empty. */
  function SplitRows(text: string): seq<Row> {
    var lines := Split(RemoveCR(text), '\n');
    var rows := CellsOf(lines);
    if lines[|lines| - 1] == "" then rows[..|rows| - 1] else rows
  }

  /** What the scan of a text without quotes has built when the text ends,
      in terms of that text without carriage returns: every complete line
      split at commas, and the last line split at commas into the pending
      row and the pending cell. */
  function LineState(x: string): ScanState {
    var lines := Split(x, '\n');
    CellState(CellsOf(lines[..|lines| - 1]), Split(lines[|lines| - 1], ','))
  }

  /** The scan state after the finished rows `done` and the cells `p` of
      the current line. */
  function CellState(done: seq<Row>, p: seq<string>): ScanState
    requires |p| >= 1
  {
    ScanState(done, p[..|p| - 1], p[|p| - 1], false)
  }

  function QuoteFreeState(t: string): ScanState {
    LineState(RemoveCR(t))
  }

  lemma {:induction false} ScanQuoteFree(t: string)
    requires '"' !in t
    ensures Scan(t, Initial) == QuoteFreeState(t)
    decreases |t|
  {
    if t == [] {
      assert Split("", '\n') == [""];
      assert CellsOf([]) == [];
    } else {
      var u, c := t[..|t| - 1], t[|t| - 1];
      assert t == u + [c];
      assert '"' !in u by { assert forall x :: x in u ==> x in t; }
      ScanQuoteFree(u);
      ScanConcat(u, [c], Initial);
      var st := Scan(u, Initial);
      assert [c][1..] == [];
      QuoteFreeStep(u, c);
    }
  }

  lemma QuoteFreeStep(u: string, c: char)
    requires c != '"'
    ensures Scan([c], QuoteFreeState(u)) == QuoteFreeState(u + [c])
  {
    var t := u + [c];
    assert t[..|t| - 1] == u;
    assert [c][1..] == [];
    if c == '\r' {
      assert RemoveCR(t) == RemoveCR(u);
    } else {
      var x := RemoveCR(u);
      assert RemoveCR(t) == x + [c];
      assert (x + [c])[..|x|] == x;
      if c == '\n' {
        QuoteFreeNewline(x);
      } else {
        QuoteFreeInLine(x, c);
      }
    }
  }

  lemma SplitAtSeparator(u: string, sep: char)
    ensures Split(u + [sep], sep) == Split(u, sep) + [""]
  {
    assert (u + [sep])[..|u|] == u;
  }

  lemma SplitInPiece(u: string, sep: char, c: char)
    requires c != sep
    ensures var p := Split(u, sep); Split(u + [c], sep) == p[..|p| - 1] + [p[|p| - 1] + [c]]
  {
    assert (u + [c])[..|u|] == u;
  }

  lemma QuoteFreeNewline(x: string)
    ensures Scan(['\n'], LineState(x)) == LineState(x + ['\n'])
  {
    var st := LineState(x);
    var lines := Split(x, '\n');
    var p := Split(lines[|lines| - 1], ',');
    assert st.row + [st.cell] == p;
    ScanNewline([], st);
    assert ['\n'] + [] == ['\n'];
    CellsOfSnoc(lines);
    assert Scan(['\n'], st) == ScanState(CellsOf(lines), [], "", false);
    LineStateAfterNewline(x);
  }

  lemma LineStateAfterNewline(x: string)
    ensures LineState(x + ['\n']) == ScanState(CellsOf(Split(x, '\n')), [], "", false)
  {
    var lines := Split(x, '\n');
    var lines' := lines + [""];
    SplitAtSeparator(x, '\n');
    assert lines'[..|lines|] == lines;
    assert Split("", ',') == [""];
  }

  lemma QuoteFreeInLine(x: string, c: char)
    requires c != '"' && c != '\n' && c != '\r'
    ensures Scan([c], LineState(x)) == LineState(x + [c])
  {
    var st := LineState(x);
    assert [c] == [c] + [];
    if c == ',' {
      ScanComma([], st);
      LineStateAfterComma(x);
    } else {
      ScanOther(c, [], st);
      LineStateInCell(x, c);
    }
  }

  /** The last line of the text and its cells. */
  lemma LastLineExtended(x: string, c: char)
    requires c != '\n'
    ensures var lines := Split(x, '\n'); var lines' := Split(x + [c], '\n');
      |lines'| == |lines| && lines'[..|lines'| - 1] == lines[..|lines| - 1] && lines'[|lines'| - 1] == lines[|lines| - 1] + [c]
  {
    SplitInPiece(x, '\n', c);
  }

  /** The state for `x` followed by a character that is not a newline: the
      same finished rows, and the last line extended. */
  lemma LineStateExtended(x: string, c: char)
    requires c != '\n'
    ensures var lines := Split(x, '\n');
      LineState(x + [c]) == CellState(CellsOf(lines[..|lines| - 1]), Split(lines[|lines| - 1] + [c], ','))
  {
    LastLineExtended(x, c);
  }

  lemma LineStateAfterComma(x: string)
    ensures var st := LineState(x); LineState(x + [',']) == ScanState(st.rows, st.row + [st.cell], "", false)
  {
    var lines := Split(x, '\n');
    var lastLine := lines[|lines| - 1];
    var done := CellsOf(lines[..|lines| - 1]);
    var p := Split(lastLine, ',');
    LineStateExtended(x, ',');
    SplitAtSeparator(lastLine, ',');
    CellStateComma(done, p);
  }

  lemma CellStateComma(done: seq<Row>, p: seq<string>)
    requires |p| >= 1
    ensures var st := CellState(done, p); CellState(done, p + [""]) == ScanState(done, st.row + [st.cell], "", false)
  {
    assert (p + [""])[..|p|] == p;
    assert p[..|p| - 1] + [p[|p| - 1]] == p;
  }

  lemma LineStateInCell(x: string, c: char)
    requires c != '\n' && c != ','
    ensures var st := LineState(x); LineState(x + [c]) == st.(cell := st.cell + [c])
  {
    var lines := Split(x, '\n');
    var lastLine := lines[|lines| - 1];
    var done := CellsOf(lines[..|lines| - 1]);
    var p := Split(lastLine, ',');
    LineStateExtended(x, c);
    SplitInPiece(lastLine, ',', c);
    CellStateExtend(done, p, c);
  }

  lemma CellStateExtend(done: seq<Row>, p: seq<string>, c: char)
    requires |p| >= 1
    ensures var st := CellState(done, p);
      CellState(done, p[..|p| - 1] + [p[|p| - 1] + [c]]) == st.(cell := st.cell + [c])
  {
    var q := p[..|p| - 1] + [p[|p| - 1] + [c]];
    assert q[..|q| - 1] == p[..|p| - 1];
  }

  /** On text without quotes, `parseCSV` is plain splitting into lines and
      cells, each cell trimmed. */
  lemma QuoteFreeParse(text: string)
    requires '"' !in text
    ensures Parse(text) == TrimRows(SplitRows(text))
  {
    ScanQuoteFree(text);
    FlushLineState(RemoveCR(text));
  }

  /** The flush at the end of the scan turns the state for `x` into the
      lines of `x` split at commas, without an empty last line. */
  lemma FlushLineState(x: string)
    ensures var st := LineState(x); var lines := Split(x, '\n');
      (if Pending(st) then st.rows + [st.row + [st.cell]] else st.rows)
      == (if lines[|lines| - 1] == "" then CellsOf(lines)[..|lines| - 1] else CellsOf(lines))
  {
    var lines := Split(x, '\n');
    var m := |lines|;
    var p := Split(lines[m - 1], ',');
    SplitOnlyEmpty(lines[m - 1], ',');
    CellStateFlush(CellsOf(lines[..m - 1]), p);
    CellsOfSnoc(lines);
  }

  lemma CellStateFlush(done: seq<Row>, p: seq<string>)
    requires |p| >= 1
    ensures var st := CellState(done, p);
      (Pending(st) <==> p != [""]) && st.row + [st.cell] == p
  {
    assert p[..|p| - 1] + [p[|p| - 1]] == p;
  }

  /** On text without quotes no cell holds a comma, a newline, a carriage
      return or a quote. */
  lemma QuoteFreeCells(text: string)
    requires '"' !in text
    ensures forall k, j :: 0 <= k < |Parse(text)| && 0 <= j < |Parse(text)[k]| ==>
      var c := Parse(text)[k][j]; ',' !in c && '\n' !in c && '\r' !in c && '"' !in c
  {
    QuoteFreeParse(text);
    var rows := SplitRows(text);
    forall k, j | 0 <= k < |rows| && 0 <= j < |rows[k]|
      ensures var c := Trim(rows[k][j]); ',' !in c && '\n' !in c && '\r' !in c && '"' !in c
    {
      QuoteFreeCell(text, k, j);
      TrimKeepsChars(rows[k][j]);
    }
  }

  lemma QuoteFreeCell(text: string, k: int, j: int)
    requires '"' !in text
    requires 0 <= k < |SplitRows(text)| && 0 <= j < |SplitRows(text)[k]|
    ensures var c := SplitRows(text)[k][j]; ',' !in c && '\n' !in c && '\r' !in c && '"' !in c
  {
    var x := RemoveCR(text);
    var lines := Split(x, '\n');
    var line := lines[k];
    assert SplitRows(text)[k] == Split(line, ',');
    var cell := Split(line, ',')[j];
    assert '\n' !in line by { SplitNoSeparator(x, '\n'); }
    assert ',' !in cell by { SplitNoSeparator(line, ','); }
    SplitPiecesFromText(x, '\n', k);
    SplitPiecesFromText(line, ',', j);
    assert forall c :: c in cell ==> c in line;
    assert forall c :: c in line ==> c in x;
  }

  lemma {:induction false} SplitPiecesFromText(s: string, sep: char, k: int)
    requires 0 <= k < |Split(s, sep)|
    ensures forall x :: x in Split(s, sep)[k] ==> x in s
    decreases |s|
  {
    if s != [] {
      var p := Split(s[..|s| - 1], sep);
      if k < |p| {
        SplitPiecesFromText(s[..|s| - 1], sep, k);
      }
      if k == |p| - 1 || k == |p| {
        if k < |p| { SplitPiecesFromText(s[..|s| - 1], sep, k); }
      }
    }
  }
}
