/** The pure part of the load handler that turns parsed rows into
    `{term, definition}` records: header sniffing on row 0, then the
    filter that drops blank terms and the map that builds each record. */
module Records {
  import opened Text

  type Row = seq<string>

  /** A record before duplicate tagging. */
  datatype Entry = Entry(term: string, definition: string)

  /** Row 0 looks like a header: it has at least two cells, the first
      (lower-cased) mentions "word" or "term" and the second "def" or
      "meaning". */
  predicate LooksLikeHeader(rows: seq<Row>) {
    && |rows| > 0 && |rows[0]| >= 2
    && (Contains(Lower(rows[0][0]), "word") || Contains(Lower(rows[0][0]), "term"))
    && (Contains(Lower(rows[0][1]), "def") || Contains(Lower(rows[0][1]), "meaning"))
  }

  /** The rows with row 0 removed when it looks like a header. */
  function DropHeader(rows: seq<Row>): (r: seq<Row>)
    ensures |rows| - 1 <= |r| <= |rows|
    ensures r == rows[|rows| - |r|..]
  {
    if LooksLikeHeader(rows) then rows[1..] else rows
  }

  /** A row yields a record when it has a cell and its first cell is not blank. */
  predicate Keep(r: Row) {
    |r| >= 1 && Trim(r[0]) != ""
  }

  function MakeEntry(r: Row): Entry
    requires |r| >= 1
  {
    Entry(Trim(r[0]), if |r| >= 2 then Trim(r[1]) else "")
  }

  lemma EntryTrimmed(r: Row)
    requires Keep(r)
    ensures var e := MakeEntry(r);
      e.term != "" && Trim(e.term) == e.term && Trim(e.definition) == e.definition
  {
    TrimIdempotent(r[0]);
    if |r| >= 2 {
      TrimIdempotent(r[1]);
    } else {
      TrimPieces("", 0, 0);
    }
  }

  /** The filter and map of the load handler: one record per kept row, in
      row order.  Every term is non-blank and trimmed, every definition
      trimmed. */
  function ToRecords(rows: seq<Row>): (es: seq<Entry>)
    ensures |es| <= |rows|
    ensures forall k :: 0 <= k < |es| ==>
      es[k].term != "" && Trim(es[k].term) == es[k].term && Trim(es[k].definition) == es[k].definition
  {
    if rows == [] then []
    else
      var rest := ToRecords(rows[1..]);
      if Keep(rows[0]) then
        EntryTrimmed(rows[0]);
        [MakeEntry(rows[0])] + rest
      else
        rest
  }
}

/** What the record building promises: which rows become records, in what
    order, and when the first row is taken for a header. */
module RecordsProperties {
  import opened Text
  import opened Records

  /** Row 0 is dropped exactly when it has at least two cells, its first
      cell mentions "word" or "term" and its second "def" or "meaning",
      whatever the case of the letters; no other row is ever dropped. */
  lemma DropHeaderSpec(rows: seq<Row>)
    ensures |DropHeader(rows)| == |rows| - 1 <==>
      && |rows| > 0 && |rows[0]| >= 2
      && (Contains(Lower(rows[0][0]), "word") || Contains(Lower(rows[0][0]), "term"))
      && (Contains(Lower(rows[0][1]), "def") || Contains(Lower(rows[0][1]), "meaning"))
    ensures forall i :: 0 < i < |rows| ==> rows[i] in DropHeader(rows)
  {
    var r := DropHeader(rows);
    forall i | 0 < i < |rows| ensures rows[i] in r {
      assert rows[i] == r[i - (|rows| - |r|)];
    }
  }

  /** Records keep the row order: the records of two blocks of rows are
      the records of the first block followed by those of the second. */
  lemma {:induction false} ToRecordsConcat(a: seq<Row>, b: seq<Row>)
    ensures ToRecords(a + b) == ToRecords(a) + ToRecords(b)
    decreases |a|
  {
    if a == [] {
      assert a + b == b;
    } else {
      assert (a + b)[1..] == a[1..] + b;
      ToRecordsConcat(a[1..], b);
    }
  }

  /** Exactly the kept rows become records: every record is built from a
      kept row, and every kept row gives a record, its term the trimmed
      first cell and its definition the trimmed second cell or "". */
  lemma RecordsFromRows(rows: seq<Row>)
    ensures forall e :: e in ToRecords(rows) ==>
      exists i :: 0 <= i < |rows| && Keep(rows[i]) && e == MakeEntry(rows[i])
    ensures forall i :: 0 <= i < |rows| && Keep(rows[i]) ==> MakeEntry(rows[i]) in ToRecords(rows)
  {
    RecordsComeFromRows(rows);
    KeptRowsGiveRecords(rows);
  }

  lemma {:induction false} RecordsComeFromRows(rows: seq<Row>)
    ensures forall e :: e in ToRecords(rows) ==>
      exists i :: 0 <= i < |rows| && Keep(rows[i]) && e == MakeEntry(rows[i])
    decreases |rows|
  {
    if rows != [] {
      RecordsComeFromRows(rows[1..]);
      forall e | e in ToRecords(rows)
        ensures exists i :: 0 <= i < |rows| && Keep(rows[i]) && e == MakeEntry(rows[i])
      {
        if e in ToRecords(rows[1..]) {
          var i :| 0 <= i < |rows[1..]| && Keep(rows[1..][i]) && e == MakeEntry(rows[1..][i]);
          assert rows[i + 1] == rows[1..][i];
        } else {
          assert Keep(rows[0]) && e == MakeEntry(rows[0]);
        }
      }
    }
  }

  lemma KeptRowsGiveRecords(rows: seq<Row>)
    ensures forall i :: 0 <= i < |rows| && Keep(rows[i]) ==> MakeEntry(rows[i]) in ToRecords(rows)
  {
    forall i | 0 <= i < |rows| && Keep(rows[i]) ensures MakeEntry(rows[i]) in ToRecords(rows) {
      KeptRowGivesRecord(rows, i);
    }
  }

  lemma {:induction false} KeptRowGivesRecord(rows: seq<Row>, i: int)
    requires 0 <= i < |rows| && Keep(rows[i])
    ensures MakeEntry(rows[i]) in ToRecords(rows)
    decreases i
  {
    var rest := ToRecords(rows[1..]);
    if i > 0 {
      KeptRowGivesRecord(rows[1..], i - 1);
      assert rows[1..][i - 1] == rows[i];
      assert ToRecords(rows) == rest || ToRecords(rows) == [MakeEntry(rows[0])] + rest;
    }
  }

  /** A single row gives one record when it is kept and none otherwise. */
  lemma OneRow(r: Row)
    ensures Keep(r) ==> ToRecords([r]) == [Entry(Trim(r[0]), if |r| >= 2 then Trim(r[1]) else "")]
    ensures !Keep(r) ==> ToRecords([r]) == []
  {
    assert [r][1..] == [];
  }

  /** The header example: `Word,Definition` above `run,to move fast` is
      dropped, and the data row alone is kept. */
  lemma HeaderExamples()
    ensures DropHeader([["Word", "Definition"], ["run", "to move fast"]]) == [["run", "to move fast"]]
    ensures DropHeader([["run", "to move fast"]]) == [["run", "to move fast"]]
  {
    var h := [["Word", "Definition"], ["run", "to move fast"]];
    assert Lower("Word") == "word";
    assert OccursAt(Lower("Word"), "word", 0);
    assert Lower("Definition") == "definition";
    assert OccursAt(Lower("Definition"), "def", 0);
    assert LooksLikeHeader(h);
    var d := [["run", "to move fast"]];
    assert Lower("run") == "run";
    assert !Contains(Lower("run"), "word") && !Contains(Lower("run"), "term");
  }
}
