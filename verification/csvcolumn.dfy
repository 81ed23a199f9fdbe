/**
  test_2's candidate list: the second field of every CSV row after the header
  row, for rows with at least two fields, deduplicated through a set and sorted.
  Parsing the CSV text is left to the caller: the rows arrive already split into
  fields.
 */
module CsvColumn {
  import opened Order

  /** One record as `csv.reader` yields it. */
  type Row = seq<string>

  /** The outcome of reading the candidates: `next(reader)` on a file without
      any row raises `StopIteration`, which ends the script. */
  datatype Candidates = Candidates(names: seq<string>) | MissingHeader

  /** The second field of every row that has one, in row order. */
  function ColumnValues(rows: seq<Row>): seq<string>
  {
    if |rows| == 0 then []
    else (if |rows[0]| >= 2 then [rows[0][1]] else []) + ColumnValues(rows[1..])
  }

  /** A value is collected exactly when some row of at least two fields holds it
      in its second field. */
  lemma {:induction false} ColumnValuesMembership(rows: seq<Row>, x: string)
    ensures x in ColumnValues(rows) <==> exists i :: 0 <= i < |rows| && |rows[i]| >= 2 && rows[i][1] == x
    decreases |rows|
  {
    if |rows| > 0 {
      ColumnValuesMembership(rows[1..], x);
      if exists i :: 0 <= i < |rows| && |rows[i]| >= 2 && rows[i][1] == x {
        var i :| 0 <= i < |rows| && |rows[i]| >= 2 && rows[i][1] == x;
        if i > 0 {
          assert rows[1..][i - 1] == rows[i];
        }
      }
      if x in ColumnValues(rows[1..]) {
        var i :| 0 <= i < |rows[1..]| && |rows[1..][i]| >= 2 && rows[1..][i][1] == x;
        assert rows[i + 1] == rows[1..][i];
      }
    }
  }

  /** `sorted(set(row[1] for each row after the header with len(row) >= 2))`. */
  function SourceNames(rows: seq<Row>): (r: Candidates)
    ensures r.MissingHeader? <==> |rows| == 0
    ensures r.Candidates? ==> StrictlySorted(r.names)
    ensures r.Candidates? ==> forall i :: 0 <= i < |r.names| ==> r.names[i] in ColumnValues(rows[1..])
  {
    if |rows| == 0 then MissingHeader
    else Candidates(SortedSet(ColumnValues(rows[1..])))
  }

  /** The candidate list holds every collected value, and is the only strictly
      sorted list that holds exactly those values. */
  lemma SourceNamesComplete(rows: seq<Row>, sorted: seq<string>)
    requires |rows| > 0
    requires StrictlySorted(sorted)
    requires forall x :: x in sorted <==> x in ColumnValues(rows[1..])
    ensures forall x :: x in ColumnValues(rows[1..]) ==> x in SourceNames(rows).names
    ensures SourceNames(rows).names == sorted
  {
    SortedUnique(SourceNames(rows).names, sorted);
  }

  /** The header row never contributes a candidate. */
  lemma {:induction false} SourceNamesSkipsHeader(header: Row, other: Row, rows: seq<Row>)
    ensures SourceNames([header] + rows) == SourceNames([other] + rows)
  {
    assert ([header] + rows)[1..] == rows == ([other] + rows)[1..];
  }
}
