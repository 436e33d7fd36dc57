/**
 * `CSVWriter` (image_analyzer/csv_writer.py): writes a header row and then
 * one row per record to its output file, skipping records that
 * `csv.DictWriter` refuses. The output file is modelled as the sequence of
 * rows it holds; each row is a sequence of cells.
 */
module CsvWriter {
  import opened Text
  import opened Seqs
  import opened Records

  /** The text DictWriter writes for a value: `str(value)`. */
  function Render(v: Value): string
  {
    match v
    case Str(s) => s
    case Num(n) => IntToString(n)
  }

  /** `writerow` accepts a record only when every key of it is a header
      (DictWriter's default `extrasaction='raise'` raises ValueError
      otherwise). */
  predicate Fits(headers: seq<string>, rec: Record)
  {
    forall k | k in rec :: k in headers
  }

  /** The row DictWriter writes for a record it accepts: one cell per
      header, in header order, and "" (its default `restval`) for a header
      the record lacks. */
  function RowOf(headers: seq<string>, rec: Record): (row: seq<string>)
    ensures |row| == |headers|
    ensures forall i | 0 <= i < |headers| ::
      row[i] == if headers[i] in rec then Render(rec[headers[i]]) else ""
  {
    seq(|headers|, i requires 0 <= i < |headers| =>
      if headers[i] in rec then Render(rec[headers[i]]) else "")
  }

  /** The records `write_data` writes, in input order. */
  function Accepted(headers: seq<string>, data: seq<Record>): (r: seq<Record>)
    ensures forall rec | rec in r :: rec in data && Fits(headers, rec)
    ensures forall rec | rec in data && Fits(headers, rec) :: rec in r
  {
    Filter(rec => Fits(headers, rec), data)
  }

  /** The rows written for `data`, after the header. */
  function DataRows(headers: seq<string>, data: seq<Record>): (rows: seq<seq<string>>)
    ensures |rows| == |Accepted(headers, data)|
  {
    Map(rec => RowOf(headers, rec), Accepted(headers, data))
  }

  /** The file `write_data(data)` leaves: the header row, then the rows of
      the accepted records. */
  function Table(headers: seq<string>, data: seq<Record>): seq<seq<string>>
  {
    [headers] + DataRows(headers, data)
  }

  /** Writing a record either adds its row or, when DictWriter refuses it,
      nothing. */
  lemma DataRowsAppend(headers: seq<string>, data: seq<Record>, rec: Record)
    ensures DataRows(headers, data + [rec]) ==
      DataRows(headers, data) + (if Fits(headers, rec) then [RowOf(headers, rec)] else [])
  {
    var fits := rec => Fits(headers, rec);
    var row := rec => RowOf(headers, rec);
    FilterAppend(fits, data, [rec]);
    assert Filter(fits, [rec]) == if fits(rec) then [rec] else [] by {
      assert [rec][1..] == [];
    }
    var a, b := Filter(fits, data), Filter(fits, [rec]);
    assert Map(row, a + b) == Map(row, a) + Map(row, b);
  }

  class CSVWriter {
    /** `output_file`: the destination. */
    const outputFile: string
    /** `headers`: the column names, in order. */
    const headers: seq<string>
    /** The rows the output file holds. */
    var rows: seq<seq<string>>

    /** `__init__`: stores the destination and the headers. The file keeps
        whatever it held (`existing`) until `WriteData`. */
    constructor (outputFile: string, headers: seq<string>, existing: seq<seq<string>>)
      ensures this.outputFile == outputFile && this.headers == headers && rows == existing
    {
      this.outputFile := outputFile;
      this.headers := headers;
      rows := existing;
    }

    /** `write_data`: opening in 'w' mode discards the old contents, the
        header row is written first, then each record in turn; a record
        DictWriter refuses is skipped and the loop goes on. */
    method WriteData(data: seq<Record>)
      modifies this
      ensures rows == Table(headers, data)
    {
      rows := [headers];
      for i := 0 to |data|
        invariant rows == [headers] + DataRows(headers, data[..i])
      {
        assert data[..i + 1] == data[..i] + [data[i]];
        DataRowsAppend(headers, data[..i], data[i]);
        if !Fits(headers, data[i]) {
          continue;
        }
        rows := rows + [RowOf(headers, data[i])];
      }
      assert data[..|data|] == data;
    }
  }

  // ---------------------------------------------------------------------
  // Properties of the written file

  /** The header row comes first, and there is one row after it for each
      accepted record, so at most one per record. */
  lemma TableShape(headers: seq<string>, data: seq<Record>)
    ensures |Table(headers, data)| == 1 + |Accepted(headers, data)| <= 1 + |data|
    ensures Table(headers, data)[0] == headers
  {
  }

  /** The rows after the header follow the order of the input. */
  lemma AcceptedInOrder(headers: seq<string>, data: seq<Record>)
    ensures SubsequenceOf(Accepted(headers, data), data)
  {
    FilterIsSubsequence(rec => Fits(headers, rec), data);
  }

  /** When DictWriter accepts every record, every record is written. */
  lemma {:induction false} AllAccepted(headers: seq<string>, data: seq<Record>)
    requires forall rec | rec in data :: Fits(headers, rec)
    ensures Accepted(headers, data) == data
    decreases |data|
  {
    if data != [] {
      assert Accepted(headers, data) == [data[0]] + Accepted(headers, data[1..]);
      AllAccepted(headers, data[1..]);
    }
  }

  /** Every record DictWriter accepts is written, its cells in header order. */
  lemma TableComplete(headers: seq<string>, data: seq<Record>, rec: Record)
    requires rec in data && Fits(headers, rec)
    ensures RowOf(headers, rec) in Table(headers, data)[1..]
  {
    var acc := Accepted(headers, data);
    var i :| 0 <= i < |acc| && acc[i] == rec;
    assert Table(headers, data)[1..] == DataRows(headers, data);
    assert DataRows(headers, data)[i] == RowOf(headers, rec);
  }

  /** Every row after the header is the row of a record of `data` that
      DictWriter accepts. */
  lemma TableSound(headers: seq<string>, data: seq<Record>, j: nat)
    requires 1 <= j < |Table(headers, data)|
    ensures exists rec | rec in data && Fits(headers, rec) :: Table(headers, data)[j] == RowOf(headers, rec)
  {
    var acc := Accepted(headers, data);
    var rec := acc[j - 1];
    assert rec in acc;
    assert Table(headers, data)[j] == RowOf(headers, rec);
  }

  /** A refused record leaves no trace: the file is the one written without
      it, and the records after it are still written. */
  lemma SkippedRecordWritesNothing(headers: seq<string>, before: seq<Record>, rec: Record, after: seq<Record>)
    requires !Fits(headers, rec)
    ensures Table(headers, before + [rec] + after) == Table(headers, before + after)
  {
    var fits := rec => Fits(headers, rec);
    FilterAppend(fits, before + [rec], after);
    FilterAppend(fits, before, [rec]);
    FilterAppend(fits, before, after);
    assert Filter(fits, [rec]) == [] by {
      assert [rec][1..] == [];
    }
    assert Filter(fits, before + [rec]) == Filter(fits, before);
  }

  /** Writing the same data twice leaves the same file as writing it once,
      whatever the file held before. */
  method WriteDataTwice(w: CSVWriter, data: seq<Record>) returns (first: seq<seq<string>>)
    modifies w
    ensures first == Table(w.headers, data) && w.rows == first
  {
    w.WriteData(data);
    first := w.rows;
    w.WriteData(data);
  }
}
