/**
 * What a writer built with analyzer.py's `DATA_HEADERS` does with the
 * records of successful analyses: if it is given only such records, none
 * is refused, and each row lists the record's fields in column order.
 * Which results main.py actually hands to the writer is decided by an
 * `ImageAnalyzer` class that is not part of this model.
 */
module Pipeline {
  import opened Wrappers
  import opened Text
  import opened Paths
  import opened Records
  import opened Analyzer
  import opened CsvWriter

  /** A successful analysis is never refused by a writer with
      `DATA_HEADERS`, and the row it gets lists the file name, the size,
      width, height, aspect ratio, colour and face count, in that order. */
  lemma AnalyzedRecordIsWritten<F>(path: string, m: Measurements<F>)
    requires Completes(m)
    ensures var rec := AnalyzeSingleImage(path, m).value;
      var shape, rgb := m.image.value.value, m.averageRgb.value;
      Fits(DataHeaders, rec) &&
      RowOf(DataHeaders, rec) == [
        Name(path),
        IntToString(m.fileSize.value),
        IntToString(shape.width),
        IntToString(shape.height),
        AspectRatio(shape.width, shape.height),
        AverageColorHex(rgb.0, rgb.1, rgb.2),
        IntToString(FaceCount(m.faces.value))]
  {
    var rec := AnalyzeSingleImage(path, m).value;
    AnalyzedFields(path, m);
    assert Fits(DataHeaders, rec) by {
      assert forall k | k in rec :: k in DataHeaders;
    }
    RowOfDataHeaders(rec);
  }

  /** A record with every header as a key gets its values in header order. */
  lemma RowOfDataHeaders(rec: Record)
    requires forall h | h in DataHeaders :: h in rec
    ensures RowOf(DataHeaders, rec) == [
      Render(rec["filename"]), Render(rec["filesize"]), Render(rec["width"]),
      Render(rec["height"]), Render(rec["aspect_ratio"]), Render(rec["average_color"]),
      Render(rec["num_of_faces"])]
  {
    var row := RowOf(DataHeaders, rec);
    assert DataHeaders[0] == "filename" && DataHeaders[1] == "filesize" && DataHeaders[2] == "width";
    assert DataHeaders[3] == "height" && DataHeaders[4] == "aspect_ratio";
    assert DataHeaders[5] == "average_color" && DataHeaders[6] == "num_of_faces";
    assert forall i | 0 <= i < 7 :: DataHeaders[i] in rec;
  }

  /** Records with exactly the `DATA_HEADERS` keys, as every successful
      analysis has, are all written: nothing after the header is skipped. */
  lemma AnalyzedRecordsAllWritten(data: seq<Record>)
    requires forall rec | rec in data :: rec.Keys == set h | h in DataHeaders
    ensures Accepted(DataHeaders, data) == data
    ensures |Table(DataHeaders, data)| == 1 + |data|
  {
    forall rec | rec in data ensures Fits(DataHeaders, rec) {
      assert forall k | k in rec :: k in DataHeaders;
    }
    AllAccepted(DataHeaders, data);
  }
}
