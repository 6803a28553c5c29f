/** The csv `validate` command: the rows of the comment-free text, counted by whether they have
    the width of the first row. */
module CsvValidate {
  import opened Text
  import opened Seqs
  import opened CsvCommon

  /** The report `main` writes: `{"valid": true, "record_count": 0, "message": "empty file"}`
      for a text without rows, otherwise the dict with `valid`, `record_count`, `skipped_rows`,
      `expected_columns`, `size_bytes` and, when present, `error`. */
  datatype Report =
    | EmptyFile
    | Checked(valid: bool, recordCount: nat, skippedRows: nat, expectedColumns: nat, sizeBytes: nat,
              error: Option<string>)

  /** The message of a strict check that skipped `n` rows. */
  function ErrorMessage(n: nat): string
  {
    "Inconsistent column count: " + IntToString(n) + " row(s) skipped (footer/comment lines)."
  }

  /** The rows that are counted: all of them without a header, all but the header otherwise. */
  function Body(rows: seq<Cells>, noHeader: bool): seq<Cells>
    requires rows != []
  {
    if noHeader then rows else rows[1..]
  }

  /** The report for the tokenized rows. */
  function Check(rows: seq<Cells>, noHeader: bool, strict: bool, sizeBytes: nat): Report
  {
    if rows == [] then EmptyFile
    else
      var expected := |rows[0]|;
      var body := Body(rows, noHeader);
      var skipped := |Filter(body, Negate(WidthIs(expected)))|;
      var valid := skipped == 0 || !strict;
      Checked(valid, |Filter(body, WidthIs(expected))|, skipped, expected, sizeBytes,
              if !valid && strict then Some(ErrorMessage(skipped)) else None)
  }

  /** `main`: `splitLines` is `str.splitlines`, `reader` the tokenizing of the lines joined by
      newlines with the delimiter, and `encodedSize` the length of the text in the encoding. */
  function Validate(text: string, comment: Option<string>, noHeader: bool, strict: bool,
                    splitLines: string -> seq<string>, reader: seq<string> -> seq<Cells>,
                    encodedSize: string -> nat): Report
  {
    Check(reader(CommentFree(splitLines(text), comment)), noHeader, strict, encodedSize(text))
  }

  // ---------------------------------------------------------------------------------------
  // Properties

  /** No rows: an empty report, which counts as valid with no records. */
  lemma EmptyIsValid(noHeader: bool, strict: bool, sizeBytes: nat)
    ensures Check([], noHeader, strict, sizeBytes) == EmptyFile
  {
  }

  /** Otherwise the expected width is that of the first row, and every counted row is either a
      record (it has that width) or skipped: the two counts add up to the number of rows less
      the header. */
  lemma CountsProperties(rows: seq<Cells>, noHeader: bool, strict: bool, sizeBytes: nat)
    requires rows != []
    ensures var r := Check(rows, noHeader, strict, sizeBytes);
      r.Checked?
      && r.expectedColumns == |rows[0]|
      && r.recordCount + r.skippedRows == |rows| - (if noHeader then 0 else 1)
      && r.sizeBytes == sizeBytes
  {
    FilterComplement(Body(rows, noHeader), Negate(WidthIs(|rows[0]|)), WidthIs(|rows[0]|));
  }

  /** A record is a counted row of the expected width and a skipped row one of another width;
      without a header the first row is always a record. */
  lemma RecordsProperties(rows: seq<Cells>, noHeader: bool)
    requires rows != []
    ensures var records := Filter(Body(rows, noHeader), WidthIs(|rows[0]|));
      var skipped := Filter(Body(rows, noHeader), Negate(WidthIs(|rows[0]|)));
      (forall i :: 0 <= i < |records| ==> |records[i]| == |rows[0]| && records[i] in Body(rows, noHeader))
      && (forall i :: 0 <= i < |skipped| ==> |skipped[i]| != |rows[0]| && skipped[i] in Body(rows, noHeader))
      && (noHeader ==> |records| >= 1)
  {
    if noHeader {
      assert WidthIs(|rows[0]|)(rows[0]);
    }
  }

  /** Valid exactly when nothing was skipped or the check is not strict; an error is reported
      exactly when a strict check skipped rows, and it names their number. */
  lemma ValidityProperties(rows: seq<Cells>, noHeader: bool, strict: bool, sizeBytes: nat)
    requires rows != []
    ensures var r := Check(rows, noHeader, strict, sizeBytes);
      (r.valid <==> r.skippedRows == 0 || !strict)
      && (r.error.Some? <==> strict && r.skippedRows > 0)
      && (r.error.Some? ==> r.error.value == ErrorMessage(r.skippedRows))
      && (!strict ==> r.valid)
  {
  }
}
