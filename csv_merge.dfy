/** The csv `merge` command: the rows of several loaded files, one file after the other, aligned
    to the first file's columns, optionally keeping only the first row per key. */
module CsvMerge {
  import opened Text
  import opened Seqs
  import opened CsvCommon

  /** The output columns: those of the first file, none without files. */
  function OutColumns(tables: seq<Table>): seq<string>
  {
    if tables == [] then [] else tables[0].columns
  }

  /** A row of a file, as appended: a copy when the file has the (non-empty) output columns,
      otherwise cut to the output columns. */
  function AlignRow(row: Row, fileColumns: seq<string>, columns: seq<string>): Row
  {
    if columns != [] && fileColumns == columns then row else Project(row, columns)
  }

  function AlignFn(fileColumns: seq<string>, columns: seq<string>): Row -> Row
  {
    (row: Row) => AlignRow(row, fileColumns, columns)
  }

  /** The rows of the files, in file order, aligned to `columns`. */
  function Aligned(tables: seq<Table>, columns: seq<string>): seq<Row>
  {
    if tables == [] then []
    else
      var t := tables[|tables| - 1];
      Aligned(tables[..|tables| - 1], columns) + MapSeq(t.rows, AlignFn(t.columns, columns))
  }

  /** The dedup key of a row: `(row.get(unique_by) or "").strip()`. */
  function KeyFn(column: string): Row -> string
  {
    (row: Row) => Strip(Get(row, column))
  }

  /** `--unique-by` applies only when it names an output column. */
  predicate Dedups(uniqueBy: Option<string>, columns: seq<string>)
  {
    uniqueBy.Some? && uniqueBy.value != "" && columns != [] && uniqueBy.value in columns
  }

  /** The rows `main` writes. */
  function MergeRows(tables: seq<Table>, uniqueBy: Option<string>): seq<Row>
  {
    var columns := OutColumns(tables);
    var rows := Aligned(tables, columns);
    if Dedups(uniqueBy, columns) then DedupBy(rows, KeyFn(uniqueBy.value)) else rows
  }

  // ---------------------------------------------------------------------------------------
  // The loops of `main`

  /** The inner loop: the rows of one file appended to `allRows`. */
  method AppendRows(allRows: seq<Row>, t: Table, columns: seq<string>) returns (out: seq<Row>)
    ensures out == allRows + MapSeq(t.rows, AlignFn(t.columns, columns))
  {
    out := allRows;
    var i := 0;
    while i < |t.rows|
      invariant 0 <= i <= |t.rows|
      invariant out == allRows + MapSeq(t.rows[..i], AlignFn(t.columns, columns))
    {
      MapSeqPrefixSnoc(t.rows, i, AlignFn(t.columns, columns));
      var row := t.rows[i];
      if columns != [] && t.columns == columns {
        out := out + [row];
      } else {
        out := out + [Project(row, columns)];
      }
      i := i + 1;
    }
    assert t.rows[..i] == t.rows;
  }

  /** `main` after loading every file: the output columns and rows. */
  method MergeCsv(tables: seq<Table>, uniqueBy: Option<string>) returns (columns: seq<string>, rows: seq<Row>)
    ensures columns == OutColumns(tables)
    ensures rows == MergeRows(tables, uniqueBy)
  {
    var allColumns: Option<seq<string>> := None;
    rows := [];
    var i := 0;
    while i < |tables|
      invariant 0 <= i <= |tables|
      invariant allColumns == if i == 0 then None else Some(tables[0].columns)
      invariant rows == Aligned(tables[..i], OutColumns(tables))
    {
      if allColumns.None? {
        allColumns := Some(tables[i].columns);
      }
      assert tables[..i + 1][..i] == tables[..i];
      rows := AppendRows(rows, tables[i], allColumns.value);
      i := i + 1;
    }
    assert tables[..i] == tables;
    columns := if allColumns.None? then [] else allColumns.value;
    if Dedups(uniqueBy, columns) {
      rows := DedupByLoop(rows, KeyFn(uniqueBy.value));
    }
  }

  // ---------------------------------------------------------------------------------------
  // Properties

  function TotalRows(tables: seq<Table>): nat
  {
    if tables == [] then 0 else TotalRows(tables[..|tables| - 1]) + |tables[|tables| - 1].rows|
  }

  /** Before dedup there is one row per input row, file after file. */
  lemma {:induction false} AlignedLength(tables: seq<Table>, columns: seq<string>)
    ensures |Aligned(tables, columns)| == TotalRows(tables)
  {
    if tables != [] {
      AlignedLength(tables[..|tables| - 1], columns);
    }
  }

  /** The rows of one more file come after those of the previous files. */
  lemma AlignedSnoc(tables: seq<Table>, t: Table, columns: seq<string>)
    ensures Aligned(tables + [t], columns) == Aligned(tables, columns) + MapSeq(t.rows, AlignFn(t.columns, columns))
  {
    assert (tables + [t])[..|tables|] == tables;
  }

  /** For a row keyed by its file's columns (as the loader builds them), the aligned row has
      exactly the output columns, a missing cell as `""` and no other column; with no output
      columns every row becomes `{}`. */
  lemma AlignRowProperties(row: Row, fileColumns: seq<string>, columns: seq<string>)
    requires row.Keys == set c | c in fileColumns
    ensures AlignRow(row, fileColumns, columns).Keys == set c | c in columns
    ensures forall c :: c in columns ==> AlignRow(row, fileColumns, columns)[c] == Get(row, c)
    ensures columns == [] ==> AlignRow(row, fileColumns, columns) == map[]
  {
  }

  /** Without dedup the rows are the aligned rows of all files; with it they keep, in order, the
      first row of every distinct stripped key. */
  lemma MergeRowsProperties(tables: seq<Table>, uniqueBy: Option<string>)
    ensures !Dedups(uniqueBy, OutColumns(tables)) ==>
      MergeRows(tables, uniqueBy) == Aligned(tables, OutColumns(tables))
      && |MergeRows(tables, uniqueBy)| == TotalRows(tables)
    ensures Dedups(uniqueBy, OutColumns(tables)) ==>
      var all := Aligned(tables, OutColumns(tables));
      var key := KeyFn(uniqueBy.value);
      var r := MergeRows(tables, uniqueBy);
      IsSubseq(r, all)
      && KeysOf(r, key) == Dedup(KeysOf(all, key))
      && forall j :: 0 <= j < |r| ==>
           key(r[j]) in KeysOf(all, key) && r[j] == all[IndexOf(KeysOf(all, key), key(r[j]))]
  {
    var all := Aligned(tables, OutColumns(tables));
    AlignedLength(tables, OutColumns(tables));
    if Dedups(uniqueBy, OutColumns(tables)) {
      var key := KeyFn(uniqueBy.value);
      DedupBySubseq(all, key);
      DedupByKeys(all, key);
      DedupByFirst(all, key);
    }
  }

  /** A `--unique-by` that is not an output column changes nothing. */
  lemma UnknownKeyColumn(tables: seq<Table>, column: string)
    requires column !in OutColumns(tables)
    ensures MergeRows(tables, Some(column)) == MergeRows(tables, None)
  {
  }
}
