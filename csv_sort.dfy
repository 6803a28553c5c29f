/** The csv `sort` command: the rows, stably sorted by the tuple of their stripped cells in the
    `--by` columns, compared as text. */
module CsvSort {
  import opened Text
  import opened Seqs
  import opened CsvCommon
  import opened Sorting

  /** `sorted(rows, key=lambda r: key_for_row(r, by_fields, False), reverse=desc)`. */
  function SortRows(rows: seq<Row>, columns: seq<string>, desc: bool): seq<Row>
  {
    SortBy(rows, KeyOrder(RowKeyFn(columns), StrLess, desc))
  }

  /** What `main` writes: the input columns and the sorted rows. */
  datatype Output = Output(columns: seq<string>, rows: seq<Row>)

  /** `main` after loading: the by-columns, then the sort. */
  function SortTable(t: Table, byArg: string, desc: bool): Output
  {
    Output(t.columns, SortRows(t.rows, ByColumns(ParseFields(byArg), t.columns), desc))
  }

  // ---------------------------------------------------------------------------------------
  // Properties

  /** The rows are rearranged in ascending (or with `--desc` descending) order of
      their stripped key cells, rows with equal keys in input order. */
  lemma SortRowsProperties(rows: seq<Row>, columns: seq<string>, desc: bool)
    ensures IsKeySort(rows, SortRows(rows, columns, desc), RowKeyFn(columns), StrLess, desc)
  {
    StrLessOrder();
    SortByIsKeySort(rows, RowKeyFn(columns), StrLess, desc);
  }

  /** The output keeps the input columns and holds the input rows rearranged; the rows are
      sorted by the existing requested columns, else by the first column. */
  lemma SortTableProperties(t: Table, byArg: string, desc: bool)
    ensures SortTable(t, byArg, desc).columns == t.columns
    ensures multiset(SortTable(t, byArg, desc).rows) == multiset(t.rows)
    ensures var cols := ByColumns(ParseFields(byArg), t.columns);
      (forall c :: c in cols ==> c in t.columns)
      && (Present(ParseFields(byArg), t.columns) == [] ==> cols == Take(t.columns, 1))
  {
  }

  /** Rows whose text keys are all distinct come out of `--desc` in exactly the reverse of the
      ascending order. */
  lemma DescIsReversedAsc(rows: seq<Row>, columns: seq<string>)
    requires forall x, y :: x in rows && y in rows && RowKey(x, columns) == RowKey(y, columns) ==> x == y
    ensures SortRows(rows, columns, true) == Reversed(SortRows(rows, columns, false))
  {
    StrLessOrder();
    DescReversesAsc(rows, RowKeyFn(columns), StrLess);
  }
}
