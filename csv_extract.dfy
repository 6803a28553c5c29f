/** The csv `extract` command: the selected columns of the rows, cut by `--first` and `--last`. */
module CsvExtract {
  import opened Text
  import opened Seqs
  import opened CsvCommon

  /** What `main` writes: the output columns and the output rows. */
  datatype Output = Output(columns: seq<string>, rows: seq<Row>)

  /** `main` after loading: select the columns, slice the rows, project them. */
  function ExtractTable(t: Table, rawFields: Option<string>, first: Option<int>, last: Option<int>): Output
  {
    var columns := Selected(rawFields, t.columns);
    Output(columns, MapSeq(Slice(t.rows, first, last), ProjectFn(columns)))
  }

  /** The output columns are the requested ones that exist, in request order, else all columns;
      the output rows are the `--first`/`--last` window of the rows, never more than the input,
      each holding exactly the output columns, with `""` for a missing cell. */
  lemma ExtractTableProperties(t: Table, rawFields: Option<string>, first: Option<int>, last: Option<int>)
    ensures var out := ExtractTable(t, rawFields, first, last);
      var window := Slice(t.rows, first, last);
      out.columns == SelectColumns(OptionalFields(rawFields), t.columns)
      && (forall c :: c in out.columns ==> c in t.columns)
      && (out.columns == [] <==> t.columns == [])
      && |out.rows| == |window| <= |t.rows|
      && (forall i :: 0 <= i < |window| ==>
            out.rows[i].Keys == (set c | c in out.columns)
            && forall c :: c in out.columns ==> out.rows[i][c] == Get(window[i], c))
    ensures first.None? && last.None? ==> |ExtractTable(t, rawFields, first, last).rows| == |t.rows|
    ensures last.Some? && last.value <= 0 ==>
      ExtractTable(t, rawFields, first, last) == ExtractTable(t, rawFields, first, None)
  {
    var columns := Selected(rawFields, t.columns);
    SelectedProperties(rawFields, t.columns);
    SliceProperties(t.rows, first, last);
    ProjectAll(Slice(t.rows, first, last), columns);
  }

  /** Projecting each row of a window onto the output columns. */
  lemma ProjectAll(window: seq<Row>, columns: seq<string>)
    ensures var r := MapSeq(window, ProjectFn(columns));
      |r| == |window|
      && forall i :: 0 <= i < |window| ==>
           r[i].Keys == (set c | c in columns) && forall c :: c in columns ==> r[i][c] == Get(window[i], c)
  {
  }

  /** With no option at all, a table whose rows are keyed by its columns (as the loader builds
      them) comes out unchanged. */
  lemma ExtractIdentity(t: Table)
    requires forall i :: 0 <= i < |t.rows| ==> t.rows[i].Keys == set c | c in t.columns
    ensures ExtractTable(t, None, None, None) == Output(t.columns, t.rows)
  {
    SelectedProperties(None, t.columns);
    forall i | 0 <= i < |t.rows|
      ensures Project(t.rows[i], t.columns) == t.rows[i]
    {
      ProjectOwnColumns(t.rows[i], t.columns);
    }
  }
}
