/** The json `transform` command: the document (or the array selected from it) passed through,
    or turned into a table with one flattened row per record. */
module JsonTransform {
  import opened Text
  import opened Seqs
  import opened Json
  import opened JsonCommon
  import opened Sorting

  /** The data `main` converts: the resolved array when `--array-path` is given and resolves to a
      non-empty list, the whole document otherwise. */
  function MainData(data: JValue, arrayPath: Option<string>): JValue
  {
    if arrayPath.Some? && arrayPath.value != "" then
      var extracted := ResolveArray(data, arrayPath);
      if extracted != [] then JArr(extracted) else data
    else data
  }

  /** The records of `json_to_csv`: the elements of a list, else the document alone. */
  function TransformRecords(data: JValue): seq<JValue>
  {
    if data.JArr? then data.elems else [data]
  }

  /** A record as a flat dict: dicts and lists flattened with the default separator and index
      mode, anything else as `{"value": row}`. */
  function FlatRow(row: JValue): Members
  {
    if IsComposite(row) then Flatten(row, ".", IndexMode) else [("value", row)]
  }

  function FlatRowFn(): JValue -> Members
  {
    (row: JValue) => FlatRow(row)
  }

  /** The header: the `--columns`, else the sorted set of all flattened keys. */
  function CsvColumns(flat: seq<Members>, columns: seq<string>): seq<string>
  {
    if columns == [] then SortedSet(AllMemberKeys(flat)) else columns
  }

  /** `row.get(col)`, with None for a missing key. */
  function CellOf(row: Members, col: string): JValue
  {
    match Lookup(row, col)
    case Some(v) => v
    case None => JNull
  }

  /** The written record: the value of every column in header order. */
  function WrittenRow(row: Members, columns: seq<string>): seq<JValue>
  {
    MapSeq(columns, (c: string) => CellOf(row, c))
  }

  function WrittenFn(columns: seq<string>): Members -> seq<JValue>
  {
    (row: Members) => WrittenRow(row, columns)
  }

  /** The table `json_to_csv` writes: its header and its records. */
  datatype CsvOutput = CsvOutput(columns: seq<string>, rows: seq<seq<JValue>>)

  function JsonToCsvSpec(data: JValue, columns: seq<string>): CsvOutput
  {
    var flat := MapSeq(TransformRecords(data), FlatRowFn());
    var header := CsvColumns(flat, columns);
    CsvOutput(header, MapSeq(flat, WrittenFn(header)))
  }

  // ---------------------------------------------------------------------------------------
  // The loops of `json_to_csv`

  /** The `flattened` comprehension. */
  method FlattenRows(rows: seq<JValue>) returns (flattened: seq<Members>)
    ensures flattened == MapSeq(rows, FlatRowFn())
  {
    flattened := [];
    for i := 0 to |rows|
      invariant flattened == MapSeq(rows[..i], FlatRowFn())
    {
      MapSeqPrefixSnoc(rows, i, FlatRowFn());
      var flat: Members;
      if IsComposite(rows[i]) {
        flat := FlattenJson(rows[i], ".", IndexMode);
      } else {
        flat := [("value", rows[i])];
      }
      flattened := flattened + [flat];
    }
    assert rows[..|rows|] == rows;
  }

  /** The loop updating `column_set` with the keys of every flattened record. */
  method CollectKeys(flattened: seq<Members>) returns (keys: seq<string>)
    ensures keys == AllMemberKeys(flattened)
  {
    keys := [];
    for i := 0 to |flattened|
      invariant keys == AllMemberKeys(flattened[..i])
    {
      assert flattened[..i + 1][..i] == flattened[..i];
      keys := keys + MemberKeys(flattened[i]);
    }
    assert flattened[..|flattened|] == flattened;
  }

  /** The `writerow` loop. */
  method WriteRows(flattened: seq<Members>, header: seq<string>) returns (written: seq<seq<JValue>>)
    ensures written == MapSeq(flattened, WrittenFn(header))
  {
    written := [];
    for i := 0 to |flattened|
      invariant written == MapSeq(flattened[..i], WrittenFn(header))
    {
      MapSeqPrefixSnoc(flattened, i, WrittenFn(header));
      written := written + [WrittenRow(flattened[i], header)];
    }
    assert flattened[..|flattened|] == flattened;
  }

  /** `json_to_csv`: flatten the records, collect the header if none was given, write the
      records. */
  method JsonToCsv(data: JValue, columns: seq<string>) returns (out: CsvOutput)
    ensures out == JsonToCsvSpec(data, columns)
  {
    var rows := if data.JArr? then data.elems else [data];
    var flattened := FlattenRows(rows);
    var header := columns;
    if header == [] {
      var keys := CollectKeys(flattened);
      header := SortedSet(keys);
    }
    var written := WriteRows(flattened, header);
    out := CsvOutput(header, written);
  }

  // ---------------------------------------------------------------------------------------
  // Properties

  /** The array path only narrows the data to a non-empty resolved list; an empty resolution
      keeps the document. */
  lemma MainDataProperties(data: JValue, arrayPath: Option<string>)
    ensures arrayPath.None? || arrayPath == Some("") ==> MainData(data, arrayPath) == data
    ensures ResolveArray(data, arrayPath) == [] ==> MainData(data, arrayPath) == data
    ensures arrayPath.Some? && arrayPath.value != "" && ResolveArray(data, arrayPath) != [] ==>
      MainData(data, arrayPath) == JArr(ResolveArray(data, arrayPath))
  {
  }

  /** Given `--columns`, the header is exactly them; otherwise it holds every key of every
      flattened record once, in increasing order, and nothing else. */
  lemma ColumnsProperties(data: JValue, columns: seq<string>)
    ensures columns != [] ==> JsonToCsvSpec(data, columns).columns == columns
    ensures var header := JsonToCsvSpec(data, []).columns;
      var rows := TransformRecords(data);
      (forall c :: c in header <==> exists i :: 0 <= i < |rows| && c in MemberKeys(FlatRow(rows[i])))
      && forall a, b :: 0 <= a < b < |header| ==> StrLess(header[a], header[b])
  {
    var flat := MapSeq(TransformRecords(data), FlatRowFn());
    SortedSetProperties(AllMemberKeys(flat));
    forall c ensures c in AllMemberKeys(flat) <==> exists i :: 0 <= i < |TransformRecords(data)| && c in MemberKeys(FlatRow(TransformRecords(data)[i])) {
      AllMemberKeysHas(flat, c);
    }
  }

  /** One written record per input record, in order, each with one value per header column: the
      record's flattened value under that key, or None when it has none. */
  lemma RowsProperties(data: JValue, columns: seq<string>)
    ensures var out := JsonToCsvSpec(data, columns);
      var rows := TransformRecords(data);
      |out.rows| == |rows|
      && forall i :: 0 <= i < |rows| ==>
           |out.rows[i]| == |out.columns|
           && forall j :: 0 <= j < |out.columns| ==> out.rows[i][j] == CellOf(FlatRow(rows[i]), out.columns[j])
    ensures !data.JArr? ==> |JsonToCsvSpec(data, columns).rows| == 1
  {
  }

  /** A scalar record flattens to the one member `value`. */
  lemma ScalarFlat(data: JValue)
    requires !IsComposite(data)
    ensures MapSeq(TransformRecords(data), FlatRowFn()) == [[("value", data)]]
  {
  }

  /** The keys collected from that record, and the record written under the header `value`. */
  lemma ScalarKeysAndRow(data: JValue)
    ensures AllMemberKeys([[("value", data)]]) == ["value"]
    ensures MapSeq([[("value", data)]], WrittenFn(["value"])) == [[data]]
  {
    var flat: seq<Members> := [[("value", data)]];
    assert flat[..0] == [];
    assert MemberKeys([("value", data)]) == ["value"];
    assert IndexOf(["value"], "value") == 0;
    assert CellOf([("value", data)], "value") == data;
    assert WrittenRow(flat[0], ["value"]) == [data];
  }

  /** A scalar document becomes the one column `value` holding it. */
  lemma ScalarDocument(data: JValue)
    requires !IsComposite(data)
    ensures JsonToCsvSpec(data, []) == CsvOutput(["value"], [[data]])
  {
    ScalarFlat(data);
    ScalarKeysAndRow(data);
    SortedSetSingleton("value");
  }
}
