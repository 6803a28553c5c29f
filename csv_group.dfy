/** Group-by of CSV rows (csv-tools/scripts/group.py): the rows are grouped by the tuple of their
    stripped by-column cells, every group becomes one output row holding the key, the group size
    and the requested aggregations, and the rows are sorted and cut to the first `--top`. The
    aggregation names, labels, row counts, count order and cut are the ones of the JSON command. */
module CsvGroup {
  import opened Text
  import opened Seqs
  import opened Sorting
  import opened Json
  import opened Conditions
  import opened CsvCommon
  import JG = JsonGroup

  // Aggregation specs

  /** `parse_agg(spec)`: unlike the JSON command, a bare `count` is not accepted. */
  function ParseAgg(spec: string): (r: Result<JG.Agg>)
    ensures r.Ok? ==> r.value.func in JG.AggFuncs
  {
    if ':' !in spec then Err("Invalid --agg '" + spec + "'. Use field:func.")
    else
      var parts := SplitLast(spec, ':');
      var func := Lower(Strip(parts.1));
      if func !in JG.AggFuncs then Err("Unknown agg: " + func)
      else Ok(JG.Agg(Strip(parts.0), func))
  }

  /** A spec needs a `:` (so `count` alone fails), is split at its LAST `:`, and is accepted
      exactly when the stripped, lower-cased function name is one of the seven. */
  lemma ParseAggProperties(spec: string)
    ensures ':' !in spec ==> ParseAgg(spec).Err?
    ensures ':' in spec ==>
      var k := LastIndex(spec, ':');
      (ParseAgg(spec).Ok? <==> Lower(Strip(spec[k + 1..])) in JG.AggFuncs)
      && (ParseAgg(spec).Ok? ==> ParseAgg(spec).value == JG.Agg(Strip(spec[..k]), Lower(Strip(spec[k + 1..]))))
    ensures ParseAgg("count").Err?
  {
    NoColonInCount();
  }

  lemma NoColonInCount()
    ensures ':' !in "count"
  {
    assert forall i :: 0 <= i < |"count"| ==> "count"[i] != ':';
  }

  /** `[parse_agg(s) for s in args.agg]`. */
  function AggSpecs(specs: seq<string>): Result<seq<JG.Agg>>
  {
    ParseAll([], specs, ParseAgg)
  }

  /** The specs fail exactly when one of them fails to parse; otherwise there is one
      aggregation per spec, in order. */
  lemma AggSpecsProperties(specs: seq<string>)
    ensures AggSpecs(specs).Ok? <==> forall i :: 0 <= i < |specs| ==> ParseAgg(specs[i]).Ok?
    ensures AggSpecs(specs).Ok? ==>
      |AggSpecs(specs).value| == |specs|
      && forall i :: 0 <= i < |specs| ==> ParseAgg(specs[i]) == Ok(AggSpecs(specs).value[i])
    ensures AggSpecs(specs).Ok? ==> forall a :: a in AggSpecs(specs).value ==> a.func in JG.AggFuncs
  {
    ParseAllShape([], specs, ParseAgg);
    if AggSpecs(specs).Ok? {
      var aggs := AggSpecs(specs).value;
      assert forall i :: 0 <= i < |specs| ==> ParseAgg(specs[i]) == Ok(aggs[i]);
      forall a | a in aggs ensures a.func in JG.AggFuncs {
        var i :| 0 <= i < |aggs| && aggs[i] == a;
        var r := ParseAgg(specs[i]);
        assert r == Ok(a);
      }
    }
  }

  // Aggregations

  /** `compute_agg(values, func)`; `floatAgg(func, nums)` stands for the float sum, min, max and
      mean of the numeric texts. */
  function ComputeAgg(values: seq<string>, func: string, isNumber: string -> bool,
                      floatAgg: (string, seq<string>) -> JValue): JValue
  {
    if func == "count" then JInt(|values|)
    else if func == "list" then JArr(Strs(values))
    else if func == "unique" then JArr(Strs(Dedup(values)))
    else
      var nums := Nums(values, isNumber);
      if nums == [] then JNull
      else if func == "sum" || func == "min" || func == "max" || func == "mean" then floatAgg(func, nums)
      else JNull
  }

  /** `compute_agg`, with its `unique` and `nums` loops. */
  method ComputeAggregate(values: seq<string>, func: string, isNumber: string -> bool,
                          floatAgg: (string, seq<string>) -> JValue) returns (result: JValue)
    ensures result == ComputeAgg(values, func, isNumber, floatAgg)
  {
    if func == "count" {
      return JInt(|values|);
    }
    if func == "list" {
      return JArr(Strs(values));
    }
    if func == "unique" {
      var seen := DedupByLoop(values, Id);
      DedupByIdentity(values);
      return JArr(Strs(seen));
    }
    var nums := CollectNums(values, isNumber);
    if nums == [] {
      return JNull;
    }
    if func == "sum" || func == "min" || func == "max" || func == "mean" {
      return floatAgg(func, nums);
    }
    return JNull;
  }

  /** `count` is the number of values and `list` the values themselves; `unique` keeps every
      value once, in the order of its first occurrence. */
  lemma CountListUnique(values: seq<string>, isNumber: string -> bool, floatAgg: (string, seq<string>) -> JValue)
    ensures ComputeAgg(values, "count", isNumber, floatAgg) == JInt(|values|)
    ensures ComputeAgg(values, "list", isNumber, floatAgg) == JArr(Strs(values))
    ensures ComputeAgg(values, "unique", isNumber, floatAgg) == JArr(Strs(Dedup(values)))
    ensures NoDups(Dedup(values)) && IsSubseq(Dedup(values), values)
    ensures forall v :: v in Dedup(values) <==> v in values
    ensures forall i, j :: 0 <= i < j < |Dedup(values)| ==> IndexOf(values, Dedup(values)[i]) < IndexOf(values, Dedup(values)[j])
    ensures NoDups(values) ==> ComputeAgg(values, "unique", isNumber, floatAgg) == JArr(Strs(values))
  {
    DedupProperties(values);
    DedupFirstOrder(values);
    if NoDups(values) {
      DedupNoDups(values);
    }
  }

  /** The numeric functions see only the numeric values: dropping the others changes nothing,
      and without any numeric value they give None. */
  lemma NumericIgnoresOthers(values: seq<string>, func: string, isNumber: string -> bool,
                             floatAgg: (string, seq<string>) -> JValue)
    requires func != "count" && func != "list" && func != "unique"
    ensures ComputeAgg(Filter(values, NumericFn(isNumber)), func, isNumber, floatAgg) == ComputeAgg(values, func, isNumber, floatAgg)
    ensures (forall i :: 0 <= i < |values| ==> !IsNumeric(values[i], isNumber)) ==>
      ComputeAgg(values, func, isNumber, floatAgg) == JNull
  {
    var p := NumericFn(isNumber);
    var kept := Filter(values, p);
    FilterAll(kept, p);
    assert Nums(kept, isNumber) == Nums(values, isNumber);
    if forall i :: 0 <= i < |values| ==> !IsNumeric(values[i], isNumber) {
      assert kept == [];
    }
  }

  /** The values aggregated for a column: the stripped cell of every row of the group. */
  function AggValues(group: seq<Row>, field: string): (values: seq<string>)
    ensures |values| == |group|
    ensures forall i :: 0 <= i < |group| ==> values[i] == Strip(Get(group[i], field))
  {
    MapSeq(group, FieldFn(field))
  }

  function FieldFn(field: string): Row -> string
  {
    (row: Row) => Cell(row, field)
  }

  // Output rows

  /** The aggregation columns of a group, in `--agg` order. */
  function AggColumns(group: seq<Row>, aggs: seq<JG.Agg>, isNumber: string -> bool,
                      floatAgg: (string, seq<string>) -> JValue): (cols: Members)
    ensures |cols| == |aggs|
    ensures forall i :: 0 <= i < |cols| ==> ':' in cols[i].0
  {
    if aggs == [] then []
    else
      var a := aggs[|aggs| - 1];
      JG.LabelHasColon(a);
      AggColumns(group, aggs[..|aggs| - 1], isNumber, floatAgg)
        + [(JG.Label(a), ComputeAgg(AggValues(group, a.field), a.func, isNumber, floatAgg))]
  }

  /** A group's output row: `dict(zip(by_fields, key))`, then the group size under `count`,
      then the aggregation columns, each assignment overwriting an earlier one with the same name. */
  function BuildRow(byFields: seq<string>, key: seq<string>, group: seq<Row>, aggs: seq<JG.Agg>,
                    isNumber: string -> bool, floatAgg: (string, seq<string>) -> JValue): Members
  {
    PutAll(Put(PutAll([], JG.KeyColumns(byFields, Strs(key))), "count", JInt(|group|)),
           AggColumns(group, aggs, isNumber, floatAgg))
  }

  lemma AggColumnsSnoc(group: seq<Row>, aggs: seq<JG.Agg>, k: nat, isNumber: string -> bool,
                       floatAgg: (string, seq<string>) -> JValue)
    requires k < |aggs|
    ensures AggColumns(group, aggs[..k + 1], isNumber, floatAgg) == AggColumns(group, aggs[..k], isNumber, floatAgg)
      + [(JG.Label(aggs[k]), ComputeAgg(AggValues(group, aggs[k].field), aggs[k].func, isNumber, floatAgg))]
  {
    assert aggs[..k + 1][..k] == aggs[..k];
  }

  /** `main`'s loop body building one row. */
  method BuildGroupRow(byFields: seq<string>, key: seq<string>, group: seq<Row>, aggs: seq<JG.Agg>,
                       isNumber: string -> bool, floatAgg: (string, seq<string>) -> JValue) returns (row: Members)
    ensures row == BuildRow(byFields, key, group, aggs, isNumber, floatAgg)
  {
    row := PutAll([], JG.KeyColumns(byFields, Strs(key)));
    row := Put(row, "count", JInt(|group|));
    ghost var row0 := row;
    assert aggs[..0] == [];
    for k := 0 to |aggs|
      invariant row == PutAll(row0, AggColumns(group, aggs[..k], isNumber, floatAgg))
    {
      var a := aggs[k];
      var vals := AggValues(group, a.field);
      var value := ComputeAggregate(vals, a.func, isNumber, floatAgg);
      AggColumnsSnoc(group, aggs, k, isNumber, floatAgg);
      PutAllSnoc(row0, AggColumns(group, aggs[..k], isNumber, floatAgg), JG.Label(a), value);
      row := Put(row, JG.Label(a), value);
    }
    assert aggs[..|aggs|] == aggs;
  }

  /** A row's `count` is its group's size: no aggregation column is called `count`. */
  lemma RowCountIsGroupSize(byFields: seq<string>, key: seq<string>, group: seq<Row>, aggs: seq<JG.Agg>,
                            isNumber: string -> bool, floatAgg: (string, seq<string>) -> JValue)
    ensures Lookup(BuildRow(byFields, key, group, aggs, isNumber, floatAgg), "count") == Some(JInt(|group|))
    ensures JG.RowCount(BuildRow(byFields, key, group, aggs, isNumber, floatAgg)) == |group|
  {
    var row0 := Put(PutAll([], JG.KeyColumns(byFields, Strs(key))), "count", JInt(|group|));
    var aggCols := AggColumns(group, aggs, isNumber, floatAgg);
    assert ':' !in "count";
    JG.LabelsExclude(aggCols, "count");
    PutAllUntouched(row0, aggCols, "count");
  }

  /** Every aggregation has its column. */
  lemma {:induction false} AggColumnsHold(group: seq<Row>, aggs: seq<JG.Agg>, isNumber: string -> bool,
                                          floatAgg: (string, seq<string>) -> JValue, a: JG.Agg)
    requires a in aggs
    ensures (JG.Label(a), ComputeAgg(AggValues(group, a.field), a.func, isNumber, floatAgg)) in AggColumns(group, aggs, isNumber, floatAgg)
  {
    var init := aggs[..|aggs| - 1];
    if a != aggs[|aggs| - 1] {
      assert a in init by {
        var k :| 0 <= k < |aggs| && aggs[k] == a;
        assert init[k] == a;
      }
      AggColumnsHold(group, init, isNumber, floatAgg, a);
    }
  }

  /** An aggregation column labelled like `a` holds `a`'s value. */
  lemma {:induction false} AggColumnsLabels(group: seq<Row>, aggs: seq<JG.Agg>, isNumber: string -> bool,
                                            floatAgg: (string, seq<string>) -> JValue, k: nat, a: JG.Agg)
    requires forall b :: b in aggs ==> b.func in JG.AggFuncs
    requires a.func in JG.AggFuncs
    requires k < |aggs| && AggColumns(group, aggs, isNumber, floatAgg)[k].0 == JG.Label(a)
    ensures AggColumns(group, aggs, isNumber, floatAgg)[k].1 == ComputeAgg(AggValues(group, a.field), a.func, isNumber, floatAgg)
  {
    var init := aggs[..|aggs| - 1];
    var b := aggs[|aggs| - 1];
    forall c | c in init ensures c.func in JG.AggFuncs {
      assert c in aggs;
    }
    if k < |init| {
      AggColumnsLabels(group, init, isNumber, floatAgg, k, a);
    } else {
      JG.LabelInjective(a, b);
    }
  }

  /** A row holds, under every aggregation's label, that aggregation of the group's cells. */
  lemma RowAggregates(byFields: seq<string>, key: seq<string>, group: seq<Row>, aggs: seq<JG.Agg>,
                      isNumber: string -> bool, floatAgg: (string, seq<string>) -> JValue, a: JG.Agg)
    requires forall b :: b in aggs ==> b.func in JG.AggFuncs
    requires a in aggs
    ensures Lookup(BuildRow(byFields, key, group, aggs, isNumber, floatAgg), JG.Label(a))
      == Some(ComputeAgg(AggValues(group, a.field), a.func, isNumber, floatAgg))
  {
    var row0 := Put(PutAll([], JG.KeyColumns(byFields, Strs(key))), "count", JInt(|group|));
    var aggCols := AggColumns(group, aggs, isNumber, floatAgg);
    var value := ComputeAgg(AggValues(group, a.field), a.func, isNumber, floatAgg);
    AggColumnsHold(group, aggs, isNumber, floatAgg, a);
    assert JG.Label(a) in MemberKeys(aggCols) by {
      var j :| 0 <= j < |aggCols| && aggCols[j] == (JG.Label(a), value);
      assert MemberKeys(aggCols)[j] == JG.Label(a);
    }
    forall i | 0 <= i < |aggCols| && aggCols[i].0 == JG.Label(a) ensures aggCols[i].1 == value {
      AggColumnsLabels(group, aggs, isNumber, floatAgg, i, a);
    }
    PutAllUniform(row0, aggCols, JG.Label(a), value);
  }

  /** A by-column that is not `count` and has no `:` holds the row's stripped cell for it. */
  lemma RowKeys(byFields: seq<string>, record: Row, group: seq<Row>, aggs: seq<JG.Agg>,
                isNumber: string -> bool, floatAgg: (string, seq<string>) -> JValue, f: string)
    requires f in byFields && f != "count" && ':' !in f
    ensures Lookup(BuildRow(byFields, RowKey(record, byFields), group, aggs, isNumber, floatAgg), f)
      == Some(JStr(Cell(record, f)))
  {
    var key := Strs(RowKey(record, byFields));
    var row0 := Put(PutAll([], JG.KeyColumns(byFields, key)), "count", JInt(|group|));
    assert forall i :: 0 <= i < |byFields| && byFields[i] == f ==> key[i] == JStr(Cell(record, f));
    JG.KeyColumnsLookup(byFields, key, f, JStr(Cell(record, f)));
    JG.LabelsExclude(AggColumns(group, aggs, isNumber, floatAgg), f);
    PutAllUntouched(row0, AggColumns(group, aggs, isNumber, floatAgg), f);
  }

  // Grouping, sorting and the summary

  function RowFn(rows: seq<Row>, byFields: seq<string>, aggs: seq<JG.Agg>, isNumber: string -> bool,
                 floatAgg: (string, seq<string>) -> JValue): seq<string> -> Members
  {
    (k: seq<string>) => BuildRow(byFields, k, GroupOf(rows, RowKeyFn(byFields), k), aggs, isNumber, floatAgg)
  }

  /** The output rows of the groups with keys `ks`, in that order. */
  function RowsFor(rows: seq<Row>, byFields: seq<string>, aggs: seq<JG.Agg>, isNumber: string -> bool,
                   floatAgg: (string, seq<string>) -> JValue, ks: seq<seq<string>>): (out: seq<Members>)
    ensures |out| == |ks|
    ensures forall i :: 0 <= i < |ks| ==>
      out[i] == BuildRow(byFields, ks[i], GroupOf(rows, RowKeyFn(byFields), ks[i]), aggs, isNumber, floatAgg)
  {
    MapSeq(ks, RowFn(rows, byFields, aggs, isNumber, floatAgg))
  }

  lemma RowsForStep(rows: seq<Row>, byFields: seq<string>, aggs: seq<JG.Agg>, isNumber: string -> bool,
                    floatAgg: (string, seq<string>) -> JValue, ks: seq<seq<string>>, i: nat,
                    out: seq<Members>, row: Members)
    requires i < |ks| && out == RowsFor(rows, byFields, aggs, isNumber, floatAgg, ks[..i])
    requires row == BuildRow(byFields, ks[i], GroupOf(rows, RowKeyFn(byFields), ks[i]), aggs, isNumber, floatAgg)
    ensures out + [row] == RowsFor(rows, byFields, aggs, isNumber, floatAgg, ks[..i + 1])
  {
    MapSeqPrefixSnoc(ks, i, RowFn(rows, byFields, aggs, isNumber, floatAgg));
  }

  /** The unsorted output rows: one per group, in first-occurrence order of the keys. */
  function GroupRows(rows: seq<Row>, byFields: seq<string>, aggs: seq<JG.Agg>, isNumber: string -> bool,
                     floatAgg: (string, seq<string>) -> JValue): seq<Members>
  {
    RowsFor(rows, byFields, aggs, isNumber, floatAgg, DistinctKeys(rows, RowKeyFn(byFields)))
  }

  /** The loop over `groups.items()`, for groups listed in the order of `ks`. */
  method BuildRows(rows: seq<Row>, byFields: seq<string>, aggs: seq<JG.Agg>, isNumber: string -> bool,
                   floatAgg: (string, seq<string>) -> JValue, ks: seq<seq<string>>,
                   groups: map<seq<string>, seq<Row>>) returns (out: seq<Members>)
    requires forall k :: k in ks ==> k in groups && groups[k] == GroupOf(rows, RowKeyFn(byFields), k)
    ensures out == RowsFor(rows, byFields, aggs, isNumber, floatAgg, ks)
  {
    out := [];
    for i := 0 to |ks|
      invariant out == RowsFor(rows, byFields, aggs, isNumber, floatAgg, ks[..i])
    {
      assert ks[i] in ks;
      var row := BuildGroupRow(byFields, ks[i], groups[ks[i]], aggs, isNumber, floatAgg);
      RowsForStep(rows, byFields, aggs, isNumber, floatAgg, ks, i, out, row);
      out := out + [row];
    }
    assert ks[..|ks|] == ks;
  }

  /** The grouping loop and the row-building loop of `main`. */
  method BuildGroupRows(rows: seq<Row>, byFields: seq<string>, aggs: seq<JG.Agg>, isNumber: string -> bool,
                        floatAgg: (string, seq<string>) -> JValue) returns (ks: seq<seq<string>>, out: seq<Members>)
    ensures ks == DistinctKeys(rows, RowKeyFn(byFields))
    ensures out == GroupRows(rows, byFields, aggs, isNumber, floatAgg)
  {
    var groups;
    ks, groups := GroupBy(rows, RowKeyFn(byFields));
    out := BuildRows(rows, byFields, aggs, isNumber, floatAgg, ks, groups);
  }

  /** The counts of the output rows add up to the sizes of their groups. */
  lemma SumCountsRowsFor(rows: seq<Row>, byFields: seq<string>, aggs: seq<JG.Agg>, isNumber: string -> bool,
                         floatAgg: (string, seq<string>) -> JValue, ks: seq<seq<string>>)
    ensures SumOf(RowsFor(rows, byFields, aggs, isNumber, floatAgg, ks), JG.RowCount) == TotalSize(rows, RowKeyFn(byFields), ks)
  {
    var out := RowsFor(rows, byFields, aggs, isNumber, floatAgg, ks);
    forall i | 0 <= i < |ks| ensures JG.RowCount(out[i]) == |GroupOf(rows, RowKeyFn(byFields), ks[i])| {
      RowCountIsGroupSize(byFields, ks[i], GroupOf(rows, RowKeyFn(byFields), ks[i]), aggs, isNumber, floatAgg);
    }
    JG.SumCounts(out, rows, RowKeyFn(byFields), ks);
  }

  /** The key sort's key: `tuple(r.get(f, "") for f in by_fields)`. */
  function SortKey(row: Members, byFields: seq<string>): seq<JValue>
  {
    MapSeq(byFields, GetFn(row))
  }

  function GetFn(row: Members): string -> JValue
  {
    (f: string) => match Lookup(row, f) case Some(v) => v case None => JStr("")
  }

  /** The key sort, for an order `keyLe` on sort keys (Python's tuple comparison). */
  function ByKey(byFields: seq<string>, keyLe: (seq<JValue>, seq<JValue>) -> bool): (Members, Members) -> bool
  {
    (a: Members, b: Members) => keyLe(SortKey(a, byFields), SortKey(b, byFields))
  }

  lemma ByKeyPreorder(byFields: seq<string>, keyLe: (seq<JValue>, seq<JValue>) -> bool)
    requires TotalPreorder(keyLe)
    ensures TotalPreorder(ByKey(byFields, keyLe))
  {
    var le := ByKey(byFields, keyLe);
    forall a, b ensures le(a, b) || le(b, a) {
      assert keyLe(SortKey(a, byFields), SortKey(b, byFields)) || keyLe(SortKey(b, byFields), SortKey(a, byFields));
    }
    forall a, b, c | le(a, b) && le(b, c) ensures le(a, c) {
      assert keyLe(SortKey(a, byFields), SortKey(b, byFields)) && keyLe(SortKey(b, byFields), SortKey(c, byFields));
    }
  }

  /** When no by-column is called `count` or has a `:`, the key sort compares the group keys:
      the sort key of a group's row is its key, as strings. */
  lemma SortKeyIsGroupKey(byFields: seq<string>, record: Row, group: seq<Row>, aggs: seq<JG.Agg>,
                          isNumber: string -> bool, floatAgg: (string, seq<string>) -> JValue)
    requires forall f :: f in byFields ==> f != "count" && ':' !in f
    ensures SortKey(BuildRow(byFields, RowKey(record, byFields), group, aggs, isNumber, floatAgg), byFields)
      == Strs(RowKey(record, byFields))
  {
    var row := BuildRow(byFields, RowKey(record, byFields), group, aggs, isNumber, floatAgg);
    forall i | 0 <= i < |byFields| ensures SortKey(row, byFields)[i] == Strs(RowKey(record, byFields))[i] {
      assert byFields[i] in byFields;
      RowKeys(byFields, record, group, aggs, isNumber, floatAgg, byFields[i]);
    }
  }

  /** The sorted rows: by count, descending and stable, or by key. */
  function SortRows(out: seq<Members>, byFields: seq<string>, sortByCount: bool,
                    keyLe: (seq<JValue>, seq<JValue>) -> bool): seq<Members>
  {
    if sortByCount then SortBy(out, JG.CountDesc) else SortBy(out, ByKey(byFields, keyLe))
  }

  /** The count sort puts larger groups first and keeps groups of equal size in first-occurrence
      order; the key sort orders by key and keeps equal keys in first-occurrence order. */
  lemma SortRowsProperties(out: seq<Members>, byFields: seq<string>, keyLe: (seq<JValue>, seq<JValue>) -> bool, c: Members)
    ensures forall i, j :: 0 <= i < j < |SortRows(out, byFields, true, keyLe)| ==>
      JG.RowCount(SortRows(out, byFields, true, keyLe)[i]) >= JG.RowCount(SortRows(out, byFields, true, keyLe)[j])
    ensures EqualTo(SortRows(out, byFields, true, keyLe), JG.CountDesc, c) == EqualTo(out, JG.CountDesc, c)
    ensures TotalPreorder(keyLe) ==>
      SortedBy(SortRows(out, byFields, false, keyLe), ByKey(byFields, keyLe))
      && EqualTo(SortRows(out, byFields, false, keyLe), ByKey(byFields, keyLe), c) == EqualTo(out, ByKey(byFields, keyLe), c)
  {
    JG.CountDescPreorder();
    SortBySorted(out, JG.CountDesc);
    SortByStable(out, JG.CountDesc, c);
    if TotalPreorder(keyLe) {
      ByKeyPreorder(byFields, keyLe);
      SortBySorted(out, ByKey(byFields, keyLe));
      SortByStable(out, ByKey(byFields, keyLe), c);
    }
  }

  /** The options `main` reads after loading the table. */
  datatype Options = Options(byRaw: string, aggs: seq<string>, sortByCount: bool, top: Option<int>)

  /** What `main` computes from the loaded table. */
  function GroupSummary(t: Table, o: Options, isNumber: string -> bool, floatAgg: (string, seq<string>) -> JValue,
                        keyLe: (seq<JValue>, seq<JValue>) -> bool): Result<JG.Summary>
  {
    var byFields := ByColumns(ParseFields(o.byRaw), t.columns);
    match AggSpecs(o.aggs)
    case Err(m) => Err(m)
    case Ok(aggs) =>
      var out := GroupRows(t.rows, byFields, aggs, isNumber, floatAgg);
      Ok(JG.Summary(|t.rows|, |DistinctKeys(t.rows, RowKeyFn(byFields))|,
                    JG.Limit(SortRows(out, byFields, o.sortByCount, keyLe), o.top)))
  }

  /** `main`: choose the by-columns, parse the aggregations, group, build, sort and cut. */
  method Group(t: Table, o: Options, isNumber: string -> bool, floatAgg: (string, seq<string>) -> JValue,
               keyLe: (seq<JValue>, seq<JValue>) -> bool) returns (r: Result<JG.Summary>)
    ensures r == GroupSummary(t, o, isNumber, floatAgg, keyLe)
  {
    var byFields := ByColumns(ParseFields(o.byRaw), t.columns);
    var parsed := AppendAll([], o.aggs, ParseAgg);
    if parsed.Err? {
      return Err(parsed.msg);
    }
    var ks, out := BuildGroupRows(t.rows, byFields, parsed.value, isNumber, floatAgg);
    out := SortRows(out, byFields, o.sortByCount, keyLe);
    out := JG.Limit(out, o.top);
    return Ok(JG.Summary(|t.rows|, |ks|, out));
  }

  /** `main` fails exactly when an `--agg` value is invalid. */
  lemma GroupSummaryErrors(t: Table, o: Options, isNumber: string -> bool, floatAgg: (string, seq<string>) -> JValue,
                           keyLe: (seq<JValue>, seq<JValue>) -> bool)
    ensures GroupSummary(t, o, isNumber, floatAgg, keyLe).Ok? <==> AggSpecs(o.aggs).Ok?
    ensures AggSpecs(o.aggs).Err? ==> GroupSummary(t, o, isNumber, floatAgg, keyLe) == Err(AggSpecs(o.aggs).msg)
  {
  }

  /** Grouping partitions the rows: `total_records` is the number of rows, `total_groups` the
      number of distinct keys and of output rows, the output is a cut of a permutation of the
      unsorted rows, and the counts of all the sorted rows add up to `total_records`. */
  lemma GroupSummaryProperties(t: Table, o: Options, isNumber: string -> bool, floatAgg: (string, seq<string>) -> JValue,
                               keyLe: (seq<JValue>, seq<JValue>) -> bool, aggs: seq<JG.Agg>)
    requires AggSpecs(o.aggs) == Ok(aggs)
    ensures var byFields := ByColumns(ParseFields(o.byRaw), t.columns);
      var out := GroupRows(t.rows, byFields, aggs, isNumber, floatAgg);
      var sorted := SortRows(out, byFields, o.sortByCount, keyLe);
      && GroupSummary(t, o, isNumber, floatAgg, keyLe) == Ok(JG.Summary(|t.rows|, |out|, JG.Limit(sorted, o.top)))
      && |out| == |DistinctKeys(t.rows, RowKeyFn(byFields))|
      && multiset(sorted) == multiset(out)
      && SumOf(sorted, JG.RowCount) == |t.rows|
  {
    var byFields := ByColumns(ParseFields(o.byRaw), t.columns);
    var key := RowKeyFn(byFields);
    var out := GroupRows(t.rows, byFields, aggs, isNumber, floatAgg);
    var sorted := SortRows(out, byFields, o.sortByCount, keyLe);
    GroupsPartition(t.rows, key);
    SumCountsRowsFor(t.rows, byFields, aggs, isNumber, floatAgg, DistinctKeys(t.rows, key));
    SumOfPermutation(out, sorted, JG.RowCount);
  }
}
