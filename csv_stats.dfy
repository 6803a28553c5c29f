/** The csv `stats` command: for each selected column, how many cells are non-blank, how many
    distinct values it holds and the most frequent of them, and a summary of its numbers. */
module CsvStats {
  import opened Text
  import opened Seqs
  import opened Sorting
  import opened Tally
  import opened Json
  import opened CsvCommon

  /** The entry of one column: `presence` (the pair behind `"p/n"`), `unique_values`,
      `top_values` and the numeric texts behind `numeric` (which is absent when there are none). */
  datatype ColumnStats = ColumnStats(
    presence: nat,
    rowCount: nat,
    uniqueValues: nat,
    topValues: seq<(string, nat)>,
    nums: seq<string>)

  // ---------------------------------------------------------------------------------------
  // One column

  function GetFn(col: string): Row -> string
  {
    (row: Row) => Get(row, col)
  }

  /** `values`: the column's cell in every row, a missing one as `""`. */
  function CellValues(rows: seq<Row>, col: string): seq<string>
  {
    MapSeq(rows, GetFn(col))
  }

  /** `(v or "").strip()` is non-empty. */
  function NonBlank(): string -> bool
  {
    (v: string) => Strip(v) != ""
  }

  /** `max(0, top)`. */
  function TopCount(top: int): nat
  {
    if top < 0 then 0 else top
  }

  /** The entry of `col`, before it is written as JSON. */
  function Stats(rows: seq<Row>, col: string, top: int, isNumber: string -> bool): ColumnStats
  {
    var values := CellValues(rows, col);
    var freq := Count(values);
    ColumnStats(|Filter(values, NonBlank())|, |rows|, |freq|, MostCommon(freq, TopCount(top)),
                Nums(values, isNumber))
  }

  /** `{"value": k, "count": c}`. */
  function TopEntry(e: (string, nat)): JValue
  {
    JObj([("value", JStr(e.0)), ("count", JInt(e.1))])
  }

  /** `numeric_summary(values)` for a non-empty list of numeric texts; `floatAgg(name, nums)`
      stands for the float `min`, `max` and `mean` of the texts. */
  function NumericJson(nums: seq<string>, floatAgg: (string, seq<string>) -> JValue): JValue
  {
    JObj([("count", JInt(|nums|)), ("min", floatAgg("min", nums)), ("max", floatAgg("max", nums)),
          ("mean", floatAgg("mean", nums))])
  }

  /** The entry as written: `presence`, `unique_values`, `top_values`, then `numeric` when
      there are numbers. */
  function StatsJson(s: ColumnStats, floatAgg: (string, seq<string>) -> JValue): (r: JValue)
    ensures r.JObj? && |r.members| >= 3
    ensures MemberKeys(r.members)[..3] == ["presence", "unique_values", "top_values"]
    ensures |r.members| == 4 <==> s.nums != []
  {
    var m := [("presence", JStr(NatToString(s.presence) + "/" + NatToString(s.rowCount))),
              ("unique_values", JInt(s.uniqueValues)),
              ("top_values", JArr(MapSeq(s.topValues, TopEntry)))]
      + (if s.nums != [] then [("numeric", NumericJson(s.nums, floatAgg))] else []);
    assert MemberKeys(m)[..3] == ["presence", "unique_values", "top_values"];
    JObj(m)
  }

  function EntryFn(rows: seq<Row>, top: int, isNumber: string -> bool,
                   floatAgg: (string, seq<string>) -> JValue): string -> JValue
  {
    (col: string) => StatsJson(Stats(rows, col, top, isNumber), floatAgg)
  }

  // ---------------------------------------------------------------------------------------
  // The command

  /** The `fields` dict: one assignment per selected column, in order. */
  function FieldsOf(rows: seq<Row>, selected: seq<string>, top: int, isNumber: string -> bool,
                    floatAgg: (string, seq<string>) -> JValue): Members
  {
    PutAll([], MapSeq(selected, Assign(EntryFn(rows, top, isNumber, floatAgg))))
  }

  /** The document `main` writes for a loaded table. */
  function StatsDoc(t: Table, raw: Option<string>, top: int, isNumber: string -> bool,
                    floatAgg: (string, seq<string>) -> JValue): JValue
  {
    var selected := Selected(raw, t.columns);
    JObj([("record_count", JInt(|t.rows|)), ("field_count", JInt(|selected|)),
          ("fields", JObj(FieldsOf(t.rows, selected, top, isNumber, floatAgg)))])
  }

  // ---------------------------------------------------------------------------------------
  // The loops of `main`

  /** One turn of the column loop: the cells, their presence and tally, and `numeric_summary`. */
  method ColumnEntry(rows: seq<Row>, col: string, top: int, isNumber: string -> bool,
                     floatAgg: (string, seq<string>) -> JValue) returns (e: JValue)
    ensures e == EntryFn(rows, top, isNumber, floatAgg)(col)
  {
    var values := CellValues(rows, col);
    var presence := |Filter(values, NonBlank())|;
    var freq := Count(values);
    var nums := CollectNums(values, isNumber);
    e := StatsJson(ColumnStats(presence, |rows|, |freq|, MostCommon(freq, TopCount(top)), nums), floatAgg);
  }

  /** The loop over the selected columns. */
  method StatsFields(rows: seq<Row>, selected: seq<string>, top: int, isNumber: string -> bool,
                     floatAgg: (string, seq<string>) -> JValue) returns (stats: Members)
    ensures stats == FieldsOf(rows, selected, top, isNumber, floatAgg)
  {
    stats := [];
    assert selected[..0] == [];
    assert MapSeq(selected[..0], Assign(EntryFn(rows, top, isNumber, floatAgg))) == [];
    var i := 0;
    while i < |selected|
      invariant i <= |selected|
      invariant stats == PutAll([], MapSeq(selected[..i], Assign(EntryFn(rows, top, isNumber, floatAgg))))
    {
      stats := AssignColumn(stats, rows, selected, i, top, isNumber, floatAgg);
      i := i + 1;
    }
    assert selected[..i] == selected;
  }

  /** `field_stats[col] = entry` for column `i`. */
  method AssignColumn(stats: Members, rows: seq<Row>, selected: seq<string>, i: nat, top: int,
                      isNumber: string -> bool, floatAgg: (string, seq<string>) -> JValue)
    returns (out: Members)
    requires i < |selected|
    requires stats == PutAll([], MapSeq(selected[..i], Assign(EntryFn(rows, top, isNumber, floatAgg))))
    ensures out == PutAll([], MapSeq(selected[..i + 1], Assign(EntryFn(rows, top, isNumber, floatAgg))))
  {
    var e := ColumnEntry(rows, selected[i], top, isNumber, floatAgg);
    PutAllMappedSnoc(selected, i, EntryFn(rows, top, isNumber, floatAgg));
    out := Put(stats, selected[i], e);
  }

  /** `main`, from the loaded table to the document it writes. */
  method StatsCommand(t: Table, raw: Option<string>, top: int, isNumber: string -> bool,
                      floatAgg: (string, seq<string>) -> JValue) returns (doc: JValue)
    ensures doc == StatsDoc(t, raw, top, isNumber, floatAgg)
  {
    var selected := if raw.None? || raw == Some("") then t.columns else ParseFields(raw.value);
    selected := Present(selected, t.columns);
    if selected == [] {
      selected := t.columns;
    }
    var stats := StatsFields(t.rows, selected, top, isNumber, floatAgg);
    doc := JObj([("record_count", JInt(|t.rows|)), ("field_count", JInt(|selected|)), ("fields", JObj(stats))]);
  }

  // ---------------------------------------------------------------------------------------
  // Properties

  /** `presence` counts the rows whose cell is not blank: at most all rows, and all rows exactly
      when no cell is blank. */
  lemma PresenceProperties(rows: seq<Row>, col: string, top: int, isNumber: string -> bool)
    ensures Stats(rows, col, top, isNumber).presence <= |rows|
    ensures Stats(rows, col, top, isNumber).presence == |rows|
      <==> forall i :: 0 <= i < |rows| ==> Strip(Get(rows[i], col)) != ""
  {
    var values := CellValues(rows, col);
    FilterAllIff(values, NonBlank());
  }

  /** `unique_values` counts distinct raw cell texts (before any stripping); `top_values` gives
      `min(max(0, top), unique_values)` of the (text, count) pairs of the tally, by
      non-increasing count. */
  lemma UniqueAndTopProperties(rows: seq<Row>, col: string, top: int, isNumber: string -> bool)
    ensures var s := Stats(rows, col, top, isNumber);
      && s.uniqueValues == |Dedup(CellValues(rows, col))|
      && (s.uniqueValues == 0 <==> rows == [])
      && |s.topValues| == (if TopCount(top) < s.uniqueValues then TopCount(top) else s.uniqueValues)
      && (forall i :: 0 <= i < |s.topValues| ==> s.topValues[i] in Count(CellValues(rows, col)))
      && (forall i, j :: 0 <= i < j < |s.topValues| ==> s.topValues[i].1 >= s.topValues[j].1)
  {
    var values := CellValues(rows, col);
    TopOfTally(Count(values), TopCount(top));
    if rows != [] {
      assert values != [];
    }
  }

  /** Two cells that differ only in surrounding blanks count as two distinct values. */
  lemma UnstrippedValuesExample(isNumber: string -> bool)
    ensures var rows := [map["a" := "x"], map["a" := " x"]];
      Stats(rows, "a", 10, isNumber).uniqueValues == 2
  {
    var rows := [map["a" := "x"], map["a" := " x"]];
    var values := CellValues(rows, "a");
    assert values == ["x", " x"];
    assert values[..1] == ["x"] && values[..1][..0] == [];
    assert Dedup(values) == ["x", " x"];
  }

  /** `numeric` exists exactly when some cell is numeric, and counts the numeric cells. */
  lemma NumbersProperties(rows: seq<Row>, col: string, top: int, isNumber: string -> bool)
    ensures var s := Stats(rows, col, top, isNumber);
      && (s.nums != [] <==> exists i :: 0 <= i < |rows| && IsNumeric(Get(rows[i], col), isNumber))
      && |s.nums| == |Filter(CellValues(rows, col), NumericFn(isNumber))|
  {
    var values := CellValues(rows, col);
    assert Stats(rows, col, top, isNumber).nums == MapSeq(Filter(values, NumericFn(isNumber)), Strip);
    FilterNonEmpty(values, NumericFn(isNumber));
    assert forall i :: 0 <= i < |rows| ==> (NumericFn(isNumber)(values[i]) <==> IsNumeric(Get(rows[i], col), isNumber));
  }

  /** `fields` holds each selected column once, in first-selection order, with that column's
      entry; `field_count` counts the selection as listed, repeats included. */
  lemma FieldsProperties(rows: seq<Row>, selected: seq<string>, top: int, isNumber: string -> bool,
                         floatAgg: (string, seq<string>) -> JValue)
    ensures MemberKeys(FieldsOf(rows, selected, top, isNumber, floatAgg)) == Dedup(selected)
    ensures forall c :: c in selected ==>
      Lookup(FieldsOf(rows, selected, top, isNumber, floatAgg), c) == Some(StatsJson(Stats(rows, c, top, isNumber), floatAgg))
  {
    PutAllMapped(selected, EntryFn(rows, top, isNumber, floatAgg));
  }
}
