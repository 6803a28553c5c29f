/** The csv `schema` command: per column, the sorted set of cell types, the number of non-blank
    cells and the tally of the types. */
module CsvSchema {
  import opened Text
  import opened Seqs
  import opened Sorting
  import opened Tally
  import opened Json
  import opened CsvCommon

  /** A column's entry: `types`, and `presence` (the pair behind `"p/n"`) and `type_counts`
      when counts are asked for. */
  datatype ColumnSchema = ColumnSchema(types: seq<string>, presence: Option<(nat, nat)>,
                                       typeCounts: Option<seq<(string, nat)>>)

  /** `sniff_type(row.get(col, ""))`. */
  function SniffFn(col: string, isNumber: string -> bool): Row -> string
  {
    (row: Row) => SniffType(Get(row, col), isNumber)
  }

  /** `(val or "").strip()` is non-empty. */
  function PresentIn(col: string): Row -> bool
  {
    (row: Row) => Strip(Get(row, col)) != ""
  }

  /** The type of every cell of the column, row by row. */
  function Sniffs(rows: seq<Row>, col: string, isNumber: string -> bool): seq<string>
  {
    MapSeq(rows, SniffFn(col, isNumber))
  }

  /** The number of rows with a non-blank cell in the column. */
  function Presence(rows: seq<Row>, col: string): nat
  {
    |Filter(rows, PresentIn(col))|
  }

  /** `sorted(types_counter.keys())`. */
  function Types(rows: seq<Row>, col: string, isNumber: string -> bool): seq<string>
  {
    SortedSet(Values(Count(Sniffs(rows, col, isNumber))))
  }

  /** The entry of one column. */
  function Column(rows: seq<Row>, col: string, isNumber: string -> bool, counts: bool): ColumnSchema
  {
    ColumnSchema(Types(rows, col, isNumber), if counts then Some((Presence(rows, col), |rows|)) else None,
                 if counts then Some(Count(Sniffs(rows, col, isNumber))) else None)
  }

  /** The entry as the command writes it: the `types` list, then `presence` as `"p/n"` and the
      `type_counts` dict. */
  function ColumnJson(c: ColumnSchema): (r: JValue)
    ensures r.JObj? && |r.members| >= 1 && r.members[0] == ("types", JArr(Strs(c.types)))
    ensures |r.members| == 1 <==> c.presence.None? && c.typeCounts.None?
  {
    JObj([("types", JArr(Strs(c.types)))]
      + (if c.presence.Some? then [("presence", JStr(NatToString(c.presence.value.0) + "/" + NatToString(c.presence.value.1)))] else [])
      + (if c.typeCounts.Some? then [("type_counts", JObj(MapSeq(c.typeCounts.value, CountFn())))] else []))
  }

  function CountFn(): ((string, nat)) -> (string, JValue)
  {
    (e: (string, nat)) => (e.0, JInt(e.1))
  }

  /** The entry of each column, as written. */
  function EntryFn(rows: seq<Row>, isNumber: string -> bool, counts: bool): string -> JValue
  {
    (col: string) => ColumnJson(Column(rows, col, isNumber, counts))
  }

  /** The `fields` dict: one assignment per column, in column order. */
  function FieldsOf(t: Table, isNumber: string -> bool, counts: bool): Members
  {
    PutAll([], MapSeq(t.columns, Assign(EntryFn(t.rows, isNumber, counts))))
  }

  /** The document `main` writes. */
  function SchemaDoc(t: Table, isNumber: string -> bool, counts: bool): JValue
  {
    JObj([("columns", JArr(Strs(t.columns))), ("record_count", JInt(|t.rows|)),
          ("fields", JObj(FieldsOf(t, isNumber, counts)))])
  }

  // ---------------------------------------------------------------------------------------
  // The loops of `main`

  /** The inner loop over the rows: `types_counter[sniff_type(val)] += 1` and the presence count. */
  method ScanColumn(rows: seq<Row>, col: string, isNumber: string -> bool)
    returns (counter: seq<(string, nat)>, presence: nat)
    ensures counter == Count(Sniffs(rows, col, isNumber))
    ensures presence == Presence(rows, col)
  {
    counter := [];
    presence := 0;
    for i := 0 to |rows|
      invariant counter == Count(Sniffs(rows[..i], col, isNumber))
      invariant presence == Presence(rows[..i], col)
    {
      var val := Get(rows[i], col);
      ScanStep(rows, i, col, isNumber);
      counter := Tick(counter, SniffType(val, isNumber));
      if Strip(val) != "" {
        presence := presence + 1;
      }
    }
    assert rows[..|rows|] == rows;
  }

  /** One more row adds its cell's type to the tally and, when the cell is not blank, one to the
      presence. */
  lemma ScanStep(rows: seq<Row>, i: nat, col: string, isNumber: string -> bool)
    requires i < |rows|
    ensures Count(Sniffs(rows[..i + 1], col, isNumber))
      == Tick(Count(Sniffs(rows[..i], col, isNumber)), SniffType(Get(rows[i], col), isNumber))
    ensures Presence(rows[..i + 1], col) == Presence(rows[..i], col) + if Strip(Get(rows[i], col)) != "" then 1 else 0
  {
    var xs := Sniffs(rows[..i], col, isNumber);
    var x := SniffType(Get(rows[i], col), isNumber);
    assert Sniffs(rows[..i + 1], col, isNumber) == xs + [x] by {
      MapSeqPrefixSnoc(rows, i, SniffFn(col, isNumber));
    }
    CountSnoc(xs, x);
    PresenceStep(rows, i, col);
  }

  lemma PresenceStep(rows: seq<Row>, i: nat, col: string)
    requires i < |rows|
    ensures Presence(rows[..i + 1], col) == Presence(rows[..i], col) + if Strip(Get(rows[i], col)) != "" then 1 else 0
  {
    assert rows[..i + 1][..i] == rows[..i];
  }

  /** The outer loop over the columns, filling `fields`. */
  method InferFields(t: Table, isNumber: string -> bool, counts: bool) returns (fields: Members)
    ensures fields == FieldsOf(t, isNumber, counts)
  {
    ghost var g := EntryFn(t.rows, isNumber, counts);
    fields := [];
    AssignedPrefixEmpty(t.columns, g);
    var i := 0;
    while i < |t.columns|
      invariant i <= |t.columns|
      invariant fields == PutAll([], MapSeq(t.columns[..i], Assign(g)))
    {
      var e := ColumnEntry(t.rows, t.columns[i], isNumber, counts);
      PutAllMappedSnoc(t.columns, i, g);
      fields := Put(fields, t.columns[i], e);
      i := i + 1;
    }
    assert t.columns[..i] == t.columns;
  }

  lemma AssignedPrefixEmpty(cols: seq<string>, g: string -> JValue)
    ensures PutAll([], MapSeq(cols[..0], Assign(g))) == []
  {
    assert cols[..0] == [];
  }

  /** One turn of the outer loop: scan the column, then build its entry. */
  method ColumnEntry(rows: seq<Row>, col: string, isNumber: string -> bool, counts: bool) returns (e: JValue)
    ensures e == EntryFn(rows, isNumber, counts)(col)
  {
    var counter, presence := ScanColumn(rows, col, isNumber);
    var entry := ColumnSchema(SortedSet(Values(counter)), if counts then Some((presence, |rows|)) else None,
                              if counts then Some(counter) else None);
    e := ColumnJson(entry);
  }

  /** `main`, from the loaded table to the document it writes. */
  method SchemaCommand(t: Table, isNumber: string -> bool, counts: bool) returns (doc: JValue)
    ensures doc == SchemaDoc(t, isNumber, counts)
  {
    var fields := InferFields(t, isNumber, counts);
    doc := JObj([("columns", JArr(Strs(t.columns))), ("record_count", JInt(|t.rows|)),
                 ("fields", JObj(fields))]);
  }

  // ---------------------------------------------------------------------------------------
  // Properties

  /** Every blank cell is typed `empty` and every other one is counted as present, so the two
      add up to the number of rows. */
  lemma {:induction false} EmptyPlusPresence(rows: seq<Row>, col: string, isNumber: string -> bool)
    ensures multiset(Sniffs(rows, col, isNumber))["empty"] + Presence(rows, col) == |rows|
  {
    if rows != [] {
      EmptyPlusPresence(rows[..|rows| - 1], col, isNumber);
      SnocCounts(rows, col, isNumber);
    }
  }

  /** The last row adds one to the `empty` count or one to the presence. */
  lemma SnocCounts(rows: seq<Row>, col: string, isNumber: string -> bool)
    requires rows != []
    ensures var init := rows[..|rows| - 1];
      multiset(Sniffs(rows, col, isNumber))["empty"] + Presence(rows, col)
        == multiset(Sniffs(init, col, isNumber))["empty"] + Presence(init, col) + 1
  {
    var n := |rows| - 1;
    var init := rows[..n];
    var ty := SniffFn(col, isNumber)(rows[n]);
    var present := PresentIn(col)(rows[n]);
    MapSeqPrefixSnoc(rows, n, SniffFn(col, isNumber));
    assert rows[..n + 1] == rows;
    assert multiset(Sniffs(rows, col, isNumber)) == multiset(Sniffs(init, col, isNumber)) + multiset{ty};
    assert Filter(rows, PresentIn(col)) == Filter(init, PresentIn(col)) + (if present then [rows[n]] else []);
  }

  /** A column's `types` are exactly the types of its cells, each once, in increasing order
      (none for a table without rows). */
  lemma ColumnTypes(rows: seq<Row>, col: string, isNumber: string -> bool)
    ensures var ts := Types(rows, col, isNumber);
      && (forall ty :: ty in ts <==> exists i :: 0 <= i < |rows| && SniffFn(col, isNumber)(rows[i]) == ty)
      && (forall a, b :: 0 <= a < b < |ts| ==> StrLess(ts[a], ts[b]))
      && (rows == [] ==> ts == [])
  {
    var xs := Sniffs(rows, col, isNumber);
    CountProperties(xs);
    SortedSetProperties(Values(Count(xs)));
    MapSeqMembers(rows, SniffFn(col, isNumber));
  }

  /** With counts, a column's presence is at most the number of rows; the type counts add up
      to the number of rows, each type counted once with its number of cells; and the `empty`
      count and the presence add up to the number of rows. */
  lemma ColumnCounts(rows: seq<Row>, col: string, isNumber: string -> bool)
    ensures var c := Column(rows, col, isNumber, true);
      && c.presence == Some((Presence(rows, col), |rows|)) && Presence(rows, col) <= |rows|
      && c.typeCounts.Some? && Total(c.typeCounts.value) == |rows|
      && NoDups(Values(c.typeCounts.value))
      && (forall j :: 0 <= j < |c.typeCounts.value| ==>
            c.typeCounts.value[j].1 == multiset(Sniffs(rows, col, isNumber))[c.typeCounts.value[j].0])
      && multiset(Sniffs(rows, col, isNumber))["empty"] + Presence(rows, col) == |rows|
  {
    CountProperties(Sniffs(rows, col, isNumber));
    EmptyPlusPresence(rows, col, isNumber);
  }

  /** Without counts an entry has only its `types`, the same as with counts. */
  lemma ColumnWithoutCounts(rows: seq<Row>, col: string, isNumber: string -> bool)
    ensures Column(rows, col, isNumber, false)
      == Column(rows, col, isNumber, true).(presence := None, typeCounts := None)
  {
  }

  /** `fields` has one entry per distinct column, in column order, and each column's entry is
      the one computed from its cells. */
  lemma FieldsProperties(t: Table, isNumber: string -> bool, counts: bool)
    ensures MemberKeys(FieldsOf(t, isNumber, counts)) == Dedup(t.columns)
    ensures forall col :: col in t.columns ==>
      Lookup(FieldsOf(t, isNumber, counts), col) == Some(ColumnJson(Column(t.rows, col, isNumber, counts)))
  {
    PutAllMapped(t.columns, EntryFn(t.rows, isNumber, counts));
  }
}
