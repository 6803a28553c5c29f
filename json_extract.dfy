/** The json `extract` command: the rows of the selected array, cut by `--first` and `--last`, and
    optionally, per row, the values found at each requested path. */
module JsonExtract {
  import opened Text
  import opened Seqs
  import opened Json
  import opened JsonCommon

  // ---------------------------------------------------------------------------------------
  // Rows

  /** `select_rows`: the resolved array, cut to its first `first` rows and then to the last
      `last` of those. */
  function SelectRows(data: JValue, arrayPath: Option<string>, first: Option<int>, last: Option<int>): seq<JValue>
  {
    Slice(ResolveArray(data, arrayPath), first, last)
  }

  /** The rows `main` works on: the selection, or the document itself when it is not a list and
      nothing was selected; a list document without an array path is selected again without a
      path. */
  function MainRows(data: JValue, arrayPath: Option<string>, first: Option<int>, last: Option<int>): seq<JValue>
  {
    var rows := SelectRows(data, arrayPath, first, last);
    if rows == [] && !data.JArr? then [data]
    else if data.JArr? && arrayPath.None? then SelectRows(data, None, first, last)
    else rows
  }

  // ---------------------------------------------------------------------------------------
  // Fields

  /** What a field stores: one match bare, several as the list of matches. */
  function Matched(values: seq<JValue>): (v: JValue)
    requires values != []
    ensures |values| == 1 ==> v == values[0]
    ensures |values| > 1 ==> v == JArr(values)
  {
    if |values| > 1 then JArr(values) else values[0]
  }

  /** The value a requested field ends up with in an item, `None` when it is left out. */
  function FieldResult(row: JValue, field: string, includeMissing: bool): Option<JValue>
  {
    var values := Extract(row, field);
    if values != [] then Some(Matched(values)) else if includeMissing then Some(JNull) else None
  }

  /** What key `k` holds in a dict row's item. */
  function FieldOrNone(row: JValue, fields: seq<string>, includeMissing: bool, k: string): Option<JValue>
  {
    if k in fields then FieldResult(row, k, includeMissing) else None
  }

  function ResultFn(row: JValue, includeMissing: bool): string -> Option<JValue>
  {
    (f: string) => FieldResult(row, f, includeMissing)
  }

  /** The fields that get an entry. */
  function HasEntry(res: string -> Option<JValue>): string -> bool
  {
    (f: string) => res(f).Some?
  }

  /** The dict a loop over `fields` builds when each field is assigned its result, if any. */
  function Assigned(fields: seq<string>, res: string -> Option<JValue>): Members
  {
    if fields == [] then []
    else
      var m := Assigned(fields[..|fields| - 1], res);
      var f := fields[|fields| - 1];
      match res(f)
      case Some(v) => Put(m, f, v)
      case None => m
  }

  /** The dict the field loop of `extract_fields` builds for a dict row. */
  function ItemMembers(row: JValue, fields: seq<string>, includeMissing: bool): Members
  {
    Assigned(fields, ResultFn(row, includeMissing))
  }

  /** The output item of one row: `{"_value": row}` for a row that is not a dict. */
  function ItemOf(row: JValue, fields: seq<string>, includeMissing: bool): JValue
  {
    if row.JObj? then JObj(ItemMembers(row, fields, includeMissing)) else JObj([("_value", row)])
  }

  function ItemFn(fields: seq<string>, includeMissing: bool): JValue -> JValue
  {
    (row: JValue) => ItemOf(row, fields, includeMissing)
  }

  /** The document `main` writes: the rows, or with `--fields` their items. */
  function ExtractDoc(data: JValue, arrayPath: Option<string>, rawFields: Option<string>,
                      first: Option<int>, last: Option<int>, includeMissing: bool): JValue
  {
    var rows := MainRows(data, arrayPath, first, last);
    var fields := OptionalFields(rawFields);
    if fields != [] then JArr(MapSeq(rows, ItemFn(fields, includeMissing))) else JArr(rows)
  }

  // ---------------------------------------------------------------------------------------
  // The loops of `extract_fields`

  /** The item of one row. */
  method ExtractItem(row: JValue, fields: seq<string>, includeMissing: bool) returns (item: JValue)
    ensures item == ItemOf(row, fields, includeMissing)
  {
    if !row.JObj? {
      return JObj([("_value", row)]);
    }
    var m: Members := [];
    for i := 0 to |fields|
      invariant m == ItemMembers(row, fields[..i], includeMissing)
    {
      assert fields[..i + 1][..i] == fields[..i];
      assert ResultFn(row, includeMissing)(fields[i]) == FieldResult(row, fields[i], includeMissing);
      var values := ExtractValues(row, fields[i]);
      if values != [] {
        m := Put(m, fields[i], if |values| > 1 then JArr(values) else values[0]);
      } else if includeMissing {
        m := Put(m, fields[i], JNull);
      }
    }
    assert fields[..|fields|] == fields;
    item := JObj(m);
  }

  /** `extract_fields`: one item per row, in row order. */
  method ExtractFields(rows: seq<JValue>, fields: seq<string>, includeMissing: bool) returns (output: seq<JValue>)
    ensures output == MapSeq(rows, ItemFn(fields, includeMissing))
  {
    output := [];
    for i := 0 to |rows|
      invariant output == MapSeq(rows[..i], ItemFn(fields, includeMissing))
    {
      MapSeqPrefixSnoc(rows, i, ItemFn(fields, includeMissing));
      var item := ExtractItem(rows[i], fields, includeMissing);
      output := output + [item];
    }
    assert rows[..|rows|] == rows;
  }

  /** `main`. */
  method ExtractCommand(data: JValue, arrayPath: Option<string>, rawFields: Option<string>,
                        first: Option<int>, last: Option<int>, includeMissing: bool) returns (result: JValue)
    ensures result == ExtractDoc(data, arrayPath, rawFields, first, last, includeMissing)
  {
    var fields := OptionalFields(rawFields);
    var rows := SelectRows(data, arrayPath, first, last);
    if rows == [] && !data.JArr? {
      rows := [data];
    } else if data.JArr? && arrayPath.None? {
      rows := SelectRows(data, None, first, last);
    }
    if fields != [] {
      var items := ExtractFields(rows, fields, includeMissing);
      result := JArr(items);
    } else {
      result := JArr(rows);
    }
  }

  // ---------------------------------------------------------------------------------------
  // Properties

  /** The selected rows are a window of the resolved array: the `--first` prefix, of which
      `--last` keeps the tail; `--last 0` keeps the whole prefix and no option keeps all. */
  lemma SelectRowsProperties(data: JValue, arrayPath: Option<string>, first: Option<int>, last: Option<int>)
    ensures var all := ResolveArray(data, arrayPath);
      var rows := SelectRows(data, arrayPath, first, last);
      |rows| <= |all|
      && (first.None? && last.None? ==> rows == all)
      && (last.None? ==> rows == all[..|rows|])
      && (first.None? ==> rows == all[|all| - |rows|..])
      && (last.Some? && last.value <= 0 ==> rows == SelectRows(data, arrayPath, first, None))
    ensures first.Some? && first.value <= 0 ==> SelectRows(data, arrayPath, first, last) == []
  {
    SliceProperties(ResolveArray(data, arrayPath), first, last);
  }

  /** A list document yields its selection (re-selecting without a path changes nothing), a
      document that is not a list and selects nothing is the only row, and otherwise the rows
      are the selection. */
  lemma MainRowsProperties(data: JValue, arrayPath: Option<string>, first: Option<int>, last: Option<int>)
    ensures data.JArr? ==> MainRows(data, arrayPath, first, last) == SelectRows(data, arrayPath, first, last)
    ensures data.JArr? && (arrayPath.None? || arrayPath == Some("")) ==>
      MainRows(data, arrayPath, first, last) == Slice(data.elems, first, last)
    ensures !data.JArr? && SelectRows(data, arrayPath, first, last) == [] ==>
      MainRows(data, arrayPath, first, last) == [data]
    ensures MainRows(data, arrayPath, first, last) != []
      ==> SelectRows(data, arrayPath, first, last) != [] || !data.JArr?
  {
  }

  /** Cutting a non-list document's selection to nothing, with `--first 0`, makes the whole
      document the only row. */
  lemma FirstZeroKeepsDocument(data: JValue, arrayPath: Option<string>, last: Option<int>)
    requires !data.JArr?
    ensures MainRows(data, arrayPath, Some(0), last) == [data]
  {
    var all := ResolveArray(data, arrayPath);
    assert Take(all, 0) == [];
    assert SelectRows(data, arrayPath, Some(0), last) == [];
  }

  /** After the loop, a field holds its result and a key that was not among the fields is
      absent. */
  lemma {:induction false} AssignedLookup(fields: seq<string>, res: string -> Option<JValue>, k: string)
    ensures Lookup(Assigned(fields, res), k) == if k in fields then res(k) else None
  {
    if fields != [] {
      var init := fields[..|fields| - 1];
      var f := fields[|fields| - 1];
      AssignedLookup(init, res, k);
      assert k in fields <==> k in init || k == f by {
        assert fields == init + [f];
      }
      var m := Assigned(init, res);
      match res(f)
      case Some(v) =>
        assert Assigned(fields, res) == Put(m, f, v);
      case None =>
        assert Assigned(fields, res) == m;
    }
  }

  /** The keys are the fields that get an entry, each once, in the order of their first
      occurrence. */
  lemma {:induction false} AssignedKeys(fields: seq<string>, res: string -> Option<JValue>)
    ensures MemberKeys(Assigned(fields, res)) == Dedup(Filter(fields, HasEntry(res)))
  {
    if fields != [] {
      var init := fields[..|fields| - 1];
      var f := fields[|fields| - 1];
      AssignedKeys(init, res);
      var s := Filter(init, HasEntry(res));
      var m := Assigned(init, res);
      if res(f).Some? {
        assert Filter(fields, HasEntry(res)) == s + [f];
        assert f in MemberKeys(m) <==> f in s by {
          DedupProperties(s);
        }
        DedupSnoc(s, f);
      } else {
        assert Filter(fields, HasEntry(res)) == s;
      }
    }
  }

  /** A field of a dict row's item holds its one match, or the list of its matches when there
      are several; a field without matches is absent, or None under `--include-missing`; a key
      that was not requested is absent. The keys are the fields with an entry, in the order they
      were first requested. */
  lemma ItemProperties(row: JValue, fields: seq<string>, includeMissing: bool)
    ensures forall k :: Lookup(ItemMembers(row, fields, includeMissing), k) == FieldOrNone(row, fields, includeMissing, k)
    ensures MemberKeys(ItemMembers(row, fields, includeMissing))
      == Dedup(Filter(fields, HasEntry(ResultFn(row, includeMissing))))
  {
    forall k ensures Lookup(ItemMembers(row, fields, includeMissing), k) == FieldOrNone(row, fields, includeMissing, k) {
      AssignedLookup(fields, ResultFn(row, includeMissing), k);
    }
    AssignedKeys(fields, ResultFn(row, includeMissing));
  }

  /** The output has one item per row, in order: the item of a dict row holds exactly the fields
      that matched (or all requested ones under `--include-missing`), a row that is not a dict
      becomes `{"_value": row}`; without `--fields` the rows are written as they are. */
  lemma ExtractDocProperties(data: JValue, arrayPath: Option<string>, rawFields: Option<string>,
                             first: Option<int>, last: Option<int>, includeMissing: bool)
    ensures var doc := ExtractDoc(data, arrayPath, rawFields, first, last, includeMissing);
      var rows := MainRows(data, arrayPath, first, last);
      doc.JArr? && |doc.elems| == |rows|
      && (OptionalFields(rawFields) == [] ==> doc.elems == rows)
      && (OptionalFields(rawFields) != [] ==>
            forall i :: 0 <= i < |rows| ==>
              doc.elems[i] == ItemOf(rows[i], OptionalFields(rawFields), includeMissing))
  {
  }

  /** Under `--include-missing` every requested field is present in a dict row's item. */
  lemma IncludeMissingKeepsAll(row: JValue, fields: seq<string>, k: string)
    requires row.JObj? && k in fields
    ensures Lookup(ItemOf(row, fields, true).members, k).Some?
  {
    AssignedLookup(fields, ResultFn(row, true), k);
  }
}
