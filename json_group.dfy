/** Group-by and cross-tabulation of JSON records (json-tools/scripts/group.py): the records are
    grouped by the tuple of their first values for the by-fields, every group becomes one output
    row holding the key, the group size and the requested aggregations, and the rows are sorted
    and cut to the first `--top`. */
module JsonGroup {
  import opened Text
  import opened Seqs
  import opened Sorting
  import opened Json
  import opened JsonCommon
  import opened Conditions

  // Aggregation specs

  /** The aggregation functions `parse_agg` accepts. */
  const AggFuncs: set<string> := {"count", "sum", "min", "max", "mean", "list", "unique"}

  /** An aggregation: the field whose values are aggregated and the function applied to them. */
  datatype Agg = Agg(field: string, func: string)

  /** The aggregation every group carries anyway, as its `count` column. */
  const PlainCount := Agg("", "count")

  /** `parse_agg(spec)`. */
  function ParseAgg(spec: string): (r: Result<Agg>)
    ensures r.Ok? ==> r.value.func in AggFuncs
  {
    if Lower(Strip(spec)) == "count" then Ok(PlainCount)
    else if ':' !in spec then Err("Invalid --agg spec '" + spec + "'. Use field:func or 'count'.")
    else
      var parts := SplitLast(spec, ':');
      var func := Lower(Strip(parts.1));
      if func !in AggFuncs then
        Err("Unknown aggregation '" + func + "'. Use one of: ['count', 'list', 'max', 'mean', 'min', 'sum', 'unique']")
      else Ok(Agg(Strip(parts.0), func))
  }

  /** `count` in any case and with any surrounding blanks is the plain count; any other spec
      needs a `:`, is split at its LAST `:`, and is accepted exactly when the stripped, lower-cased
      function name is one of the seven. */
  lemma ParseAggProperties(spec: string)
    ensures Lower(Strip(spec)) == "count" ==> ParseAgg(spec) == Ok(PlainCount)
    ensures Lower(Strip(spec)) != "count" && ':' !in spec ==> ParseAgg(spec).Err?
    ensures Lower(Strip(spec)) != "count" && ':' in spec ==>
      var k := LastIndex(spec, ':');
      (ParseAgg(spec).Ok? <==> Lower(Strip(spec[k + 1..])) in AggFuncs)
      && (ParseAgg(spec).Ok? ==> ParseAgg(spec).value == Agg(Strip(spec[..k]), Lower(Strip(spec[k + 1..]))))
  {
  }

  /** `agg_specs`: one parsed aggregation per `--agg` value, or the plain count without any. */
  function AggSpecs(specs: seq<string>): Result<seq<Agg>>
  {
    if specs == [] then Ok([PlainCount]) else ParseAll([], specs, ParseAgg)
  }

  /** The specs fail exactly when one of them fails to parse; otherwise there is one
      aggregation per spec, in order, and every function name is allowed. */
  lemma AggSpecsProperties(specs: seq<string>)
    ensures specs == [] ==> AggSpecs(specs) == Ok([PlainCount])
    ensures specs != [] ==> (AggSpecs(specs).Ok? <==> forall i :: 0 <= i < |specs| ==> ParseAgg(specs[i]).Ok?)
    ensures specs != [] && AggSpecs(specs).Ok? ==>
      |AggSpecs(specs).value| == |specs|
      && forall i :: 0 <= i < |specs| ==> ParseAgg(specs[i]) == Ok(AggSpecs(specs).value[i])
    ensures AggSpecs(specs).Ok? ==> forall a :: a in AggSpecs(specs).value ==> a.func in AggFuncs
  {
    ParseAllShape([], specs, ParseAgg);
    if specs != [] && AggSpecs(specs).Ok? {
      var aggs := AggSpecs(specs).value;
      forall a | a in aggs ensures a.func in AggFuncs {
        var i :| 0 <= i < |aggs| && aggs[i] == a;
        assert ParseAgg(specs[i]) == Ok(a);
      }
    }
  }

  // Group keys

  /** One component of a group key: dicts and lists are replaced by their compact, key-sorted
      JSON text so that they can be compared; other values stay as they are. */
  function KeyPart(v: JValue): (p: JValue)
    ensures !IsComposite(p)
    ensures !IsComposite(v) ==> p == v
  {
    if IsComposite(v) then JStr(Dumps(v, CompactSeparators)) else v
  }

  /** `group_key(record, by_fields)`. */
  function GroupKey(record: JValue, byFields: seq<string>): seq<JValue>
  {
    MapSeq(byFields, PartFn(record))
  }

  /** The key part of a record for one by-field. */
  function PartFn(record: JValue): string -> JValue
  {
    (f: string) => KeyPart(FirstValue(record, f, JNull))
  }

  /** The key function the grouping applies to every record. */
  function KeyFn(byFields: seq<string>): JValue -> seq<JValue>
  {
    (record: JValue) => GroupKey(record, byFields)
  }

  /** `group_key`'s loop, appending one part per by-field. */
  method BuildGroupKey(record: JValue, byFields: seq<string>) returns (parts: seq<JValue>)
    ensures parts == GroupKey(record, byFields)
  {
    parts := [];
    for i := 0 to |byFields|
      invariant parts == GroupKey(record, byFields[..i])
    {
      var value := FirstValue(record, byFields[i], JNull);
      ghost var first := value;
      if IsComposite(value) {
        value := JStr(Dumps(value, CompactSeparators));
      }
      assert value == KeyPart(first);
      GroupKeyPrefixSnoc(record, byFields, i);
      parts := parts + [value];
    }
    assert byFields[..|byFields|] == byFields;
  }

  lemma GroupKeyPrefixSnoc(record: JValue, byFields: seq<string>, i: nat)
    requires i < |byFields|
    ensures GroupKey(record, byFields[..i + 1]) == GroupKey(record, byFields[..i]) + [KeyPart(FirstValue(record, byFields[i], JNull))]
  {
    MapSeqPrefixSnoc(byFields, i, PartFn(record));
  }


  /** A key has one entry per by-field, the first value of that field (None when there is
      none), and no entry is a dict or a list. */
  lemma GroupKeyProperties(record: JValue, byFields: seq<string>)
    ensures |GroupKey(record, byFields)| == |byFields|
    ensures forall i :: 0 <= i < |byFields| ==> !IsComposite(GroupKey(record, byFields)[i])
    ensures forall i :: 0 <= i < |byFields| && !IsComposite(FirstValue(record, byFields[i], JNull)) ==>
      GroupKey(record, byFields)[i] == FirstValue(record, byFields[i], JNull)
  {
  }

  /** Dicts that differ only in the order of their keys give the same key part, so records
      holding them fall into one group. */
  lemma KeyPartOrderFree(m: Members, m': Members)
    requires UniqueKeys(m) && multiset(m) == multiset(m')
    ensures KeyPart(JObj(m)) == KeyPart(JObj(m'))
  {
    DumpsKeyOrderFree(m, m', CompactSeparators);
  }

  // Aggregations

  /** `isinstance(v, (int, float)) and not isinstance(v, bool)`. */
  predicate IsNum(v: JValue)
  {
    v.JInt? || v.JFloat?
  }

  /** `nums`: the numbers among the values. */
  function Nums(values: seq<JValue>): seq<JValue>
  {
    Filter(values, IsNum)
  }

  predicate AllInts(nums: seq<JValue>)
  {
    forall i :: 0 <= i < |nums| ==> nums[i].JInt?
  }

  /** `sum(nums)` over ints. */
  function SumInts(nums: seq<JValue>): int
  {
    if nums == [] then 0
    else SumInts(nums[..|nums| - 1]) + (if nums[|nums| - 1].JInt? then nums[|nums| - 1].i else 0)
  }

  /** `min(nums)` over ints. */
  function MinInt(nums: seq<JValue>): (m: int)
    requires nums != [] && AllInts(nums)
    ensures JInt(m) in nums
    ensures forall i :: 0 <= i < |nums| ==> m <= nums[i].i
  {
    var x := nums[|nums| - 1].i;
    if |nums| == 1 then x
    else
      var init := nums[..|nums| - 1];
      var m := MinInt(init);
      assert forall i :: 0 <= i < |init| ==> init[i] == nums[i];
      if x < m then x else m
  }

  /** `max(nums)` over ints. */
  function MaxInt(nums: seq<JValue>): (m: int)
    requires nums != [] && AllInts(nums)
    ensures JInt(m) in nums
    ensures forall i :: 0 <= i < |nums| ==> nums[i].i <= m
  {
    var x := nums[|nums| - 1].i;
    if |nums| == 1 then x
    else
      var init := nums[..|nums| - 1];
      var m := MaxInt(init);
      assert forall i :: 0 <= i < |init| ==> init[i] == nums[i];
      if x > m then x else m
  }

  /** `compute_agg(values, func)`. A result that Python computes in floating point (any mean, and
      a sum, min or max over numbers that include a float) is `floatAgg(func, nums)`. */
  function ComputeAgg(values: seq<JValue>, func: string, floatAgg: (string, seq<JValue>) -> JValue): JValue
  {
    if func == "count" then JInt(|values|)
    else if func == "list" then JArr(values)
    else if func == "unique" then JArr(Dedup(values))
    else
      var nums := Nums(values);
      if nums == [] then JNull
      else if func == "sum" && AllInts(nums) then JInt(SumInts(nums))
      else if func == "min" && AllInts(nums) then JInt(MinInt(nums))
      else if func == "max" && AllInts(nums) then JInt(MaxInt(nums))
      else if func == "sum" || func == "min" || func == "max" || func == "mean" then floatAgg(func, nums)
      else JNull
  }

  /** `compute_agg`, with the `unique` branch as its loop. */
  method ComputeAggregate(values: seq<JValue>, func: string, floatAgg: (string, seq<JValue>) -> JValue)
    returns (result: JValue)
    ensures result == ComputeAgg(values, func, floatAgg)
  {
    if func == "unique" {
      var seen := DedupByLoop(values, Id);
      DedupByIdentity(values);
      result := JArr(seen);
    } else {
      result := ComputeAgg(values, func, floatAgg);
    }
  }

  /** `count` is the number of values and `list` the values themselves; `unique` keeps every
      value once, in the order of its first occurrence, and is the list itself when no value
      repeats. */
  lemma CountListUnique(values: seq<JValue>, floatAgg: (string, seq<JValue>) -> JValue)
    ensures ComputeAgg(values, "count", floatAgg) == JInt(|values|)
    ensures ComputeAgg(values, "list", floatAgg) == JArr(values)
    ensures var u := ComputeAgg(values, "unique", floatAgg).elems;
      NoDups(u) && IsSubseq(u, values) && (forall v :: v in u <==> v in values)
      && (forall i, j :: 0 <= i < j < |u| ==> IndexOf(values, u[i]) < IndexOf(values, u[j]))
    ensures NoDups(values) ==> ComputeAgg(values, "unique", floatAgg) == JArr(values)
  {
    DedupProperties(values);
    DedupFirstOrder(values);
    if NoDups(values) {
      DedupNoDups(values);
    }
  }

  /** The numeric functions look only at the numbers among the values (bools are not numbers),
      give None when there are none, and so does an unknown function name. */
  lemma NumericIgnoresOthers(values: seq<JValue>, func: string, floatAgg: (string, seq<JValue>) -> JValue)
    requires func != "count" && func != "list" && func != "unique"
    ensures ComputeAgg(values, func, floatAgg) == ComputeAgg(Nums(values), func, floatAgg)
    ensures Nums(values) == [] ==> ComputeAgg(values, func, floatAgg) == JNull
    ensures func !in AggFuncs ==> ComputeAgg(values, func, floatAgg) == JNull
  {
    var nums := Nums(values);
    FilterAll(nums, IsNum);
  }

  /** Over ints, `sum` is their sum, and `min` and `max` are the least and the greatest number
      among the values. */
  lemma IntAggregates(values: seq<JValue>, floatAgg: (string, seq<JValue>) -> JValue)
    requires Nums(values) != [] && AllInts(Nums(values))
    ensures ComputeAgg(values, "sum", floatAgg) == JInt(SumInts(Nums(values)))
    ensures var m := ComputeAgg(values, "min", floatAgg);
      m.JInt? && m in values && forall v :: v in values && IsNum(v) ==> m.i <= v.i
    ensures var m := ComputeAgg(values, "max", floatAgg);
      m.JInt? && m in values && forall v :: v in values && IsNum(v) ==> v.i <= m.i
  {
    var nums := Nums(values);
    forall v | v in values && IsNum(v) ensures v in nums {
      var i :| 0 <= i < |values| && values[i] == v;
      assert values[i] in nums;
    }
  }

  /** Bools and strings are not summed: only the 2 counts. */
  lemma SumSkipsBools(floatAgg: (string, seq<JValue>) -> JValue)
    ensures ComputeAgg([JBool(true), JInt(2), JStr("3")], "sum", floatAgg) == JInt(2)
    ensures ComputeAgg([JBool(true), JStr("3")], "min", floatAgg) == JNull
  {
    var values := [JBool(true), JInt(2), JStr("3")];
    assert values[..2] == [JBool(true), JInt(2)] && values[..2][..1] == [JBool(true)];
    assert Filter([JBool(true)], IsNum) == [];
    assert Filter([JBool(true), JInt(2)], IsNum) == [JInt(2)];
    assert Nums(values) == [JInt(2)];
    var others := [JBool(true), JStr("3")];
    assert others[..1] == [JBool(true)];
    assert Nums(others) == [];
  }

  /** The values aggregated for a field: the group's first values for it that are not None,
      in record order. */
  function AggValues(group: seq<JValue>, field: string): (values: seq<JValue>)
    ensures |values| <= |group|
    ensures forall i :: 0 <= i < |values| ==> !values[i].JNull?
  {
    if group == [] then []
    else
      var v := FirstValue(group[|group| - 1], field, JNull);
      AggValues(group[..|group| - 1], field) + (if v.JNull? then [] else [v])
  }

  /** The loop collecting `values` for one aggregation. */
  method CollectAggValues(group: seq<JValue>, field: string) returns (values: seq<JValue>)
    ensures values == AggValues(group, field)
  {
    values := [];
    for i := 0 to |group|
      invariant values == AggValues(group[..i], field)
    {
      assert group[..i + 1][..i] == group[..i];
      var v := FirstValue(group[i], field, JNull);
      if !v.JNull? {
        values := values + [v];
      }
    }
    assert group[..|group|] == group;
  }

  /** A record's first value for a field (None when it has none). */
  function FieldFn(field: string): JValue -> JValue
  {
    (record: JValue) => FirstValue(record, field, JNull)
  }

  predicate NotNone(v: JValue)
  {
    !v.JNull?
  }

  /** The aggregated values are the records' first values for the field with the Nones
      filtered out. */
  lemma {:induction false} AggValuesFilter(group: seq<JValue>, field: string)
    ensures AggValues(group, field) == Filter(MapSeq(group, FieldFn(field)), NotNone)
  {
    if group != [] {
      var n := |group| - 1;
      var firsts := MapSeq(group, FieldFn(field));
      var v := FirstValue(group[n], field, JNull);
      AggValuesFilter(group[..n], field);
      assert firsts[..n] == MapSeq(group[..n], FieldFn(field));
      assert firsts[n] == v;
      assert Filter(firsts, NotNone) == Filter(firsts[..n], NotNone) + (if NotNone(v) then [v] else []);
      assert AggValues(group, field) == AggValues(group[..n], field) + (if v.JNull? then [] else [v]);
    }
  }

  /** The aggregated values are exactly the first values that are not None: each comes from some
      record, and every record's non-None value is there. */
  lemma AggValuesExact(group: seq<JValue>, field: string)
    ensures forall v :: v in AggValues(group, field) <==>
      !v.JNull? && exists j :: 0 <= j < |group| && FirstValue(group[j], field, JNull) == v
  {
    var firsts := MapSeq(group, FieldFn(field));
    AggValuesFilter(group, field);
    forall v ensures v in AggValues(group, field) <==>
      !v.JNull? && exists j :: 0 <= j < |group| && FirstValue(group[j], field, JNull) == v
    {
      if v in AggValues(group, field) {
        var i :| 0 <= i < |AggValues(group, field)| && AggValues(group, field)[i] == v;
        assert v in firsts;
        var j :| 0 <= j < |firsts| && firsts[j] == v;
        assert FirstValue(group[j], field, JNull) == v;
      }
      if !v.JNull? && exists j :: 0 <= j < |group| && FirstValue(group[j], field, JNull) == v {
        var j :| 0 <= j < |group| && FirstValue(group[j], field, JNull) == v;
        assert firsts[j] == v && NotNone(firsts[j]);
      }
    }
  }

  // Output rows

  /** The column name of an aggregation. */
  function Label(a: Agg): string
  {
    a.field + ":" + a.func
  }

  lemma LabelHasColon(a: Agg)
    ensures ':' in Label(a)
  {
    assert Label(a)[|a.field|] == ':';
  }

  /** The key columns: `zip(by_fields, key_tuple)`. */
  function KeyColumns(byFields: seq<string>, key: seq<JValue>): (cols: Members)
    ensures |cols| == if |byFields| <= |key| then |byFields| else |key|
    ensures forall i :: 0 <= i < |cols| ==> cols[i] == (byFields[i], key[i])
  {
    var n := if |byFields| <= |key| then |byFields| else |key|;
    seq(n, i requires 0 <= i < n => (byFields[i], key[i]))
  }

  /** The aggregation columns of a group, in `--agg` order; the plain count is skipped. */
  function AggColumns(group: seq<JValue>, aggs: seq<Agg>, floatAgg: (string, seq<JValue>) -> JValue): (cols: Members)
    ensures forall i :: 0 <= i < |cols| ==> ':' in cols[i].0
  {
    if aggs == [] then []
    else
      var a := aggs[|aggs| - 1];
      var init := AggColumns(group, aggs[..|aggs| - 1], floatAgg);
      LabelHasColon(a);
      init + (if a == PlainCount then [] else [(Label(a), ComputeAgg(AggValues(group, a.field), a.func, floatAgg))])
  }

  /** A group's output row: the key columns, then the group size under `count`, then the
      aggregation columns, each assignment overwriting an earlier one with the same name. */
  function BuildRow(byFields: seq<string>, key: seq<JValue>, group: seq<JValue>, aggs: seq<Agg>,
                    floatAgg: (string, seq<JValue>) -> JValue): Members
  {
    PutAll(Put(PutAll([], KeyColumns(byFields, key)), "count", JInt(|group|)), AggColumns(group, aggs, floatAgg))
  }

  /** `main`'s loop body building one row: the key columns, the size, then the aggregations. */
  method BuildGroupRow(byFields: seq<string>, key: seq<JValue>, group: seq<JValue>, aggs: seq<Agg>,
                       floatAgg: (string, seq<JValue>) -> JValue) returns (row: Members)
    ensures row == BuildRow(byFields, key, group, aggs, floatAgg)
  {
    row := AssignKeyColumns(byFields, key);
    row := Put(row, "count", JInt(|group|));
    row := AssignAggColumns(row, group, aggs, floatAgg);
  }

  /** The loop over `zip(by_fields, key_tuple)`, on an empty row. */
  method AssignKeyColumns(byFields: seq<string>, key: seq<JValue>) returns (row: Members)
    ensures row == PutAll([], KeyColumns(byFields, key))
  {
    var keyCols := KeyColumns(byFields, key);
    row := [];
    for i := 0 to |keyCols|
      invariant row == PutAll([], keyCols[..i])
    {
      assert keyCols[..i + 1][..i] == keyCols[..i];
      row := Put(row, byFields[i], key[i]);
    }
    assert keyCols[..|keyCols|] == keyCols;
  }

  /** The loop over the aggregations, assigning each one's column to `row0`. */
  method AssignAggColumns(row0: Members, group: seq<JValue>, aggs: seq<Agg>,
                          floatAgg: (string, seq<JValue>) -> JValue) returns (row: Members)
    ensures row == PutAll(row0, AggColumns(group, aggs, floatAgg))
  {
    row := row0;
    assert aggs[..0] == [];
    for k := 0 to |aggs|
      invariant row == PutAll(row0, AggColumns(group, aggs[..k], floatAgg))
    {
      var a := aggs[k];
      AggColumnsSnoc(group, aggs, k, floatAgg);
      if a == PlainCount {
        assert AggColumns(group, aggs[..k + 1], floatAgg) == AggColumns(group, aggs[..k], floatAgg) + [];
        assert AggColumns(group, aggs[..k], floatAgg) + [] == AggColumns(group, aggs[..k], floatAgg);
        continue;
      }
      var values := CollectAggValues(group, a.field);
      var value := ComputeAggregate(values, a.func, floatAgg);
      PutAllSnoc(row0, AggColumns(group, aggs[..k], floatAgg), Label(a), value);
      row := Put(row, Label(a), value);
    }
    assert aggs[..|aggs|] == aggs;
  }

  lemma AggColumnsSnoc(group: seq<JValue>, aggs: seq<Agg>, k: nat, floatAgg: (string, seq<JValue>) -> JValue)
    requires k < |aggs|
    ensures AggColumns(group, aggs[..k + 1], floatAgg) == AggColumns(group, aggs[..k], floatAgg) +
      (if aggs[k] == PlainCount then [] else [(Label(aggs[k]), ComputeAgg(AggValues(group, aggs[k].field), aggs[k].func, floatAgg))])
  {
    assert aggs[..k + 1][..k] == aggs[..k];
  }

  /** The `count` column: the group size, or 0 for a row without one. */
  function RowCount(row: Members): int
  {
    match Lookup(row, "count")
    case Some(JInt(n)) => n
    case _ => 0
  }

  /** A row's `count` is its group's size, whatever the by-fields are called: the size is
      assigned after the key columns, and no aggregation column is called `count`. */
  lemma RowCountIsGroupSize(byFields: seq<string>, key: seq<JValue>, group: seq<JValue>, aggs: seq<Agg>,
                            floatAgg: (string, seq<JValue>) -> JValue)
    ensures Lookup(BuildRow(byFields, key, group, aggs, floatAgg), "count") == Some(JInt(|group|))
    ensures RowCount(BuildRow(byFields, key, group, aggs, floatAgg)) == |group|
  {
    var row0 := Put(PutAll([], KeyColumns(byFields, key)), "count", JInt(|group|));
    var aggCols := AggColumns(group, aggs, floatAgg);
    assert "count" !in MemberKeys(aggCols) by {
      assert ':' !in "count";
    }
    PutAllUntouched(row0, aggCols, "count");
  }

  /** A row holds, under every aggregation's label, that aggregation of the group's values
      (aggregation columns are assigned last, and two aggregations with one label agree). */
  lemma RowAggregates(byFields: seq<string>, key: seq<JValue>, group: seq<JValue>, aggs: seq<Agg>,
                      floatAgg: (string, seq<JValue>) -> JValue, a: Agg)
    requires forall b :: b in aggs ==> b.func in AggFuncs
    requires a in aggs && a != PlainCount
    ensures Lookup(BuildRow(byFields, key, group, aggs, floatAgg), Label(a))
      == Some(ComputeAgg(AggValues(group, a.field), a.func, floatAgg))
  {
    var row0 := Put(PutAll([], KeyColumns(byFields, key)), "count", JInt(|group|));
    var aggCols := AggColumns(group, aggs, floatAgg);
    var value := ComputeAgg(AggValues(group, a.field), a.func, floatAgg);
    AggColumnsHold(group, aggs, floatAgg, a);
    assert Label(a) in MemberKeys(aggCols) by {
      var j :| 0 <= j < |aggCols| && aggCols[j] == (Label(a), value);
      assert MemberKeys(aggCols)[j] == Label(a);
    }
    forall i | 0 <= i < |aggCols| && aggCols[i].0 == Label(a) ensures aggCols[i].1 == value {
      AggColumnsLabels(group, aggs, floatAgg, i, a);
    }
    PutAllUniform(row0, aggCols, Label(a), value);
  }

  /** Every aggregation other than the plain count has its column. */
  lemma {:induction false} AggColumnsHold(group: seq<JValue>, aggs: seq<Agg>, floatAgg: (string, seq<JValue>) -> JValue, a: Agg)
    requires a in aggs && a != PlainCount
    ensures (Label(a), ComputeAgg(AggValues(group, a.field), a.func, floatAgg)) in AggColumns(group, aggs, floatAgg)
  {
    var init := aggs[..|aggs| - 1];
    if a != aggs[|aggs| - 1] {
      assert a in init by {
        var k :| 0 <= k < |aggs| && aggs[k] == a;
        assert init[k] == a;
      }
      AggColumnsHold(group, init, floatAgg, a);
    }
  }

  /** An aggregation column labelled like `a` holds `a`'s value. */
  lemma {:induction false} AggColumnsLabels(group: seq<JValue>, aggs: seq<Agg>, floatAgg: (string, seq<JValue>) -> JValue,
                                            k: nat, a: Agg)
    requires forall b :: b in aggs ==> b.func in AggFuncs
    requires a.func in AggFuncs
    requires k < |AggColumns(group, aggs, floatAgg)| && AggColumns(group, aggs, floatAgg)[k].0 == Label(a)
    ensures AggColumns(group, aggs, floatAgg)[k].1 == ComputeAgg(AggValues(group, a.field), a.func, floatAgg)
  {
    var init := aggs[..|aggs| - 1];
    var b := aggs[|aggs| - 1];
    var cols := AggColumns(group, init, floatAgg);
    forall c | c in init ensures c.func in AggFuncs {
      assert c in aggs;
    }
    if k < |cols| {
      AggColumnsLabels(group, init, floatAgg, k, a);
    } else {
      LabelInjective(a, b);
    }
  }

  /** Labels tell aggregations apart: a function name never contains `:`. */
  lemma LabelInjective(a: Agg, b: Agg)
    requires a.func in AggFuncs && b.func in AggFuncs && Label(a) == Label(b)
    ensures a == b
  {
    ColonFree(a.func);
    ColonFree(b.func);
    LabelSplit(a);
    LabelSplit(b);
  }

  lemma ColonFree(f: string)
    requires f in AggFuncs
    ensures ':' !in f
  {
  }

  /** The label's last `:` is the one after the field. */
  lemma LabelSplit(a: Agg)
    requires ':' !in a.func
    ensures ':' in Label(a)
    ensures LastIndex(Label(a), ':') == |a.field|
    ensures Label(a)[..|a.field|] == a.field && Label(a)[|a.field| + 1..] == a.func
  {
    var l := Label(a);
    LabelHasColon(a);
    assert l[|a.field|] == ':';
    assert l[|a.field| + 1..] == a.func;
  }

  /** A by-field that is not `count` and has no `:` holds the record's key part for it. */
  lemma RowKeys(byFields: seq<string>, record: JValue, group: seq<JValue>, aggs: seq<Agg>,
                floatAgg: (string, seq<JValue>) -> JValue, f: string)
    requires f in byFields && f != "count" && ':' !in f
    ensures Lookup(BuildRow(byFields, GroupKey(record, byFields), group, aggs, floatAgg), f)
      == Some(KeyPart(FirstValue(record, f, JNull)))
  {
    var key := GroupKey(record, byFields);
    var part := KeyPart(FirstValue(record, f, JNull));
    assert forall i :: 0 <= i < |byFields| && byFields[i] == f ==> key[i] == part;
    RowKeyColumn(byFields, key, group, aggs, floatAgg, f, part);
  }

  /** A row holds, under a by-field that no later assignment overwrites, the key's entry for that
      field. */
  lemma RowKeyColumn(byFields: seq<string>, key: seq<JValue>, group: seq<JValue>, aggs: seq<Agg>,
                     floatAgg: (string, seq<JValue>) -> JValue, f: string, v: JValue)
    requires |key| == |byFields| && f in byFields && f != "count" && ':' !in f
    requires forall i :: 0 <= i < |byFields| && byFields[i] == f ==> key[i] == v
    ensures Lookup(BuildRow(byFields, key, group, aggs, floatAgg), f) == Some(v)
  {
    var row0 := Put(PutAll([], KeyColumns(byFields, key)), "count", JInt(|group|));
    KeyColumnsLookup(byFields, key, f, v);
    LabelsExclude(AggColumns(group, aggs, floatAgg), f);
    PutAllUntouched(row0, AggColumns(group, aggs, floatAgg), f);
  }

  lemma KeyColumnsLookup(byFields: seq<string>, key: seq<JValue>, f: string, v: JValue)
    requires |key| == |byFields| && f in byFields
    requires forall i :: 0 <= i < |byFields| && byFields[i] == f ==> key[i] == v
    ensures Lookup(PutAll([], KeyColumns(byFields, key)), f) == Some(v)
  {
    var keys := KeyColumns(byFields, key);
    var j :| 0 <= j < |byFields| && byFields[j] == f;
    assert MemberKeys(keys)[j] == f;
    PutAllUniform([], keys, f, v);
  }

  /** No column whose name has a `:` is named `f` when `f` has none. */
  lemma LabelsExclude(cols: Members, f: string)
    requires forall i :: 0 <= i < |cols| ==> ':' in cols[i].0
    requires ':' !in f
    ensures f !in MemberKeys(cols)
  {
    forall i | 0 <= i < |cols| ensures cols[i].0 != f {
      assert ':' in cols[i].0;
    }
  }

  // Grouping, sorting and the summary

  /** The row of the group with key `k`. */
  function RowFn(records: seq<JValue>, byFields: seq<string>, aggs: seq<Agg>,
                 floatAgg: (string, seq<JValue>) -> JValue): seq<JValue> -> Members
  {
    (k: seq<JValue>) => BuildRow(byFields, k, GroupOf(records, KeyFn(byFields), k), aggs, floatAgg)
  }

  /** The rows of the groups with keys `ks`, in that order. */
  function RowsFor(records: seq<JValue>, byFields: seq<string>, aggs: seq<Agg>,
                   floatAgg: (string, seq<JValue>) -> JValue, ks: seq<seq<JValue>>): (rows: seq<Members>)
    ensures |rows| == |ks|
    ensures forall i :: 0 <= i < |ks| ==>
      rows[i] == BuildRow(byFields, ks[i], GroupOf(records, KeyFn(byFields), ks[i]), aggs, floatAgg)
  {
    MapSeq(ks, RowFn(records, byFields, aggs, floatAgg))
  }

  lemma RowsForStep(records: seq<JValue>, byFields: seq<string>, aggs: seq<Agg>,
                    floatAgg: (string, seq<JValue>) -> JValue, ks: seq<seq<JValue>>, i: nat, rows: seq<Members>, row: Members)
    requires i < |ks| && rows == RowsFor(records, byFields, aggs, floatAgg, ks[..i])
    requires row == BuildRow(byFields, ks[i], GroupOf(records, KeyFn(byFields), ks[i]), aggs, floatAgg)
    ensures rows + [row] == RowsFor(records, byFields, aggs, floatAgg, ks[..i + 1])
  {
    RowsForSnoc(records, byFields, aggs, floatAgg, ks, i);
  }

  lemma RowsForSnoc(records: seq<JValue>, byFields: seq<string>, aggs: seq<Agg>,
                    floatAgg: (string, seq<JValue>) -> JValue, ks: seq<seq<JValue>>, i: nat)
    requires i < |ks|
    ensures RowsFor(records, byFields, aggs, floatAgg, ks[..i + 1]) == RowsFor(records, byFields, aggs, floatAgg, ks[..i])
      + [BuildRow(byFields, ks[i], GroupOf(records, KeyFn(byFields), ks[i]), aggs, floatAgg)]
  {
    MapSeqPrefixSnoc(ks, i, RowFn(records, byFields, aggs, floatAgg));
  }

  /** The unsorted rows: one per group, in first-occurrence order of the keys. */
  function GroupRows(records: seq<JValue>, byFields: seq<string>, aggs: seq<Agg>,
                     floatAgg: (string, seq<JValue>) -> JValue): seq<Members>
  {
    RowsFor(records, byFields, aggs, floatAgg, DistinctKeys(records, KeyFn(byFields)))
  }

  /** The counts of the rows add up to the sizes of their groups. */
  lemma SumCountsRowsFor(records: seq<JValue>, byFields: seq<string>, aggs: seq<Agg>,
                         floatAgg: (string, seq<JValue>) -> JValue, ks: seq<seq<JValue>>)
    ensures SumOf(RowsFor(records, byFields, aggs, floatAgg, ks), RowCount) == TotalSize(records, KeyFn(byFields), ks)
  {
    var rows := RowsFor(records, byFields, aggs, floatAgg, ks);
    forall i | 0 <= i < |ks| ensures RowCount(rows[i]) == |GroupOf(records, KeyFn(byFields), ks[i])| {
      RowCountIsGroupSize(byFields, ks[i], GroupOf(records, KeyFn(byFields), ks[i]), aggs, floatAgg);
    }
    SumCounts(rows, records, KeyFn(byFields), ks);
  }

  /** Rows whose counts are the sizes of the groups of `ks` have counts adding up to those sizes. */
  lemma {:induction false} SumCounts<T, K>(rows: seq<Members>, records: seq<T>, key: T -> K, ks: seq<K>)
    requires |rows| == |ks|
    requires forall i :: 0 <= i < |ks| ==> RowCount(rows[i]) == |GroupOf(records, key, ks[i])|
    ensures SumOf(rows, RowCount) == TotalSize(records, key, ks)
  {
    if ks != [] {
      var n := |ks| - 1;
      assert RowCount(rows[n]) == |GroupOf(records, key, ks[n])|;
      SumCounts(rows[..n], records, key, ks[..n]);
    }
  }

  /** Descending by count (`key=lambda r: r["count"], reverse=True`). */
  function CountDesc(a: Members, b: Members): bool
  {
    RowCount(a) >= RowCount(b)
  }

  lemma CountDescPreorder()
    ensures TotalPreorder(CountDesc)
  {
  }

  /** Python truthiness of a value. */
  predicate Truthy(v: JValue)
  {
    match v
    case JNull => false
    case JBool(b) => b
    case JInt(i) => i != 0
    case JFloat(r) => r != "0.0" && r != "-0.0"
    case JStr(s) => s != ""
    case JArr(es) => es != []
    case JObj(m) => m != []
  }

  /** The key sort's key: `tuple(r.get(f) or "" for f in by_fields)`. */
  function SortKey(row: Members, byFields: seq<string>): seq<JValue>
  {
    MapSeq(byFields, (f: string) => match Lookup(row, f) case Some(v) => if Truthy(v) then v else JStr("") case None => JStr(""))
  }

  /** The key sort, for an order `keyLe` on sort keys (Python's tuple comparison; a comparison
      Python would refuse is not modelled). */
  function ByKey(byFields: seq<string>, keyLe: (seq<JValue>, seq<JValue>) -> bool): (Members, Members) -> bool
  {
    (a: Members, b: Members) => keyLe(SortKey(a, byFields), SortKey(b, byFields))
  }

  lemma ByKeyPreorder(byFields: seq<string>, keyLe: (seq<JValue>, seq<JValue>) -> bool)
    requires TotalPreorder(keyLe)
    ensures TotalPreorder(ByKey(byFields, keyLe))
  {
    var le := ByKey(byFields, keyLe);
    forall a, b ensures le(a, b) || le(b, a) {
      assert keyLe(SortKey(a, byFields), SortKey(b, byFields)) || keyLe(SortKey(b, byFields), SortKey(a, byFields));
    }
    forall a, b, c | le(a, b) && le(b, c) ensures le(a, c) {
      assert keyLe(SortKey(a, byFields), SortKey(b, byFields)) && keyLe(SortKey(b, byFields), SortKey(c, byFields));
    }
  }

  datatype Options = Options(arrayPath: Option<string>, byRaw: string, aggs: seq<string>, sortByCount: bool, top: Option<int>)

  /** The document `main` writes. */
  datatype Summary = Summary(totalRecords: nat, totalGroups: nat, groups: seq<Members>)

  /** The sorted rows. */
  function SortRows(rows: seq<Members>, byFields: seq<string>, sortByCount: bool,
                    keyLe: (seq<JValue>, seq<JValue>) -> bool): seq<Members>
  {
    if sortByCount then SortBy(rows, CountDesc) else SortBy(rows, ByKey(byFields, keyLe))
  }

  /** `rows[:max(top, 0)]` when `--top` is given. */
  function Limit(rows: seq<Members>, top: Option<int>): seq<Members>
  {
    if top.Some? then Take(rows, top.value) else rows
  }

  /** What `main` computes. */
  function GroupSummary(data: JValue, o: Options, floatAgg: (string, seq<JValue>) -> JValue,
                        keyLe: (seq<JValue>, seq<JValue>) -> bool): Result<Summary>
  {
    var byFields := ParseFields(o.byRaw);
    match AggSpecs(o.aggs)
    case Err(m) => Err(m)
    case Ok(aggs) =>
      var records := Records(data, o.arrayPath);
      var rows := GroupRows(records, byFields, aggs, floatAgg);
      Ok(Summary(|records|, |DistinctKeys(records, KeyFn(byFields))|,
                 Limit(SortRows(rows, byFields, o.sortByCount, keyLe), o.top)))
  }

  /** `main`: group the records, build one row per group, sort and cut. */
  method Group(data: JValue, o: Options, floatAgg: (string, seq<JValue>) -> JValue,
               keyLe: (seq<JValue>, seq<JValue>) -> bool) returns (r: Result<Summary>)
    ensures r == GroupSummary(data, o, floatAgg, keyLe)
  {
    var byFields := ParseFields(o.byRaw);
    var parsed := ParseAggSpecs(o.aggs);
    if parsed.Err? {
      return Err(parsed.msg);
    }
    var aggs := parsed.value;
    var records := Records(data, o.arrayPath);
    var ks, rows := BuildGroupRows(records, byFields, aggs, floatAgg);
    rows := SortRows(rows, byFields, o.sortByCount, keyLe);
    rows := Limit(rows, o.top);
    return Ok(Summary(|records|, |ks|, rows));
  }

  /** `[parse_agg(spec) for spec in args.agg] if args.agg else [("", "count")]`. */
  method ParseAggSpecs(specs: seq<string>) returns (r: Result<seq<Agg>>)
    ensures r == AggSpecs(specs)
  {
    if specs == [] {
      r := Ok([PlainCount]);
    } else {
      r := AppendAll([], specs, ParseAgg);
    }
  }

  /** The grouping loop and the row-building loop of `main`. */
  method BuildGroupRows(records: seq<JValue>, byFields: seq<string>, aggs: seq<Agg>,
                        floatAgg: (string, seq<JValue>) -> JValue) returns (ks: seq<seq<JValue>>, rows: seq<Members>)
    ensures ks == DistinctKeys(records, KeyFn(byFields))
    ensures rows == GroupRows(records, byFields, aggs, floatAgg)
  {
    var groups;
    ks, groups := GroupBy(records, KeyFn(byFields));
    rows := BuildRows(records, byFields, aggs, floatAgg, ks, groups);
  }

  /** The row-building loop over `groups.items()`, for groups listed in the order of `ks`. */
  method BuildRows(records: seq<JValue>, byFields: seq<string>, aggs: seq<Agg>,
                   floatAgg: (string, seq<JValue>) -> JValue, ks: seq<seq<JValue>>,
                   groups: map<seq<JValue>, seq<JValue>>) returns (rows: seq<Members>)
    requires forall k :: k in ks ==> k in groups && groups[k] == GroupOf(records, KeyFn(byFields), k)
    ensures rows == RowsFor(records, byFields, aggs, floatAgg, ks)
  {
    rows := [];
    for i := 0 to |ks|
      invariant rows == RowsFor(records, byFields, aggs, floatAgg, ks[..i])
    {
      assert ks[i] in ks;
      var row := BuildGroupRow(byFields, ks[i], groups[ks[i]], aggs, floatAgg);
      RowsForStep(records, byFields, aggs, floatAgg, ks, i, rows, row);
      rows := rows + [row];
    }
    assert ks[..|ks|] == ks;
  }


  /** `main` fails exactly when an `--agg` value is invalid. */
  lemma GroupSummaryErrors(data: JValue, o: Options, floatAgg: (string, seq<JValue>) -> JValue,
                           keyLe: (seq<JValue>, seq<JValue>) -> bool)
    ensures GroupSummary(data, o, floatAgg, keyLe).Ok? <==> AggSpecs(o.aggs).Ok?
    ensures AggSpecs(o.aggs).Err? ==> GroupSummary(data, o, floatAgg, keyLe) == Err(AggSpecs(o.aggs).msg)
  {
  }

  /** Grouping partitions the records: `total_records` is the number of records, `total_groups`
      the number of distinct keys and of rows, the output is a cut of a permutation of the
      unsorted rows, and the counts of all the sorted rows add up to `total_records`. */
  lemma GroupSummaryProperties(data: JValue, o: Options, floatAgg: (string, seq<JValue>) -> JValue,
                               keyLe: (seq<JValue>, seq<JValue>) -> bool, aggs: seq<Agg>)
    requires AggSpecs(o.aggs) == Ok(aggs)
    ensures var records := Records(data, o.arrayPath);
      var byFields := ParseFields(o.byRaw);
      var rows := GroupRows(records, byFields, aggs, floatAgg);
      var sorted := SortRows(rows, byFields, o.sortByCount, keyLe);
      && GroupSummary(data, o, floatAgg, keyLe) == Ok(Summary(|records|, |rows|, Limit(sorted, o.top)))
      && |rows| == |DistinctKeys(records, KeyFn(byFields))|
      && multiset(sorted) == multiset(rows)
      && SumOf(sorted, RowCount) == |records|
  {
    var records := Records(data, o.arrayPath);
    var byFields := ParseFields(o.byRaw);
    var key := KeyFn(byFields);
    var rows := GroupRows(records, byFields, aggs, floatAgg);
    var sorted := SortRows(rows, byFields, o.sortByCount, keyLe);
    GroupsPartition(records, key);
    SumCountsRowsFor(records, byFields, aggs, floatAgg, DistinctKeys(records, key));
    SumOfPermutation(rows, sorted, RowCount);
  }

  /** `--top n` keeps the first `max(n, 0)` rows (all of them when there are fewer), and no
      `--top` keeps every row. */
  lemma LimitProperties(rows: seq<Members>, top: Option<int>)
    ensures Limit(rows, top) == rows[..|Limit(rows, top)|]
    ensures |Limit(rows, top)| == (if top.None? then |rows| else if top.value <= 0 then 0
                                   else if top.value < |rows| then top.value else |rows|)
    ensures top.None? ==> Limit(rows, top) == rows
  {
  }

  /** The count sort puts larger groups first and keeps groups of equal size in first-occurrence
      order; the key sort orders by key and keeps equal keys in first-occurrence order. */
  lemma SortRowsProperties(rows: seq<Members>, byFields: seq<string>, keyLe: (seq<JValue>, seq<JValue>) -> bool, c: Members)
    ensures forall i, j :: 0 <= i < j < |SortRows(rows, byFields, true, keyLe)| ==>
      RowCount(SortRows(rows, byFields, true, keyLe)[i]) >= RowCount(SortRows(rows, byFields, true, keyLe)[j])
    ensures EqualTo(SortRows(rows, byFields, true, keyLe), CountDesc, c) == EqualTo(rows, CountDesc, c)
    ensures TotalPreorder(keyLe) ==>
      SortedBy(SortRows(rows, byFields, false, keyLe), ByKey(byFields, keyLe))
      && EqualTo(SortRows(rows, byFields, false, keyLe), ByKey(byFields, keyLe), c) == EqualTo(rows, ByKey(byFields, keyLe), c)
  {
    CountDescPreorder();
    SortBySorted(rows, CountDesc);
    SortByStable(rows, CountDesc, c);
    if TotalPreorder(keyLe) {
      var le := ByKey(byFields, keyLe);
      ByKeyPreorder(byFields, keyLe);
      SortBySorted(rows, le);
      SortByStable(rows, le, c);
    }
  }

  /** Before sorting, the rows follow the first occurrences of the keys in the records: row `i`
      is the group of the `i`-th distinct key, and earlier rows' keys occur first earlier. */
  lemma GroupRowsOrder(records: seq<JValue>, byFields: seq<string>, aggs: seq<Agg>, floatAgg: (string, seq<JValue>) -> JValue)
    ensures var ks := DistinctKeys(records, KeyFn(byFields));
      var keys := KeysOf(records, KeyFn(byFields));
      && (forall k :: k in ks <==> k in keys)
      && (forall i, j :: 0 <= i < j < |ks| ==> IndexOf(keys, ks[i]) < IndexOf(keys, ks[j]))
      && forall i :: 0 <= i < |ks| ==>
        GroupRows(records, byFields, aggs, floatAgg)[i] == BuildRow(byFields, ks[i], GroupOf(records, KeyFn(byFields), ks[i]), aggs, floatAgg)
  {
    DedupFirstOrder(KeysOf(records, KeyFn(byFields)));
  }
}
