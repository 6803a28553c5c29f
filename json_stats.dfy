/** The json `stats` command: for each selected field, how many records have it, the tags of its
    values, how many distinct values it takes and the most frequent of them, and a summary of its
    numbers. */
module JsonStats {
  import opened Text
  import opened Seqs
  import opened Sorting
  import opened Tally
  import opened Json
  import opened JsonCommon

  /** The entry of one field, one component per key it may hold: `presence` (the pair behind
      `"p/n"`), `types`, `unique_values`, `top_values` (absent when some value is a dict or a
      list) and the numbers behind `numeric` (absent when there are none). */
  datatype FieldStats = FieldStats(
    presence: nat,
    recordCount: nat,
    types: seq<string>,
    uniqueValues: nat,
    topValues: Option<seq<(string, nat)>>,
    numbers: Option<seq<JValue>>)

  // ---------------------------------------------------------------------------------------
  // One field

  /** `extract_values(record, field)` finds something. */
  function Found(field: string): JValue -> bool
  {
    (record: JValue) => ExistsPath(record, field)
  }

  /** `values`: everything `extract_values` finds in each record, record after record. */
  function Gathered(records: seq<JValue>, field: string): seq<JValue>
  {
    EvalAll(records, Tokens(field))
  }

  /** `presence`: the number of records in which the field finds something. */
  function Presence(records: seq<JValue>, field: string): nat
  {
    |Filter(records, Found(field))|
  }

  /** `any(isinstance(v, (dict, list)) for v in values)`. */
  predicate AnyComposite(values: seq<JValue>)
  {
    exists i :: 0 <= i < |values| && IsComposite(values[i])
  }

  /** `isinstance(v, (int, float)) and not isinstance(v, bool)`. */
  predicate IsNumber(v: JValue)
  {
    v.JInt? || v.JFloat?
  }

  function NumberFn(): JValue -> bool
  {
    (v: JValue) => IsNumber(v)
  }

  /** The `nums` of `numeric_summary`, in order (each still as the JSON value it is). */
  function Numbers(values: seq<JValue>): seq<JValue>
  {
    Filter(values, NumberFn())
  }

  /** `max(top, 0)`. */
  function TopCount(top: int): nat
  {
    if top < 0 then 0 else top
  }

  /** The entry of `field`, before it is written as JSON. */
  function Stats(records: seq<JValue>, field: string, top: int): FieldStats
  {
    var values := Gathered(records, field);
    var freq := Frequency(values);
    FieldStats(
      Presence(records, field),
      |records|,
      UniqueTypes(values),
      |freq|,
      if AnyComposite(values) then None else Some(MostCommon(freq, TopCount(top))),
      if Numbers(values) == [] then None else Some(Numbers(values)))
  }

  /** `{"value": key, "count": count}`. */
  function TopEntry(e: (string, nat)): JValue
  {
    JObj([("value", JStr(e.0)), ("count", JInt(e.1))])
  }

  /** `numeric_summary(values)` for a non-empty list of numbers; `floatAgg(name, nums)` stands for
      the float `min`, `max` and `mean` of the numbers. */
  function NumericJson(nums: seq<JValue>, floatAgg: (string, seq<JValue>) -> JValue): JValue
  {
    JObj([("count", JInt(|nums|)), ("min", floatAgg("min", nums)), ("max", floatAgg("max", nums)),
          ("mean", floatAgg("mean", nums))])
  }

  /** The entry as written: `presence`, `types`, `unique_values`, then `top_values` and
      `numeric` when present. */
  function StatsJson(s: FieldStats, floatAgg: (string, seq<JValue>) -> JValue): (r: JValue)
    ensures r.JObj? && |r.members| >= 3
    ensures MemberKeys(r.members)[..3] == ["presence", "types", "unique_values"]
    ensures ("top_values" in MemberKeys(r.members)) <==> s.topValues.Some?
    ensures ("numeric" in MemberKeys(r.members)) <==> s.numbers.Some?
  {
    var m := [("presence", JStr(NatToString(s.presence) + "/" + NatToString(s.recordCount))),
              ("types", JArr(Strs(s.types))),
              ("unique_values", JInt(s.uniqueValues))]
      + (if s.topValues.Some? then [("top_values", JArr(MapSeq(s.topValues.value, TopEntry)))] else [])
      + (if s.numbers.Some? then [("numeric", NumericJson(s.numbers.value, floatAgg))] else []);
    assert MemberKeys(m) == ["presence", "types", "unique_values"]
      + (if s.topValues.Some? then ["top_values"] else []) + (if s.numbers.Some? then ["numeric"] else []);
    JObj(m)
  }

  function EntryFn(records: seq<JValue>, top: int, floatAgg: (string, seq<JValue>) -> JValue): string -> JValue
  {
    (field: string) => StatsJson(Stats(records, field, top), floatAgg)
  }

  // ---------------------------------------------------------------------------------------
  // The command

  /** The fields `--fields` names, else the sorted union of the keys of the dict records. */
  function SelectedFields(records: seq<JValue>, raw: Option<string>): seq<string>
  {
    var fields := OptionalFields(raw);
    if fields != [] then fields else MergedKeys(records)
  }

  /** The `fields` dict: one assignment per selected field, in order. */
  function FieldsOf(records: seq<JValue>, fields: seq<string>, top: int,
                    floatAgg: (string, seq<JValue>) -> JValue): Members
  {
    PutAll([], MapSeq(fields, Assign(EntryFn(records, top, floatAgg))))
  }

  /** The document `main` writes. */
  function StatsDoc(data: JValue, arrayPath: Option<string>, raw: Option<string>, top: int,
                    floatAgg: (string, seq<JValue>) -> JValue): JValue
  {
    var records := Records(data, arrayPath);
    var fields := SelectedFields(records, raw);
    JObj([("record_count", JInt(|records|)), ("field_count", JInt(|fields|)),
          ("fields", JObj(FieldsOf(records, fields, top, floatAgg)))])
  }

  // ---------------------------------------------------------------------------------------
  // The loops of `main`

  /** The loop that collects `field_candidates` from the dict records (kept as a list of keys,
      record after record; `sorted` then takes each once). */
  method CollectCandidates(records: seq<JValue>) returns (candidates: seq<string>)
    ensures candidates == AllKeys(records)
  {
    candidates := [];
    var i := 0;
    while i < |records|
      invariant i <= |records|
      invariant candidates == AllKeys(records[..i])
    {
      assert records[..i + 1][..i] == records[..i];
      if records[i].JObj? {
        candidates := candidates + MemberKeys(records[i].members);
      }
      i := i + 1;
    }
    assert records[..i] == records;
  }

  /** `selected_fields`: the parsed `--fields`, else the sorted candidates. */
  method SelectFields(records: seq<JValue>, raw: Option<string>) returns (fields: seq<string>)
    ensures fields == SelectedFields(records, raw)
  {
    fields := OptionalFields(raw);
    if fields == [] {
      var candidates := CollectCandidates(records);
      fields := SortedSet(candidates);
    }
  }

  /** The inner loop over the records: `values.extend(found)` and `presence += 1` for each record
      in which the field finds something. */
  method GatherField(records: seq<JValue>, field: string) returns (values: seq<JValue>, presence: nat)
    ensures values == Gathered(records, field)
    ensures presence == Presence(records, field)
  {
    values := [];
    presence := 0;
    var i := 0;
    while i < |records|
      invariant i <= |records|
      invariant values == Gathered(records[..i], field)
      invariant presence == Presence(records[..i], field)
    {
      var found := ExtractValues(records[i], field);
      GatherStep(records, i, field);
      if found != [] {
        presence := presence + 1;
        values := values + found;
      }
      i := i + 1;
    }
    assert records[..i] == records;
  }

  lemma GatherStep(records: seq<JValue>, i: nat, field: string)
    requires i < |records|
    ensures Gathered(records[..i + 1], field) == Gathered(records[..i], field) + Extract(records[i], field)
    ensures Presence(records[..i + 1], field)
      == Presence(records[..i], field) + if Extract(records[i], field) != [] then 1 else 0
  {
    var p := records[..i + 1];
    assert p[..i] == records[..i];
    FilterAppend(records[..i], [records[i]], Found(field));
    assert p == records[..i] + [records[i]];
  }

  /** The entry of one field (`entry` with its `numeric` part). */
  method FieldEntry(records: seq<JValue>, field: string, top: int, floatAgg: (string, seq<JValue>) -> JValue)
    returns (e: JValue)
    ensures e == EntryFn(records, top, floatAgg)(field)
  {
    var values, presence := GatherField(records, field);
    var freq := Frequency(values);
    var topValues: Option<seq<(string, nat)>> := None;
    if !AnyComposite(values) {
      topValues := Some(MostCommon(freq, TopCount(top)));
    }
    var nums := Numbers(values);
    var numbers: Option<seq<JValue>> := if nums == [] then None else Some(nums);
    e := StatsJson(FieldStats(presence, |records|, UniqueTypes(values), |freq|, topValues, numbers), floatAgg);
  }

  /** The loop over the selected fields. */
  method StatsFields(records: seq<JValue>, fields: seq<string>, top: int,
                     floatAgg: (string, seq<JValue>) -> JValue) returns (stats: Members)
    ensures stats == FieldsOf(records, fields, top, floatAgg)
  {
    stats := [];
    assert fields[..0] == [];
    assert MapSeq(fields[..0], Assign(EntryFn(records, top, floatAgg))) == [];
    for i := 0 to |fields|
      invariant stats == PutAll([], MapSeq(fields[..i], Assign(EntryFn(records, top, floatAgg))))
    {
      stats := AssignField(stats, records, fields, i, top, floatAgg);
    }
    assert fields[..|fields|] == fields;
  }

  /** `field_stats[field] = entry` for field `i`. */
  method AssignField(stats: Members, records: seq<JValue>, fields: seq<string>, i: nat, top: int,
                     floatAgg: (string, seq<JValue>) -> JValue) returns (out: Members)
    requires i < |fields|
    requires stats == PutAll([], MapSeq(fields[..i], Assign(EntryFn(records, top, floatAgg))))
    ensures out == PutAll([], MapSeq(fields[..i + 1], Assign(EntryFn(records, top, floatAgg))))
  {
    var e := FieldEntry(records, fields[i], top, floatAgg);
    PutAllMappedSnoc(fields, i, EntryFn(records, top, floatAgg));
    out := Put(stats, fields[i], e);
  }

  /** The whole command on a parsed document. */
  method StatsCommand(data: JValue, arrayPath: Option<string>, raw: Option<string>, top: int,
                      floatAgg: (string, seq<JValue>) -> JValue) returns (doc: JValue)
    ensures doc == StatsDoc(data, arrayPath, raw, top, floatAgg)
  {
    var records := ResolveArray(data, arrayPath);
    if records == [] {
      records := if data.JArr? then data.elems else [data];
    }
    var fields := SelectFields(records, raw);
    var stats := StatsFields(records, fields, top, floatAgg);
    doc := JObj([("record_count", JInt(|records|)), ("field_count", JInt(|fields|)), ("fields", JObj(stats))]);
  }

  // ---------------------------------------------------------------------------------------
  // Properties

  /** Without `--fields`, the fields are the keys some dict record has, each once and in
      increasing order; with it, they are the parsed list as given. */
  lemma SelectedFieldsProperties(records: seq<JValue>, raw: Option<string>)
    ensures OptionalFields(raw) == [] ==>
      (forall k :: k in SelectedFields(records, raw) <==> exists i :: 0 <= i < |records| && HasKey(k)(records[i]))
      && forall a, b :: 0 <= a < b < |SelectedFields(records, raw)| ==>
        StrLess(SelectedFields(records, raw)[a], SelectedFields(records, raw)[b])
    ensures OptionalFields(raw) != [] ==> SelectedFields(records, raw) == OptionalFields(raw)
  {
    MergedKeysProperties(records);
  }

  /** The presence counts records and the values come from them: no more records have the field
      than there are records or values, there are no values exactly when no record has the field,
      and a path without wildcards finds one value in each record that has it. */
  lemma {:induction false} PresenceProperties(records: seq<JValue>, field: string)
    ensures Presence(records, field) <= |records|
    ensures Presence(records, field) <= |Gathered(records, field)|
    ensures Presence(records, field) == 0 <==> Gathered(records, field) == []
    ensures NoWildcard(Tokens(field)) ==> |Gathered(records, field)| == Presence(records, field)
  {
    if records != [] {
      var n := |records| - 1;
      PresenceProperties(records[..n], field);
      GatherStep(records, n, field);
      assert records[..n + 1] == records;
      if NoWildcard(Tokens(field)) {
        EvalNoWildcard(records[n], Tokens(field));
      }
    }
  }

  /** Every value comes from a record: it is one of the values the field finds in some record. */
  lemma {:induction false} GatheredFrom(records: seq<JValue>, field: string, v: JValue)
    requires v in Gathered(records, field)
    ensures exists i :: 0 <= i < |records| && v in Extract(records[i], field)
  {
    var n := |records| - 1;
    GatherStep(records, n, field);
    assert records[..n + 1] == records;
    if v in Gathered(records[..n], field) {
      GatheredFrom(records[..n], field, v);
      var i :| 0 <= i < |records[..n]| && v in Extract(records[..n][i], field);
      assert records[i] == records[..n][i];
    }
  }

  /** `unique_values` is the number of distinct counted texts, at most the number of values and
      zero only when there are none. */
  lemma UniqueValuesProperties(records: seq<JValue>, field: string, top: int)
    ensures var values := Gathered(records, field);
      var s := Stats(records, field, top);
      && s.uniqueValues == |Dedup(MapSeq(values, FrequencyKey))|
      && s.uniqueValues <= |values|
      && (s.uniqueValues == 0 <==> values == [])
  {
    var values := Gathered(records, field);
    var keys := MapSeq(values, FrequencyKey);
    assert |Frequency(values)| == |Dedup(keys)|;
    if values != [] {
      assert keys != [];
    }
  }

  /** `top_values` is absent exactly when some value is a dict or a list; otherwise it lists
      `min(max(top, 0), unique_values)` of the (text, count) pairs of `frequency`, by
      non-increasing count. */
  lemma TopValuesProperties(records: seq<JValue>, field: string, top: int)
    ensures var values := Gathered(records, field);
      var s := Stats(records, field, top);
      && (s.topValues.None? <==> AnyComposite(values))
      && (s.topValues.Some? ==>
        && |s.topValues.value| == (if TopCount(top) < s.uniqueValues then TopCount(top) else s.uniqueValues)
        && (forall i :: 0 <= i < |s.topValues.value| ==> s.topValues.value[i] in Frequency(values))
        && (forall i, j :: 0 <= i < j < |s.topValues.value| ==> s.topValues.value[i].1 >= s.topValues.value[j].1))
  {
    var values := Gathered(records, field);
    if !AnyComposite(values) {
      TopOfTally(Frequency(values), TopCount(top));
    }
  }

  /** `numeric` exists exactly when some value is a number (a bool is not one), and it counts
      the numbers. */
  lemma NumbersProperties(records: seq<JValue>, field: string, top: int)
    ensures var values := Gathered(records, field);
      var s := Stats(records, field, top);
      && (s.numbers.Some? <==> exists i :: 0 <= i < |values| && IsNumber(values[i]))
      && (s.numbers.Some? ==> |s.numbers.value| == |Filter(values, NumberFn())|)
  {
    var values := Gathered(records, field);
    if exists i :: 0 <= i < |values| && IsNumber(values[i]) {
      var i :| 0 <= i < |values| && IsNumber(values[i]);
      assert values[i] in Numbers(values);
    }
    var s := Stats(records, field, top);
    if s.numbers.Some? {
      var x := s.numbers.value[0];
      assert x in values && IsNumber(x);
    }
  }

  /** `fields` holds each selected field once, in first-selection order, with that field's
      entry; `field_count` counts the selected fields as listed, repeats included. */
  lemma FieldsProperties(records: seq<JValue>, fields: seq<string>, top: int,
                         floatAgg: (string, seq<JValue>) -> JValue)
    ensures MemberKeys(FieldsOf(records, fields, top, floatAgg)) == Dedup(fields)
    ensures forall k :: k in fields ==>
      Lookup(FieldsOf(records, fields, top, floatAgg), k) == Some(StatsJson(Stats(records, k, top), floatAgg))
  {
    PutAllMapped(fields, EntryFn(records, top, floatAgg));
  }
}
