/** The schema summary of the json `schema` command: `infer_schema(value, depth, include_counts)`
    and the array-path substitution of its `main`. */
module JsonSchema {
  import opened Text
  import opened Seqs
  import opened Sorting
  import opened Tally
  import opened Json
  import opened JsonCommon

  /** The dict `infer_schema` returns, one component per key it may hold: `type` always;
      `fields` and `field_count` for objects; `size`, `item_types` and `item_schema` for
      arrays; `presence` (the pair behind the text `"c/n"`) on the fields of a merged item
      schema. An absent key is `None`. */
  datatype Schema = Schema(
    typ: string,
    fields: Option<Fields>,
    fieldCount: Option<nat>,
    size: Option<nat>,
    itemTypes: Option<seq<string>>,
    itemSchema: Option<Schema>,
    presence: Option<(nat, nat)>)

  /** The entries of a `fields` dict, in order. */
  datatype Fields = Fields(entries: seq<(string, Schema)>)

  /** `{"type": name}`. */
  function Plain(name: string): (s: Schema)
    ensures s.typ == name
  {
    Schema(name, None, None, None, None, None, None)
  }

  // ---------------------------------------------------------------------------------------
  // Records of an array

  predicate AllDicts(es: seq<JValue>)
  {
    forall i :: 0 <= i < |es| ==> es[i].JObj?
  }

  /** `key_counts[k]`. */
  function KeyCount(es: seq<JValue>, k: string): nat
  {
    multiset(AllKeys(es))[k]
  }

  /** As every dict has distinct keys, the count of a key is the number of records holding it. */
  lemma {:induction false} KeyCountIsHolders(es: seq<JValue>, k: string)
    requires forall i :: 0 <= i < |es| ==> WellFormed(es[i])
    ensures KeyCount(es, k) == |Filter(es, HasKey(k))|
  {
    if es != [] {
      var init := es[..|es| - 1];
      var last := es[|es| - 1];
      KeyCountIsHolders(init, k);
      assert multiset(AllKeys(es)) == multiset(AllKeys(init)) + multiset(ItemKeys(last));
      assert WellFormed(last);
      assert NoDups(ItemKeys(last));
      NoDupsMultiset(ItemKeys(last), k);
    }
  }

  /** The position of the first record that has key `k`. */
  function FirstHolder(es: seq<JValue>, k: string): (i: nat)
    requires exists i :: 0 <= i < |es| && HasKey(k)(es[i])
    ensures i < |es| && es[i].JObj? && k in MemberKeys(es[i].members)
    ensures forall j :: 0 <= j < i ==> !HasKey(k)(es[j])
  {
    if HasKey(k)(es[0]) then 0
    else
      assert forall i :: 1 <= i < |es| ==> es[i] == es[1..][i - 1];
      1 + FirstHolder(es[1..], k)
  }

  // ---------------------------------------------------------------------------------------
  // Inference

  /** `infer_schema(v, depth, counts)`. */
  function Infer(v: JValue, depth: int, counts: bool): Schema
    decreases v, 2
  {
    if depth < 0 then Plain(TypeName(v))
    else match v
      case JObj(m) =>
        Schema("object", Some(Fields(FieldSchemas(v, |m|, depth, counts))), if counts then Some(|m|) else None,
               None, None, None, None)
      case JArr(es) =>
        Schema("array", None, None, Some(|es|), Some(UniqueTypes(es)), ItemSchema(v, depth, counts), None)
      case _ => Plain(TypeName(v))
  }

  /** The `fields` of a dict: its first `n` members, each inferred one level deeper. */
  function FieldSchemas(v: JValue, n: nat, depth: int, counts: bool): (fs: seq<(string, Schema)>)
    requires v.JObj? && n <= |v.members|
    ensures |fs| == n
    decreases v, 0, n
  {
    if n == 0 then []
    else FieldSchemas(v, n - 1, depth, counts) + [(v.members[n - 1].0, Infer(v.members[n - 1].1, depth - 1, counts))]
  }

  /** The `item_schema` of a list, if it gets one. */
  function ItemSchema(v: JValue, depth: int, counts: bool): Option<Schema>
    requires v.JArr?
    decreases v, 1
  {
    if v.elems == [] || depth <= 0 then None
    else if AllDicts(v.elems) then
      Some(Schema("object", Some(Fields(MergedFields(v, MergedKeys(v.elems), depth, counts))), None, None, None, None, None))
    else Some(Infer(v.elems[0], depth - 1, counts))
  }

  /** The merged `fields` of the keys `ks` of a list of records, key by key. */
  function MergedFields(v: JValue, ks: seq<string>, depth: int, counts: bool): (fs: seq<(string, Schema)>)
    requires v.JArr? && forall k :: k in ks ==> k in AllKeys(v.elems)
    ensures |fs| == |ks|
    decreases v, 0, |ks|
  {
    if ks == [] then []
    else
      var k := ks[|ks| - 1];
      MergedFields(v, ks[..|ks| - 1], depth, counts) + [(k, MergedEntry(v, k, depth, counts))]
  }

  /** The merged field of key `k`: the value of the first record holding it, inferred one level
      deeper, with `presence` set when counts are asked for. */
  function MergedEntry(v: JValue, k: string, depth: int, counts: bool): Schema
    requires v.JArr? && k in AllKeys(v.elems)
    decreases v, 0, 0
  {
    AllKeysHolder(v.elems, k);
    var item := v.elems[FirstHolder(v.elems, k)];
    var s := Infer(Lookup(item.members, k).value, depth - 1, counts);
    if counts then s.(presence := Some((KeyCount(v.elems, k), |v.elems|))) else s
  }

  // ---------------------------------------------------------------------------------------
  // The recursive walk, filling dicts in loops

  /** `infer_schema(value, depth, include_counts)`. */
  method InferSchema(value: JValue, depth: int, counts: bool) returns (s: Schema)
    ensures s == Infer(value, depth, counts)
    decreases value, 3
  {
    if depth < 0 {
      return Plain(TypeName(value));
    }
    match value
    case JObj(m) =>
      var fields := ObjectFields(value, depth, counts);
      s := Schema("object", Some(Fields(fields)), if counts then Some(|m|) else None, None, None, None, None);
    case JArr(es) =>
      var item := ArrayItemSchema(value, depth, counts);
      s := Schema("array", None, None, Some(|es|), Some(UniqueTypes(es)), item, None);
    case _ =>
      s := Plain(TypeName(value));
  }

  /** The dict branch: `fields[key] = infer_schema(inner, depth - 1, ...)` for every member. */
  method ObjectFields(v: JValue, depth: int, counts: bool) returns (fields: seq<(string, Schema)>)
    requires v.JObj?
    ensures fields == FieldSchemas(v, |v.members|, depth, counts)
    decreases v, 2
  {
    fields := [];
    for i := 0 to |v.members|
      invariant fields == FieldSchemas(v, i, depth, counts)
    {
      var inner := InferSchema(v.members[i].1, depth - 1, counts);
      fields := fields + [(v.members[i].0, inner)];
    }
  }

  /** The `item_schema` part of the list branch. */
  method ArrayItemSchema(v: JValue, depth: int, counts: bool) returns (item: Option<Schema>)
    requires v.JArr?
    ensures item == ItemSchema(v, depth, counts)
    decreases v, 2
  {
    if v.elems == [] || depth <= 0 {
      return None;
    }
    if AllDicts(v.elems) {
      var keyCounts := CountKeys(v.elems);
      var ks := MergedKeys(v.elems);
      var merged := MergeFields(v, ks, keyCounts, depth, counts);
      item := Some(Schema("object", Some(Fields(merged)), None, None, None, None, None));
    } else {
      var first := InferSchema(v.elems[0], depth - 1, counts);
      item := Some(first);
    }
  }

  /** `key_counts.update(item.keys())` for every record. */
  method CountKeys(es: seq<JValue>) returns (keyCounts: map<string, nat>)
    ensures keyCounts == CountMap(AllKeys(es))
  {
    keyCounts := map[];
    for i := 0 to |es|
      invariant keyCounts == CountMap(AllKeys(es[..i]))
    {
      assert es[..i + 1][..i] == es[..i];
      keyCounts := UpdateCounts(keyCounts, AllKeys(es[..i]), ItemKeys(es[i]));
      assert AllKeys(es[..i + 1]) == AllKeys(es[..i]) + ItemKeys(es[i]);
    }
    assert es[..|es|] == es;
  }

  /** `counter.update(ks)` on the counter of `before`. */
  method UpdateCounts(counter: map<string, nat>, ghost before: seq<string>, ks: seq<string>)
    returns (out: map<string, nat>)
    requires counter == CountMap(before)
    ensures out == CountMap(before + ks)
  {
    out := counter;
    assert before + ks[..0] == before;
    for j := 0 to |ks|
      invariant out == CountMap(before + ks[..j])
    {
      CountMapSnoc(before + ks[..j], ks[j]);
      assert before + ks[..j + 1] == before + ks[..j] + [ks[j]];
      out := out[ks[j] := (if ks[j] in out then out[ks[j]] else 0) + 1];
    }
    assert ks[..|ks|] == ks;
  }

  /** The loop over `sorted(key_counts)`: infer each key from its first sample and record its
      presence. */
  method MergeFields(v: JValue, ks: seq<string>, keyCounts: map<string, nat>, depth: int, counts: bool)
    returns (merged: seq<(string, Schema)>)
    requires v.JArr? && forall k :: k in ks ==> k in AllKeys(v.elems)
    requires keyCounts == CountMap(AllKeys(v.elems))
    ensures merged == MergedFields(v, ks, depth, counts)
    decreases v, 1
  {
    merged := [];
    for i := 0 to |ks|
      invariant merged == MergedFields(v, ks[..i], depth, counts)
    {
      assert ks[..i + 1][..i] == ks[..i];
      var s := MergeEntry(v, ks[i], keyCounts, depth, counts);
      merged := merged + [(ks[i], s)];
    }
    assert ks[..|ks|] == ks;
  }

  /** One turn of that loop: `samples[0]` inferred one level deeper, then its `presence`. */
  method MergeEntry(v: JValue, k: string, keyCounts: map<string, nat>, depth: int, counts: bool)
    returns (s: Schema)
    requires v.JArr? && k in AllKeys(v.elems)
    requires keyCounts == CountMap(AllKeys(v.elems))
    ensures s == MergedEntry(v, k, depth, counts)
    decreases v, 0
  {
    AllKeysHolder(v.elems, k);
    var item := v.elems[FirstHolder(v.elems, k)];
    s := InferSchema(Lookup(item.members, k).value, depth - 1, counts);
    if counts {
      CountMapProperties(AllKeys(v.elems));
      s := s.(presence := Some((keyCounts[k], |v.elems|)));
    }
  }

  // ---------------------------------------------------------------------------------------
  // The command

  /** The document `main` summarises: the resolved array when `--array-path` names a non-empty
      one, else the document itself. */
  function SchemaInput(data: JValue, arrayPath: Option<string>): (d: JValue)
    ensures arrayPath.None? || arrayPath == Some("") ==> d == data
  {
    if arrayPath.Some? && arrayPath.value != "" && ResolveArray(data, arrayPath) != [] then
      JArr(ResolveArray(data, arrayPath))
    else data
  }

  /** The substitution happens exactly when a path is given and resolves to a non-empty list;
      without a path, the list a document already is counts as resolved, and is the document. */
  lemma SchemaInputProperties(data: JValue, arrayPath: Option<string>)
    ensures SchemaInput(data, arrayPath) != data ==> SchemaInput(data, arrayPath) == JArr(ResolveArray(data, arrayPath))
    ensures ResolveArray(data, arrayPath) != [] ==> SchemaInput(data, arrayPath) == JArr(ResolveArray(data, arrayPath))
    ensures ResolveArray(data, arrayPath) == [] ==> SchemaInput(data, arrayPath) == data
  {
  }

  /** `main`: the schema of the selected document. */
  method SchemaCommand(data: JValue, arrayPath: Option<string>, depth: int, counts: bool) returns (s: Schema)
    ensures s == Infer(SchemaInput(data, arrayPath), depth, counts)
  {
    var doc := data;
    if arrayPath.Some? && arrayPath.value != "" {
      var resolved := ResolveArray(data, arrayPath);
      if resolved != [] {
        doc := JArr(resolved);
      }
    }
    s := InferSchema(doc, depth, counts);
  }

  // ---------------------------------------------------------------------------------------
  // Properties

  /** A scalar, and anything past the depth limit, is summarised by its tag alone. */
  lemma InferShallow(v: JValue, depth: int, counts: bool)
    requires depth < 0 || !IsComposite(v)
    ensures Infer(v, depth, counts) == Plain(TypeName(v))
  {
  }

  /** The `fields` of a dict are its members in order, each inferred one level deeper. */
  lemma {:induction false} FieldSchemasProperties(v: JValue, n: nat, depth: int, counts: bool)
    requires v.JObj? && n <= |v.members|
    ensures |FieldSchemas(v, n, depth, counts)| == n
    ensures forall i :: 0 <= i < n ==>
      FieldSchemas(v, n, depth, counts)[i] == (v.members[i].0, Infer(v.members[i].1, depth - 1, counts))
  {
    if n > 0 {
      FieldSchemasProperties(v, n - 1, depth, counts);
      var init := FieldSchemas(v, n - 1, depth, counts);
      var last := (v.members[n - 1].0, Infer(v.members[n - 1].1, depth - 1, counts));
      assert FieldSchemas(v, n, depth, counts) == init + [last];
      forall i | 0 <= i < n
        ensures FieldSchemas(v, n, depth, counts)[i] == (v.members[i].0, Infer(v.members[i].1, depth - 1, counts))
      {
        if i < n - 1 {
          assert (init + [last])[i] == init[i];
        }
      }
    }
  }

  /** Within the depth limit a dict is an `object` whose `fields` hold exactly its keys, in
      order, each inferred one level deeper, and whose `field_count` is its size exactly when
      counts are asked for. */
  lemma InferObject(v: JValue, depth: int, counts: bool)
    requires v.JObj? && depth >= 0
    ensures var s := Infer(v, depth, counts);
      && s.typ == "object" && s.fields.Some?
      && MapSeq(s.fields.value.entries, (f: (string, Schema)) => f.0) == MemberKeys(v.members)
      && (forall i :: 0 <= i < |v.members| ==> s.fields.value.entries[i].1 == Infer(v.members[i].1, depth - 1, counts))
      && s.fieldCount == (if counts then Some(|v.members|) else None)
      && s.size.None? && s.itemTypes.None? && s.itemSchema.None? && s.presence.None?
  {
    FieldSchemasProperties(v, |v.members|, depth, counts);
  }

  /** Within the depth limit a list is an `array` with its length as `size` and its distinct
      tags, in increasing order, as `item_types`; it has an `item_schema` exactly when it is
      non-empty and the limit is not reached, and unless all its elements are dicts that schema
      is the first element's. */
  lemma InferArray(v: JValue, depth: int, counts: bool)
    requires v.JArr? && depth >= 0
    ensures var s := Infer(v, depth, counts);
      && s.typ == "array" && s.size == Some(|v.elems|) && s.itemTypes.Some?
      && (forall t :: t in s.itemTypes.value <==> exists i :: 0 <= i < |v.elems| && TypeName(v.elems[i]) == t)
      && (forall i, j :: 0 <= i < j < |s.itemTypes.value| ==> StrLess(s.itemTypes.value[i], s.itemTypes.value[j]))
      && (s.itemSchema.Some? <==> v.elems != [] && depth > 0)
      && (s.itemSchema.Some? && !AllDicts(v.elems) ==> s.itemSchema == Some(Infer(v.elems[0], depth - 1, counts)))
      && s.fields.None? && s.fieldCount.None? && s.presence.None?
  {
    UniqueTypesProperties(v.elems);
  }

  /** The merged fields are the keys in order, each with its merged entry. */
  lemma {:induction false} MergedFieldsProperties(v: JValue, ks: seq<string>, depth: int, counts: bool)
    requires v.JArr? && forall k :: k in ks ==> k in AllKeys(v.elems)
    ensures |MergedFields(v, ks, depth, counts)| == |ks|
    ensures forall j :: 0 <= j < |ks| ==> MergedFields(v, ks, depth, counts)[j] == (ks[j], MergedEntry(v, ks[j], depth, counts))
  {
    if ks != [] {
      var pre := ks[..|ks| - 1];
      MergedFieldsProperties(v, pre, depth, counts);
      var init := MergedFields(v, pre, depth, counts);
      var last := (ks[|ks| - 1], MergedEntry(v, ks[|ks| - 1], depth, counts));
      assert MergedFields(v, ks, depth, counts) == init + [last];
      forall j | 0 <= j < |ks|
        ensures MergedFields(v, ks, depth, counts)[j] == (ks[j], MergedEntry(v, ks[j], depth, counts))
      {
        if j < |ks| - 1 {
          assert (init + [last])[j] == init[j];
          assert pre[j] == ks[j];
        }
      }
    }
  }

  /** For a non-empty list of records within the depth limit, the `item_schema` is an `object`
      without count of its own whose fields are the merged entries of the records' keys, each
      key once, the keys of all records and nothing else, in increasing order. */
  lemma InferRecords(v: JValue, depth: int, counts: bool)
    requires v.JArr? && v.elems != [] && depth > 0 && AllDicts(v.elems)
    ensures var item := Infer(v, depth, counts).itemSchema;
      && item.Some? && item.value.typ == "object" && item.value.fields.Some?
      && item.value.fieldCount.None? && item.value.presence.None?
      && var fs := item.value.fields.value.entries;
      && var ks := MergedKeys(v.elems);
      && |fs| == |ks|
      && (forall j :: 0 <= j < |fs| ==> fs[j] == (ks[j], MergedEntry(v, ks[j], depth, counts)))
  {
    MergedFieldsProperties(v, MergedKeys(v.elems), depth, counts);
  }

  /** A merged entry is the schema of the key's value in the first record that has it, one
      level deeper, and carries, when counts are asked for, the number of records that have the
      key out of all of them. */
  lemma MergedEntryProperties(v: JValue, k: string, depth: int, counts: bool)
    requires v.JArr? && k in AllKeys(v.elems)
    requires forall i :: 0 <= i < |v.elems| ==> WellFormed(v.elems[i])
    ensures exists i :: (0 <= i < |v.elems| && HasKey(k)(v.elems[i])
      && (forall i' :: 0 <= i' < i ==> !HasKey(k)(v.elems[i']))
      && MergedEntry(v, k, depth, counts).(presence := None) == Infer(Lookup(v.elems[i].members, k).value, depth - 1, counts))
    ensures MergedEntry(v, k, depth, counts).presence == if counts then Some((|Filter(v.elems, HasKey(k))|, |v.elems|)) else None
  {
    AllKeysHolder(v.elems, k);
    var i := FirstHolder(v.elems, k);
    var s := Infer(Lookup(v.elems[i].members, k).value, depth - 1, counts);
    assert MergedEntry(v, k, depth, counts) == if counts then s.(presence := Some((KeyCount(v.elems, k), |v.elems|))) else s;
    InferNoPresence(Lookup(v.elems[i].members, k).value, depth - 1, counts);
    assert s.(presence := None) == s;
    KeyCountIsHolders(v.elems, k);
  }

  /** `infer_schema` itself never writes `presence`. */
  lemma InferNoPresence(v: JValue, depth: int, counts: bool)
    ensures Infer(v, depth, counts).presence.None?
  {
  }

  // Counts only add metadata

  /** The schema without its count metadata: no `field_count` and no `presence`, anywhere. */
  function Erase(s: Schema): (r: Schema)
    ensures r.fieldCount.None? && r.presence.None?
    ensures r.typ == s.typ && r.size == s.size && r.itemTypes == s.itemTypes
    decreases s, 1
  {
    Schema(s.typ, if s.fields.Some? then Some(Fields(EraseFields(s.fields.value, |s.fields.value.entries|))) else None,
           None, s.size, s.itemTypes, if s.itemSchema.Some? then Some(Erase(s.itemSchema.value)) else None, None)
  }

  function EraseFields(f: Fields, n: nat): seq<(string, Schema)>
    requires n <= |f.entries|
    decreases f, 0, n
  {
    if n == 0 then []
    else EraseFields(f, n - 1) + [(f.entries[n - 1].0, Erase(f.entries[n - 1].1))]
  }

  /** `--counts` changes nothing but the count metadata: erasing it from the counted schema
      gives the schema inferred without counts. */
  lemma {:induction false} CountsOnlyAnnotate(v: JValue, depth: int)
    ensures Erase(Infer(v, depth, true)) == Infer(v, depth, false)
    decreases v, 3
  {
    if depth >= 0 {
      if v.JObj? {
        EraseObjectFields(v, depth, |v.members|);
      } else if v.JArr? {
        EraseItem(v, depth);
      }
    }
  }

  lemma {:induction false} EraseItem(v: JValue, depth: int)
    requires v.JArr?
    ensures ItemSchema(v, depth, true).Some? <==> ItemSchema(v, depth, false).Some?
    ensures ItemSchema(v, depth, true).Some? ==> Erase(ItemSchema(v, depth, true).value) == ItemSchema(v, depth, false).value
    decreases v, 2
  {
    if v.elems != [] && depth > 0 {
      if AllDicts(v.elems) {
        EraseRecordsItem(v, depth);
      } else {
        EraseFirstItem(v, depth);
      }
    }
  }

  /** The item schema of a list of records: erasing it erases every merged field. */
  lemma {:induction false} EraseRecordsItem(v: JValue, depth: int)
    requires v.JArr? && v.elems != [] && depth > 0 && AllDicts(v.elems)
    ensures ItemSchema(v, depth, true).Some? && ItemSchema(v, depth, false).Some?
    ensures Erase(ItemSchema(v, depth, true).value) == ItemSchema(v, depth, false).value
    decreases v, 1
  {
    var ks := MergedKeys(v.elems);
    EraseMergedFields(v, depth, |ks|);
    assert ks[..|ks|] == ks;
  }

  /** The item schema of any other list: that of its first element. */
  lemma {:induction false} EraseFirstItem(v: JValue, depth: int)
    requires v.JArr? && v.elems != [] && depth > 0 && !AllDicts(v.elems)
    ensures ItemSchema(v, depth, true) == Some(Infer(v.elems[0], depth - 1, true))
    ensures ItemSchema(v, depth, false) == Some(Erase(Infer(v.elems[0], depth - 1, true)))
    decreases v, 1
  {
    ItemOfFirst(v, depth, true);
    ItemOfFirst(v, depth, false);
    CountsOnlyAnnotate(v.elems[0], depth - 1);
  }

  lemma ItemOfFirst(v: JValue, depth: int, counts: bool)
    requires v.JArr? && v.elems != [] && depth > 0 && !AllDicts(v.elems)
    ensures ItemSchema(v, depth, counts) == Some(Infer(v.elems[0], depth - 1, counts))
  {
  }

  lemma {:induction false} EraseObjectFields(v: JValue, depth: int, n: nat)
    requires v.JObj? && depth >= 0 && n <= |v.members|
    ensures EraseFields(Fields(FieldSchemas(v, |v.members|, depth, true)), n) == FieldSchemas(v, n, depth, false)
    decreases v, 0, n
  {
    if n > 0 {
      EraseObjectFields(v, depth, n - 1);
      FieldSchemasProperties(v, |v.members|, depth, true);
      CountsOnlyAnnotate(v.members[n - 1].1, depth - 1);
    }
  }

  lemma {:induction false} EraseMergedFields(v: JValue, depth: int, n: nat)
    requires v.JArr? && n <= |MergedKeys(v.elems)|
    ensures EraseFields(Fields(MergedFields(v, MergedKeys(v.elems), depth, true)), n)
      == MergedFields(v, MergedKeys(v.elems)[..n], depth, false)
    decreases v, 0, n
  {
    var ks := MergedKeys(v.elems);
    if n > 0 {
      EraseMergedFields(v, depth, n - 1);
      MergedFieldsProperties(v, ks, depth, true);
      assert ks[..n][..n - 1] == ks[..n - 1];
      EraseMergedEntry(v, ks[n - 1], depth);
    }
  }

  lemma {:induction false} EraseMergedEntry(v: JValue, k: string, depth: int)
    requires v.JArr? && k in AllKeys(v.elems)
    ensures Erase(MergedEntry(v, k, depth, true)) == MergedEntry(v, k, depth, false)
    decreases v, 0, 0
  {
    AllKeysHolder(v.elems, k);
    var item := v.elems[FirstHolder(v.elems, k)];
    CountsOnlyAnnotate(Lookup(item.members, k).value, depth - 1);
  }
}
