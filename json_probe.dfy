/** The structural probe of the JSON commands (json-tools/scripts/probe.py): which layout a
    document has, where its records are, and which fields the records carry. */
module JsonProbe {
  import opened Text
  import opened Seqs
  import opened Sorting
  import opened Tally
  import opened Json

  // ---------------------------------------------------------------------------------------
  // Record fields

  function IsDict(v: JValue): bool
  {
    v.JObj?
  }

  /** The dict records, in order. */
  function Dicts(records: seq<JValue>): seq<JValue>
  {
    if records == [] then []
    else
      var last := records[|records| - 1];
      Dicts(records[..|records| - 1]) + (if last.JObj? then [last] else [])
  }

  /** The keys of the dicts, concatenated in order: what `counts.update(record.keys())` feeds
      the Counter. */
  function KeysOfDicts(ds: seq<JValue>): seq<string>
  {
    if ds == [] then []
    else
      var last := ds[|ds| - 1];
      KeysOfDicts(ds[..|ds| - 1]) + (if last.JObj? then MemberKeys(last.members) else [])
  }

  /** The dicts `collect_record_fields` inspects: the first `sample` of them, and at least one. */
  function Inspected(records: seq<JValue>, sample: int): seq<JValue>
  {
    var dicts := Dicts(records);
    var n := if sample < 1 then 1 else sample;
    dicts[..if n < |dicts| then n else |dicts|]
  }

  /** `collect_record_fields(records, sample)`. */
  function RecordFields(records: seq<JValue>, sample: int): seq<string>
  {
    Values(MostCommonAll(Count(KeysOfDicts(Inspected(records, sample)))))
  }

  lemma {:induction false} DictsIsFilter(records: seq<JValue>)
    ensures Dicts(records) == Filter(records, IsDict)
  {
    if records != [] {
      DictsIsFilter(records[..|records| - 1]);
    }
  }

  lemma {:induction false} DictsConcat(a: seq<JValue>, b: seq<JValue>)
    ensures Dicts(a + b) == Dicts(a) + Dicts(b)
    decreases |b|
  {
    if b != [] {
      assert (a + b)[..|a + b| - 1] == a + b[..|b| - 1];
      DictsConcat(a, b[..|b| - 1]);
    } else {
      assert a + b == a;
    }
  }

  lemma {:induction false} KeysOfDictsConcat(a: seq<JValue>, b: seq<JValue>)
    ensures KeysOfDicts(a + b) == KeysOfDicts(a) + KeysOfDicts(b)
    decreases |b|
  {
    if b != [] {
      assert (a + b)[..|a + b| - 1] == a + b[..|b| - 1];
      KeysOfDictsConcat(a, b[..|b| - 1]);
    } else {
      assert a + b == a;
    }
  }

  /** One step of the loop: a dict extends the inspected dicts and the counted keys. */
  lemma CollectStep(records: seq<JValue>, i: nat)
    requires i < |records|
    ensures Dicts(records[..i + 1]) == Dicts(records[..i]) + (if records[i].JObj? then [records[i]] else [])
    ensures KeysOfDicts(Dicts(records[..i + 1])) ==
      KeysOfDicts(Dicts(records[..i])) + (if records[i].JObj? then MemberKeys(records[i].members) else [])
  {
    assert records[..i + 1][..i] == records[..i];
    if records[i].JObj? {
      KeysOfDictsConcat(Dicts(records[..i]), [records[i]]);
      assert [records[i]][..0] == [];
    } else {
      assert Dicts(records[..i + 1]) == Dicts(records[..i]);
    }
  }

  /** The loop stops at the `n`-th dict or at the end: what it has counted is the inspected dicts. */
  lemma InspectedAtStop(records: seq<JValue>, sample: int, i: nat)
    requires i <= |records|
    requires var n := if sample < 1 then 1 else sample;
      |Dicts(records[..i])| == n || (i == |records| && |Dicts(records[..i])| < n)
    ensures Inspected(records, sample) == Dicts(records[..i])
  {
    assert records == records[..i] + records[i..];
    DictsConcat(records[..i], records[i..]);
  }

  /** `collect_record_fields`, as its loop runs; `counted` lists the keys fed to the Counter. */
  method CollectRecordFields(records: seq<JValue>, sample: int) returns (fields: seq<string>)
    ensures fields == RecordFields(records, sample)
  {
    var counted := CountInspected(records, sample);
    fields := Values(MostCommonAll(Count(counted)));
  }

  /** The loop of `collect_record_fields`: the keys it feeds the Counter, dict by dict, until
      `sample` dicts have been inspected. */
  method CountInspected(records: seq<JValue>, sample: int) returns (counted: seq<string>)
    ensures counted == KeysOfDicts(Inspected(records, sample))
  {
    counted := [];
    var inspected := 0;
    ghost var n := if sample < 1 then 1 else sample;
    ghost var stopped := false;
    var i := 0;
    while i < |records|
      invariant 0 <= i <= |records|
      invariant inspected == |Dicts(records[..i])| < n
      invariant counted == KeysOfDicts(Dicts(records[..i]))
    {
      CollectStep(records, i);
      if records[i].JObj? {
        counted := counted + MemberKeys(records[i].members);
        inspected := inspected + 1;
        if inspected >= sample {
          i := i + 1;
          InspectedAtStop(records, sample, i);
          stopped := true;
          break;
        }
      }
      i := i + 1;
    }
    if !stopped {
      InspectedAtStop(records, sample, i);
    }
  }

  /** Only dicts are inspected, in order, at most `sample` of them, and at least one when there
      is one. */
  lemma InspectedProperties(records: seq<JValue>, sample: int)
    ensures var ds := Inspected(records, sample);
      && (forall i :: 0 <= i < |ds| ==> ds[i].JObj?)
      && IsSubseq(ds, records)
      && |ds| <= (if sample < 1 then 1 else sample)
      && ((exists i :: 0 <= i < |records| && records[i].JObj?) ==> ds != [])
  {
    var dicts := Filter(records, IsDict);
    var ds := Inspected(records, sample);
    DictsIsFilter(records);
    assert ds == dicts[..|ds|];
    assert forall i :: 0 <= i < |ds| ==> ds[i].JObj? by {
      forall i | 0 <= i < |ds| ensures ds[i].JObj? {
        assert ds[i] == dicts[i];
        assert IsDict(dicts[i]);
      }
    }
    assert IsSubseq(ds, records) by {
      FilterIsSubseq(records, IsDict);
      PrefixIsSubseq(dicts, |ds|);
      SubseqTrans(ds, dicts, records);
    }
    if exists i :: 0 <= i < |records| && records[i].JObj? {
      var i :| 0 <= i < |records| && records[i].JObj?;
      assert IsDict(records[i]);
      assert records[i] in dicts;
    }
  }

  /** Every key of an inspected dict is listed once, and the fields run from the most frequent
      key to the least, keys of equal frequency in the order of their first appearance. */
  lemma RecordFieldsProperties(records: seq<JValue>, sample: int)
    ensures var fields := RecordFields(records, sample);
      var keys := KeysOfDicts(Inspected(records, sample));
      && NoDups(fields)
      && (forall k :: k in fields <==> k in keys)
      && (forall i, j :: 0 <= i < j < |fields| ==> multiset(keys)[fields[i]] >= multiset(keys)[fields[j]])
      && (forall i, j :: 0 <= i < j < |fields| && multiset(keys)[fields[i]] == multiset(keys)[fields[j]] ==>
            IndexOf(keys, fields[i]) < IndexOf(keys, fields[j]))
  {
    MostCommonOrder(KeysOfDicts(Inspected(records, sample)));
  }

  // ---------------------------------------------------------------------------------------
  // The largest array child

  /** The loop of `find_best_array_child` over `m`: a later list replaces the best only when it is
      strictly longer. */
  function BestChild(m: Members): (r: (Option<string>, seq<JValue>))
  {
    if m == [] then (None, [])
    else
      var prev := BestChild(m[..|m| - 1]);
      var last := m[|m| - 1];
      if last.1.JArr? && |last.1.elems| > |prev.1| then (Some(last.0), last.1.elems) else prev
  }

  /** `find_best_array_child(data)`. */
  method FindBestArrayChild(m: Members) returns (bestKey: Option<string>, bestArr: seq<JValue>)
    ensures (bestKey, bestArr) == BestChild(m)
  {
    bestKey := None;
    bestArr := [];
    var i := 0;
    while i < |m|
      invariant 0 <= i <= |m|
      invariant (bestKey, bestArr) == BestChild(m[..i])
    {
      assert m[..i + 1][..i] == m[..i];
      var key := m[i].0;
      var value := m[i].1;
      if value.JArr? && |value.elems| > |bestArr| {
        bestKey := Some(key);
        bestArr := value.elems;
      }
      i := i + 1;
    }
    assert m[..i] == m;
  }

  predicate IsListChild(m: Members, j: int, len: nat)
    requires 0 <= j < |m|
  {
    m[j].1.JArr? && |m[j].1.elems| == len
  }

  /** The result is `(None, [])` exactly when no child is a non-empty list; otherwise it is the
      first child holding a longest list. */
  lemma {:induction false} BestChildProperties(m: Members)
    ensures BestChild(m).0 == None <==> forall j :: 0 <= j < |m| ==> !(m[j].1.JArr? && m[j].1.elems != [])
    ensures BestChild(m).0 == None ==> BestChild(m).1 == []
    ensures BestChild(m).0 != None ==> (
      exists i :: 0 <= i < |m| && m[i] == (BestChild(m).0.value, JArr(BestChild(m).1))
        && BestChild(m).1 != []
        && (forall j :: 0 <= j < |m| && m[j].1.JArr? ==> |m[j].1.elems| <= |BestChild(m).1|)
        && (forall j :: 0 <= j < i ==> !IsListChild(m, j, |BestChild(m).1|)))
  {
    if m != [] {
      var init := m[..|m| - 1];
      BestChildProperties(init);
      var prev := BestChild(init);
      var last := m[|m| - 1];
      assert forall j :: 0 <= j < |init| ==> m[j] == init[j];
      if last.1.JArr? && |last.1.elems| > |prev.1| {
        var n := |m| - 1;
        assert m[n] == (last.0, JArr(last.1.elems));
        forall j | 0 <= j < n ensures !IsListChild(m, j, |last.1.elems|) {
          if prev.0 != None {
            assert m[j].1.JArr? ==> |m[j].1.elems| <= |prev.1|;
          } else {
            assert !(init[j].1.JArr? && init[j].1.elems != []);
          }
        }
      } else if prev.0 != None {
        var i :| 0 <= i < |init| && init[i] == (prev.0.value, JArr(prev.1)) && prev.1 != []
          && (forall j :: 0 <= j < |init| && init[j].1.JArr? ==> |init[j].1.elems| <= |prev.1|)
          && (forall j :: 0 <= j < i ==> !IsListChild(init, j, |prev.1|));
        assert m[i] == init[i];
        forall j | 0 <= j < i ensures !IsListChild(m, j, |prev.1|) {
          assert !IsListChild(init, j, |prev.1|);
        }
      }
    }
  }

  // ---------------------------------------------------------------------------------------
  // Layout

  datatype Layout = Layout(
    layout: string,
    recordCount: nat,
    recommendedArrayPath: Option<string>,
    records: seq<JValue>,
    sampleKeys: Option<seq<string>>,
    topLevelFields: Option<seq<string>>)

  /** The number of dict values. */
  function DictCount(vs: seq<JValue>): (n: nat)
    ensures n <= |vs|
    ensures n == |Filter(vs, IsDict)|
  {
    |Filter(vs, IsDict)|
  }

  /** `dict_count / len(values) >= 0.8` for a non-empty object, on exact rationals. */
  predicate MostlyDicts(vs: seq<JValue>)
  {
    |vs| > 0 && 5 * DictCount(vs) >= 4 * |vs|
  }

  /** `detect_layout(data)`. */
  function DetectLayout(data: JValue): (r: Layout)
    ensures r.recordCount == |r.records|
    ensures r.layout in {"array", "object-of-objects", "nested-array", "object", "scalar"}
  {
    match data
    case JArr(elems) => Layout("array", |elems|, None, elems, None, None)
    case JObj(m) =>
      var values := MemberValues(m);
      if MostlyDicts(values) then
        var keys := MemberKeys(m);
        Layout("object-of-objects", |values|, Some("."), values, Some(keys[..if 10 < |keys| then 10 else |keys|]), None)
      else
        var best := BestChild(m);
        if best.0.Some? && best.0.value != "" && |best.1| > 0 then
          Layout("nested-array", |best.1|, best.0, best.1, None, Some(SortBy(MemberKeys(m), StrLe)))
        else
          Layout("object", 1, None, [data], None, Some(SortBy(MemberKeys(m), StrLe)))
    case _ => Layout("scalar", 0, None, [], None, None)
  }

  /** The layouts are chosen in order: a list is an array; an object with at least 80% dict values
      yields those values; then an object whose longest list child is non-empty and has a
      non-empty key yields that list; then the object itself; anything else is a scalar with no
      records. */
  lemma DetectLayoutOrder(data: JValue)
    ensures data.JArr? <==> DetectLayout(data).layout == "array"
    ensures DetectLayout(data).layout == "array" ==> DetectLayout(data).records == data.elems
    ensures DetectLayout(data).layout == "object-of-objects" <==> data.JObj? && MostlyDicts(MemberValues(data.members))
    ensures DetectLayout(data).layout == "object-of-objects" ==> DetectLayout(data).records == MemberValues(data.members)
    ensures DetectLayout(data).layout == "nested-array" ==> (
      && data.JObj?
      && DetectLayout(data).records != []
      && exists i :: 0 <= i < |data.members| &&
           data.members[i] == (DetectLayout(data).recommendedArrayPath.value, JArr(DetectLayout(data).records)))
    ensures DetectLayout(data).layout == "object" ==> data.JObj? && DetectLayout(data).records == [data]
    ensures DetectLayout(data).layout == "scalar" <==> !IsComposite(data)
    ensures DetectLayout(data).layout == "scalar" ==> DetectLayout(data).records == []
  {
    if data.JObj? {
      BestChildProperties(data.members);
    }
  }

  /** With at least 80% dict values the layout is object-of-objects; the ratio test is the
      integer test `5 * dict_count >= 4 * len`. */
  lemma MostlyDictsExamples()
    ensures MostlyDicts([JObj([]), JObj([]), JObj([]), JObj([]), JNull])
    ensures !MostlyDicts([JObj([]), JObj([]), JObj([]), JNull])
    ensures !MostlyDicts([])
  {
    FourOfFive();
    ThreeOfFour();
  }

  /** Dicts followed by one null: every value but the last is counted. */
  lemma DictsThenNull(d: seq<JValue>)
    requires forall i :: 0 <= i < |d| ==> d[i].JObj?
    ensures DictCount(d + [JNull]) == |d|
  {
    FilterAll(d, IsDict);
    FilterSnoc(d, JNull, IsDict);
  }

  lemma FourOfFive()
    ensures DictCount([JObj([]), JObj([]), JObj([]), JObj([]), JNull]) == 4
  {
    var d: seq<JValue> := [JObj([]), JObj([]), JObj([]), JObj([])];
    DictsThenNull(d);
    assert d + [JNull] == [JObj([]), JObj([]), JObj([]), JObj([]), JNull];
  }

  lemma ThreeOfFour()
    ensures DictCount([JObj([]), JObj([]), JObj([]), JNull]) == 3
  {
    var e: seq<JValue> := [JObj([]), JObj([]), JObj([])];
    DictsThenNull(e);
    assert e + [JNull] == [JObj([]), JObj([]), JObj([]), JNull];
  }

  /** An object whose only long list sits under the empty key: `best_key` is `""`, which is
      falsy, so the layout is "object" rather than "nested-array". */
  lemma EmptyKeyIsFalsy()
    ensures DetectLayout(JObj([("", JArr([JInt(1)]))])).layout == "object"
  {
    var m: Members := [("", JArr([JInt(1)]))];
    assert BestChild(m) == (Some(""), [JInt(1)]) by {
      assert m[..0] == [];
    }
    assert MemberValues(m) == [JArr([JInt(1)])];
    assert Filter(MemberValues(m), IsDict) == [] by {
      assert MemberValues(m)[..0] == [];
    }
  }
}
