/** The json `merge` command: concatenating arrays (optionally keeping the first item per key),
    and merging objects shallowly (`dict.update`) or deeply (nested dicts merged key by key). */
module JsonMerge {
  import opened Text
  import opened Seqs
  import opened Json
  import opened JsonCommon

  // ---------------------------------------------------------------------------------------
  // Shallow merge

  /** `shallow_merge`: every object's pairs assigned in turn over `{}`. */
  function ShallowMerge(objs: seq<Members>): Members
  {
    if objs == [] then [] else PutAll(ShallowMerge(objs[..|objs| - 1]), objs[|objs| - 1])
  }

  method ShallowMergeLoop(objs: seq<Members>) returns (out: Members)
    ensures out == ShallowMerge(objs)
  {
    out := [];
    for i := 0 to |objs|
      invariant out == ShallowMerge(objs[..i])
    {
      assert objs[..i + 1][..i] == objs[..i];
      out := PutAll(out, objs[i]);
    }
    assert objs[..|objs|] == objs;
  }

  /** Some object has the key. */
  predicate SomeHas(objs: seq<Members>, k: string)
  {
    exists i :: 0 <= i < |objs| && k in MemberKeys(objs[i])
  }

  /** No later object has the key. */
  predicate LastHolder(objs: seq<Members>, k: string, i: nat)
  {
    i < |objs| && k in MemberKeys(objs[i]) && forall j :: i < j < |objs| ==> k !in MemberKeys(objs[j])
  }

  /** A key of the shallow merge is a key of some object. */
  lemma {:induction false} ShallowMergeHas(objs: seq<Members>, k: string)
    ensures Lookup(ShallowMerge(objs), k).Some? <==> SomeHas(objs, k)
  {
    if objs != [] {
      var init := objs[..|objs| - 1];
      ShallowMergeHas(init, k);
      PutAllHasKey(ShallowMerge(init), objs[|objs| - 1], k);
      SomeHasSnoc(objs, k);
    }
  }

  lemma SomeHasSnoc(objs: seq<Members>, k: string)
    requires objs != []
    ensures SomeHas(objs, k) <==> SomeHas(objs[..|objs| - 1], k) || k in MemberKeys(objs[|objs| - 1])
  {
    var init := objs[..|objs| - 1];
    if SomeHas(objs, k) && k !in MemberKeys(objs[|objs| - 1]) {
      var i :| 0 <= i < |objs| && k in MemberKeys(objs[i]);
      assert init[i] == objs[i];
    }
    if SomeHas(init, k) {
      var i :| 0 <= i < |init| && k in MemberKeys(init[i]);
      assert objs[i] == init[i];
    }
  }

  /** A key of the shallow merge holds the value of the last object that has it. */
  lemma {:induction false} ShallowMergeLast(objs: seq<Members>, k: string, i: nat)
    requires forall j :: 0 <= j < |objs| ==> UniqueKeys(objs[j])
    requires LastHolder(objs, k, i)
    ensures Lookup(ShallowMerge(objs), k) == Lookup(objs[i], k)
  {
    var init := objs[..|objs| - 1];
    var o := objs[|objs| - 1];
    assert ShallowMerge(objs) == PutAll(ShallowMerge(init), o);
    PutAllLookupUnique(ShallowMerge(init), o, k);
    if i < |init| {
      LastHolderInit(objs, k, i);
      ShallowMergeLast(init, k, i);
    }
  }

  /** A holder before the last object is the last holder among the objects before it, and the
      last object lacks the key. */
  lemma LastHolderInit(objs: seq<Members>, k: string, i: nat)
    requires forall j :: 0 <= j < |objs| ==> UniqueKeys(objs[j])
    requires LastHolder(objs, k, i) && i < |objs| - 1
    ensures var init := objs[..|objs| - 1];
      && k !in MemberKeys(objs[|objs| - 1])
      && (forall j :: 0 <= j < |init| ==> UniqueKeys(init[j]))
      && LastHolder(init, k, i)
  {
  }

  /** The keys of the shallow merge are the distinct keys of the objects, in order of first
      appearance. */
  lemma {:induction false} ShallowMergeKeys(objs: seq<Members>)
    ensures MemberKeys(ShallowMerge(objs)) == Dedup(AllMemberKeys(objs))
  {
    if objs != [] {
      var init := objs[..|objs| - 1];
      var o := objs[|objs| - 1];
      ShallowMergeKeys(init);
      ShallowMergeIsUpdate(objs);
      PutAllKeys(Flat(objs));
      FlatKeys(objs);
    }
  }

  /** All the pairs of the objects, object by object. */
  function Flat(objs: seq<Members>): Members
  {
    if objs == [] then [] else Flat(objs[..|objs| - 1]) + objs[|objs| - 1]
  }

  lemma {:induction false} FlatKeys(objs: seq<Members>)
    ensures MemberKeys(Flat(objs)) == AllMemberKeys(objs)
  {
    if objs != [] {
      FlatKeys(objs[..|objs| - 1]);
      MemberKeysConcat(Flat(objs[..|objs| - 1]), objs[|objs| - 1]);
    }
  }

  lemma MemberKeysConcat(a: Members, b: Members)
    ensures MemberKeys(a + b) == MemberKeys(a) + MemberKeys(b)
  {
  }

  /** Merging one after the other is one update with all the pairs. */
  lemma {:induction false} ShallowMergeIsUpdate(objs: seq<Members>)
    ensures ShallowMerge(objs) == PutAll([], Flat(objs))
  {
    if objs != [] {
      var init := objs[..|objs| - 1];
      ShallowMergeIsUpdate(init);
      PutAllConcat([], Flat(init), objs[|objs| - 1]);
    }
  }

  // ---------------------------------------------------------------------------------------
  // Deep merge

  /** `deep_merge_values(left, right)`: dicts are merged key by key, lists are concatenated, and
      anything else is replaced by `right`. Values are immutable here, so `dict(left)` and
      `copy.deepcopy` change nothing. */
  function DeepMerge(left: JValue, right: JValue): JValue
    decreases right, 1
  {
    if left.JObj? && right.JObj? then JObj(MergeMembers(left.members, right, |right.members|))
    else if left.JArr? && right.JArr? then JArr(left.elems + right.elems)
    else right
  }

  /** The dict after the first `n` pairs of `right` went through the loop of
      `deep_merge_values`: a key already present takes the deep merge of its value with the new
      one, a new key takes the new value. */
  function MergeMembers(m: Members, right: JValue, n: nat): Members
    requires right.JObj? && n <= |right.members|
    decreases right, 0, n
  {
    if n == 0 then m
    else
      var acc := MergeMembers(m, right, n - 1);
      MergePair(acc, right.members[n - 1].0, right.members[n - 1].1, right)
  }

  /** One turn of the loop. */
  function MergePair(acc: Members, k: string, v: JValue, ghost right: JValue): Members
    requires v < right
    decreases right, 0, 0
  {
    match Lookup(acc, k)
    case Some(prev) => Put(acc, k, DeepMerge(prev, v))
    case None => Put(acc, k, v)
  }

  method DeepMergeValues(left: JValue, right: JValue) returns (r: JValue)
    ensures r == DeepMerge(left, right)
    decreases right, 2
  {
    if left.JObj? && right.JObj? {
      var merged := left.members;
      for i := 0 to |right.members|
        invariant merged == MergeMembers(left.members, right, i)
      {
        merged := MergeStep(merged, right, i);
      }
      r := JObj(merged);
    } else if left.JArr? && right.JArr? {
      r := JArr(left.elems + right.elems);
    } else {
      r := right;
    }
  }

  /** The body of the loop over `right.items()`. */
  method MergeStep(acc: Members, right: JValue, i: nat) returns (out: Members)
    requires right.JObj? && i < |right.members|
    ensures out == MergePair(acc, right.members[i].0, right.members[i].1, right)
    decreases right, 1
  {
    var (k, v) := right.members[i];
    if k in MemberKeys(acc) {
      var sub := DeepMergeValues(Lookup(acc, k).value, v);
      out := Put(acc, k, sub);
    } else {
      out := Put(acc, k, v);
    }
  }

  /** The deep merge of dicts has the keys of the plain update: the left keys in order, then the
      new keys of the right in their order. */
  lemma {:induction false} MergeMembersKeys(m: Members, right: JValue, n: nat)
    requires right.JObj? && n <= |right.members|
    ensures MemberKeys(MergeMembers(m, right, n)) == MemberKeys(PutAll(m, right.members[..n]))
  {
    if n > 0 {
      var pairs := right.members[..n];
      assert pairs[..n - 1] == right.members[..n - 1];
      MergeMembersKeys(m, right, n - 1);
    }
  }

  /** With distinct keys on the right, a right key takes the deep merge of the left value with
      the right one (the right value when the left lacks the key), and a left-only key keeps
      its value. */
  lemma {:induction false} MergeMembersLookup(m: Members, right: JValue, n: nat, k: string)
    requires right.JObj? && n <= |right.members| && UniqueKeys(right.members)
    ensures Lookup(MergeMembers(m, right, n), k) ==
      if k in MemberKeys(right.members[..n]) then Some(MergedValue(Lookup(m, k), Lookup(right.members, k).value))
      else Lookup(m, k)
  {
    if n > 0 {
      var ks := MemberKeys(right.members);
      var k' := right.members[n - 1].0;
      assert MemberKeys(right.members[..n]) == ks[..n - 1] + [k'] by {
        assert MemberKeys(right.members[..n]) == ks[..n];
        assert ks[..n] == ks[..n - 1] + [k'];
      }
      assert MemberKeys(right.members[..n - 1]) == ks[..n - 1];
      MergeMembersLookup(m, right, n - 1, k);
      var acc := MergeMembers(m, right, n - 1);
      MergePairLookup(acc, k', right.members[n - 1].1, right, k);
      if k' == k {
        UniqueLast(ks, n);
      }
    }
  }

  /** In distinct keys, the key at `n - 1` is not among the first `n - 1` and has that index. */
  lemma UniqueLast(ks: seq<string>, n: nat)
    requires 0 < n <= |ks| && NoDups(ks)
    ensures ks[n - 1] !in ks[..n - 1] && IndexOf(ks, ks[n - 1]) == n - 1
  {
    var j := IndexOf(ks, ks[n - 1]);
    assert ks[j] == ks[n - 1];
  }

  /** One turn of the loop changes only the looked-up value of its own key. */
  lemma MergePairLookup(acc: Members, k': string, v: JValue, right: JValue, k: string)
    requires v < right
    ensures Lookup(MergePair(acc, k', v, right), k) == if k == k' then Some(MergedValue(Lookup(acc, k), v)) else Lookup(acc, k)
  {
  }

  /** What a right key ends up with. */
  function MergedValue(prev: Option<JValue>, v: JValue): JValue
  {
    match prev
    case Some(x) => DeepMerge(x, v)
    case None => v
  }

  /** The deep merge of two dicts: the keys of the left in order, then the new keys of the right;
      a key of the right takes the deep merge of the two values, a key only on the left keeps
      its value. Two lists are concatenated; any other pair gives the right value. */
  lemma DeepMergeProperties(left: JValue, right: JValue)
    ensures left.JObj? && right.JObj? ==>
      DeepMerge(left, right).JObj?
      && MemberKeys(DeepMerge(left, right).members)
         == MemberKeys(left.members) + Dedup(Filter(MemberKeys(right.members), NotIn(MemberKeys(left.members))))
    ensures left.JObj? && right.JObj? && UniqueKeys(right.members) ==>
      forall k :: Lookup(DeepMerge(left, right).members, k) == DeepLookup(left.members, right.members, k)
    ensures left.JArr? && right.JArr? ==> DeepMerge(left, right) == JArr(left.elems + right.elems)
    ensures !(left.JObj? && right.JObj?) && !(left.JArr? && right.JArr?) ==> DeepMerge(left, right) == right
  {
    if left.JObj? && right.JObj? {
      var n := |right.members|;
      assert right.members[..n] == right.members;
      MergeMembersKeys(left.members, right, n);
      PutAllKeysAppend(left.members, right.members);
      if UniqueKeys(right.members) {
        forall k ensures Lookup(DeepMerge(left, right).members, k) == DeepLookup(left.members, right.members, k) {
          MergeMembersLookup(left.members, right, n, k);
        }
      }
    }
  }

  /** The value of key `k` after the deep merge of two dicts. */
  function DeepLookup(left: Members, right: Members, k: string): Option<JValue>
  {
    if k in MemberKeys(right) then Some(MergedValue(Lookup(left, k), Lookup(right, k).value)) else Lookup(left, k)
  }

  /** `{}` is an identity of the deep merge of dicts: on the right always, on the left for a dict
      with distinct keys. */
  lemma DeepMergeEmpty(d: JValue)
    requires d.JObj?
    ensures DeepMerge(d, JObj([])) == d
    ensures UniqueKeys(d.members) ==> DeepMerge(JObj([]), d) == d
  {
    if UniqueKeys(d.members) {
      MergeIntoEmpty(d, |d.members|);
      assert d.members[..|d.members|] == d.members;
    }
  }

  lemma {:induction false} MergeIntoEmpty(d: JValue, n: nat)
    requires d.JObj? && n <= |d.members| && UniqueKeys(d.members)
    ensures MergeMembers([], d, n) == d.members[..n]
  {
    if n > 0 {
      MergeIntoEmpty(d, n - 1);
      var acc := d.members[..n - 1];
      var e := d.members[n - 1];
      assert e.0 !in MemberKeys(acc) by {
        var ks := MemberKeys(d.members);
        assert MemberKeys(acc) == ks[..n - 1];
        assert ks[n - 1] == e.0;
      }
      assert MergeMembers([], d, n) == Put(acc, e.0, e.1);
      PrefixSnoc(d.members, n);
    }
  }

  // ---------------------------------------------------------------------------------------
  // Concatenating arrays

  /** `combined.extend(arr)` for every array. */
  function Concat(arrays: seq<seq<JValue>>): seq<JValue>
  {
    if arrays == [] then [] else Concat(arrays[..|arrays| - 1]) + arrays[|arrays| - 1]
  }

  /** The dedup key of an item: `first_value(item, unique_by)`, whose `repr` the loop compares
      (`repr` tells JSON values apart). An item without the field has key None. */
  function UniqueKeyFn(path: string): JValue -> JValue
  {
    (item: JValue) => FirstValue(item, path, JNull)
  }

  /** `merge_arrays`. */
  function MergeArrays(arrays: seq<seq<JValue>>, uniqueBy: Option<string>): seq<JValue>
  {
    var combined := Concat(arrays);
    if uniqueBy.None? || uniqueBy == Some("") then combined else DedupBy(combined, UniqueKeyFn(uniqueBy.value))
  }

  method MergeArraysLoop(arrays: seq<seq<JValue>>, uniqueBy: Option<string>) returns (r: seq<JValue>)
    ensures r == MergeArrays(arrays, uniqueBy)
  {
    var combined: seq<JValue> := [];
    for i := 0 to |arrays|
      invariant combined == Concat(arrays[..i])
    {
      assert arrays[..i + 1][..i] == arrays[..i];
      combined := combined + arrays[i];
    }
    assert arrays[..|arrays|] == arrays;
    if uniqueBy.None? || uniqueBy == Some("") {
      return combined;
    }
    r := DedupByLoop(combined, UniqueKeyFn(uniqueBy.value));
  }

  function TotalLength(arrays: seq<seq<JValue>>): nat
  {
    if arrays == [] then 0 else TotalLength(arrays[..|arrays| - 1]) + |arrays[|arrays| - 1]|
  }

  lemma {:induction false} ConcatLength(arrays: seq<seq<JValue>>)
    ensures |Concat(arrays)| == TotalLength(arrays)
  {
    if arrays != [] {
      ConcatLength(arrays[..|arrays| - 1]);
    }
  }

  /** Without `unique_by` the arrays are concatenated in order; with it the result keeps, in
      order, the first item of every distinct key, so no two kept items share a key. */
  lemma MergeArraysProperties(arrays: seq<seq<JValue>>, uniqueBy: Option<string>)
    ensures uniqueBy.None? || uniqueBy == Some("") ==>
      MergeArrays(arrays, uniqueBy) == Concat(arrays) && |Concat(arrays)| == TotalLength(arrays)
    ensures uniqueBy.Some? && uniqueBy != Some("") ==>
      var key := UniqueKeyFn(uniqueBy.value);
      var r := MergeArrays(arrays, uniqueBy);
      IsSubseq(r, Concat(arrays))
      && KeysOf(r, key) == Dedup(KeysOf(Concat(arrays), key))
      && forall j :: 0 <= j < |r| ==>
           key(r[j]) in KeysOf(Concat(arrays), key)
           && r[j] == Concat(arrays)[IndexOf(KeysOf(Concat(arrays), key), key(r[j]))]
  {
    ConcatLength(arrays);
    if uniqueBy.Some? && uniqueBy != Some("") {
      var key := UniqueKeyFn(uniqueBy.value);
      DedupBySubseq(Concat(arrays), key);
      DedupByKeys(Concat(arrays), key);
      DedupByFirst(Concat(arrays), key);
    }
  }

  /** An item that lacks the field and an item whose field is null both have the key None, so
      of two such items only the first is kept. */
  lemma MissingAndNullCollide(a: JValue, b: JValue, path: string)
    requires path != "" && FirstValue(a, path, JNull) == JNull && FirstValue(b, path, JNull) == JNull
    ensures MergeArrays([[a], [b]], Some(path)) == [a]
  {
    var key := UniqueKeyFn(path);
    var combined := Concat([[a], [b]]);
    assert combined == [a, b] by {
      assert Concat([[a], [b]][..1]) == [a] by {
        assert [[a], [b]][..1][..0] == [];
      }
    }
    assert key(a) == JNull && key(b) == JNull;
    assert DedupBy([a], key) == [a] by {
      assert [a][..0] == [];
    }
    assert combined[..1] == [a];
    assert KeysOf([a], key) == [JNull];
    assert DedupBy(combined, key) == DedupBy([a], key);
  }

  // ---------------------------------------------------------------------------------------
  // The command

  datatype MergeMode = ConcatMode | ShallowMode | DeepMode

  predicate IsList(v: JValue) { v.JArr? }

  predicate IsDict(v: JValue) { v.JObj? }

  function ElemsOf(v: JValue): seq<JValue>
  {
    if v.JArr? then v.elems else []
  }

  function MembersOf(v: JValue): Members
  {
    if v.JObj? then v.members else []
  }

  /** `[doc for doc in docs if isinstance(doc, list)]`. */
  function ArraysOf(docs: seq<JValue>): seq<seq<JValue>>
  {
    MapSeq(Filter(docs, IsList), ElemsOf)
  }

  /** `[doc for doc in docs if isinstance(doc, dict)]`. */
  function ObjectsOf(docs: seq<JValue>): seq<Members>
  {
    MapSeq(Filter(docs, IsDict), MembersOf)
  }

  /** The deep-mode loop: `result = deep_merge_values(result, obj)` from `{}`. */
  function DeepAll(objs: seq<Members>): JValue
  {
    if objs == [] then JObj([]) else DeepMerge(DeepAll(objs[..|objs| - 1]), JObj(objs[|objs| - 1]))
  }

  /** The document `main` writes. */
  function MergeDoc(docs: seq<JValue>, mode: MergeMode, uniqueBy: Option<string>): JValue
  {
    match mode
    case ConcatMode => JArr(MergeArrays(ArraysOf(docs), uniqueBy))
    case ShallowMode => JObj(ShallowMerge(ObjectsOf(docs)))
    case DeepMode => DeepAll(ObjectsOf(docs))
  }

  method MergeCommand(docs: seq<JValue>, mode: MergeMode, uniqueBy: Option<string>) returns (result: JValue)
    ensures result == MergeDoc(docs, mode, uniqueBy)
  {
    match mode
    case ConcatMode =>
      var items := MergeArraysLoop(ArraysOf(docs), uniqueBy);
      result := JArr(items);
    case ShallowMode =>
      var out := ShallowMergeLoop(ObjectsOf(docs));
      result := JObj(out);
    case DeepMode =>
      var objects := ObjectsOf(docs);
      result := JObj([]);
      for i := 0 to |objects|
        invariant result == DeepAll(objects[..i])
      {
        assert objects[..i + 1][..i] == objects[..i];
        result := DeepMergeValues(result, JObj(objects[i]));
      }
      assert objects[..|objects|] == objects;
  }

  /** The deep-mode result is a dict with the keys of the shallow merge. */
  lemma {:induction false} DeepAllKeys(objs: seq<Members>)
    ensures DeepAll(objs).JObj?
    ensures MemberKeys(DeepAll(objs).members) == MemberKeys(ShallowMerge(objs))
  {
    if objs != [] {
      var init := objs[..|objs| - 1];
      var o := objs[|objs| - 1];
      DeepAllKeys(init);
      var prev := DeepAll(init);
      var n := |o|;
      assert JObj(o).members[..n] == o;
      MergeMembersKeys(prev.members, JObj(o), n);
      PutAllKeysAppend(prev.members, o);
      PutAllKeysAppend(ShallowMerge(init), o);
    }
  }

  /** A document of the wrong kind for the mode is ignored: removing it changes nothing. */
  lemma IgnoredDocuments(a: seq<JValue>, x: JValue, b: seq<JValue>, mode: MergeMode, uniqueBy: Option<string>)
    requires if mode.ConcatMode? then !x.JArr? else !x.JObj?
    ensures MergeDoc(a + [x] + b, mode, uniqueBy) == MergeDoc(a + b, mode, uniqueBy)
  {
    if mode.ConcatMode? {
      FilterSkip(a, x, b, IsList);
    } else {
      FilterSkip(a, x, b, IsDict);
    }
  }
}
