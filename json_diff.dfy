/** Structural difference of two JSON documents (json-tools/scripts/diff.py). `diff_values`
    walks both documents side by side and appends one change record per difference to the
    caller's list: a change of type, a removed or added dict key or list element, an array whose
    element sets differ (with `--ignore-order`), or a changed scalar. */
module JsonDiff {
  import opened Text
  import opened Seqs
  import opened Sorting
  import opened Json
  import opened JsonCommon

  /** The change records `diff_values` appends. */
  datatype Change =
    | TypeChange(path: string, leftType: string, rightType: string, left: JValue, right: JValue)
    | Removed(path: string, left: JValue)
    | Added(path: string, right: JValue)
    | ArraySetChange(path: string, left: JValue, right: JValue)
    | Changed(path: string, left: JValue, right: JValue)

  /** `path or "$"`: the path of a change reported at a value itself. */
  function RootOr(path: string): (p: string)
    ensures p != ""
  {
    if path == "" then "$" else path
  }

  /** `f"{path}.{key}" if path else key`. */
  function ChildPath(path: string, key: string): string
  {
    JoinKey(path, ".", key)
  }

  /** `f"{path}[{idx}]" if path else f"[{idx}]"`: both branches are the same text. */
  function IndexPath(path: string, idx: nat): string
  {
    JoinIndex(path, idx)
  }

  // Scalar equality

  /** Python's `==` on two floats, given their `repr`s. The `repr` of a float is the shortest
      text that reads back to it, so two floats are equal exactly when their `repr`s are, with two
      exceptions: `nan` equals nothing, itself included, and `0.0` equals `-0.0`. */
  predicate FloatEq(x: string, y: string)
  {
    x != "nan" && y != "nan" && (x == y || (IsZero(x) && IsZero(y)))
  }

  predicate IsZero(x: string)
  {
    x == "0.0" || x == "-0.0"
  }

  /** `left == right` for two scalars of the same type: floats as Python compares them, anything
      else by value. */
  predicate ScalarEq(left: JValue, right: JValue)
  {
    if left.JFloat? && right.JFloat? then FloatEq(left.repr, right.repr) else left == right
  }

  /** Float equality is symmetric, NaN is unequal to everything, the two zeros are equal, and any
      other float equals exactly the floats with its own `repr`. */
  lemma FloatEqProperties(x: string, y: string)
    ensures FloatEq(x, y) == FloatEq(y, x)
    ensures !FloatEq("nan", y) && !FloatEq(x, "nan")
    ensures FloatEq("0.0", "-0.0")
    ensures x != "nan" ==> FloatEq(x, x)
    ensures !IsZero(x) ==> (FloatEq(x, y) <==> x != "nan" && x == y)
  {
  }

  /** No float in the value is NaN. */
  predicate NanFree(v: JValue)
  {
    match v
    case JFloat(r) => r != "nan"
    case JArr(es) => forall i :: 0 <= i < |es| ==> NanFree(es[i])
    case JObj(m) => forall i :: 0 <= i < |m| ==> NanFree(m[i].1)
    case _ => true
  }

  // Normalised elements for the unordered comparison

  /** What `normalize_for_set` returns, as Python's set and tuple comparison sees it: a number
      (a bool, an int or a finite float, all compared by value, so that `1`, `1.0` and `True` are
      one element), another scalar, or a tuple of normalised values. A `nan` stays a scalar that
      matches itself: `json.loads` returns one shared NaN object for every `NaN` it reads, and
      set and tuple comparison test identity before `==`. */
  datatype Norm = NNum(x: real) | NAtom(v: JValue) | NTuple(items: seq<Norm>)

  /** Orders normalised `(key, value)` pairs by key (the keys of a dict are distinct). */
  function PairLe(a: (string, Norm), b: (string, Norm)): bool
  {
    StrLessEq(a.0, b.0)
  }

  /** The 2-tuple `(key, value)`: a tuple of a string and a normalised value. */
  function PairNorm(p: (string, Norm)): Norm
  {
    NTuple([NAtom(JStr(p.0)), p.1])
  }

  /** A scalar as a set element. `floatValue(r)` is the exact value of the finite float whose
      `repr` is `r`, and None for `inf`, `-inf` and `nan`, which compare by their `repr`. */
  function NormScalar(v: JValue, floatValue: string -> Option<real>): Norm
  {
    match v
    case JBool(b) => NNum(if b then 1.0 else 0.0)
    case JInt(i) => NNum(i as real)
    case JFloat(r) => (match floatValue(r) case Some(x) => NNum(x) case None => NAtom(v))
    case _ => NAtom(v)
  }

  /** `normalize_for_set(value)`: a dict becomes the tuple of its key-sorted `(key, value)`
      pairs, a list the tuple of its elements, both normalised recursively. */
  function Normalize(v: JValue, floatValue: string -> Option<real>): Norm
  {
    match v
    case JObj(m) =>
      var pairs := seq(|m|, i requires 0 <= i < |m| => (m[i].0, Normalize(m[i].1, floatValue)));
      NTuple(MapSeq(SortBy(pairs, PairLe), PairNorm))
    case JArr(es) => NTuple(seq(|es|, i requires 0 <= i < |es| => Normalize(es[i], floatValue)))
    case _ => NormScalar(v, floatValue)
  }

  /** `{normalize_for_set(item) for item in items}`. */
  function NormSet(items: seq<JValue>, floatValue: string -> Option<real>): set<Norm>
  {
    set i | 0 <= i < |items| :: Normalize(items[i], floatValue)
  }

  lemma PairLePreorder()
    ensures TotalPreorder(PairLe)
  {
    forall a: (string, Norm), b: (string, Norm) ensures PairLe(a, b) || PairLe(b, a) {
      StrLessTotal(a.0, b.0);
    }
    forall a: (string, Norm), b: (string, Norm), c: (string, Norm) | PairLe(a, b) && PairLe(b, c)
      ensures PairLe(a, c)
    {
      if a.0 != b.0 && b.0 != c.0 {
        StrLessTransitive(a.0, b.0, c.0);
      }
    }
  }

  function NormPairs(m: Members, floatValue: string -> Option<real>): (r: seq<(string, Norm)>)
    ensures |r| == |m| && forall i :: 0 <= i < |m| ==> r[i] == (m[i].0, Normalize(m[i].1, floatValue))
  {
    MapSeq(m, (p: (string, JValue)) => (p.0, Normalize(p.1, floatValue)))
  }

  lemma NormalizeObject(m: Members, floatValue: string -> Option<real>)
    ensures Normalize(JObj(m), floatValue) == NTuple(MapSeq(SortBy(NormPairs(m, floatValue), PairLe), PairNorm))
  {
    assert NormPairs(m, floatValue) == seq(|m|, i requires 0 <= i < |m| => (m[i].0, Normalize(m[i].1, floatValue)));
  }

  /** Two normalised pairs of a dict with distinct keys that share a key are the same. */
  lemma NormPairsKeysDistinct(m: Members, floatValue: string -> Option<real>, x: (string, Norm), y: (string, Norm))
    requires UniqueKeys(m)
    requires x in NormPairs(m, floatValue) && y in NormPairs(m, floatValue) && x.0 == y.0
    ensures x == y
  {
    var r := NormPairs(m, floatValue);
    var i :| 0 <= i < |r| && r[i] == x;
    var j :| 0 <= j < |r| && r[j] == y;
    assert MemberKeys(m)[i] == MemberKeys(m)[j];
  }

  /** `normalize_for_set` does not depend on the order in which a dict's keys were inserted. */
  lemma NormalizeKeyOrderFree(m: Members, m': Members, floatValue: string -> Option<real>)
    requires UniqueKeys(m) && multiset(m) == multiset(m')
    ensures Normalize(JObj(m), floatValue) == Normalize(JObj(m'), floatValue)
  {
    var r := NormPairs(m, floatValue);
    var r' := NormPairs(m', floatValue);
    MapSeqMultiset(m, m', (p: (string, JValue)) => (p.0, Normalize(p.1, floatValue)));
    assert multiset(r) == multiset(r');
    PairLePreorder();
    var sr := SortBy(r, PairLe);
    var sr' := SortBy(r', PairLe);
    SortBySorted(r, PairLe);
    SortBySorted(r', PairLe);
    forall x, y | x in sr && y in sr && PairLe(x, y) && PairLe(y, x) ensures x == y {
      assert x in multiset(r) && y in multiset(r);
      if x.0 != y.0 {
        StrLessAsymmetric(x.0, y.0);
      }
      NormPairsKeysDistinct(m, floatValue, x, y);
    }
    SortedUnique(sr, sr', PairLe);
    NormalizeObject(m, floatValue);
    NormalizeObject(m', floatValue);
  }

  /** A dict and the list of its `[key, value]` pairs normalise alike, so `--ignore-order`
      does not tell `{"a": 1}` from `[["a", 1]]`. */
  lemma DictMatchesPairList(floatValue: string -> Option<real>)
    ensures Normalize(JObj([("a", JInt(1))]), floatValue) == Normalize(JArr([JArr([JStr("a"), JInt(1)])]), floatValue)
  {
    var m := [("a", JInt(1))];
    NormalizeObject(m, floatValue);
    assert NormPairs(m, floatValue) == [("a", NNum(1.0))];
    assert SortBy(NormPairs(m, floatValue), PairLe) == [("a", NNum(1.0))];
    var inner := JArr([JStr("a"), JInt(1)]);
    assert Normalize(inner, floatValue) == NTuple([NAtom(JStr("a")), NNum(1.0)]);
  }

  /** As set elements, `1`, `true` and a float of value 1 are the same, and so are the two
      zeros; a `nan` matches itself and a string never matches a number. */
  lemma NormalizeNumbers(floatValue: string -> Option<real>, one: string)
    requires floatValue(one) == Some(1.0) && floatValue("0.0") == Some(0.0) && floatValue("-0.0") == Some(0.0)
    ensures Normalize(JInt(1), floatValue) == Normalize(JBool(true), floatValue) == Normalize(JFloat(one), floatValue)
    ensures Normalize(JFloat("0.0"), floatValue) == Normalize(JFloat("-0.0"), floatValue) == Normalize(JInt(0), floatValue)
    ensures Normalize(JStr("1"), floatValue) != Normalize(JInt(1), floatValue)
  {
  }

  // The change list

  function In(ks: seq<string>): string -> bool
  {
    (k: string) => k in ks
  }

  function NotIn(ks: seq<string>): string -> bool
  {
    (k: string) => k !in ks
  }

  /** `sorted(left_keys - right_keys)`. */
  function OnlyIn(a: seq<string>, b: seq<string>): (r: seq<string>)
  {
    SortedSet(Filter(a, NotIn(b)))
  }

  /** `sorted(left_keys & right_keys)`. */
  function InBoth(a: seq<string>, b: seq<string>): (r: seq<string>)
  {
    SortedSet(Filter(a, In(b)))
  }

  /** The key lists are exactly the set differences and the intersection, sorted strictly. */
  lemma KeySetsProperties(a: seq<string>, b: seq<string>)
    ensures forall k :: k in OnlyIn(a, b) <==> k in a && k !in b
    ensures forall k :: k in InBoth(a, b) <==> k in a && k in b
    ensures forall i, j :: 0 <= i < j < |OnlyIn(a, b)| ==> StrLess(OnlyIn(a, b)[i], OnlyIn(a, b)[j])
    ensures forall i, j :: 0 <= i < j < |InBoth(a, b)| ==> StrLess(InBoth(a, b)[i], InBoth(a, b)[j])
  {
    SortedSetProperties(Filter(a, NotIn(b)));
    SortedSetProperties(Filter(a, In(b)));
  }

  /** The `removed` records of the keys `ks` of the left dict `m`, in order. */
  function RemovedKeys(m: Members, ks: seq<string>, path: string): (r: seq<Change>)
    requires forall k :: k in ks ==> k in MemberKeys(m)
    ensures |r| == |ks|
    ensures forall i :: 0 <= i < |ks| ==> r[i] == Removed(ChildPath(path, ks[i]), Lookup(m, ks[i]).value)
  {
    if ks == [] then []
    else RemovedKeys(m, ks[..|ks| - 1], path) + [Removed(ChildPath(path, ks[|ks| - 1]), Lookup(m, ks[|ks| - 1]).value)]
  }

  /** The `added` records of the keys `ks` of the right dict `m`, in order. */
  function AddedKeys(m: Members, ks: seq<string>, path: string): (r: seq<Change>)
    requires forall k :: k in ks ==> k in MemberKeys(m)
    ensures |r| == |ks|
    ensures forall i :: 0 <= i < |ks| ==> r[i] == Added(ChildPath(path, ks[i]), Lookup(m, ks[i]).value)
  {
    if ks == [] then []
    else AddedKeys(m, ks[..|ks| - 1], path) + [Added(ChildPath(path, ks[|ks| - 1]), Lookup(m, ks[|ks| - 1]).value)]
  }

  /** The `removed` records of the elements `es[lo..hi]`. */
  function RemovedElems(es: seq<JValue>, lo: nat, hi: nat, path: string): (r: seq<Change>)
    requires lo <= hi <= |es|
    ensures |r| == hi - lo
    ensures forall i :: 0 <= i < hi - lo ==> r[i] == Removed(IndexPath(path, lo + i), es[lo + i])
    decreases hi
  {
    if hi == lo then [] else RemovedElems(es, lo, hi - 1, path) + [Removed(IndexPath(path, hi - 1), es[hi - 1])]
  }

  /** The `added` records of the elements `es[lo..hi]`. */
  function AddedElems(es: seq<JValue>, lo: nat, hi: nat, path: string): (r: seq<Change>)
    requires lo <= hi <= |es|
    ensures |r| == hi - lo
    ensures forall i :: 0 <= i < hi - lo ==> r[i] == Added(IndexPath(path, lo + i), es[lo + i])
    decreases hi
  {
    if hi == lo then [] else AddedElems(es, lo, hi - 1, path) + [Added(IndexPath(path, hi - 1), es[hi - 1])]
  }

  function Min(a: nat, b: nat): nat
  {
    if a <= b then a else b
  }

  /** The records for the longer list's tail. */
  function Tail(le: seq<JValue>, re: seq<JValue>, path: string): seq<Change>
  {
    if |le| > |re| then RemovedElems(le, |re|, |le|, path)
    else if |re| > |le| then AddedElems(re, |le|, |re|, path)
    else []
  }

  /** The records `diff_values(left, right, path, changes, ignore_order)` appends. */
  function Diff(left: JValue, right: JValue, path: string, ignoreOrder: bool, floatValue: string -> Option<real>): seq<Change>
    decreases left, 2, 0
  {
    if !SameKind(left, right) then [TypeChange(RootOr(path), TypeName(left), TypeName(right), left, right)]
    else if left.JObj? then
      var lk := MemberKeys(left.members);
      var rk := MemberKeys(right.members);
      KeySetsProperties(lk, rk);
      KeySetsProperties(rk, lk);
      RemovedKeys(left.members, OnlyIn(lk, rk), path) + AddedKeys(right.members, OnlyIn(rk, lk), path)
        + CommonDiff(left, right, InBoth(lk, rk), path, ignoreOrder, floatValue)
    else if left.JArr? then
      if ignoreOrder then
        if NormSet(left.elems, floatValue) != NormSet(right.elems, floatValue) then [ArraySetChange(RootOr(path), left, right)] else []
      else
        ElemDiff(left, right, Min(|left.elems|, |right.elems|), path, ignoreOrder, floatValue) + Tail(left.elems, right.elems, path)
    else if !ScalarEq(left, right) then [Changed(RootOr(path), left, right)]
    else []
  }

  /** The records of the recursion into the common keys `ks`, in order. */
  function CommonDiff(left: JValue, right: JValue, ks: seq<string>, path: string, ignoreOrder: bool, floatValue: string -> Option<real>): seq<Change>
    requires left.JObj? && right.JObj?
    requires forall k :: k in ks ==> k in MemberKeys(left.members) && k in MemberKeys(right.members)
    decreases left, 1, |ks|
  {
    if ks == [] then []
    else
      var k := ks[|ks| - 1];
      CommonDiff(left, right, ks[..|ks| - 1], path, ignoreOrder, floatValue)
        + Diff(Lookup(left.members, k).value, Lookup(right.members, k).value, ChildPath(path, k), ignoreOrder, floatValue)
  }

  /** The records of the recursion into the first `n` index pairs. */
  function ElemDiff(left: JValue, right: JValue, n: nat, path: string, ignoreOrder: bool, floatValue: string -> Option<real>): seq<Change>
    requires left.JArr? && right.JArr? && n <= |left.elems| && n <= |right.elems|
    decreases left, 1, n
  {
    if n == 0 then []
    else ElemDiff(left, right, n - 1, path, ignoreOrder, floatValue) + Diff(left.elems[n - 1], right.elems[n - 1], IndexPath(path, n - 1), ignoreOrder, floatValue)
  }

  // The recursive walk, appending to the caller's list

  /** `diff_values(left, right, path, changes, ignore_order)`: `changes` gets the records of
      every difference, in the order of the walk. */
  method DiffValues(left: JValue, right: JValue, path: string, changes: seq<Change>, ignoreOrder: bool, floatValue: string -> Option<real>)
    returns (out: seq<Change>)
    ensures out == changes + Diff(left, right, path, ignoreOrder, floatValue)
    decreases left, 2
  {
    if !SameKind(left, right) {
      return changes + [TypeChange(if path != "" then path else "$", TypeName(left), TypeName(right), left, right)];
    }
    if left.JObj? {
      out := DiffDicts(left, right, path, changes, ignoreOrder, floatValue);
      return;
    }
    if left.JArr? {
      if ignoreOrder {
        if NormSet(left.elems, floatValue) != NormSet(right.elems, floatValue) {
          return changes + [ArraySetChange(if path != "" then path else "$", left, right)];
        }
        return changes;
      }
      out := DiffLists(left, right, path, changes, ignoreOrder, floatValue);
      return;
    }
    if !ScalarEq(left, right) {
      return changes + [Changed(if path != "" then path else "$", left, right)];
    }
    return changes;
  }

  /** The dict branch of `diff_values`: removed keys, added keys, then the common keys. */
  method DiffDicts(left: JValue, right: JValue, path: string, changes: seq<Change>, ignoreOrder: bool, floatValue: string -> Option<real>)
    returns (out: seq<Change>)
    requires left.JObj? && right.JObj?
    ensures out == changes + Diff(left, right, path, ignoreOrder, floatValue)
    decreases left, 1
  {
    var lk := MemberKeys(left.members);
    var rk := MemberKeys(right.members);
    KeySetsProperties(lk, rk);
    KeySetsProperties(rk, lk);
    var removed := OnlyIn(lk, rk);
    var added := OnlyIn(rk, lk);
    var common := InBoth(lk, rk);
    var r := AppendRemovedKeys(left.members, removed, path, changes);
    var a := AppendAddedKeys(right.members, added, path, r);
    out := DiffCommon(left, right, common, path, a, ignoreOrder, floatValue);
    DiffDictOrder(left, right, path, ignoreOrder, floatValue);
    ghost var rs := RemovedKeys(left.members, removed, path);
    ghost var ads := AddedKeys(right.members, added, path);
    ghost var cs := CommonDiff(left, right, common, path, ignoreOrder, floatValue);
    assert out == changes + rs + ads + cs;
    Regroup(changes, rs, ads, cs);
  }

  lemma Regroup<T>(a: seq<T>, b: seq<T>, c: seq<T>, d: seq<T>)
    ensures a + b + c + d == a + (b + c + d)
  {
  }

  lemma Assoc<T>(a: seq<T>, b: seq<T>, c: seq<T>)
    ensures a + b + c == a + (b + c)
  {
  }

  lemma CommonDiffSnoc(left: JValue, right: JValue, common: seq<string>, i: nat, path: string, ignoreOrder: bool, floatValue: string -> Option<real>)
    requires left.JObj? && right.JObj? && i < |common|
    requires forall k :: k in common ==> k in MemberKeys(left.members) && k in MemberKeys(right.members)
    ensures forall k :: k in common[..i] ==> k in MemberKeys(left.members) && k in MemberKeys(right.members)
    ensures CommonDiff(left, right, common[..i + 1], path, ignoreOrder, floatValue) == CommonDiff(left, right, common[..i], path, ignoreOrder, floatValue)
      + Diff(Lookup(left.members, common[i]).value, Lookup(right.members, common[i]).value, ChildPath(path, common[i]), ignoreOrder, floatValue)
  {
    assert common[..i + 1][..i] == common[..i];
    assert common[i] in common;
  }

  /** The loop over `sorted(left_keys - right_keys)`. */
  method AppendRemovedKeys(m: Members, removed: seq<string>, path: string, changes: seq<Change>)
    returns (out: seq<Change>)
    requires forall k :: k in removed ==> k in MemberKeys(m)
    ensures out == changes + RemovedKeys(m, removed, path)
  {
    out := changes;
    for i := 0 to |removed|
      invariant out == changes + RemovedKeys(m, removed[..i], path)
    {
      assert removed[..i + 1][..i] == removed[..i];
      assert removed[i] in removed;
      out := out + [Removed(ChildPath(path, removed[i]), Lookup(m, removed[i]).value)];
    }
    assert removed[..|removed|] == removed;
  }

  /** The loop over `sorted(right_keys - left_keys)`. */
  method AppendAddedKeys(m: Members, added: seq<string>, path: string, changes: seq<Change>)
    returns (out: seq<Change>)
    requires forall k :: k in added ==> k in MemberKeys(m)
    ensures out == changes + AddedKeys(m, added, path)
  {
    out := changes;
    for i := 0 to |added|
      invariant out == changes + AddedKeys(m, added[..i], path)
    {
      assert added[..i + 1][..i] == added[..i];
      assert added[i] in added;
      out := out + [Added(ChildPath(path, added[i]), Lookup(m, added[i]).value)];
    }
    assert added[..|added|] == added;
  }

  /** The loop over `sorted(left_keys & right_keys)`, recursing into each common key. */
  method DiffCommon(left: JValue, right: JValue, common: seq<string>, path: string, changes: seq<Change>,
                    ignoreOrder: bool, floatValue: string -> Option<real>) returns (out: seq<Change>)
    requires left.JObj? && right.JObj?
    requires forall k :: k in common ==> k in MemberKeys(left.members) && k in MemberKeys(right.members)
    ensures out == changes + CommonDiff(left, right, common, path, ignoreOrder, floatValue)
    decreases left, 0
  {
    out := changes;
    for i := 0 to |common|
      invariant out == changes + CommonDiff(left, right, common[..i], path, ignoreOrder, floatValue)
    {
      var key := common[i];
      assert key in common;
      ghost var prev := out;
      out := DiffValues(Lookup(left.members, key).value, Lookup(right.members, key).value,
                        ChildPath(path, key), out, ignoreOrder, floatValue);
      CommonDiffSnoc(left, right, common, i, path, ignoreOrder, floatValue);
      Assoc(changes, CommonDiff(left, right, common[..i], path, ignoreOrder, floatValue),
            Diff(Lookup(left.members, key).value, Lookup(right.members, key).value, ChildPath(path, key), ignoreOrder, floatValue));
    }
    assert common[..|common|] == common;
  }

  /** The positional list branch of `diff_values`: the common indices, then the tail. */
  method DiffLists(left: JValue, right: JValue, path: string, changes: seq<Change>, ignoreOrder: bool, floatValue: string -> Option<real>)
    returns (out: seq<Change>)
    requires left.JArr? && right.JArr? && !ignoreOrder
    ensures out == changes + Diff(left, right, path, ignoreOrder, floatValue)
    decreases left, 1
  {
    var le := left.elems;
    var re := right.elems;
    var minLen := Min(|le|, |re|);
    out := DiffPrefix(left, right, minLen, path, changes, ignoreOrder, floatValue);
    ghost var prefix := ElemDiff(left, right, minLen, path, ignoreOrder, floatValue);
    if |le| > |re| {
      out := AppendRemovedElems(le, minLen, path, out);
      assert out == changes + prefix + Tail(le, re, path);
    } else if |re| > |le| {
      out := AppendAddedElems(re, minLen, path, out);
      assert out == changes + prefix + Tail(le, re, path);
    } else {
      assert out == changes + prefix + Tail(le, re, path);
    }
    DiffListTail(left, right, path, floatValue);
    assert Diff(left, right, path, ignoreOrder, floatValue) == prefix + Tail(le, re, path);
  }

  /** The loop over `range(min_len)`, recursing into each index pair. */
  method DiffPrefix(left: JValue, right: JValue, n: nat, path: string, changes: seq<Change>, ignoreOrder: bool, floatValue: string -> Option<real>)
    returns (out: seq<Change>)
    requires left.JArr? && right.JArr? && n <= |left.elems| && n <= |right.elems|
    ensures out == changes + ElemDiff(left, right, n, path, ignoreOrder, floatValue)
    decreases left, 0
  {
    out := changes;
    for idx := 0 to n
      invariant out == changes + ElemDiff(left, right, idx, path, ignoreOrder, floatValue)
    {
      out := DiffValues(left.elems[idx], right.elems[idx], IndexPath(path, idx), out, ignoreOrder, floatValue);
      Assoc(changes, ElemDiff(left, right, idx, path, ignoreOrder, floatValue),
            Diff(left.elems[idx], right.elems[idx], IndexPath(path, idx), ignoreOrder, floatValue));
    }
  }

  /** The loop over the left tail `range(min_len, len(left))`. */
  method AppendRemovedElems(es: seq<JValue>, lo: nat, path: string, changes: seq<Change>) returns (out: seq<Change>)
    requires lo <= |es|
    ensures out == changes + RemovedElems(es, lo, |es|, path)
  {
    out := changes;
    for idx := lo to |es|
      invariant out == changes + RemovedElems(es, lo, idx, path)
    {
      out := out + [Removed(IndexPath(path, idx), es[idx])];
    }
  }

  /** The loop over the right tail `range(min_len, len(right))`. */
  method AppendAddedElems(es: seq<JValue>, lo: nat, path: string, changes: seq<Change>) returns (out: seq<Change>)
    requires lo <= |es|
    ensures out == changes + AddedElems(es, lo, |es|, path)
  {
    out := changes;
    for idx := lo to |es|
      invariant out == changes + AddedElems(es, lo, idx, path)
    {
      out := out + [Added(IndexPath(path, idx), es[idx])];
    }
  }

  // Properties

  /** A document without NaN has no differences from itself. */
  lemma {:induction false} DiffSelf(v: JValue, path: string, ignoreOrder: bool, floatValue: string -> Option<real>)
    ensures NanFree(v) ==> Diff(v, v, path, ignoreOrder, floatValue) == []
    decreases v, 2
  {
    if NanFree(v) {
      match v
      case JObj(m) =>
        var ks := MemberKeys(m);
        KeySetsProperties(ks, ks);
        assert OnlyIn(ks, ks) == [];
        CommonSelf(v, InBoth(ks, ks), path, ignoreOrder, floatValue);
      case JArr(es) =>
        if !ignoreOrder {
          ElemSelf(v, |es|, path, ignoreOrder, floatValue);
        }
      case _ =>
    }
  }

  lemma {:induction false} CommonSelf(v: JValue, ks: seq<string>, path: string, ignoreOrder: bool, floatValue: string -> Option<real>)
    requires v.JObj? && NanFree(v) && forall k :: k in ks ==> k in MemberKeys(v.members)
    ensures CommonDiff(v, v, ks, path, ignoreOrder, floatValue) == []
    decreases v, 1, |ks|
  {
    if ks != [] {
      var k := ks[|ks| - 1];
      CommonSelf(v, ks[..|ks| - 1], path, ignoreOrder, floatValue);
      assert k in ks;
      assert Lookup(v.members, k).value == v.members[IndexOf(MemberKeys(v.members), k)].1;
      DiffSelf(Lookup(v.members, k).value, ChildPath(path, k), ignoreOrder, floatValue);
    }
  }

  lemma {:induction false} ElemSelf(v: JValue, n: nat, path: string, ignoreOrder: bool, floatValue: string -> Option<real>)
    requires v.JArr? && NanFree(v) && n <= |v.elems|
    ensures ElemDiff(v, v, n, path, ignoreOrder, floatValue) == []
    decreases v, 1, n
  {
    if n > 0 {
      ElemSelf(v, n - 1, path, ignoreOrder, floatValue);
      assert NanFree(v.elems[n - 1]);
      DiffSelf(v.elems[n - 1], IndexPath(path, n - 1), ignoreOrder, floatValue);
    }
  }

  /** A NaN differs from itself, so `diff_values` reports a `changed` record for it even when a
      document is compared with itself; the two zeros are no difference. */
  lemma NanAndZeros(path: string, ignoreOrder: bool, floatValue: string -> Option<real>)
    ensures Diff(JFloat("nan"), JFloat("nan"), path, ignoreOrder, floatValue)
      == [Changed(RootOr(path), JFloat("nan"), JFloat("nan"))]
    ensures Diff(JFloat("0.0"), JFloat("-0.0"), path, ignoreOrder, floatValue) == []
  {
    assert !FloatEq("nan", "nan");
    assert FloatEq("0.0", "-0.0");
  }

  /** So `{"a": NaN}` diffed with itself reports its member `a` as changed. */
  lemma NanMember(ignoreOrder: bool, floatValue: string -> Option<real>)
    ensures Diff(JObj([("a", JFloat("nan"))]), JObj([("a", JFloat("nan"))]), "", ignoreOrder, floatValue)
      == [Changed("a", JFloat("nan"), JFloat("nan"))]
  {
    var v := JObj([("a", JFloat("nan"))]);
    var ks := MemberKeys(v.members);
    assert ks == ["a"];
    KeySetsProperties(ks, ks);
    assert OnlyIn(ks, ks) == [];
    assert InBoth(ks, ks) == ["a"] by {
      assert Filter(ks, In(ks)) == ["a"];
      SortedSetSingleton("a");
    }
    assert ["a"][..0] == [];
    assert Lookup(v.members, "a") == Some(JFloat("nan"));
    NanAndZeros("a", ignoreOrder, floatValue);
    assert CommonDiff(v, v, ["a"], "", ignoreOrder, floatValue) == [Changed("a", JFloat("nan"), JFloat("nan"))];
  }

  /** Values of different kinds give exactly one `type_change`, with two different tags, and no
      recursion; scalars of the same kind give one `changed` record exactly when Python finds
      them unequal: floats by value (NaN unequal to itself, `0.0` equal to `-0.0`), any other
      scalar by value. */
  lemma DiffScalarsAndTypes(left: JValue, right: JValue, path: string, ignoreOrder: bool, floatValue: string -> Option<real>)
    ensures !SameKind(left, right) ==>
      Diff(left, right, path, ignoreOrder, floatValue) == [TypeChange(RootOr(path), TypeName(left), TypeName(right), left, right)]
      && TypeName(left) != TypeName(right)
    ensures SameKind(left, right) && !IsComposite(left) ==>
      (Diff(left, right, path, ignoreOrder, floatValue) == [] <==> ScalarEq(left, right))
      && (!ScalarEq(left, right) ==> Diff(left, right, path, ignoreOrder, floatValue) == [Changed(RootOr(path), left, right)])
    ensures SameKind(left, right) && !IsComposite(left) && !left.JFloat? ==>
      (Diff(left, right, path, ignoreOrder, floatValue) == [] <==> left == right)
    ensures left.JFloat? && right.JFloat? ==>
      (Diff(left, right, path, ignoreOrder, floatValue) == [] <==> FloatEq(left.repr, right.repr))
  {
    TypeNameKinds(left, right);
  }

  /** Under `--ignore-order` two lists give at most one record: an `array_set_change` exactly
      when their sets of normalised elements differ. */
  lemma DiffIgnoreOrder(left: JValue, right: JValue, path: string, floatValue: string -> Option<real>)
    requires left.JArr? && right.JArr?
    ensures |Diff(left, right, path, true, floatValue)| <= 1
    ensures Diff(left, right, path, true, floatValue) != [] <==> NormSet(left.elems, floatValue) != NormSet(right.elems, floatValue)
    ensures Diff(left, right, path, true, floatValue) != [] ==> Diff(left, right, path, true, floatValue) == [ArraySetChange(RootOr(path), left, right)]
  {
  }

  lemma NormSetOne(v: JValue, floatValue: string -> Option<real>)
    ensures NormSet([v], floatValue) == {Normalize(v, floatValue)}
  {
    assert [v][0] == v;
  }

  lemma NormSetTwice(v: JValue, floatValue: string -> Option<real>)
    ensures NormSet([v, v], floatValue) == {Normalize(v, floatValue)}
  {
    assert [v, v][0] == v && [v, v][1] == v;
  }

  /** Under `--ignore-order`, `[1]`, `[true]`, `[1.0]` and `[1, 1]` are the same set, and so are
      `[0.0]` and `[-0.0]`; `["1"]` differs from `[1]`. */
  lemma IgnoreOrderNumbers(path: string, floatValue: string -> Option<real>, one: string)
    requires floatValue(one) == Some(1.0) && floatValue("0.0") == Some(0.0) && floatValue("-0.0") == Some(0.0)
    ensures Diff(JArr([JInt(1)]), JArr([JBool(true)]), path, true, floatValue) == []
    ensures Diff(JArr([JInt(1)]), JArr([JFloat(one)]), path, true, floatValue) == []
    ensures Diff(JArr([JInt(1), JInt(1)]), JArr([JInt(1)]), path, true, floatValue) == []
    ensures Diff(JArr([JFloat("0.0")]), JArr([JFloat("-0.0")]), path, true, floatValue) == []
    ensures Diff(JArr([JStr("1")]), JArr([JInt(1)]), path, true, floatValue)
      == [ArraySetChange(RootOr(path), JArr([JStr("1")]), JArr([JInt(1)]))]
  {
    NormalizeNumbers(floatValue, one);
    NormSetOne(JInt(1), floatValue);
    NormSetOne(JBool(true), floatValue);
    NormSetOne(JFloat(one), floatValue);
    NormSetOne(JFloat("0.0"), floatValue);
    NormSetOne(JFloat("-0.0"), floatValue);
    NormSetOne(JStr("1"), floatValue);
    NormSetTwice(JInt(1), floatValue);
  }

  /** Two dicts give the `removed` records of the left-only keys, then the `added` records of
      the right-only keys, each in strictly increasing key order, then the records of the
      common keys, visited in strictly increasing order. */
  lemma DiffDictOrder(left: JValue, right: JValue, path: string, ignoreOrder: bool, floatValue: string -> Option<real>)
    requires left.JObj? && right.JObj?
    ensures var lk := MemberKeys(left.members);
      var rk := MemberKeys(right.members);
      var removed := OnlyIn(lk, rk);
      var added := OnlyIn(rk, lk);
      var common := InBoth(lk, rk);
      && (forall k :: k in removed <==> k in lk && k !in rk)
      && (forall k :: k in added <==> k in rk && k !in lk)
      && (forall k :: k in common <==> k in lk && k in rk)
      && (forall i, j :: 0 <= i < j < |removed| ==> StrLess(removed[i], removed[j]))
      && (forall i, j :: 0 <= i < j < |added| ==> StrLess(added[i], added[j]))
      && (forall i, j :: 0 <= i < j < |common| ==> StrLess(common[i], common[j]))
      && Diff(left, right, path, ignoreOrder, floatValue)
        == RemovedKeys(left.members, removed, path) + AddedKeys(right.members, added, path)
          + CommonDiff(left, right, common, path, ignoreOrder, floatValue)
  {
    KeySetsProperties(MemberKeys(left.members), MemberKeys(right.members));
    KeySetsProperties(MemberKeys(right.members), MemberKeys(left.members));
  }

  /** Two lists compared by position give the records of their first `min(len)` index pairs,
      then one `removed` record per extra left element or one `added` record per extra right
      element, at their indices. */
  lemma DiffListTail(left: JValue, right: JValue, path: string, floatValue: string -> Option<real>)
    requires left.JArr? && right.JArr?
    ensures var le := left.elems;
      var re := right.elems;
      var n := Min(|le|, |re|);
      var t := Tail(le, re, path);
      && Diff(left, right, path, false, floatValue) == ElemDiff(left, right, n, path, false, floatValue) + t
      && |t| == |le| + |re| - 2 * n
      && (forall i :: 0 <= i < |t| && |le| > |re| ==> t[i] == Removed(IndexPath(path, n + i), le[n + i]))
      && (forall i :: 0 <= i < |t| && |re| > |le| ==> t[i] == Added(IndexPath(path, n + i), re[n + i]))
  {
    assert SameKind(left, right) && !left.JObj?;
    assert Diff(left, right, path, false, floatValue)
      == ElemDiff(left, right, Min(|left.elems|, |right.elems|), path, false, floatValue) + Tail(left.elems, right.elems, path);
    TailShape(left.elems, right.elems, path);
  }

  /** The tail holds one record per extra element of the longer list, at its index. */
  lemma TailShape(le: seq<JValue>, re: seq<JValue>, path: string)
    ensures var n := Min(|le|, |re|);
      var t := Tail(le, re, path);
      && |t| == |le| + |re| - 2 * n
      && (forall i :: 0 <= i < |t| && |le| > |re| ==> t[i] == Removed(IndexPath(path, n + i), le[n + i]))
      && (forall i :: 0 <= i < |t| && |re| > |le| ==> t[i] == Added(IndexPath(path, n + i), re[n + i]))
  {
    if |le| > |re| {
      assert Tail(le, re, path) == RemovedElems(le, |re|, |le|, path);
    } else if |re| > |le| {
      assert Tail(le, re, path) == AddedElems(re, |le|, |re|, path);
    }
  }

  // Reporting

  /** One line of `to_text`; `repr` stands for Python's `repr` of a value. */
  function ChangeLine(c: Change, repr: JValue -> string): (line: string)
    ensures line != [] && line[0] in {'+', '-', '~'}
  {
    match c
    case Added(p, r) => "+ " + p + ": " + repr(r)
    case Removed(p, l) => "- " + p + ": " + repr(l)
    case TypeChange(p, lt, rt, l, r) =>
      "~ " + p + ": type " + lt + " -> " + rt + " (left=" + repr(l) + ", right=" + repr(r) + ")"
    case ArraySetChange(p, l, r) => "~ " + p + ": " + repr(l) + " -> " + repr(r)
    case Changed(p, l, r) => "~ " + p + ": " + repr(l) + " -> " + repr(r)
  }

  function LineFn(repr: JValue -> string): Change -> string
  {
    (c: Change) => ChangeLine(c, repr)
  }

  /** `to_text(changes)`. */
  function ToText(changes: seq<Change>, repr: JValue -> string): string
  {
    if changes == [] then "No differences.\n"
    else Join(MapSeq(changes, LineFn(repr)), "\n") + "\n"
  }

  lemma JoinStartsWithFirst(parts: seq<string>, sep: string)
    requires parts != []
    ensures |Join(parts, sep)| >= |parts[0]| && Join(parts, sep)[..|parts[0]|] == parts[0]
  {
  }

  /** The text report says "No differences." exactly when there are no changes. */
  lemma ToTextEmptyIff(changes: seq<Change>, repr: JValue -> string)
    ensures ToText(changes, repr) == "No differences.\n" <==> changes == []
  {
    if changes != [] {
      var lines := MapSeq(changes, LineFn(repr));
      JoinStartsWithFirst(lines, "\n");
      var text := ToText(changes, repr);
      assert text[0] == Join(lines, "\n")[..|lines[0]|][0] == lines[0][0];
      assert text[0] != 'N';
    }
  }

  /** What `main` writes: `change_count` and the changes of the whole documents. */
  datatype Report = Report(changeCount: nat, changes: seq<Change>)

  function DiffReport(left: JValue, right: JValue, ignoreOrder: bool, floatValue: string -> Option<real>): (r: Report)
    ensures r.changeCount == |r.changes|
  {
    var changes := Diff(left, right, "", ignoreOrder, floatValue);
    Report(|changes|, changes)
  }

  /** `main`: diff the documents from the root, starting with no changes. */
  method DiffDocuments(left: JValue, right: JValue, ignoreOrder: bool, floatValue: string -> Option<real>) returns (r: Report)
    ensures r == DiffReport(left, right, ignoreOrder, floatValue)
  {
    var changes := DiffValues(left, right, "", [], ignoreOrder, floatValue);
    r := Report(|changes|, changes);
  }

  /** A document without NaN compared with itself reports no changes; a root-level difference
      is reported under `$`. */
  lemma DiffReportProperties(v: JValue, left: JValue, right: JValue, ignoreOrder: bool, floatValue: string -> Option<real>)
    ensures NanFree(v) ==> DiffReport(v, v, ignoreOrder, floatValue) == Report(0, [])
    ensures !SameKind(left, right) ==> DiffReport(left, right, ignoreOrder, floatValue).changes[0].path == "$"
  {
    DiffSelf(v, "", ignoreOrder, floatValue);
  }
}
