/** JSON values as Python holds them after `json.loads` (the value model of RFC 8259, sections
    3 to 5): null, booleans, ints, floats, strings, lists and dicts. A dict is its sequence of
    (key, value) members in insertion order. A float is carried as its Python `repr` text, so
    two floats are equal here exactly when their `repr`s are, and structural equality of two
    values is equality of their `repr`s. */
module Json {
  import opened Text
  import opened Seqs
  import opened Sorting

  datatype JValue =
    | JNull
    | JBool(b: bool)
    | JInt(i: int)
    | JFloat(repr: string)
    | JStr(s: string)
    | JArr(elems: seq<JValue>)
    | JObj(members: seq<(string, JValue)>)

  type Members = seq<(string, JValue)>

  /** `isinstance(v, (dict, list))`. */
  predicate IsComposite(v: JValue)
  {
    v.JArr? || v.JObj?
  }

  /** `list(d.keys())`. */
  function MemberKeys(m: Members): (ks: seq<string>)
    ensures |ks| == |m| && forall i :: 0 <= i < |m| ==> ks[i] == m[i].0
  {
    MapSeq(m, (p: (string, JValue)) => p.0)
  }

  /** All the keys of the objects, object by object. */
  function AllMemberKeys(objs: seq<Members>): seq<string>
  {
    if objs == [] then [] else AllMemberKeys(objs[..|objs| - 1]) + MemberKeys(objs[|objs| - 1])
  }

  /** A key occurs among the keys of the objects exactly when one of the objects has it. */
  lemma {:induction false} AllMemberKeysHas(objs: seq<Members>, k: string)
    ensures k in AllMemberKeys(objs) <==> exists i :: 0 <= i < |objs| && k in MemberKeys(objs[i])
  {
    if objs != [] {
      var init := objs[..|objs| - 1];
      AllMemberKeysHas(init, k);
      if k in AllMemberKeys(init) {
        var i :| 0 <= i < |init| && k in MemberKeys(init[i]);
        assert objs[i] == init[i];
      }
      if exists i :: 0 <= i < |objs| && k in MemberKeys(objs[i]) {
        var i :| 0 <= i < |objs| && k in MemberKeys(objs[i]);
        if i < |init| {
          assert init[i] == objs[i];
        }
      }
    }
  }

  /** `list(d.values())`. */
  function MemberValues(m: Members): (vs: seq<JValue>)
    ensures |vs| == |m| && forall i :: 0 <= i < |m| ==> vs[i] == m[i].1
  {
    MapSeq(m, (p: (string, JValue)) => p.1)
  }

  /** A string as a JSON string. */
  function StrValue(s: string): JValue
  {
    JStr(s)
  }

  /** A list of strings as JSON strings. */
  function Strs(xs: seq<string>): (vs: seq<JValue>)
    ensures |vs| == |xs| && forall i :: 0 <= i < |xs| ==> vs[i] == JStr(xs[i])
  {
    MapSeq(xs, StrValue)
  }

  /** A dict's keys are distinct. */
  predicate UniqueKeys(m: Members)
  {
    NoDups(MemberKeys(m))
  }

  /** Every dict inside `v` has distinct keys, as every dict that `json.loads` builds does. */
  predicate WellFormed(v: JValue)
  {
    match v
    case JArr(es) => forall i :: 0 <= i < |es| ==> WellFormed(es[i])
    case JObj(m) => UniqueKeys(m) && forall i :: 0 <= i < |m| ==> WellFormed(m[i].1)
    case _ => true
  }

  /** `d.get(k)`: the value stored under `k`, if any. */
  function Lookup(m: Members, k: string): (r: Option<JValue>)
    ensures r.Some? <==> k in MemberKeys(m)
    ensures r.Some? ==> r.value == m[IndexOf(MemberKeys(m), k)].1
  {
    if k in MemberKeys(m) then Some(m[IndexOf(MemberKeys(m), k)].1) else None
  }

  /** `d[k] = v`: an existing key keeps its position and takes the new value, a new key goes
      last. */
  function Put(m: Members, k: string, v: JValue): (r: Members)
    ensures MemberKeys(r) == if k in MemberKeys(m) then MemberKeys(m) else MemberKeys(m) + [k]
    ensures Lookup(r, k) == Some(v)
    ensures forall k' :: k' != k ==> Lookup(r, k') == Lookup(m, k')
  {
    if k in MemberKeys(m) then
      var i := IndexOf(MemberKeys(m), k);
      var r := m[i := (k, v)];
      assert MemberKeys(r) == MemberKeys(m);
      r
    else
      var r := m + [(k, v)];
      assert MemberKeys(r) == MemberKeys(m) + [k];
      assert MemberKeys(r)[..|m|] == MemberKeys(m);
      r
  }

  /** Assigning the pairs one after the other (`d.update(pairs)`). The last assignment to a key
      wins. */
  function PutAll(m: Members, pairs: Members): (r: Members)
  {
    if pairs == [] then m
    else
      var last := pairs[|pairs| - 1];
      Put(PutAll(m, pairs[..|pairs| - 1]), last.0, last.1)
  }

  /** After a series of assignments, a key holds the value of its last assignment, or its old
      value when it was not assigned. */
  lemma {:induction false} PutAllLookup(m: Members, pairs: Members, k: string)
    ensures var r := PutAll(m, pairs);
      if k in MemberKeys(pairs)
      then Lookup(r, k) == Some(pairs[LastIndexOfKey(pairs, k)].1)
      else Lookup(r, k) == Lookup(m, k)
  {
    if pairs != [] {
      var init := pairs[..|pairs| - 1];
      PutAllLookup(m, init, k);
      assert MemberKeys(init) == MemberKeys(pairs)[..|pairs| - 1];
      assert k in MemberKeys(pairs) <==> k in MemberKeys(init) || pairs[|pairs| - 1].0 == k;
    }
  }

  /** A key assigned only one value holds it afterwards. */
  lemma PutAllUniform(m: Members, pairs: Members, k: string, v: JValue)
    requires k in MemberKeys(pairs)
    requires forall i :: 0 <= i < |pairs| && pairs[i].0 == k ==> pairs[i].1 == v
    ensures Lookup(PutAll(m, pairs), k) == Some(v)
  {
    PutAllLookup(m, pairs, k);
  }

  /** A key that is not assigned keeps its old value. */
  lemma PutAllUntouched(m: Members, pairs: Members, k: string)
    requires k !in MemberKeys(pairs)
    ensures Lookup(PutAll(m, pairs), k) == Lookup(m, k)
  {
    PutAllLookup(m, pairs, k);
  }

  /** The position of the last pair with key `k`. */
  function LastIndexOfKey(pairs: Members, k: string): (i: nat)
    requires k in MemberKeys(pairs)
    ensures i < |pairs| && pairs[i].0 == k
    ensures forall j :: i < j < |pairs| ==> pairs[j].0 != k
  {
    if pairs[|pairs| - 1].0 == k then |pairs| - 1
    else
      assert MemberKeys(pairs[..|pairs| - 1]) == MemberKeys(pairs)[..|pairs| - 1];
      LastIndexOfKey(pairs[..|pairs| - 1], k)
  }

  /** Assignments keep the keys distinct. */
  lemma {:induction false} PutAllUniqueKeys(m: Members, pairs: Members)
    requires UniqueKeys(m)
    ensures UniqueKeys(PutAll(m, pairs))
  {
    if pairs != [] {
      PutAllUniqueKeys(m, pairs[..|pairs| - 1]);
      var r0 := PutAll(m, pairs[..|pairs| - 1]);
      var k := pairs[|pairs| - 1].0;
      if k !in MemberKeys(r0) {
        var ks := MemberKeys(r0) + [k];
        assert NoDups(ks);
      }
    }
  }

  /** Assigning two batches one after the other is assigning their concatenation. */
  lemma {:induction false} PutAllConcat(m: Members, a: Members, b: Members)
    ensures PutAll(m, a + b) == PutAll(PutAll(m, a), b)
    decreases |b|
  {
    if b == [] {
      assert a + b == a;
    } else {
      assert (a + b)[..|a + b| - 1] == a + b[..|b| - 1];
      PutAllConcat(m, a, b[..|b| - 1]);
    }
  }

  /** One more assignment after a batch. */
  lemma PutAllSnoc(m: Members, pairs: Members, k: string, v: JValue)
    ensures PutAll(m, pairs + [(k, v)]) == Put(PutAll(m, pairs), k, v)
  {
    assert (pairs + [(k, v)])[..|pairs|] == pairs;
  }

  /** Assigning pairs to an empty dict gives it their distinct keys, in order of first
      assignment. */
  lemma {:induction false} PutAllKeys(pairs: Members)
    ensures MemberKeys(PutAll([], pairs)) == Dedup(MemberKeys(pairs))
  {
    if pairs != [] {
      var init := pairs[..|pairs| - 1];
      PutAllKeys(init);
      DedupProperties(MemberKeys(init));
      assert MemberKeys(pairs)[..|pairs| - 1] == MemberKeys(init);
    }
  }

  /** Updating with a dict whose keys are distinct: a key of the dict takes the dict's value,
      any other key keeps its old value. */
  lemma PutAllLookupUnique(m: Members, pairs: Members, k: string)
    requires UniqueKeys(pairs)
    ensures Lookup(PutAll(m, pairs), k) == if k in MemberKeys(pairs) then Lookup(pairs, k) else Lookup(m, k)
  {
    PutAllLookup(m, pairs, k);
    if k in MemberKeys(pairs) {
      var i := LastIndexOfKey(pairs, k);
      var j := IndexOf(MemberKeys(pairs), k);
      assert MemberKeys(pairs)[i] == MemberKeys(pairs)[j];
    }
  }

  /** After `d.update(pairs)` the keys are the old keys and the assigned ones. */
  lemma {:induction false} PutAllHasKey(m: Members, pairs: Members, k: string)
    ensures k in MemberKeys(PutAll(m, pairs)) <==> k in MemberKeys(m) || k in MemberKeys(pairs)
  {
    if pairs != [] {
      var init := pairs[..|pairs| - 1];
      PutAllHasKey(m, init, k);
      MemberKeysInit(pairs);
    }
  }

  /** The keys of a dict are those of all but its last member, then the last member's key. */
  lemma MemberKeysInit(pairs: Members)
    requires pairs != []
    ensures MemberKeys(pairs) == MemberKeys(pairs[..|pairs| - 1]) + [pairs[|pairs| - 1].0]
  {
  }

  function NotIn(ks: seq<string>): string -> bool
  {
    (k: string) => k !in ks
  }

  /** `d.update(pairs)` keeps the keys of `d` in place and appends the new keys of `pairs` in
      the order they first occur. */
  lemma {:induction false} PutAllKeysAppend(m: Members, pairs: Members)
    ensures MemberKeys(PutAll(m, pairs)) == MemberKeys(m) + Dedup(Filter(MemberKeys(pairs), NotIn(MemberKeys(m))))
  {
    if pairs != [] {
      var init := pairs[..|pairs| - 1];
      var k := pairs[|pairs| - 1].0;
      PutAllKeysAppend(m, init);
      assert MemberKeys(pairs) == MemberKeys(init) + [k];
      AppendKeyStep(MemberKeys(m), MemberKeys(init), k, MemberKeys(PutAll(m, init)));
    }
  }

  /** One more assigned key, on key sequences. */
  lemma AppendKeyStep(base: seq<string>, ps: seq<string>, k: string, cur: seq<string>)
    requires cur == base + Dedup(Filter(ps, NotIn(base)))
    ensures (if k in cur then cur else cur + [k]) == base + Dedup(Filter(ps + [k], NotIn(base)))
  {
    FilterSnoc(ps, k, NotIn(base));
    if k in base {
      assert Filter(ps + [k], NotIn(base)) == Filter(ps, NotIn(base));
    } else {
      AppendNewKey(base, Filter(ps, NotIn(base)), k, cur);
    }
  }

  lemma AppendNewKey(base: seq<string>, f: seq<string>, k: string, cur: seq<string>)
    requires cur == base + Dedup(f) && k !in base
    ensures (if k in cur then cur else cur + [k]) == base + Dedup(f + [k])
  {
    var d := Dedup(f);
    assert k in cur <==> k in f by {
      DedupProperties(f);
    }
    DedupSnoc(f, k);
    if k !in f {
      assert cur + [k] == base + (d + [k]);
    }
  }

  /** `d[k] = g(k)`, as a pair. */
  function Assign(g: string -> JValue): string -> (string, JValue)
  {
    (k: string) => (k, g(k))
  }

  /** Assigning `g(k)` to every key in turn: the dict has the distinct keys in order of first
      assignment, each holding its value. */
  lemma PutAllMapped(keys: seq<string>, g: string -> JValue)
    ensures MemberKeys(PutAll([], MapSeq(keys, Assign(g)))) == Dedup(keys)
    ensures forall k :: k in keys ==> Lookup(PutAll([], MapSeq(keys, Assign(g))), k) == Some(g(k))
  {
    var pairs := MapSeq(keys, Assign(g));
    assert MemberKeys(pairs) == keys;
    PutAllKeys(pairs);
    forall k | k in keys ensures Lookup(PutAll([], pairs), k) == Some(g(k)) {
      PutAllUniform([], pairs, k, g(k));
    }
  }

  /** One more key of a loop assigning `g(k)` key by key. */
  lemma PutAllMappedSnoc(keys: seq<string>, i: nat, g: string -> JValue)
    requires i < |keys|
    ensures PutAll([], MapSeq(keys[..i + 1], Assign(g))) == Put(PutAll([], MapSeq(keys[..i], Assign(g))), keys[i], g(keys[i]))
  {
    MapSeqPrefixSnoc(keys, i, Assign(g));
    PutAllSnoc([], MapSeq(keys[..i], Assign(g)), keys[i], g(keys[i]));
  }

  /** Every member after the assignments is an old member or one of the assigned pairs. */
  lemma {:induction false} PutAllMembers(m: Members, pairs: Members)
    ensures forall e :: e in PutAll(m, pairs) ==> e in m || e in pairs
    decreases |pairs|
  {
    if pairs != [] {
      var init := pairs[..|pairs| - 1];
      PutAllMembers(m, init);
      var r0 := PutAll(m, init);
      var last := pairs[|pairs| - 1];
      forall e | e in Put(r0, last.0, last.1) ensures e in m || e in pairs {
        PutMembers(r0, last.0, last.1, e);
        if e in init {
          var i :| 0 <= i < |init| && init[i] == e;
          assert pairs[i] == e;
        }
      }
    }
  }

  lemma PutMembers(m: Members, k: string, v: JValue, e: (string, JValue))
    requires e in Put(m, k, v)
    ensures e in m || e == (k, v)
  {
    if k in MemberKeys(m) {
      var i := IndexOf(MemberKeys(m), k);
      var j :| 0 <= j < |m| && m[i := (k, v)][j] == e;
      if j != i {
        assert m[j] == e;
      }
    }
  }

  /** The separators of `json.dumps`: between items, and between a key and its value. */
  datatype Separators = Separators(item: string, key: string)

  /** The default separators of `json.dumps` without indentation. */
  const DefaultSeparators := Separators(", ", ": ")

  /** `separators=(",", ":")`. */
  const CompactSeparators := Separators(",", ":")

  /** The four-digit lower-case hex code `json.dumps` writes for a control character. */
  function Hex4(n: nat): string
    requires n < 0x10000
  {
    var digits := "0123456789abcdef";
    [digits[n / 4096], digits[(n / 256) % 16], digits[(n / 16) % 16], digits[n % 16]]
  }

  /** How `json.dumps(..., ensure_ascii=False)` writes one character of a string. */
  function EscapeChar(c: char): string
  {
    if c == '"' then "\\\""
    else if c == '\\' then "\\\\"
    else if c == '\n' then "\\n"
    else if c == '\r' then "\\r"
    else if c == '\t' then "\\t"
    else if c == '\U{0008}' then "\\b"
    else if c == '\U{000C}' then "\\f"
    else if (c as int) < 0x20 then "\\u" + Hex4(c as int)
    else [c]
  }

  /** A string literal as `json.dumps` writes it. */
  function Quote(s: string): string
  {
    "\"" + EscapeBody(s) + "\""
  }

  function EscapeBody(s: string): string
  {
    if s == [] then "" else EscapeBody(s[..|s| - 1]) + EscapeChar(s[|s| - 1])
  }

  /** A float as `json.dumps` writes it: its `repr`, except that NaN and the infinities are
      written as JavaScript names. */
  function FloatText(repr: string): string
  {
    if repr == "nan" then "NaN"
    else if repr == "inf" then "Infinity"
    else if repr == "-inf" then "-Infinity"
    else repr
  }

  /** Orders rendered members by key (`sort_keys=True`). */
  function KeyLe(a: (string, string), b: (string, string)): bool
  {
    StrLessEq(a.0, b.0)
  }

  /** `json.dumps(v, sort_keys=True, ensure_ascii=False, separators=seps)`. */
  function Dumps(v: JValue, seps: Separators): string
  {
    match v
    case JNull => "null"
    case JBool(b) => if b then "true" else "false"
    case JInt(i) => IntToString(i)
    case JFloat(r) => FloatText(r)
    case JStr(s) => Quote(s)
    case JArr(es) => "[" + Join(seq(|es|, i requires 0 <= i < |es| => Dumps(es[i], seps)), seps.item) + "]"
    case JObj(m) =>
      var rendered := seq(|m|, i requires 0 <= i < |m| => (m[i].0, Dumps(m[i].1, seps)));
      "{" + JoinMembers(SortBy(rendered, KeyLe), seps) + "}"
  }

  /** Writes rendered members as `"key": value` items. */
  function JoinMembers(items: seq<(string, string)>, seps: Separators): string
  {
    Join(seq(|items|, i requires 0 <= i < |items| => Quote(items[i].0) + seps.key + items[i].1), seps.item)
  }

  /** The members of a dict with their values rendered. */
  function RenderMembers(m: Members, seps: Separators): (r: seq<(string, string)>)
    ensures |r| == |m| && forall i :: 0 <= i < |m| ==> r[i] == (m[i].0, Dumps(m[i].1, seps))
  {
    MapSeq(m, (p: (string, JValue)) => (p.0, Dumps(p.1, seps)))
  }

  lemma KeyLePreorder()
    ensures TotalPreorder(KeyLe)
  {
    forall a: (string, string), b: (string, string) ensures KeyLe(a, b) || KeyLe(b, a) {
      StrLessTotal(a.0, b.0);
    }
    forall a: (string, string), b: (string, string), c: (string, string) | KeyLe(a, b) && KeyLe(b, c)
      ensures KeyLe(a, c)
    {
      if a.0 != b.0 && b.0 != c.0 {
        StrLessTransitive(a.0, b.0, c.0);
      }
    }
  }

  /** Rearranging a sequence rearranges its image under a map the same way. */
  lemma {:induction false} MapSeqMultiset<T, U>(a: seq<T>, b: seq<T>, f: T -> U)
    requires multiset(a) == multiset(b)
    ensures multiset(MapSeq(a, f)) == multiset(MapSeq(b, f))
    decreases |a|
  {
    assert |a| == |multiset(a)| == |b|;
    if a != [] {
      assert a[|a| - 1] in multiset(b);
      var j :| 0 <= j < |b| && b[j] == a[|a| - 1];
      MapSeqMultisetStep(a, b, j, f);
    }
  }

  lemma {:induction false} MapSeqMultisetStep<T, U>(a: seq<T>, b: seq<T>, j: nat, f: T -> U)
    requires multiset(a) == multiset(b) && a != [] && j < |b| && b[j] == a[|a| - 1]
    ensures multiset(MapSeq(a, f)) == multiset(MapSeq(b, f))
    decreases |a|, 0
  {
    var n := |a| - 1;
    var x := a[n];
    var b' := b[..j] + b[j + 1..];
    var mb := multiset(MapSeq(b, f));
    assert multiset(MapSeq(a[..n], f)) == multiset(MapSeq(b', f)) by {
      RemoveAtMultiset(b, j);
      MultisetInit(a);
      MapSeqMultiset(a[..n], b', f);
    }
    assert multiset(MapSeq(b', f)) == mb - multiset{f(x)} by {
      MapSeqRemoveAt(b, j, f);
    }
    assert multiset(MapSeq(a, f)) == multiset(MapSeq(a[..n], f)) + multiset{f(x)} by {
      MapSeqConcat(a[..n], [x], f);
      assert a == a[..n] + [x];
    }
    assert f(x) in mb by {
      assert MapSeq(b, f)[j] == f(x);
    }
    MultisetRestore(mb, f(x));
  }

  lemma MultisetRestore<U>(m: multiset<U>, y: U)
    requires y in m
    ensures (m - multiset{y}) + multiset{y} == m
  {
  }

  lemma RemoveAtMultiset<T>(b: seq<T>, j: nat)
    requires j < |b|
    ensures multiset(b[..j] + b[j + 1..]) == multiset(b) - multiset{b[j]}
  {
    assert b == b[..j] + [b[j]] + b[j + 1..];
  }

  lemma MapSeqConcat<T, U>(a: seq<T>, b: seq<T>, f: T -> U)
    ensures MapSeq(a + b, f) == MapSeq(a, f) + MapSeq(b, f)
  {
  }

  lemma MapSeqRemoveAt<T, U>(b: seq<T>, j: nat, f: T -> U)
    requires j < |b|
    ensures multiset(MapSeq(b[..j] + b[j + 1..], f)) == multiset(MapSeq(b, f)) - multiset{f(b[j])}
  {
    var mb := MapSeq(b, f);
    assert MapSeq(b[..j] + b[j + 1..], f) == mb[..j] + mb[j + 1..];
    RemoveAtMultiset(mb, j);
  }

  /** How a dict is written: its rendered members sorted by key. */
  lemma DumpsObject(m: Members, seps: Separators)
    ensures Dumps(JObj(m), seps) == "{" + JoinMembers(SortBy(RenderMembers(m, seps), KeyLe), seps) + "}"
  {
    assert RenderMembers(m, seps) == seq(|m|, i requires 0 <= i < |m| => (m[i].0, Dumps(m[i].1, seps)));
  }

  /** Two rendered members of a dict with distinct keys that share a key are the same. */
  lemma RenderedKeysDistinct(m: Members, seps: Separators, x: (string, string), y: (string, string))
    requires UniqueKeys(m)
    requires x in RenderMembers(m, seps) && y in RenderMembers(m, seps) && x.0 == y.0
    ensures x == y
  {
    var r := RenderMembers(m, seps);
    var i :| 0 <= i < |r| && r[i] == x;
    var j :| 0 <= j < |r| && r[j] == y;
    assert MemberKeys(m)[i] == MemberKeys(m)[j];
  }

  /** The text `json.dumps(..., sort_keys=True)` writes for a dict does not depend on the order
      in which the dict's keys were inserted. */
  lemma DumpsKeyOrderFree(m: Members, m': Members, seps: Separators)
    requires UniqueKeys(m) && multiset(m) == multiset(m')
    ensures Dumps(JObj(m), seps) == Dumps(JObj(m'), seps)
  {
    var r := RenderMembers(m, seps);
    var r' := RenderMembers(m', seps);
    MapSeqMultiset(m, m', (p: (string, JValue)) => (p.0, Dumps(p.1, seps)));
    assert multiset(r) == multiset(r');
    KeyLePreorder();
    var sr := SortBy(r, KeyLe);
    var sr' := SortBy(r', KeyLe);
    SortBySorted(r, KeyLe);
    SortBySorted(r', KeyLe);
    forall x, y | x in sr && y in sr && KeyLe(x, y) && KeyLe(y, x) ensures x == y {
      assert x in multiset(r) && y in multiset(r);
      if x.0 != y.0 {
        StrLessAsymmetric(x.0, y.0);
      }
      RenderedKeysDistinct(m, seps, x, y);
    }
    SortedUnique(sr, sr', KeyLe);
    DumpsObject(m, seps);
    DumpsObject(m', seps);
  }

  /** Python's `str(v)` for a value that is not a dict or a list. */
  function PyStr(v: JValue): string
    requires !IsComposite(v)
  {
    match v
    case JNull => "None"
    case JBool(b) => if b then "True" else "False"
    case JInt(i) => IntToString(i)
    case JFloat(r) => r
    case JStr(s) => s
  }
}
