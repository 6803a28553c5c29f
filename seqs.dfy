/** Sequence helpers the scripts use through list comprehensions and `seen`-set loops:
    filtering, order-preserving subsequences, first-occurrence deduplication and grouping.
    Every recursive definition peels off the LAST element, so that a left-to-right loop over
    `s[..i]` matches the definition one step at a time. */
module Seqs {
  import opened Text

  /** `[x for x in s if p(x)]`. */
  function Filter<T>(s: seq<T>, p: T -> bool): (r: seq<T>)
    ensures |r| <= |s|
    ensures forall i :: 0 <= i < |r| ==> r[i] in s && p(r[i])
    ensures forall i :: 0 <= i < |s| && p(s[i]) ==> s[i] in r
  {
    if s == [] then [] else Filter(s[..|s| - 1], p) + (if p(s[|s| - 1]) then [s[|s| - 1]] else [])
  }

  /** Filtering one more element. */
  /** A prefix of length `n` is the prefix of length `n - 1` followed by element `n - 1`. */
  lemma PrefixSnoc<T>(s: seq<T>, n: nat)
    requires 0 < n <= |s|
    ensures s[..n] == s[..n - 1] + [s[n - 1]]
  {
  }

  lemma SeqAssoc<T>(a: seq<T>, b: seq<T>, c: seq<T>)
    ensures a + b + c == a + (b + c)
  {
  }

  /** Filtering keeps something exactly when some element passes. */
  lemma FilterNonEmpty<T>(s: seq<T>, p: T -> bool)
    ensures Filter(s, p) != [] <==> exists i :: 0 <= i < |s| && p(s[i])
  {
    var f := Filter(s, p);
    if f != [] {
      assert f[0] in s;
      var j :| 0 <= j < |s| && s[j] == f[0];
      assert p(s[j]);
    }
  }

  /** A non-empty sequence is its initial part followed by its last element. */
  lemma InitLast<T>(s: seq<T>)
    requires s != []
    ensures s == s[..|s| - 1] + [s[|s| - 1]]
  {
  }

  lemma FilterSnoc<T>(s: seq<T>, x: T, p: T -> bool)
    ensures Filter(s + [x], p) == Filter(s, p) + (if p(x) then [x] else [])
  {
    assert (s + [x])[..|s|] == s;
  }

  function Negate<T>(p: T -> bool): T -> bool
  {
    (x: T) => !p(x)
  }

  /** An element the filter rejects can be dropped first. */
  lemma FilterSkip<T>(a: seq<T>, x: T, b: seq<T>, p: T -> bool)
    requires !p(x)
    ensures Filter(a + [x] + b, p) == Filter(a + b, p)
  {
    FilterAppend(a + [x], b, p);
    FilterAppend(a, b, p);
    FilterSnoc(a, x, p);
  }

  /** `a` can be obtained from `b` by deleting elements, keeping the order of the rest. */
  ghost predicate IsSubseq<T>(a: seq<T>, b: seq<T>)
  {
    if b == [] then a == []
    else
      (a != [] && a[|a| - 1] == b[|b| - 1] && IsSubseq(a[..|a| - 1], b[..|b| - 1]))
      || IsSubseq(a, b[..|b| - 1])
  }

  lemma {:induction false} SubseqRefl<T>(s: seq<T>)
    ensures IsSubseq(s, s)
    decreases |s|
  {
    if s != [] {
      SubseqRefl(s[..|s| - 1]);
    }
  }

  /** A prefix is a subsequence. */
  lemma {:induction false} PrefixIsSubseq<T>(s: seq<T>, n: nat)
    requires n <= |s|
    ensures IsSubseq(s[..n], s)
    decreases |s|
  {
    if n < |s| {
      PrefixIsSubseq(s[..|s| - 1], n);
      assert s[..|s| - 1][..n] == s[..n];
    } else {
      assert s[..n] == s;
      SubseqRefl(s);
    }
  }

  /** A subsequence of a subsequence is a subsequence. */
  lemma {:induction false} SubseqTrans<T>(a: seq<T>, b: seq<T>, c: seq<T>)
    requires IsSubseq(a, b) && IsSubseq(b, c)
    ensures IsSubseq(a, c)
    decreases |c|
  {
    if c != [] {
      if b != [] && b[|b| - 1] == c[|c| - 1] && IsSubseq(b[..|b| - 1], c[..|c| - 1]) {
        if a != [] && a[|a| - 1] == b[|b| - 1] && IsSubseq(a[..|a| - 1], b[..|b| - 1]) {
          SubseqTrans(a[..|a| - 1], b[..|b| - 1], c[..|c| - 1]);
        } else {
          SubseqTrans(a, b[..|b| - 1], c[..|c| - 1]);
        }
      } else {
        SubseqTrans(a, b, c[..|c| - 1]);
      }
    }
  }

  /** `[f(x) for x in s]`. */
  function MapSeq<T, U>(s: seq<T>, f: T -> U): (r: seq<U>)
    ensures |r| == |s| && forall i :: 0 <= i < |s| ==> r[i] == f(s[i])
  {
    seq(|s|, i requires 0 <= i < |s| => f(s[i]))
  }

  /** The values of `[f(x) for x in s]` are the images of the elements of `s`. */
  lemma MapSeqMembers<T, U>(s: seq<T>, f: T -> U)
    ensures forall y :: y in MapSeq(s, f) <==> exists i :: 0 <= i < |s| && f(s[i]) == y
  {
    forall y | y in MapSeq(s, f) ensures exists i :: 0 <= i < |s| && f(s[i]) == y {
      var i :| 0 <= i < |s| && MapSeq(s, f)[i] == y;
    }
  }

  lemma MapSeqPrefixSnoc<T, U>(s: seq<T>, i: nat, f: T -> U)
    requires i < |s|
    ensures MapSeq(s[..i + 1], f) == MapSeq(s[..i], f) + [f(s[i])]
  {
  }

  lemma {:induction false} FilterAppend<T>(a: seq<T>, b: seq<T>, p: T -> bool)
    ensures Filter(a + b, p) == Filter(a, p) + Filter(b, p)
    decreases |b|
  {
    if b != [] {
      assert (a + b)[..|a + b| - 1] == a + b[..|b| - 1];
      FilterAppend(a, b[..|b| - 1], p);
    } else {
      assert a + b == a;
    }
  }

  /** A filter keeps the order of what it keeps. */
  lemma {:induction false} FilterIsSubseq<T>(s: seq<T>, p: T -> bool)
    ensures IsSubseq(Filter(s, p), s)
  {
    if s != [] {
      var init := s[..|s| - 1];
      FilterIsSubseq(init, p);
      var r := Filter(s, p);
      if p(s[|s| - 1]) {
        assert r == Filter(init, p) + [s[|s| - 1]];
        assert r[..|r| - 1] == Filter(init, p);
        assert r[|r| - 1] == s[|s| - 1];
      } else {
        assert r == Filter(init, p);
      }
    }
  }

  /** Filtering with a predicate every element satisfies changes nothing. */
  lemma {:induction false} FilterAll<T>(s: seq<T>, p: T -> bool)
    requires forall i :: 0 <= i < |s| ==> p(s[i])
    ensures Filter(s, p) == s
  {
    if s != [] {
      var init := s[..|s| - 1];
      assert forall i :: 0 <= i < |init| ==> init[i] == s[i];
      FilterAll(init, p);
      InitLast(s);
    }
  }

  /** Filtering keeps every element exactly when every element satisfies the predicate. */
  lemma {:induction false} FilterAllIff<T>(s: seq<T>, p: T -> bool)
    ensures |Filter(s, p)| == |s| <==> forall i :: 0 <= i < |s| ==> p(s[i])
  {
    if s != [] {
      var init := s[..|s| - 1];
      FilterAllIff(init, p);
      if |Filter(s, p)| == |s| {
        forall i | 0 <= i < |s| ensures p(s[i]) {
          if i < |s| - 1 {
            assert s[i] == init[i];
          }
        }
      }
    }
  }

  /** Filtering by `p` and by `q` gives the same result where they agree on `s`. */
  lemma {:induction false} FilterCongruent<T>(s: seq<T>, p: T -> bool, q: T -> bool)
    requires forall i :: 0 <= i < |s| ==> p(s[i]) == q(s[i])
    ensures Filter(s, p) == Filter(s, q)
  {
    if s != [] {
      FilterCongruent(s[..|s| - 1], p, q);
    }
  }

  /** Complementary filters split the input: their sizes add up to its size. */
  lemma {:induction false} FilterComplement<T>(s: seq<T>, p: T -> bool, q: T -> bool)
    requires forall i :: 0 <= i < |s| ==> p(s[i]) == !q(s[i])
    ensures |Filter(s, p)| + |Filter(s, q)| == |s|
  {
    if s != [] {
      FilterComplement(s[..|s| - 1], p, q);
    }
  }

  /** The position of the first occurrence of `x` in `s`. */
  function IndexOf<T(==)>(s: seq<T>, x: T): (i: nat)
    requires x in s
    ensures i < |s| && s[i] == x && x !in s[..i]
  {
    if s[0] == x then 0 else 1 + IndexOf(s[1..], x)
  }

  /** No value occurs twice. */
  predicate NoDups<T(==)>(s: seq<T>)
  {
    forall i, j :: 0 <= i < j < |s| ==> s[i] != s[j]
  }

  /** The keys of the elements, in order. */
  function KeysOf<T, K>(s: seq<T>, key: T -> K): (ks: seq<K>)
    ensures |ks| == |s| && forall i :: 0 <= i < |s| ==> ks[i] == key(s[i])
  {
    MapSeq(s, key)
  }

  lemma KeysOfPrefix<T, K>(s: seq<T>, key: T -> K, n: nat)
    requires n <= |s|
    ensures KeysOf(s[..n], key) == KeysOf(s, key)[..n]
  {
  }

  /** The identity, as a key for grouping values by themselves. */
  function Id<T>(x: T): T
  {
    x
  }

  /** The first occurrence of every value, in order (Python's `seen`-list idiom). */
  function Dedup<T(==)>(s: seq<T>): (r: seq<T>)
    ensures |r| <= |s|
    ensures s != [] ==> r != []
  {
    if s == [] then []
    else
      var init := s[..|s| - 1];
      if s[|s| - 1] in init then Dedup(init) else Dedup(init) + [s[|s| - 1]]
  }

  /** Deduplication keeps exactly the values of `s`, each once, in the order of `s`. */
  lemma {:induction false} DedupProperties<T>(s: seq<T>)
    ensures forall x :: x in Dedup(s) <==> x in s
    ensures NoDups(Dedup(s))
    ensures IsSubseq(Dedup(s), s)
  {
    if s != [] {
      var init := s[..|s| - 1];
      DedupProperties(init);
      assert s == init + [s[|s| - 1]];
      var r := Dedup(s);
      if s[|s| - 1] !in init {
        assert r[..|r| - 1] == Dedup(init);
      }
    }
  }

  /** Appending a value adds it to the deduplication unless it was already there. */
  lemma DedupSnoc<T>(s: seq<T>, x: T)
    ensures Dedup(s + [x]) == if x in s then Dedup(s) else Dedup(s) + [x]
  {
    assert (s + [x])[..|s|] == s;
  }

  /** Deduplicating distinct values changes nothing. */
  lemma {:induction false} DedupNoDups<T>(s: seq<T>)
    requires NoDups(s)
    ensures Dedup(s) == s
  {
    if s != [] {
      var init := s[..|s| - 1];
      DedupNoDups(init);
      assert s == init + [s[|s| - 1]];
    }
  }

  /** The elements of `s` whose key was not already seen earlier in `s`: the scripts' loops that
      keep the first element per key. */
  function DedupBy<T, K(==)>(s: seq<T>, key: T -> K): (r: seq<T>)
    ensures |r| <= |s|
  {
    if s == [] then []
    else
      var init := s[..|s| - 1];
      var d := DedupBy(init, key);
      if key(s[|s| - 1]) in KeysOf(init, key) then d else d + [s[|s| - 1]]
  }

  /** The keys of the kept elements are the distinct keys of `s` in first-occurrence order. */
  lemma {:induction false} DedupByKeys<T, K>(s: seq<T>, key: T -> K)
    ensures KeysOf(DedupBy(s, key), key) == Dedup(KeysOf(s, key))
  {
    if s != [] {
      var init := s[..|s| - 1];
      DedupByKeys(init, key);
      KeysOfPrefix(s, key, |s| - 1);
    }
  }

  /** Keeping the first element per value is deduplication. */
  lemma DedupByIdentity<T>(s: seq<T>)
    ensures DedupBy(s, Id) == Dedup(s)
  {
    DedupByKeys(s, Id);
    assert KeysOf(DedupBy(s, Id), Id) == DedupBy(s, Id);
    assert KeysOf(s, Id) == s;
  }

  /** The kept elements keep their order in `s`. */
  lemma {:induction false} DedupBySubseq<T, K>(s: seq<T>, key: T -> K)
    ensures IsSubseq(DedupBy(s, key), s)
  {
    if s != [] {
      var init := s[..|s| - 1];
      DedupBySubseq(init, key);
      var r := DedupBy(s, key);
      if key(s[|s| - 1]) !in KeysOf(init, key) {
        assert r[..|r| - 1] == DedupBy(init, key);
      }
    }
  }

  /** Each kept element is the first element of `s` with its key. */
  lemma {:induction false} DedupByFirst<T, K>(s: seq<T>, key: T -> K)
    ensures forall j :: 0 <= j < |DedupBy(s, key)| ==>
      key(DedupBy(s, key)[j]) in KeysOf(s, key)
      && DedupBy(s, key)[j] == s[IndexOf(KeysOf(s, key), key(DedupBy(s, key)[j]))]
  {
    if s != [] {
      var init := s[..|s| - 1];
      var ks := KeysOf(s, key);
      DedupByFirst(init, key);
      KeysOfPrefix(s, key, |s| - 1);
      var d := DedupBy(init, key);
      forall j | 0 <= j < |d|
        ensures key(d[j]) in ks && d[j] == s[IndexOf(ks, key(d[j]))]
      {
        var i := IndexOf(KeysOf(init, key), key(d[j]));
        assert d[j] == init[i] == s[i];
        assert key(d[j]) in ks[..|s| - 1];
        IndexOfPrefix(ks, |s| - 1, key(d[j]));
      }
    }
  }

  /** The first occurrence of a value in a prefix is its first occurrence in the whole sequence. */
  lemma IndexOfPrefix<T>(s: seq<T>, n: nat, x: T)
    requires n <= |s| && x in s[..n]
    ensures IndexOf(s, x) == IndexOf(s[..n], x)
  {
    var i := IndexOf(s[..n], x);
    assert s[..n][i] == s[i];
  }

  /** The keys of `s`, each once, in order of first occurrence (the iteration order of a Python
      dict built by inserting the keys in turn). */
  function DistinctKeys<T, K(==)>(s: seq<T>, key: T -> K): (ks: seq<K>)
  {
    Dedup(KeysOf(s, key))
  }

  /** The elements of `s` with key `k`, in order: one list of `defaultdict(list)` grouping. */
  function GroupOf<T, K(==)>(s: seq<T>, key: T -> K, k: K): (g: seq<T>)
  {
    Filter(s, (x: T) => key(x) == k)
  }

  lemma GroupOfSnoc<T, K>(init: seq<T>, last: T, key: T -> K, k: K)
    ensures GroupOf(init + [last], key, k)
      == GroupOf(init, key, k) + (if key(last) == k then [last] else [])
  {
    assert (init + [last])[..|init|] == init;
  }

  /** A key that no element has gets an empty group, and a key some element has a non-empty one. */
  lemma GroupOfEmptyIff<T, K>(s: seq<T>, key: T -> K, k: K)
    ensures GroupOf(s, key, k) == [] <==> k !in KeysOf(s, key)
  {
    var g := GroupOf(s, key, k);
    if k in KeysOf(s, key) {
      var i :| 0 <= i < |s| && KeysOf(s, key)[i] == k;
      assert s[i] in g;
    }
    if g != [] {
      var i :| 0 <= i < |s| && s[i] == g[0];
      assert KeysOf(s, key)[i] == k;
    }
  }

  lemma GroupNonEmpty<T, K>(s: seq<T>, key: T -> K, k: K)
    requires k in DistinctKeys(s, key)
    ensures GroupOf(s, key, k) != []
  {
    DedupProperties(KeysOf(s, key));
    assert k in KeysOf(s, key);
    GroupOfEmptyIff(s, key, k);
  }

  /** The groups of `s`, one per distinct key in first-occurrence order. */
  function Groups<T, K(==)>(s: seq<T>, key: T -> K): (gs: seq<(K, seq<T>)>)
  {
    var ks := DistinctKeys(s, key);
    seq(|ks|, i requires 0 <= i < |ks| => (ks[i], GroupOf(s, key, ks[i])))
  }

  /** The sum of the sizes of the groups of the keys `ks`. */
  function TotalSize<T, K(==)>(s: seq<T>, key: T -> K, ks: seq<K>): nat
  {
    if ks == [] then 0 else TotalSize(s, key, ks[..|ks| - 1]) + |GroupOf(s, key, ks[|ks| - 1])|
  }

  /** Grouping partitions the input: the group sizes add up to the number of elements, every
      group is non-empty, and the groups' keys are exactly the keys that occur, each once. */
  lemma {:induction false} GroupsPartition<T, K>(s: seq<T>, key: T -> K)
    ensures TotalSize(s, key, DistinctKeys(s, key)) == |s|
    ensures NoDups(DistinctKeys(s, key))
    ensures forall k :: k in DistinctKeys(s, key) <==> k in KeysOf(s, key)
    ensures forall k :: k in DistinctKeys(s, key) ==> GroupOf(s, key, k) != []
  {
    DedupProperties(KeysOf(s, key));
    forall k | k in DistinctKeys(s, key) ensures GroupOf(s, key, k) != [] {
      GroupNonEmpty(s, key, k);
    }
    if s != [] {
      var init := s[..|s| - 1];
      var last := s[|s| - 1];
      assert s == init + [last];
      GroupsPartition(init, key);
      KeysOfPrefix(s, key, |s| - 1);
      var ks0 := DistinctKeys(init, key);
      var ks := DistinctKeys(s, key);
      TotalSizeStep(init, last, key, ks0);
      if key(last) !in KeysOf(init, key) {
        assert ks == ks0 + [key(last)];
        assert ks[..|ks| - 1] == ks0;
        GroupOfEmptyIff(init, key, key(last));
        GroupOfSnoc(init, last, key, key(last));
      } else {
        assert KeysOf(s, key) == KeysOf(init, key) + [key(last)];
        assert KeysOf(s, key)[..|s| - 1] == KeysOf(init, key);
        assert Dedup(KeysOf(s, key)) == Dedup(KeysOf(s, key)[..|s| - 1]);
        assert ks == ks0;
        assert key(last) in ks0;
      }
    }
  }

  /** Appending one element adds one to the total size of the groups of `ks` (which has no
      duplicates) when its key is among them, and nothing otherwise. */
  lemma {:induction false} TotalSizeStep<T, K>(init: seq<T>, last: T, key: T -> K, ks: seq<K>)
    requires NoDups(ks)
    ensures TotalSize(init + [last], key, ks)
      == TotalSize(init, key, ks) + (if key(last) in ks then 1 else 0)
  {
    if ks != [] {
      var k := ks[|ks| - 1];
      var ks' := ks[..|ks| - 1];
      assert NoDups(ks');
      TotalSizeStep(init, last, key, ks');
      GroupOfSnoc(init, last, key, k);
      assert ks == ks' + [k];
      assert k !in ks';
    }
  }

  /** One more element: its key joins the distinct keys unless it is already among them. */
  lemma DistinctKeysStep<T, K>(s: seq<T>, key: T -> K, i: nat)
    requires i < |s|
    ensures DistinctKeys(s[..i + 1], key)
      == if key(s[i]) in KeysOf(s[..i], key) then DistinctKeys(s[..i], key) else DistinctKeys(s[..i], key) + [key(s[i])]
  {
    GroupStep(s, key, i);
  }

  /** One more element: its key joins the keys (once) and the element joins its key's group. */
  lemma GroupStep<T, K>(s: seq<T>, key: T -> K, i: nat)
    requires i < |s|
    ensures KeysOf(s[..i + 1], key) == KeysOf(s[..i], key) + [key(s[i])]
    ensures DistinctKeys(s[..i + 1], key)
      == if key(s[i]) in KeysOf(s[..i], key) then DistinctKeys(s[..i], key) else DistinctKeys(s[..i], key) + [key(s[i])]
    ensures forall k' :: GroupOf(s[..i + 1], key, k') == GroupOf(s[..i], key, k') + (if key(s[i]) == k' then [s[i]] else [])
    ensures key(s[i]) !in KeysOf(s[..i], key) ==> GroupOf(s[..i], key, key(s[i])) == []
  {
    var k := key(s[i]);
    assert s[..i + 1] == s[..i] + [s[i]];
    KeysOfPrefix(s[..i + 1], key, i);
    assert s[..i + 1][..i] == s[..i];
    forall k' ensures GroupOf(s[..i + 1], key, k')
      == GroupOf(s[..i], key, k') + (if k == k' then [s[i]] else [])
    {
      GroupOfSnoc(s[..i], s[i], key, k');
    }
    GroupOfEmptyIff(s[..i], key, k);
  }

  /** `groups` maps exactly the keys of `t`, each to its group. */
  ghost predicate Grouped<T, K>(groups: map<K, seq<T>>, t: seq<T>, key: T -> K)
  {
    && (forall k :: k in groups ==> k in KeysOf(t, key))
    && (forall k :: k in KeysOf(t, key) ==> k in groups)
    && (forall k :: k in groups ==> groups[k] == GroupOf(t, key, k))
  }

  /** `groups.setdefault(k, []).append(x)`. */
  function AddTo<T, K(==)>(groups: map<K, seq<T>>, k: K, x: T): map<K, seq<T>>
  {
    if k in groups then groups[k := groups[k] + [x]] else groups[k := [x]]
  }

  /** Adding the next element to its group keeps the groups those of the longer prefix. */
  lemma GroupedStep<T, K>(groups: map<K, seq<T>>, s: seq<T>, key: T -> K, i: nat)
    requires i < |s| && Grouped(groups, s[..i], key)
    ensures Grouped(AddTo(groups, key(s[i]), s[i]), s[..i + 1], key)
  {
    GroupStep(s, key, i);
    var g := AddTo(groups, key(s[i]), s[i]);
    forall k | k in g ensures g[k] == GroupOf(s[..i + 1], key, k) {
      if k != key(s[i]) {
        assert g[k] == groups[k];
      }
    }
  }

  /** The grouping loop of the scripts: walk the elements once, appending each to the list of its
      key, new keys being recorded in first-seen order. */
  method GroupBy<T, K(==)>(s: seq<T>, key: T -> K) returns (ks: seq<K>, groups: map<K, seq<T>>)
    ensures ks == DistinctKeys(s, key)
    ensures forall k :: k in groups <==> k in ks
    ensures forall k :: k in groups ==> groups[k] == GroupOf(s, key, k)
  {
    ks := [];
    groups := map[];
    var i := 0;
    while i < |s|
      invariant 0 <= i <= |s|
      invariant ks == DistinctKeys(s[..i], key)
      invariant Grouped(groups, s[..i], key)
    {
      var k := key(s[i]);
      DistinctKeysStep(s, key, i);
      GroupedStep(groups, s, key, i);
      ghost var before := groups;
      if k in groups {
        groups := groups[k := groups[k] + [s[i]]];
      } else {
        ks := ks + [k];
        groups := groups[k := [s[i]]];
      }
      assert groups == AddTo(before, k, s[i]);
      i := i + 1;
    }
    assert s[..i] == s;
    DedupProperties(KeysOf(s, key));
  }

  /** A value kept from all but the last element occurs first before the last position. */
  lemma DedupInitIndex<T>(s: seq<T>, x: T)
    requires s != [] && x in Dedup(s[..|s| - 1])
    ensures x in s && IndexOf(s, x) < |s| - 1
  {
    DedupProperties(s[..|s| - 1]);
    assert x in s[..|s| - 1];
    IndexOfPrefix(s, |s| - 1, x);
  }

  /** Of two values kept by deduplication, the earlier one occurs first in `s`. */
  lemma {:induction false} DedupOrderAt<T>(s: seq<T>, i: nat, j: nat)
    requires i < j < |Dedup(s)|
    ensures Dedup(s)[i] in s && Dedup(s)[j] in s && IndexOf(s, Dedup(s)[i]) < IndexOf(s, Dedup(s)[j])
  {
    var init := s[..|s| - 1];
    var d := Dedup(init);
    var x := Dedup(s)[i];
    var y := Dedup(s)[j];
    assert i < |d| && x == d[i] by {
      assert Dedup(s) == if s[|s| - 1] in init then d else d + [s[|s| - 1]];
    }
    assert d[i] in d;
    DedupInitIndex(s, x);
    if j < |d| {
      assert y == d[j] by {
        assert Dedup(s) == if s[|s| - 1] in init then d else d + [s[|s| - 1]];
      }
      assert d[j] in d;
      DedupInitIndex(s, y);
      DedupOrderAt(init, i, j);
      IndexOfPrefix(s, |s| - 1, x);
      IndexOfPrefix(s, |s| - 1, y);
    } else {
      assert y == s[|s| - 1] && y !in init by {
        assert Dedup(s) == if s[|s| - 1] in init then d else d + [s[|s| - 1]];
      }
      assert IndexOf(s, y) == |s| - 1;
    }
  }

  /** Deduplication lists the values in the order of their first occurrences. */
  lemma DedupFirstOrder<T>(s: seq<T>)
    ensures forall x :: x in Dedup(s) <==> x in s
    ensures forall i, j :: 0 <= i < j < |Dedup(s)| ==> IndexOf(s, Dedup(s)[i]) < IndexOf(s, Dedup(s)[j])
  {
    DedupProperties(s);
    forall i, j | 0 <= i < j < |Dedup(s)|
      ensures IndexOf(s, Dedup(s)[i]) < IndexOf(s, Dedup(s)[j])
    {
      DedupOrderAt(s, i, j);
    }
  }

  /** `{key(x): x for x in s}`: the dict from each key to the last element with that key. */
  function IndexBy<T, K(==)>(s: seq<T>, key: T -> K): map<K, T>
  {
    if s == [] then map[]
    else IndexBy(s[..|s| - 1], key)[key(s[|s| - 1]) := s[|s| - 1]]
  }

  /** The dict has exactly the keys of the elements. */
  lemma {:induction false} IndexByDomain<T, K>(s: seq<T>, key: T -> K)
    ensures forall k :: k in IndexBy(s, key) <==> k in KeysOf(s, key)
  {
    if s != [] {
      var n := |s| - 1;
      IndexByDomain(s[..n], key);
      assert KeysOf(s, key) == KeysOf(s[..n], key) + [key(s[n])];
    }
  }

  /** No later element has the same key as element `i`. */
  predicate LastWithKey<T, K(==)>(s: seq<T>, key: T -> K, i: nat)
    requires i < |s|
  {
    forall j :: i < j < |s| ==> key(s[j]) != key(s[i])
  }

  /** Each key of the dict holds the last element with that key. */
  lemma {:induction false} IndexByLast<T, K>(s: seq<T>, key: T -> K, i: nat)
    requires i < |s| && LastWithKey(s, key, i)
    ensures key(s[i]) in IndexBy(s, key) && IndexBy(s, key)[key(s[i])] == s[i]
  {
    var n := |s| - 1;
    if i < n {
      var init := s[..n];
      assert init[i] == s[i];
      assert LastWithKey(init, key, i) by {
        forall j | i < j < |init| ensures key(init[j]) != key(init[i]) {
          assert init[j] == s[j];
        }
      }
      IndexByLast(init, key, i);
    }
  }

  /** `s[:n]` for `n >= 0`: the first `n` elements, or all of them. */
  function Take<T>(s: seq<T>, n: int): (r: seq<T>)
    ensures |r| == if n <= 0 then 0 else if n < |s| then n else |s|
    ensures r == s[..|r|]
  {
    if n <= 0 then [] else if n < |s| then s[..n] else s
  }

  /** `s[-n:]` for `n >= 0`: the last `n` elements, or all of them; `s[-0:]` is all of `s`. */
  function TakeLast<T>(s: seq<T>, n: int): (r: seq<T>)
    ensures |r| == if 0 < n < |s| then n else |s|
    ensures r == s[|s| - |r|..]
  {
    if 0 < n < |s| then s[|s| - n..] else s
  }

  /** The `--first` / `--last` slicing of the extract commands: `s[:max(first, 0)]` when `first`
      is given, then `[-max(last, 0):]` of that when `last` is given. */
  function Slice<T>(s: seq<T>, first: Option<int>, last: Option<int>): seq<T>
  {
    var head := if first.Some? then Take(s, first.value) else s;
    if last.Some? then TakeLast(head, last.value) else head
  }

  /** The slice is the window of `s` that ends where the `--first` prefix ends and is at most
      `--last` long: no option keeps everything, `first` alone keeps a prefix, `last` alone a
      suffix, and `last <= 0` keeps the whole prefix. */
  lemma SliceProperties<T>(s: seq<T>, first: Option<int>, last: Option<int>)
    ensures var hi := if first.None? then |s| else if first.value <= 0 then 0
                      else if first.value < |s| then first.value else |s|;
      var r := Slice(s, first, last);
      |r| == (if last.Some? && 0 < last.value < hi then last.value else hi)
      && hi <= |s| && r == s[hi - |r|..hi]
    ensures |Slice(s, first, last)| <= |s|
    ensures first.None? && last.None? ==> Slice(s, first, last) == s
    ensures last.None? ==> Slice(s, first, last) == s[..|Slice(s, first, last)|]
    ensures first.None? ==> Slice(s, first, last) == s[|s| - |Slice(s, first, last)|..]
    ensures last.Some? && last.value <= 0 ==> Slice(s, first, last) == Slice(s, first, None)
  {
    var head := if first.Some? then Take(s, first.value) else s;
    assert head == s[..|head|];
  }

  /** The keep-first-per-key loop of the scripts: a `seen` set of keys and an output list. */
  method DedupByLoop<T, K(==)>(s: seq<T>, key: T -> K) returns (r: seq<T>)
    ensures r == DedupBy(s, key)
  {
    r := [];
    var seen: set<K> := {};
    var i := 0;
    while i < |s|
      invariant 0 <= i <= |s|
      invariant r == DedupBy(s[..i], key)
      invariant forall k :: k in seen ==> k in KeysOf(s[..i], key)
      invariant forall k :: k in KeysOf(s[..i], key) ==> k in seen
    {
      assert s[..i + 1][..i] == s[..i];
      KeysOfPrefix(s[..i + 1], key, i);
      var k := key(s[i]);
      assert DedupBy(s[..i + 1], key) == if k in KeysOf(s[..i], key) then r else r + [s[i]];
      assert KeysOf(s[..i + 1], key) == KeysOf(s[..i], key) + [k];
      if k !in seen {
        seen := seen + {k};
        r := r + [s[i]];
      }
      i := i + 1;
    }
    assert s[..i] == s;
  }
}
