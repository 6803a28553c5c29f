/** Stable sorting, as Python's `sorted(xs, key=...)` and `list.sort(key=...)` do it. The order is
    given as a total preorder `le` ("key(a) <= key(b)"); a descending sort (`reverse=True`) is the
    same sort with the arguments of `le` swapped, which keeps equal keys in input order as Python
    does. */
module Sorting {
  import opened Seqs
  import opened Text

  /** `le` relates any two values one way or the other, and is transitive. */
  ghost predicate TotalPreorder<T(!new)>(le: (T, T) -> bool)
  {
    (forall a, b :: le(a, b) || le(b, a))
    && (forall a, b, c :: le(a, b) && le(b, c) ==> le(a, c))
  }

  ghost predicate SortedBy<T>(s: seq<T>, le: (T, T) -> bool)
  {
    forall i, j :: 0 <= i < j < |s| ==> le(s[i], s[j])
  }

  /** The values of `s` that `le` ranks equal to `c`, in their order in `s`. */
  function EqualTo<T>(s: seq<T>, le: (T, T) -> bool, c: T): seq<T>
  {
    if s == [] then []
    else
      var last := s[|s| - 1];
      EqualTo(s[..|s| - 1], le, c) + (if le(c, last) && le(last, c) then [last] else [])
  }

  /** Places `x` after every element of `r` that is not ranked above it. */
  function Insert<T>(r: seq<T>, x: T, le: (T, T) -> bool): (t: seq<T>)
    ensures multiset(t) == multiset(r) + multiset{x}
  {
    if r == [] || le(r[|r| - 1], x) then r + [x]
    else
      assert r == r[..|r| - 1] + [r[|r| - 1]];
      Insert(r[..|r| - 1], x, le) + [r[|r| - 1]]
  }

  /** Insertion sort of `s`, taking the elements in input order. */
  function SortBy<T>(s: seq<T>, le: (T, T) -> bool): (r: seq<T>)
    ensures multiset(r) == multiset(s) && |r| == |s|
  {
    if s == [] then []
    else
      assert s == s[..|s| - 1] + [s[|s| - 1]];
      Insert(SortBy(s[..|s| - 1], le), s[|s| - 1], le)
  }

  lemma {:induction false} InsertSorted<T(!new)>(r: seq<T>, x: T, le: (T, T) -> bool)
    requires TotalPreorder(le) && SortedBy(r, le)
    ensures SortedBy(Insert(r, x, le), le)
  {
    if r != [] && !le(r[|r| - 1], x) {
      var init := r[..|r| - 1];
      var last := r[|r| - 1];
      assert SortedBy(init, le);
      InsertSorted(init, x, le);
      var t := Insert(init, x, le);
      assert le(x, last);
      forall y | y in init ensures le(y, last) {
        var k :| 0 <= k < |init| && init[k] == y;
        assert r[k] == y;
      }
      forall i | 0 <= i < |t| ensures le(t[i], last) {
        assert t[i] in multiset(init) + multiset{x};
      }
      SortedSnoc(t, last, le);
    }
  }

  lemma SortedSnoc<T>(t: seq<T>, last: T, le: (T, T) -> bool)
    requires SortedBy(t, le) && forall i :: 0 <= i < |t| ==> le(t[i], last)
    ensures SortedBy(t + [last], le)
  {
  }

  /** The sort puts the elements in `le` order. */
  lemma {:induction false} SortBySorted<T(!new)>(s: seq<T>, le: (T, T) -> bool)
    requires TotalPreorder(le)
    ensures SortedBy(SortBy(s, le), le)
  {
    if s != [] {
      SortBySorted(s[..|s| - 1], le);
      InsertSorted(SortBy(s[..|s| - 1], le), s[|s| - 1], le);
    }
  }

  lemma EqualToSnoc<T>(init: seq<T>, last: T, le: (T, T) -> bool, c: T)
    ensures EqualTo(init + [last], le, c)
      == EqualTo(init, le, c) + (if le(c, last) && le(last, c) then [last] else [])
  {
    assert (init + [last])[..|init|] == init;
  }

  /** Inserting `x` adds it at the end of its own class of equal elements and changes no other. */
  lemma {:induction false} InsertEqualTo<T(!new)>(r: seq<T>, x: T, le: (T, T) -> bool, c: T)
    requires TotalPreorder(le)
    ensures EqualTo(Insert(r, x, le), le, c)
      == EqualTo(r, le, c) + (if le(c, x) && le(x, c) then [x] else [])
  {
    if r == [] || le(r[|r| - 1], x) {
      EqualToSnoc(r, x, le, c);
    } else {
      var init := r[..|r| - 1];
      var last := r[|r| - 1];
      assert r == init + [last];
      InsertEqualTo(init, x, le, c);
      EqualToSnoc(Insert(init, x, le), last, le, c);
      EqualToSnoc(init, last, le, c);
    }
  }

  /** The sort is stable: the elements of each class of equal elements keep their input order. */
  lemma {:induction false} SortByStable<T(!new)>(s: seq<T>, le: (T, T) -> bool, c: T)
    requires TotalPreorder(le)
    ensures EqualTo(SortBy(s, le), le, c) == EqualTo(s, le, c)
  {
    if s != [] {
      var init := s[..|s| - 1];
      assert s == init + [s[|s| - 1]];
      SortByStable(init, le, c);
      InsertEqualTo(SortBy(init, le), s[|s| - 1], le, c);
      EqualToSnoc(init, s[|s| - 1], le, c);
    }
  }

  /** Every element of a sorted sequence is ranked at most its last element. */
  lemma SortedLast<T>(a: seq<T>, le: (T, T) -> bool, x: T)
    requires SortedBy(a, le) && a != [] && x in a
    ensures x == a[|a| - 1] || le(x, a[|a| - 1])
  {
    var i :| 0 <= i < |a| && a[i] == x;
    assert i == |a| - 1 || le(a[i], a[|a| - 1]);
  }

  lemma MultisetInit<T>(a: seq<T>)
    requires a != []
    ensures multiset(a[..|a| - 1]) == multiset(a) - multiset{a[|a| - 1]}
  {
    assert a == a[..|a| - 1] + [a[|a| - 1]];
  }

  /** The sum of `f` over the elements of `s` (Python's `sum(f(x) for x in s)`). */
  function SumOf<T>(s: seq<T>, f: T -> int): int
  {
    if s == [] then 0 else SumOf(s[..|s| - 1], f) + f(s[|s| - 1])
  }

  lemma {:induction false} SumOfRemoveAt<T>(s: seq<T>, f: T -> int, j: nat)
    requires j < |s|
    ensures SumOf(s, f) == SumOf(s[..j] + s[j + 1..], f) + f(s[j])
    decreases |s|
  {
    var init := s[..|s| - 1];
    var rest := s[..j] + s[j + 1..];
    if j == |s| - 1 {
      assert rest == init;
    } else {
      SumOfRemoveAt(init, f, j);
      assert rest == (init[..j] + init[j + 1..]) + [s[|s| - 1]];
      assert rest[..|rest| - 1] == init[..j] + init[j + 1..];
    }
  }

  /** Reordering a sequence does not change a sum over it. */
  lemma {:induction false} SumOfPermutation<T>(a: seq<T>, b: seq<T>, f: T -> int)
    requires multiset(a) == multiset(b)
    ensures SumOf(a, f) == SumOf(b, f)
    decreases |a|
  {
    assert |a| == |multiset(a)| == |b|;
    if a != [] {
      var n := |a| - 1;
      assert a[n] in multiset(b);
      var j :| 0 <= j < |b| && b[j] == a[n];
      var rest := b[..j] + b[j + 1..];
      assert b == b[..j] + [b[j]] + b[j + 1..];
      assert multiset(rest) == multiset(b) - multiset{b[j]};
      MultisetInit(a);
      SumOfPermutation(a[..n], rest, f);
      SumOfRemoveAt(b, f, j);
    }
  }

  /** Two sorted arrangements of the same elements are equal when `le` only ranks equal values
      equal among them (as for sorting distinct strings or distinct keys). */
  lemma {:induction false} SortedUnique<T>(a: seq<T>, b: seq<T>, le: (T, T) -> bool)
    requires SortedBy(a, le) && SortedBy(b, le) && multiset(a) == multiset(b)
    requires forall x, y :: x in a && y in a && le(x, y) && le(y, x) ==> x == y
    ensures a == b
    decreases |a|
  {
    assert |a| == |multiset(a)| == |b|;
    if a != [] {
      var n := |a| - 1;
      assert a[n] == b[n] by {
        assert a[n] in multiset(b);
        assert b[n] in multiset(a);
        SortedLast(b, le, a[n]);
        SortedLast(a, le, b[n]);
      }
      assert multiset(a[..n]) == multiset(b[..n]) by {
        MultisetInit(a);
        MultisetInit(b);
      }
      assert SortedBy(a[..n], le) && SortedBy(b[..n], le);
      forall x, y | x in a[..n] && y in a[..n] && le(x, y) && le(y, x) ensures x == y {
        assert x in a && y in a;
      }
      SortedUnique(a[..n], b[..n], le);
      assert a == a[..n] + [a[n]];
      assert b == b[..n] + [b[n]];
    }
  }

  /** Python's `<=` on strings, as a sort order. */
  function StrLe(a: string, b: string): bool
  {
    StrLessEq(a, b)
  }

  lemma StrLePreorder()
    ensures TotalPreorder(StrLe)
  {
    forall a, b ensures StrLe(a, b) || StrLe(b, a) {
      StrLessTotal(a, b);
    }
    forall a, b, c | StrLe(a, b) && StrLe(b, c) ensures StrLe(a, c) {
      if a != b && b != c {
        StrLessTransitive(a, b, c);
      }
    }
  }

  /** `sorted(set(xs))` for strings. */
  function SortedSet(xs: seq<string>): seq<string>
  {
    SortBy(Dedup(xs), StrLe)
  }

  /** A sequence without duplicates holds each of its values once. */
  lemma {:induction false} NoDupsMultiset<T>(s: seq<T>, x: T)
    requires NoDups(s)
    ensures multiset(s)[x] == if x in s then 1 else 0
  {
    if s != [] {
      var init := s[..|s| - 1];
      assert s == init + [s[|s| - 1]];
      assert NoDups(init);
      NoDupsMultiset(init, x);
    }
  }

  /** `sorted(set(xs))` holds every value of `xs` once, in strictly increasing order. */
  lemma SortedSetProperties(xs: seq<string>)
    ensures forall x :: x in SortedSet(xs) <==> x in xs
    ensures forall i, j :: 0 <= i < j < |SortedSet(xs)| ==> StrLess(SortedSet(xs)[i], SortedSet(xs)[j])
  {
    var d := Dedup(xs);
    var r := SortedSet(xs);
    DedupProperties(xs);
    StrLePreorder();
    SortBySorted(d, StrLe);
    assert forall x :: x in r <==> x in multiset(d);
    PermutationNoDups(d, r);
    forall i, j | 0 <= i < j < |r| ensures StrLess(r[i], r[j]) {
      assert StrLe(r[i], r[j]);
    }
  }

  /** A rearrangement of a sequence without duplicates has none either. */
  lemma PermutationNoDups<T>(a: seq<T>, b: seq<T>)
    requires multiset(a) == multiset(b) && NoDups(a)
    ensures NoDups(b)
  {
    forall i, j | 0 <= i < j < |b| ensures b[i] != b[j] {
      if b[i] == b[j] {
        TwoOccurrences(b, i, j);
        NoDupsMultiset(a, b[i]);
      }
    }
  }

  lemma TwoOccurrences<T>(s: seq<T>, i: nat, j: nat)
    requires i < j < |s| && s[i] == s[j]
    ensures multiset(s)[s[i]] >= 2
  {
    assert s == s[..j] + [s[j]] + s[j + 1..];
    assert s[..j][i] == s[i];
    assert multiset(s[..j])[s[i]] >= 1;
  }

  /** `sorted(set(xs))` depends only on which values occur in `xs`, not on their order or
      repetition. */
  lemma SortedSetCanonical(xs: seq<string>, ys: seq<string>)
    requires forall x :: x in xs <==> x in ys
    ensures SortedSet(xs) == SortedSet(ys)
  {
    var a := Dedup(xs);
    var b := Dedup(ys);
    assert multiset(a) == multiset(b) by {
      DedupSameValues(xs, ys);
    }
    var ra := SortBy(a, StrLe);
    var rb := SortBy(b, StrLe);
    assert SortedBy(ra, StrLe) && SortedBy(rb, StrLe) by {
      StrLePreorder();
      SortBySorted(a, StrLe);
      SortBySorted(b, StrLe);
    }
    assert forall x, y :: StrLe(x, y) && StrLe(y, x) ==> x == y by {
      forall x, y | StrLe(x, y) && StrLe(y, x) ensures x == y {
        if x != y {
          StrLessAsymmetric(x, y);
        }
      }
    }
    SortedUnique(ra, rb, StrLe);
  }

  /** `sorted({x})` is `[x]`. */
  lemma SortedSetSingleton(x: string)
    ensures SortedSet([x]) == [x]
  {
    assert Dedup([x]) == [x] by {
      DedupSnoc([], x);
      assert [] + [x] == [x];
    }
    assert [x][..0] == [];
    assert SortBy([x], StrLe) == Insert([], x, StrLe);
  }

  /** Every value of a sequence occurs once in its deduplication. */
  lemma DedupCount<T>(s: seq<T>, x: T)
    ensures multiset(Dedup(s))[x] == if x in s then 1 else 0
  {
    DedupProperties(s);
    NoDupsMultiset(Dedup(s), x);
  }

  /** Deduplicating two sequences with the same values gives the same multiset. */
  lemma DedupSameValues<T>(xs: seq<T>, ys: seq<T>)
    requires forall x :: x in xs <==> x in ys
    ensures multiset(Dedup(xs)) == multiset(Dedup(ys))
  {
    DedupProperties(xs);
    DedupProperties(ys);
    NoDupsSameValues(Dedup(xs), Dedup(ys));
  }

  /** Two sequences without duplicates that hold the same values are rearrangements of each
      other. */
  lemma {:induction false} NoDupsSameValues<T>(a: seq<T>, b: seq<T>)
    requires NoDups(a) && NoDups(b)
    requires forall x :: x in a <==> x in b
    ensures multiset(a) == multiset(b)
    decreases |a|
  {
    if a == [] {
      assert forall i :: 0 <= i < |b| ==> b[i] in b;
    } else {
      var x := a[|a| - 1];
      var init := a[..|a| - 1];
      var j := IndexOf(b, x);
      var rest := b[..j] + b[j + 1..];
      assert NoDups(init) && forall y :: y in init <==> y in a && y != x by {
        RemoveAtProperties(a, |a| - 1);
        assert a[|a|..] == [];
        assert init + [] == init;
      }
      RemoveAtProperties(b, j);
      NoDupsSameValues(init, rest);
      assert a == init + [x];
      assert b == b[..j] + [x] + b[j + 1..];
    }
  }

  /** Removing the element at `j` from a sequence without duplicates removes exactly that value. */
  lemma RemoveAtProperties<T>(b: seq<T>, j: nat)
    requires NoDups(b) && j < |b|
    ensures var rest := b[..j] + b[j + 1..];
      NoDups(rest) && forall y :: y in rest <==> y in b && y != b[j]
  {
    var rest := b[..j] + b[j + 1..];
    assert forall i :: 0 <= i < |rest| ==> rest[i] == if i < j then b[i] else b[i + 1];
  }

  // ---------------------------------------------------------------------------------------
  // Sorting by a tuple key

  /** `lt` is a strict total order: asymmetric, transitive, and relating any two distinct
      values one way or the other. */
  ghost predicate StrictTotalOrder<T(!new)>(lt: (T, T) -> bool)
  {
    (forall a, b :: lt(a, b) ==> !lt(b, a))
    && (forall a, b, c :: lt(a, b) && lt(b, c) ==> lt(a, c))
    && (forall a, b :: a == b || lt(a, b) || lt(b, a))
  }

  /** Python's `<` on tuples whose items compare with `lt`: the first position where they differ
      decides, a proper prefix being smaller. */
  predicate LexLess<T(==)>(a: seq<T>, b: seq<T>, lt: (T, T) -> bool)
  {
    if a == [] then b != []
    else if b == [] then false
    else if a[0] != b[0] then lt(a[0], b[0])
    else LexLess(a[1..], b[1..], lt)
  }

  lemma {:induction false} LexLessAsymmetric<T(!new)>(a: seq<T>, b: seq<T>, lt: (T, T) -> bool)
    requires StrictTotalOrder(lt) && LexLess(a, b, lt)
    ensures !LexLess(b, a, lt)
  {
    if a != [] && b != [] && a[0] == b[0] {
      LexLessAsymmetric(a[1..], b[1..], lt);
    }
  }

  lemma {:induction false} LexLessTransitive<T(!new)>(a: seq<T>, b: seq<T>, c: seq<T>, lt: (T, T) -> bool)
    requires StrictTotalOrder(lt) && LexLess(a, b, lt) && LexLess(b, c, lt)
    ensures LexLess(a, c, lt)
  {
    if a != [] && b != [] && c != [] && a[0] == b[0] && b[0] == c[0] {
      LexLessTransitive(a[1..], b[1..], c[1..], lt);
    }
  }

  lemma {:induction false} LexLessTotal<T(!new)>(a: seq<T>, b: seq<T>, lt: (T, T) -> bool)
    requires StrictTotalOrder(lt)
    ensures a == b || LexLess(a, b, lt) || LexLess(b, a, lt)
  {
    if a != [] && b != [] && a[0] == b[0] {
      LexLessTotal(a[1..], b[1..], lt);
      assert a == [a[0]] + a[1..];
      assert b == [b[0]] + b[1..];
    }
  }

  /** "not `c < a`" follows from "not `b < a`" and "not `c < b`". */
  lemma NotLessTransitive<T(!new)>(a: seq<T>, b: seq<T>, c: seq<T>, lt: (T, T) -> bool)
    requires StrictTotalOrder(lt) && !LexLess(b, a, lt) && !LexLess(c, b, lt)
    ensures !LexLess(c, a, lt)
  {
    if a != b && b != c {
      LexLessTotal(a, b, lt);
      LexLessTotal(b, c, lt);
      LexLessTransitive(a, b, c, lt);
      LexLessAsymmetric(a, c, lt);
    } else if a != b {
      assert c == b;
    }
  }

  /** The order `sorted(xs, key=key, reverse=desc)` puts its result in: `key(x) <= key(y)`, or
      `key(x) >= key(y)` for a descending sort. */
  function KeyOrder<R, K(==)>(key: R -> seq<K>, lt: (K, K) -> bool, desc: bool): (R, R) -> bool
  {
    (x: R, y: R) => if desc then !LexLess(key(x), key(y), lt) else !LexLess(key(y), key(x), lt)
  }

  lemma KeyOrderPreorder<R(!new), K(!new)>(key: R -> seq<K>, lt: (K, K) -> bool, desc: bool)
    requires StrictTotalOrder(lt)
    ensures TotalPreorder(KeyOrder(key, lt, desc))
  {
    var le := KeyOrder(key, lt, desc);
    forall x, y ensures le(x, y) || le(y, x) {
      if LexLess(key(x), key(y), lt) {
        LexLessAsymmetric(key(x), key(y), lt);
      }
    }
    forall x, y, z | le(x, y) && le(y, z) ensures le(x, z) {
      if desc {
        NotLessTransitive(key(z), key(y), key(x), lt);
      } else {
        NotLessTransitive(key(x), key(y), key(z), lt);
      }
    }
  }

  /** Whether a value has the same key as `c`. */
  function SameKeyAs<R, K(==)>(key: R -> seq<K>, c: R): R -> bool
  {
    (x: R) => key(x) == key(c)
  }

  lemma {:induction false} EqualToIsFilter<T>(s: seq<T>, le: (T, T) -> bool, c: T, p: T -> bool)
    requires forall i :: 0 <= i < |s| ==> (le(c, s[i]) && le(s[i], c)) == p(s[i])
    ensures EqualTo(s, le, c) == Filter(s, p)
  {
    if s != [] {
      EqualToIsFilter(s[..|s| - 1], le, c, p);
    }
  }

  /** Two values are ranked equal exactly when their keys are equal. */
  lemma KeyOrderSame<R, K(!new)>(key: R -> seq<K>, lt: (K, K) -> bool, desc: bool, c: R, x: R)
    requires StrictTotalOrder(lt)
    ensures (KeyOrder(key, lt, desc)(c, x) && KeyOrder(key, lt, desc)(x, c)) == (key(x) == key(c))
  {
    LexLessTotal(key(x), key(c), lt);
    LexLessIrreflexive(key(c), lt);
  }

  /** `r` is in ascending (or with `desc` descending) order of the keys of its values. */
  ghost predicate KeySorted<R, K>(r: seq<R>, key: R -> seq<K>, lt: (K, K) -> bool, desc: bool)
  {
    (!desc ==> forall i, j :: 0 <= i < j < |r| ==> !LexLess(key(r[j]), key(r[i]), lt))
    && (desc ==> forall i, j :: 0 <= i < j < |r| ==> !LexLess(key(r[i]), key(r[j]), lt))
  }

  /** What Python promises of `sorted(xs, key=key, reverse=desc)`: `r` rearranges `xs` into key
      order, and the values sharing any one key keep their input order. */
  ghost predicate IsKeySort<R(!new), K>(xs: seq<R>, r: seq<R>, key: R -> seq<K>, lt: (K, K) -> bool, desc: bool)
  {
    multiset(r) == multiset(xs)
    && KeySorted(r, key, lt, desc)
    && forall c :: Filter(r, SameKeyAs(key, c)) == Filter(xs, SameKeyAs(key, c))
  }

  /** The insertion sort under the key order is such a sort. */
  lemma SortByIsKeySort<R(!new), K(!new)>(xs: seq<R>, key: R -> seq<K>, lt: (K, K) -> bool, desc: bool)
    requires StrictTotalOrder(lt)
    ensures IsKeySort(xs, SortBy(xs, KeyOrder(key, lt, desc)), key, lt, desc)
  {
    var le := KeyOrder(key, lt, desc);
    var r := SortBy(xs, le);
    KeyOrderPreorder(key, lt, desc);
    SortBySorted(xs, le);
    forall c ensures Filter(r, SameKeyAs(key, c)) == Filter(xs, SameKeyAs(key, c)) {
      SortByStable(xs, le, c);
      forall x ensures (le(c, x) && le(x, c)) == SameKeyAs(key, c)(x) {
        KeyOrderSame(key, lt, desc, c, x);
      }
      EqualToIsFilter(r, le, c, SameKeyAs(key, c));
      EqualToIsFilter(xs, le, c, SameKeyAs(key, c));
    }
  }

  lemma {:induction false} LexLessIrreflexive<T(!new)>(a: seq<T>, lt: (T, T) -> bool)
    requires StrictTotalOrder(lt)
    ensures !LexLess(a, a, lt)
  {
    if a != [] {
      LexLessIrreflexive(a[1..], lt);
    }
  }

  /** A sort under an order that ranks every two values equal keeps the input order. */
  lemma {:induction false} SortByAllEqual<T>(s: seq<T>, le: (T, T) -> bool)
    requires forall a, b :: le(a, b)
    ensures SortBy(s, le) == s
  {
    if s != [] {
      var init := s[..|s| - 1];
      var x := s[|s| - 1];
      InitLast(s);
      SortByAllEqual(init, le);
      assert SortBy(s, le) == Insert(init, x, le);
      assert init == [] || le(init[|init| - 1], x);
    }
  }

  /** `reversed(s)`. */
  function Reversed<T>(s: seq<T>): (r: seq<T>)
    ensures |r| == |s| && forall i :: 0 <= i < |s| ==> r[i] == s[|s| - 1 - i]
  {
    if s == [] then [] else [s[|s| - 1]] + Reversed(s[..|s| - 1])
  }

  lemma {:induction false} ReversedMultiset<T>(s: seq<T>)
    ensures multiset(Reversed(s)) == multiset(s)
  {
    if s != [] {
      ReversedMultiset(s[..|s| - 1]);
      assert s == s[..|s| - 1] + [s[|s| - 1]];
    }
  }

  /** With no two values sharing a key, the descending sort is the ascending one reversed (with
      shared keys it is not: both keep input order among equal keys). */
  lemma DescReversesAsc<R(!new), K(!new)>(xs: seq<R>, key: R -> seq<K>, lt: (K, K) -> bool)
    requires StrictTotalOrder(lt)
    requires forall x, y :: x in xs && y in xs && key(x) == key(y) ==> x == y
    ensures SortBy(xs, KeyOrder(key, lt, true)) == Reversed(SortBy(xs, KeyOrder(key, lt, false)))
  {
    var asc := SortBy(xs, KeyOrder(key, lt, false));
    var desc := SortBy(xs, KeyOrder(key, lt, true));
    var rev := Reversed(asc);
    var le := KeyOrder(key, lt, true);
    KeyOrderPreorder(key, lt, false);
    SortBySorted(xs, KeyOrder(key, lt, false));
    forall i, j | 0 <= i < j < |rev| ensures le(rev[i], rev[j]) {
      assert KeyOrder(key, lt, false)(asc[|asc| - 1 - j], asc[|asc| - 1 - i]);
    }
    KeyOrderPreorder(key, lt, true);
    SortBySorted(xs, le);
    ReversedMultiset(asc);
    forall x, y | x in rev && y in rev && le(x, y) && le(y, x) ensures x == y {
      KeyOrderSame(key, lt, true, x, y);
      assert x in multiset(xs) && y in multiset(xs);
    }
    SortedUnique(rev, desc, le);
  }

  /** Python's `<` on `str` is a strict total order. */
  lemma StrLessOrder()
    ensures StrictTotalOrder(StrLess)
  {
    forall a, b | StrLess(a, b) ensures !StrLess(b, a) {
      StrLessAsymmetric(a, b);
    }
    forall a, b, c | StrLess(a, b) && StrLess(b, c) ensures StrLess(a, c) {
      StrLessTransitive(a, b, c);
    }
    forall a, b ensures a == b || StrLess(a, b) || StrLess(b, a) {
      StrLessTotal(a, b);
    }
  }

  /** A float sort key other than NaN: `float("-inf")`, a finite number or `float("inf")`. */
  datatype NumKey = NegInf | Num(r: real) | PosInf

  /** `<` on such keys. */
  predicate NumLess(a: NumKey, b: NumKey)
  {
    match a
    case NegInf => !b.NegInf?
    case Num(x) => b.PosInf? || (b.Num? && x < b.r)
    case PosInf => false
  }

  lemma NumLessOrder()
    ensures StrictTotalOrder(NumLess)
  {
  }
}
