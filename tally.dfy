/** Python's `collections.Counter` as the scripts use it: counting values, `most_common()` and
    `most_common(n)`. A tally is a sequence of (value, count) pairs in the order the values were
    first seen, which is the iteration order of a Counter built from a list. */
module Tally {
  import opened Seqs
  import opened Sorting

  /** `Counter(xs)`: every distinct value of `xs` with its number of occurrences. */
  function Count<K(==)>(xs: seq<K>): (t: seq<(K, nat)>)
  {
    CountsOf(Dedup(xs), xs)
  }

  /** Each of `ks` paired with its number of occurrences in `xs`. */
  function CountsOf<K(==)>(ks: seq<K>, xs: seq<K>): (t: seq<(K, nat)>)
    ensures |t| == |ks|
  {
    seq(|ks|, i requires 0 <= i < |ks| => (ks[i], multiset(xs)[ks[i]]))
  }

  /** The sum of the counts of a tally. */
  function Total<K>(t: seq<(K, nat)>): nat
  {
    if t == [] then 0 else Total(t[..|t| - 1]) + t[|t| - 1].1
  }

  /** The values of a tally, in order. */
  function Values<K>(t: seq<(K, nat)>): (ks: seq<K>)
    ensures |ks| == |t| && forall i :: 0 <= i < |t| ==> ks[i] == t[i].0
  {
    MapSeq(t, (e: (K, nat)) => e.0)
  }

  /** The count of a value is the number of elements in its group. */
  lemma {:induction false} CountIsGroupSize<K>(xs: seq<K>, k: K)
    ensures multiset(xs)[k] == |GroupOf(xs, Id, k)|
  {
    if xs != [] {
      var init := xs[..|xs| - 1];
      assert xs == init + [xs[|xs| - 1]];
      CountIsGroupSize(init, k);
      GroupOfSnoc(init, xs[|xs| - 1], Id, k);
    }
  }

  lemma TotalMatchesGroups<K>(xs: seq<K>, ks: seq<K>)
    requires forall i :: 0 <= i < |ks| ==> ks[i] in xs
    ensures Total(CountsOf(ks, xs)) == TotalSize(xs, Id, ks)
  {
    if ks != [] {
      var ks' := ks[..|ks| - 1];
      TotalMatchesGroups(xs, ks');
      var t := CountsOf(ks, xs);
      assert t[..|t| - 1] == CountsOf(ks', xs);
      CountIsGroupSize(xs, ks[|ks| - 1]);
    }
  }

  /** Counting loses nothing: the counts add up to the number of values, every value occurs in
      the tally exactly once, and every count is positive and is the value's number of
      occurrences. */
  lemma CountProperties<K>(xs: seq<K>)
    ensures Total(Count(xs)) == |xs|
    ensures NoDups(Values(Count(xs)))
    ensures forall x :: x in xs <==> x in Values(Count(xs))
    ensures forall i :: 0 <= i < |Count(xs)| ==>
      Count(xs)[i].1 == multiset(xs)[Count(xs)[i].0] && Count(xs)[i].1 > 0
  {
    DedupProperties(xs);
    var ks := Dedup(xs);
    assert Values(Count(xs)) == ks;
    assert Total(Count(xs)) == |xs| by {
      assert KeysOf(xs, Id) == xs;
      GroupsPartition(xs, Id);
      TotalMatchesGroups(xs, ks);
    }
    forall i | 0 <= i < |ks| ensures multiset(xs)[ks[i]] > 0 {
      assert ks[i] in Dedup(xs);
    }
  }

  /** `counter[x] += 1` on a tally: a value already counted gets one more, a new value goes last
      with count one. */
  function Tick<K(==)>(t: seq<(K, nat)>, x: K): (r: seq<(K, nat)>)
    ensures Values(r) == if x in Values(t) then Values(t) else Values(t) + [x]
  {
    if x in Values(t) then
      var i := IndexOf(Values(t), x);
      var r := t[i := (x, t[i].1 + 1)];
      assert Values(r) == Values(t);
      r
    else
      var r := t + [(x, 1)];
      assert Values(r) == Values(t) + [x];
      r
  }

  /** Counting one more value is one `+= 1` on the tally of the values before it. */
  lemma CountSnoc<K>(xs: seq<K>, x: K)
    ensures Count(xs + [x]) == Tick(Count(xs), x)
  {
    var ys := xs + [x];
    assert ys[..|ys| - 1] == xs;
    DedupProperties(xs);
    if x in xs {
      CountSnocSeen(xs, x);
    } else {
      CountSnocNew(xs, x);
    }
  }

  lemma CountSnocSeen<K>(xs: seq<K>, x: K)
    requires x in xs && Dedup(xs + [x]) == Dedup(xs) && x in Dedup(xs) && NoDups(Dedup(xs))
    ensures Count(xs + [x]) == Tick(Count(xs), x)
  {
    var ks := Dedup(xs);
    var t := Count(xs);
    var i := IndexOf(ks, x);
    assert Tick(t, x) == t[i := (x, t[i].1 + 1)] by {
      assert Values(t) == ks;
    }
    CountsOfSnocSeen(ks, xs, x, i);
  }

  lemma CountSnocNew<K>(xs: seq<K>, x: K)
    requires x !in xs && Dedup(xs + [x]) == Dedup(xs) + [x]
    requires forall k :: k in Dedup(xs) <==> k in xs
    ensures Count(xs + [x]) == Tick(Count(xs), x)
  {
    var ks := Dedup(xs);
    var t := Count(xs);
    assert Tick(t, x) == t + [(x, 1)] by {
      assert Values(t) == ks;
    }
    CountsOfSnocNew(ks, xs, x);
  }

  /** One more `x` raises the count of `x` by one and leaves the other counts alone. */
  lemma CountsOfSnocSeen<K>(ks: seq<K>, xs: seq<K>, x: K, i: nat)
    requires i < |ks| && ks[i] == x && NoDups(ks)
    ensures CountsOf(ks, xs + [x]) == CountsOf(ks, xs)[i := (x, CountsOf(ks, xs)[i].1 + 1)]
  {
    var t := CountsOf(ks, xs);
    var r: seq<(K, nat)> := t[i := (x, t[i].1 + 1)];
    forall j | 0 <= j < |ks| ensures CountsOf(ks, xs + [x])[j] == r[j] {
      assert multiset(xs + [x])[ks[j]] == multiset(xs)[ks[j]] + (if ks[j] == x then 1 else 0);
    }
  }

  /** A first `x` adds `(x, 1)` at the end and leaves the other counts alone. */
  lemma CountsOfSnocNew<K>(ks: seq<K>, xs: seq<K>, x: K)
    requires x !in xs && x !in ks
    ensures CountsOf(ks + [x], xs + [x]) == CountsOf(ks, xs) + [(x, 1)]
  {
    forall j | 0 <= j < |ks| ensures CountsOf(ks + [x], xs + [x])[j] == CountsOf(ks, xs)[j] {
      assert multiset(xs + [x])[ks[j]] == multiset(xs)[ks[j]];
    }
  }

  /** A `Counter` read as a dict from values to counts, filled one value at a time (what
      `Counter.update` does with an iterable). */
  function CountMap<K>(xs: seq<K>): (m: map<K, nat>)
  {
    if xs == [] then map[]
    else
      var m := CountMap(xs[..|xs| - 1]);
      var x := xs[|xs| - 1];
      m[x := (if x in m then m[x] else 0) + 1]
  }

  lemma CountMapSnoc<K>(xs: seq<K>, x: K)
    ensures CountMap(xs + [x]) == CountMap(xs)[x := (if x in CountMap(xs) then CountMap(xs)[x] else 0) + 1]
  {
    assert (xs + [x])[..|xs|] == xs;
  }

  /** The dict holds exactly the values of `xs`, each with its number of occurrences. */
  lemma {:induction false} CountMapProperties<K>(xs: seq<K>)
    ensures forall k :: k in CountMap(xs) <==> k in xs
    ensures forall k :: k in CountMap(xs) ==> CountMap(xs)[k] == multiset(xs)[k]
  {
    if xs != [] {
      var init := xs[..|xs| - 1];
      CountMapProperties(init);
      assert xs == init + [xs[|xs| - 1]];
    }
  }

  /** The order of `most_common`: larger counts first. */
  function ByCountDesc<K>(a: (K, nat), b: (K, nat)): bool
  {
    a.1 >= b.1
  }

  lemma ByCountDescPreorder<K(!new)>()
    ensures TotalPreorder((a: (K, nat), b: (K, nat)) => ByCountDesc(a, b))
  {
  }

  /** `counter.most_common()`: the tally sorted by descending count, equal counts keeping their
      first-seen order. */
  function MostCommonAll<K>(t: seq<(K, nat)>): (all: seq<(K, nat)>)
    ensures |all| == |t|
  {
    SortBy(t, (a: (K, nat), b: (K, nat)) => ByCountDesc(a, b))
  }

  /** `counter.most_common(n)`, for `n >= 0`. */
  function MostCommon<K>(t: seq<(K, nat)>, n: nat): seq<(K, nat)>
  {
    var all := MostCommonAll(t);
    all[..if n < |all| then n else |all|]
  }

  /** `most_common()` is a rearrangement of the tally in descending count order in which entries
      with equal counts keep the tally's order; `most_common(n)` is its first `min(n, len)`
      entries. */
  lemma MostCommonProperties<K(!new)>(t: seq<(K, nat)>, n: nat, c: (K, nat))
    ensures var all := MostCommonAll(t);
      && multiset(all) == multiset(t)
      && (forall i, j :: 0 <= i < j < |all| ==> all[i].1 >= all[j].1)
      && EqualTo(all, (a: (K, nat), b: (K, nat)) => ByCountDesc(a, b), c)
         == EqualTo(t, (a: (K, nat), b: (K, nat)) => ByCountDesc(a, b), c)
      && |MostCommon(t, n)| == (if n < |t| then n else |t|)
      && MostCommon(t, n) == all[..|MostCommon(t, n)|]
  {
    var le := (a: (K, nat), b: (K, nat)) => ByCountDesc(a, b);
    SortBySorted(t, le);
    SortByStable(t, le, c);
  }

  /** `most_common()` lists the same values as the tally, still each once, and the counts
      along it never increase. */
  lemma MostCommonValues<K(!new)>(t: seq<(K, nat)>)
    requires NoDups(Values(t))
    ensures NoDups(Values(MostCommonAll(t)))
    ensures forall k :: k in Values(MostCommonAll(t)) <==> k in Values(t)
    ensures forall i :: 0 <= i < |MostCommonAll(t)| ==> MostCommonAll(t)[i] in t
  {
    var all := MostCommonAll(t);
    if t == [] {
      return;
    }
    MostCommonProperties(t, 0, t[0]);
    forall i | 0 <= i < |all| ensures all[i] in t {
      assert all[i] in multiset(t);
    }
    assert NoDups(t) by {
      forall i, j | 0 <= i < j < |t| ensures t[i] != t[j] {
        assert Values(t)[i] != Values(t)[j];
      }
    }
    PermutationNoDups(t, all);
    forall i, j | 0 <= i < j < |all| ensures Values(all)[i] != Values(all)[j] {
      var p :| 0 <= p < |t| && t[p] == all[i];
      var q :| 0 <= q < |t| && t[q] == all[j];
      assert p != q;
      if p < q { assert Values(t)[p] != Values(t)[q]; } else { assert Values(t)[q] != Values(t)[p]; }
    }
    forall k ensures k in Values(all) <==> k in Values(t) {
      if k in Values(all) {
        var i :| 0 <= i < |all| && Values(all)[i] == k;
        var p :| 0 <= p < |t| && t[p] == all[i];
        assert Values(t)[p] == k;
      }
      if k in Values(t) {
        var p :| 0 <= p < |t| && Values(t)[p] == k;
        assert t[p] in multiset(all);
        var i :| 0 <= i < |all| && all[i] == t[p];
        assert Values(all)[i] == k;
      }
    }
  }

  /** Entries of `most_common()` with equal counts come in the order the tally first saw them,
      as `Counter.most_common` promises. */
  lemma MostCommonTies<K(!new)>(t: seq<(K, nat)>)
    requires NoDups(Values(t))
    ensures var all := MostCommonAll(t);
      forall i, j :: 0 <= i < j < |all| && all[i] in t && all[j] in t && all[i].1 == all[j].1 ==>
        IndexOf(t, all[i]) < IndexOf(t, all[j])
  {
    var le := (a: (K, nat), b: (K, nat)) => ByCountDesc(a, b);
    var all := MostCommonAll(t);
    if t == [] {
      return;
    }
    MostCommonProperties(t, 0, t[0]);
    assert NoDups(t) by {
      forall i, j | 0 <= i < j < |t| ensures t[i] != t[j] {
        assert Values(t)[i] != Values(t)[j];
      }
    }
    PermutationNoDups(t, all);
    ByCountDescPreorder<K>();
    forall i, j | 0 <= i < j < |all| && all[i] in t && all[j] in t && all[i].1 == all[j].1
      ensures IndexOf(t, all[i]) < IndexOf(t, all[j])
    {
      var c := all[i];
      SortByStable(t, le, c);
      EqualToOrder(all, le, c, i, j);
      var p := IndexOf(t, all[i]);
      var q := IndexOf(t, all[j]);
      assert p != q;
      if q < p {
        EqualToOrder(t, le, c, q, p);
      }
    }
  }

  /** The values of `Counter(xs).most_common()` with equal counts come in the order of their
      first occurrences in `xs`. */
  lemma MostCommonFirstSeen<K(!new)>(xs: seq<K>)
    ensures var vs := Values(MostCommonAll(Count(xs)));
      forall i, j :: 0 <= i < j < |vs| && vs[i] in xs && vs[j] in xs && multiset(xs)[vs[i]] == multiset(xs)[vs[j]] ==>
        IndexOf(xs, vs[i]) < IndexOf(xs, vs[j])
  {
    var t := Count(xs);
    var all := MostCommonAll(t);
    var vs := Values(all);
    CountProperties(xs);
    MostCommonValues(t);
    MostCommonTies(t);
    DedupFirstOrder(xs);
    assert Values(t) == Dedup(xs);
    forall i, j | 0 <= i < j < |vs| && vs[i] in xs && vs[j] in xs && multiset(xs)[vs[i]] == multiset(xs)[vs[j]]
      ensures IndexOf(xs, vs[i]) < IndexOf(xs, vs[j])
    {
      var p := IndexOf(t, all[i]);
      var q := IndexOf(t, all[j]);
      assert all[i].1 == all[j].1;
      assert Dedup(xs)[p] == vs[i] && Dedup(xs)[q] == vs[j];
    }
  }

  /** `[k for k, _ in Counter(xs).most_common()]` lists every value of `xs` once, from the most
      frequent to the least, values of equal frequency in the order of their first occurrences. */
  lemma MostCommonOrder<K(!new)>(xs: seq<K>)
    ensures var vs := Values(MostCommonAll(Count(xs)));
      && NoDups(vs)
      && (forall k :: k in vs <==> k in xs)
      && (forall i, j :: 0 <= i < j < |vs| ==> multiset(xs)[vs[i]] >= multiset(xs)[vs[j]])
      && (forall i, j :: 0 <= i < j < |vs| && multiset(xs)[vs[i]] == multiset(xs)[vs[j]] ==>
            IndexOf(xs, vs[i]) < IndexOf(xs, vs[j]))
  {
    var t := Count(xs);
    CountProperties(xs);
    MostCommonValues(t);
    if t != [] {
      MostCommonProperties(t, 0, t[0]);
    }
    MostCommonFirstSeen(xs);
  }

  /** `most_common(1)[0]` (the mode): an entry with the largest count, and the first such entry
      of the tally. */
  lemma ModeIsFirstMaximal<K(!new)>(t: seq<(K, nat)>)
    requires t != []
    ensures var m := MostCommonAll(t)[0];
      m in t
      && (forall e :: e in t ==> e.1 <= m.1)
      && (forall j :: 0 <= j < IndexOf(t, m) ==> t[j].1 < m.1)
  {
    var le := (a: (K, nat), b: (K, nat)) => ByCountDesc(a, b);
    var all := MostCommonAll(t);
    var m := all[0];
    SortBySorted(t, le);
    assert m in multiset(t);
    forall e | e in t ensures e.1 <= m.1 {
      assert e in multiset(all);
      var i :| 0 <= i < |all| && all[i] == e;
      assert i == 0 || le(all[0], all[i]);
    }
    SortByStable(t, le, m);
    EqualToHead(all, le, m);
    var k := IndexOf(t, m);
    forall j | 0 <= j < k ensures t[j].1 < m.1 {
      if t[j].1 == m.1 {
        EqualToStart(t, le, m, j);
      }
    }
  }

  /** The class of the first element of a sequence starts with that element. */
  lemma EqualToHead<T>(s: seq<T>, le: (T, T) -> bool, c: T)
    requires s != [] && s[0] == c && le(c, c)
    ensures EqualTo(s, le, c) != [] && EqualTo(s, le, c)[0] == c
    decreases |s|
  {
    if |s| > 1 {
      EqualToHead(s[..|s| - 1], le, c);
    }
  }

  /** When the last element of `s` is in the class of `c`, the class is non-empty and its first
      element is an element of `s` in the class. */
  lemma {:induction false} EqualToStart<T>(s: seq<T>, le: (T, T) -> bool, c: T, j: nat)
    requires j < |s| && le(c, s[j]) && le(s[j], c)
    ensures EqualTo(s, le, c) != [] && EqualTo(s, le, c)[0] in s[..j + 1]
    decreases |s|
  {
    if j < |s| - 1 {
      EqualToStart(s[..|s| - 1], le, c, j);
      assert s[..|s| - 1][..j + 1] == s[..j + 1];
      assert EqualTo(s, le, c)[0] == EqualTo(s[..|s| - 1], le, c)[0];
    } else {
      assert s[..j + 1] == s;
      var p := EqualTo(s[..|s| - 1], le, c);
      if p != [] {
        EqualToMember(s[..|s| - 1], le, c);
        assert p[0] in s[..|s| - 1];
        assert EqualTo(s, le, c)[0] == p[0];
      }
    }
  }

  /** An element of `s` in the class of `c` belongs to the class. */
  lemma {:induction false} EqualToIn<T>(s: seq<T>, le: (T, T) -> bool, c: T, i: nat)
    requires i < |s| && le(c, s[i]) && le(s[i], c)
    ensures s[i] in EqualTo(s, le, c)
    decreases |s|
  {
    if i < |s| - 1 {
      EqualToIn(s[..|s| - 1], le, c, i);
    }
  }

  /** In a sequence without repetitions, two members of a class keep their relative order in it. */
  lemma {:induction false} EqualToOrder<T>(s: seq<T>, le: (T, T) -> bool, c: T, i: nat, j: nat)
    requires NoDups(s) && i < j < |s|
    requires le(c, s[i]) && le(s[i], c) && le(c, s[j]) && le(s[j], c)
    ensures s[i] in EqualTo(s, le, c) && s[j] in EqualTo(s, le, c)
    ensures IndexOf(EqualTo(s, le, c), s[i]) < IndexOf(EqualTo(s, le, c), s[j])
    decreases |s|
  {
    var init := s[..|s| - 1];
    var e := EqualTo(init, le, c);
    var all := EqualTo(s, le, c);
    EqualToIn(s, le, c, i);
    EqualToIn(s, le, c, j);
    assert all[..|e|] == e;
    if j < |s| - 1 {
      assert init[i] == s[i] && init[j] == s[j];
      EqualToOrder(init, le, c, i, j);
      IndexOfPrefix(all, |e|, s[i]);
      IndexOfPrefix(all, |e|, s[j]);
    } else {
      EqualToIn(init, le, c, i);
      EqualToMember(init, le, c);
      IndexOfPrefix(all, |e|, s[i]);
      assert s[j] !in init;
      assert all == e + [s[j]];
      assert s[j] !in e;
      assert IndexOf(all, s[j]) >= |e|;
    }
  }

  /** Every element of a class comes from the sequence. */
  lemma {:induction false} EqualToMember<T>(s: seq<T>, le: (T, T) -> bool, c: T)
    ensures forall x :: x in EqualTo(s, le, c) ==> x in s
    decreases |s|
  {
    if s != [] {
      EqualToMember(s[..|s| - 1], le, c);
    }
  }

  /** The first `n` pairs of `most_common` come from the tally, by non-increasing count. */
  lemma TopOfTally<K(!new)>(freq: seq<(K, nat)>, n: nat)
    ensures |MostCommon(freq, n)| == (if n < |freq| then n else |freq|)
    ensures forall i :: 0 <= i < |MostCommon(freq, n)| ==> MostCommon(freq, n)[i] in freq
    ensures forall i, j :: 0 <= i < j < |MostCommon(freq, n)| ==> MostCommon(freq, n)[i].1 >= MostCommon(freq, n)[j].1
  {
    if freq == [] {
      return;
    }
    MostCommonProperties(freq, n, freq[0]);
    var t := MostCommon(freq, n);
    var all := MostCommonAll(freq);
    forall i | 0 <= i < |t| ensures t[i] in freq {
      assert t[i] == all[i];
      assert all[i] in multiset(freq);
    }
    forall i, j | 0 <= i < j < |t| ensures t[i].1 >= t[j].1 {
      assert t[i] == all[i] && t[j] == all[j];
    }
  }
}
