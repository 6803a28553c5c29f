/** Difference of two CSV tables (csv-tools/scripts/diff.py): with `--key`, rows are matched by
    the stripped cells of the key columns and reported as removed, added or changed per key;
    without it, rows are compared by position. */
module CsvDiff {
  import opened Text
  import opened Seqs
  import opened CsvCommon

  type Key = seq<string>

  /** The change records of `main`: by key, or by row index. */
  datatype Change =
    | Removed(key: Key, left: Row)
    | Added(key: Key, right: Row)
    | Changed(key: Key, left: Row, right: Row)
    | RemovedAt(index: nat, left: Row)
    | AddedAt(index: nat, right: Row)
    | ChangedAt(index: nat, left: Row, right: Row)

  /** `[c.strip() for c in args.key.split(",")] if args.key else None`: empty parts are kept. */
  function KeyColumns(raw: Option<string>): (cols: Option<seq<string>>)
    ensures cols.Some? <==> raw.Some? && raw.value != ""
    ensures cols.Some? ==> cols.value != [] && |cols.value| == |Split(raw.value, ',')|
  {
    match raw
    case None => None
    case Some(s) => if s == "" then None else Some(MapSeq(Split(s, ','), Strip))
  }

  // Keyed mode

  /** `{row_key(r, key_cols): r for r in rows}`: the last row with a key is the one kept. */
  function ByKey(rows: seq<Row>, cols: seq<string>): map<Key, Row>
  {
    IndexBy(rows, RowKeyFn(cols))
  }

  /** The changes keyed mode reports for the dicts `l` and `r`, as a set: the source emits them
      by iterating over sets, in no specified order. */
  predicate IsKeyedChange(l: map<Key, Row>, r: map<Key, Row>, c: Change)
  {
    match c
    case Removed(k, lr) => k in l && k !in r && lr == l[k]
    case Added(k, rr) => k in r && k !in l && rr == r[k]
    case Changed(k, lr, rr) => k in l && k in r && lr == l[k] && rr == r[k] && lr != rr
    case _ => false
  }

  /** The loop that emits the removed rows, then the added ones, then the changed ones. */
  function Phase(c: Change): nat
  {
    match c
    case Removed(_, _) => 0
    case Added(_, _) => 1
    case _ => 2
  }

  /** `for k in left_keys - right_keys`, in some order of the set. */
  method EmitRemoved(l: map<Key, Row>, r: map<Key, Row>) returns (out: seq<Change>)
    ensures forall c :: c in out <==> c.Removed? && IsKeyedChange(l, r, c)
    ensures NoDups(out)
  {
    out := [];
    var todo := l.Keys - r.Keys;
    while todo != {}
      invariant todo <= l.Keys - r.Keys
      invariant forall c :: c in out <==> c.Removed? && c.key in (l.Keys - r.Keys) - todo && c.left == l[c.key]
      invariant NoDups(out)
      decreases |todo|
    {
      var k :| k in todo;
      assert Removed(k, l[k]) !in out;
      out := out + [Removed(k, l[k])];
      todo := todo - {k};
    }
  }

  /** `for k in right_keys - left_keys`, in some order of the set. */
  method EmitAdded(l: map<Key, Row>, r: map<Key, Row>) returns (out: seq<Change>)
    ensures forall c :: c in out <==> c.Added? && IsKeyedChange(l, r, c)
    ensures NoDups(out)
  {
    out := [];
    var todo := r.Keys - l.Keys;
    while todo != {}
      invariant todo <= r.Keys - l.Keys
      invariant forall c :: c in out <==> c.Added? && c.key in (r.Keys - l.Keys) - todo && c.right == r[c.key]
      invariant NoDups(out)
      decreases |todo|
    {
      var k :| k in todo;
      assert Added(k, r[k]) !in out;
      out := out + [Added(k, r[k])];
      todo := todo - {k};
    }
  }

  /** `for k in left_keys & right_keys`, reporting the keys whose rows differ. */
  method EmitChanged(l: map<Key, Row>, r: map<Key, Row>) returns (out: seq<Change>)
    ensures forall c :: c in out <==> c.Changed? && IsKeyedChange(l, r, c)
    ensures NoDups(out)
  {
    out := [];
    var todo := l.Keys * r.Keys;
    while todo != {}
      invariant todo <= l.Keys * r.Keys
      invariant forall c :: c in out <==>
        (c.Changed? && c.key in (l.Keys * r.Keys) - todo && c.left == l[c.key] && c.right == r[c.key] && c.left != c.right)
      invariant NoDups(out)
      decreases |todo|
    {
      var k :| k in todo;
      if l[k] != r[k] {
        out := out + [Changed(k, l[k], r[k])];
      }
      todo := todo - {k};
    }
  }

  lemma NoDupsConcat<T>(a: seq<T>, b: seq<T>)
    requires NoDups(a) && NoDups(b) && forall x :: x in a ==> x !in b
    ensures NoDups(a + b)
  {
    forall i, j | 0 <= i < j < |a + b| ensures (a + b)[i] != (a + b)[j] {
      if i < |a| && j >= |a| {
        assert (a + b)[i] in a && (a + b)[j] == b[j - |a|];
      }
    }
  }

  /** The keyed branch of `main`: every keyed change once, removed rows first, then added
      rows, then changed rows. */
  method KeyedDiff(l: map<Key, Row>, r: map<Key, Row>) returns (changes: seq<Change>)
    ensures forall c :: c in changes <==> IsKeyedChange(l, r, c)
    ensures NoDups(changes)
    ensures forall i, j :: 0 <= i < j < |changes| ==> Phase(changes[i]) <= Phase(changes[j])
  {
    var removed := EmitRemoved(l, r);
    var added := EmitAdded(l, r);
    var changed := EmitChanged(l, r);
    NoDupsConcat(removed, added);
    NoDupsConcat(removed + added, changed);
    changes := removed + added + changed;
    forall i, j | 0 <= i < j < |changes| ensures Phase(changes[i]) <= Phase(changes[j]) {
      assert changes[i] in removed || changes[i] in added || changes[i] in changed;
      assert changes[j] in removed || changes[j] in added || changes[j] in changed;
      if i < |removed| {
        assert changes[i] in removed;
      } else if i < |removed| + |added| {
        assert changes[i] in added;
        assert j >= |removed|;
        assert changes[j] in added || changes[j] in changed;
      } else {
        assert changes[j] in changed;
      }
    }
  }

  /** Comparing a table with itself by key reports nothing; a key present on one side only is
      reported exactly once, with that side's last row for the key. */
  lemma KeyedProperties(left: seq<Row>, right: seq<Row>, cols: seq<string>, k: Key)
    ensures forall c :: !IsKeyedChange(ByKey(left, cols), ByKey(left, cols), c)
    ensures var l := ByKey(left, cols);
      var r := ByKey(right, cols);
      k in KeysOf(left, RowKeyFn(cols)) && k !in KeysOf(right, RowKeyFn(cols)) ==>
        k in l && IsKeyedChange(l, r, Removed(k, l[k]))
        && forall c :: IsKeyedChange(l, r, c) && c.key == k ==> c == Removed(k, l[k])
  {
    IndexByDomain(left, RowKeyFn(cols));
    IndexByDomain(right, RowKeyFn(cols));
  }

  // Row-order mode

  function Min(a: nat, b: nat): nat
  {
    if a <= b then a else b
  }

  /** The `changed` records of the first `n` index pairs. */
  function ChangedRows(left: seq<Row>, right: seq<Row>, n: nat): (cs: seq<Change>)
    requires n <= |left| && n <= |right|
    ensures forall c :: c in cs ==> c.ChangedAt? && c.index < n && c.left == left[c.index] && c.right == right[c.index] && c.left != c.right
    ensures forall i :: 0 <= i < n && left[i] != right[i] ==> ChangedAt(i, left[i], right[i]) in cs
  {
    if n == 0 then []
    else ChangedRows(left, right, n - 1) + (if left[n - 1] != right[n - 1] then [ChangedAt(n - 1, left[n - 1], right[n - 1])] else [])
  }

  /** The `removed` records of the rows `rows[lo..hi]`. */
  function RemovedRows(rows: seq<Row>, lo: nat, hi: nat): (cs: seq<Change>)
    requires lo <= hi <= |rows|
    ensures |cs| == hi - lo
    ensures forall i :: 0 <= i < hi - lo ==> cs[i] == RemovedAt(lo + i, rows[lo + i])
    decreases hi
  {
    if hi == lo then [] else RemovedRows(rows, lo, hi - 1) + [RemovedAt(hi - 1, rows[hi - 1])]
  }

  /** The `added` records of the rows `rows[lo..hi]`. */
  function AddedRows(rows: seq<Row>, lo: nat, hi: nat): (cs: seq<Change>)
    requires lo <= hi <= |rows|
    ensures |cs| == hi - lo
    ensures forall i :: 0 <= i < hi - lo ==> cs[i] == AddedAt(lo + i, rows[lo + i])
    decreases hi
  {
    if hi == lo then [] else AddedRows(rows, lo, hi - 1) + [AddedAt(hi - 1, rows[hi - 1])]
  }

  /** The records of the longer side's tail. */
  function TailRows(left: seq<Row>, right: seq<Row>): (cs: seq<Change>)
  {
    if |left| > |right| then RemovedRows(left, |right|, |left|)
    else if |right| > |left| then AddedRows(right, |left|, |right|)
    else []
  }

  /** The row-order branch of `main`. */
  function OrderChanges(left: seq<Row>, right: seq<Row>): seq<Change>
  {
    ChangedRows(left, right, Min(|left|, |right|)) + TailRows(left, right)
  }

  /** The row-order branch of `main`. */
  method OrderDiff(left: seq<Row>, right: seq<Row>) returns (changes: seq<Change>)
    ensures changes == OrderChanges(left, right)
  {
    changes := CompareRows(left, right, Min(|left|, |right|));
    if |left| > |right| {
      changes := AppendRemovedRows(left, |right|, changes);
    } else if |right| > |left| {
      changes := AppendAddedRows(right, |left|, changes);
    }
  }

  /** `for i, (lr, rr) in enumerate(zip(left_rows, right_rows))`. */
  method CompareRows(left: seq<Row>, right: seq<Row>, n: nat) returns (changes: seq<Change>)
    requires n <= |left| && n <= |right|
    ensures changes == ChangedRows(left, right, n)
  {
    changes := [];
    for i := 0 to n
      invariant changes == ChangedRows(left, right, i)
    {
      if left[i] != right[i] {
        changes := changes + [ChangedAt(i, left[i], right[i])];
      }
    }
  }

  /** `for i in range(len(right_rows), len(left_rows))`. */
  method AppendRemovedRows(rows: seq<Row>, lo: nat, changes: seq<Change>) returns (out: seq<Change>)
    requires lo <= |rows|
    ensures out == changes + RemovedRows(rows, lo, |rows|)
  {
    out := changes;
    for i := lo to |rows|
      invariant out == changes + RemovedRows(rows, lo, i)
    {
      out := out + [RemovedAt(i, rows[i])];
    }
  }

  /** `for i in range(len(left_rows), len(right_rows))`. */
  method AppendAddedRows(rows: seq<Row>, lo: nat, changes: seq<Change>) returns (out: seq<Change>)
    requires lo <= |rows|
    ensures out == changes + AddedRows(rows, lo, |rows|)
  {
    out := changes;
    for i := lo to |rows|
      invariant out == changes + AddedRows(rows, lo, i)
    {
      out := out + [AddedAt(i, rows[i])];
    }
  }

  /** Identical tables give no changes; otherwise there is one `changed` record per differing
      index below the shorter length, then one record per extra row of the longer side. */
  lemma OrderProperties(left: seq<Row>, right: seq<Row>)
    ensures OrderChanges(left, left) == []
    ensures var t := TailRows(left, right);
      && |t| == (if |left| >= |right| then |left| - |right| else |right| - |left|)
      && (forall i :: 0 <= i < |t| && |left| > |right| ==> t[i] == RemovedAt(|right| + i, left[|right| + i]))
      && (forall i :: 0 <= i < |t| && |right| > |left| ==> t[i] == AddedAt(|left| + i, right[|left| + i]))
    ensures |OrderChanges(left, right)| >= if |left| >= |right| then |left| - |right| else |right| - |left|
    ensures forall c :: c in OrderChanges(left, right) && c.ChangedAt? ==>
      c.index < Min(|left|, |right|) && left[c.index] != right[c.index]
    ensures forall i :: 0 <= i < Min(|left|, |right|) && left[i] != right[i] ==>
      ChangedAt(i, left[i], right[i]) in OrderChanges(left, right)
  {
    NoChangedRows(left, |left|);
  }

  lemma {:induction false} NoChangedRows(rows: seq<Row>, n: nat)
    requires n <= |rows|
    ensures ChangedRows(rows, rows, n) == []
  {
    if n > 0 {
      NoChangedRows(rows, n - 1);
    }
  }

  // The report

  /** What `main` writes: `change_count` and the changes. */
  datatype Report = Report(changeCount: nat, changes: seq<Change>)

  /** `main` after loading both tables: keyed when `--key` is given and non-empty, by
      position otherwise. */
  method DiffTables(left: Table, right: Table, keyRaw: Option<string>) returns (report: Report)
    ensures report.changeCount == |report.changes|
    ensures KeyColumns(keyRaw).Some? ==>
      var l := ByKey(left.rows, KeyColumns(keyRaw).value);
      var r := ByKey(right.rows, KeyColumns(keyRaw).value);
      (forall c :: c in report.changes <==> IsKeyedChange(l, r, c)) && NoDups(report.changes)
    ensures KeyColumns(keyRaw).None? ==> report.changes == OrderChanges(left.rows, right.rows)
  {
    var keyCols := KeyColumns(keyRaw);
    var changes;
    if keyCols.Some? {
      var l := ByKey(left.rows, keyCols.value);
      var r := ByKey(right.rows, keyCols.value);
      changes := KeyedDiff(l, r);
    } else {
      changes := OrderDiff(left.rows, right.rows);
    }
    report := Report(|changes|, changes);
  }
}
