/** What the two filter commands share: the `--where` expression syntax (`EXPR_RE` in
    json-tools/scripts/filter.py and csv-tools/scripts/filter.py), the quote stripping of a
    right-hand side, and `main`'s loops that append one predicate per option value, stopping at
    the first invalid one. */
module Conditions {
  import opened Text

  // ---------------------------------------------------------------------------------------
  // Splitting a `--where` expression (`EXPR_RE`)

  /** The operators, in the order `EXPR_RE`'s alternation tries them. */
  const Ops: seq<string> := ["==", "!=", ">=", "<=", ">", "<"]

  /** Operator `op` occurs at `k` and leaves a non-empty rest without a newline (`.` does not
      match a newline). */
  predicate Fits(s: string, k: nat, op: string)
    requires k <= |s|
  {
    StartsWith(s[k..], op) && k + |op| < |s| && '\n' !in s[k + |op|..]
  }

  /** The first of `ops` that fits at `k`. */
  function OpAt(s: string, k: nat, ops: seq<string>): (r: Option<string>)
    requires k <= |s|
    ensures r.Some? ==> r.value in ops && Fits(s, k, r.value)
    ensures r.Some? ==> exists i :: 0 <= i < |ops| && ops[i] == r.value && forall j :: 0 <= j < i ==> !Fits(s, k, ops[j])
    ensures r.None? <==> forall i :: 0 <= i < |ops| ==> !Fits(s, k, ops[i])
  {
    if ops == [] then None
    else if Fits(s, k, ops[0]) then Some(ops[0])
    else
      var r := OpAt(s, k, ops[1..]);
      assert forall i :: 1 <= i < |ops| ==> ops[i] == ops[1..][i - 1];
      if r.Some? then
        var i :| 0 <= i < |ops[1..]| && ops[1..][i] == r.value && forall j :: 0 <= j < i ==> !Fits(s, k, ops[1..][j]);
        assert ops[i + 1] == r.value;
        r
      else r
  }

  /** A split of `s` with a field of length `k`: `(.+?)` stops at `k`, then an operator fits. */
  predicate SplitsAt(s: string, k: nat)
  {
    1 <= k <= |s| && '\n' !in s[..k] && OpAt(s, k, Ops).Some?
  }

  datatype Expr = Expr(field: string, op: string, rhs: string)

  /** The shortest-field split, trying field lengths from `k` upwards: the length of the field. */
  function SplitFrom(s: string, k: nat): (r: Option<nat>)
    requires 1 <= k <= |s| && '\n' !in s[..k - 1]
    ensures r.Some? <==> exists j :: k <= j && SplitsAt(s, j)
    ensures r.Some? ==> k <= r.value && SplitsAt(s, r.value) && forall i :: k <= i < r.value ==> !SplitsAt(s, i)
    decreases |s| - k
  {
    if k == |s| then
      NoSplitAtEnd(s);
      None
    else if s[k - 1] == '\n' then
      NoSplitPastNewline(s, k);
      None
    else
      SplitStep(s, k);
      if OpAt(s, k, Ops).Some? then Some(k) else SplitFrom(s, k + 1)
  }

  /** No operator fits at the very end, where no rest is left. */
  lemma NoSplitAtEnd(s: string)
    ensures forall j :: |s| <= j ==> !SplitsAt(s, j)
  {
    assert OpAt(s, |s|, Ops).None?;
  }

  /** A field cannot run past a newline. */
  lemma NoSplitPastNewline(s: string, k: nat)
    requires 1 <= k <= |s| && s[k - 1] == '\n'
    ensures forall j :: k <= j ==> !SplitsAt(s, j)
  {
    assert forall j :: k <= j <= |s| ==> s[..j][k - 1] == '\n';
  }

  /** Past a field of length `k` without a newline, the split at `k` is decided by the operators. */
  lemma SplitStep(s: string, k: nat)
    requires 1 <= k < |s| && '\n' !in s[..k - 1] && s[k - 1] != '\n'
    ensures '\n' !in s[..k]
    ensures SplitsAt(s, k) <==> OpAt(s, k, Ops).Some?
  {
    assert s[..k] == s[..k - 1] + [s[k - 1]];
  }

  /** `EXPR_RE.match(s)`: `None` when there is no match. */
  function SplitExpr(s: string): (r: Option<Expr>)
    ensures r.Some? ==> (s == r.value.field + r.value.op + r.value.rhs
      && r.value.field != "" && r.value.rhs != "" && r.value.op in Ops
      && '\n' !in r.value.field && '\n' !in r.value.rhs)
  {
    if s == "" then None
    else
      match SplitFrom(s, 1)
      case None => None
      case Some(j) =>
        var op := OpAt(s, j, Ops).value;
        SplitParts(s, j, op);
        Some(Expr(s[..j], op, s[j + |op|..]))
  }

  lemma SplitParts(s: string, j: nat, op: string)
    requires j <= |s| && Fits(s, j, op)
    ensures s == s[..j] + op + s[j + |op|..]
  {
    assert s == s[..j] + s[j..j + |op|] + s[j + |op|..];
    assert s[j..][..|op|] == s[j..j + |op|];
  }

  /** The expression matches exactly when some field length admits an operator, and then the
      field is the shortest such one and the operator the first alternative that fits there. */
  lemma SplitExprIff(s: string)
    ensures SplitExpr(s).Some? <==> exists k :: SplitsAt(s, k)
    ensures SplitExpr(s).Some? ==> var k := |SplitExpr(s).value.field|;
      SplitsAt(s, k) && (forall i :: 0 <= i < k ==> !SplitsAt(s, i))
      && SplitExpr(s).value.op == OpAt(s, k, Ops).value
  {
    if s != "" {
      var r := SplitFrom(s, 1);
      assert forall k :: SplitsAt(s, k) ==> 1 <= k;
    }
  }

  /** A character that can begin an operator. */
  predicate OpChar(c: char)
  {
    c == '=' || c == '!' || c == '<' || c == '>'
  }

  /** A field without operator characters, then an operator, then a rest that does not begin
      with `=`, splits back into those three parts. */
  lemma SplitExprExact(field: string, op: string, rhs: string)
    requires field != "" && '\n' !in field && forall i :: 0 <= i < |field| ==> !OpChar(field[i])
    requires op in Ops && rhs != "" && '\n' !in rhs && rhs[0] != '='
    ensures SplitExpr(field + op + rhs) == Some(Expr(field, op, rhs))
  {
    var s := field + op + rhs;
    var k := |field|;
    assert s[..k] == field;
    assert s[k..] == op + rhs;
    assert s[k + |op|..] == rhs;
    NoOpInField(s, k);
    OpAtExact(s, k, op);
    assert SplitsAt(s, k);
    SplitExprIff(s);
    var e := SplitExpr(s).value;
    assert |e.field| == k;
  }

  /** No operator fits inside a field that holds no operator character. */
  lemma NoOpInField(s: string, k: nat)
    requires k <= |s| && forall i :: 0 <= i < k ==> !OpChar(s[i])
    ensures forall i :: 0 <= i < k ==> !SplitsAt(s, i)
  {
    forall i | 0 <= i < k
      ensures OpAt(s, i, Ops).None?
    {
      forall n | 0 <= n < |Ops|
        ensures !Fits(s, i, Ops[n])
      {
        var o := Ops[n];
        assert OpChar(o[0]);
        if StartsWith(s[i..], o) {
          assert s[i..][0] == o[0];
        }
      }
    }
  }

  /** Where `op` is followed by a character other than `=`, `op` is the alternative that is
      taken. */
  lemma OpAtExact(s: string, k: nat, op: string)
    requires op in Ops && k + |op| < |s| && s[k..k + |op|] == op && '\n' !in s[k + |op|..]
    requires s[k + |op|] != '='
    ensures OpAt(s, k, Ops) == Some(op)
  {
    assert StartsWith(s[k..], op) by { assert s[k..][..|op|] == s[k..k + |op|]; }
    assert s[k] == op[0] by { assert s[k..k + |op|][0] == s[k]; }
    assert |op| == 2 ==> s[k + 1] == op[1] by {
      if |op| == 2 { assert s[k..k + |op|][1] == s[k + 1]; }
    }
    forall j | 0 <= j < |Ops| && Fits(s, k, Ops[j])
      ensures Ops[j][0] == s[k] && (|Ops[j]| == 2 ==> Ops[j][1] == s[k + 1])
    {
      FitsHead(s, k, Ops[j]);
    }
    var n :| 0 <= n < |Ops| && Ops[n] == op;
    OpAtFirst(s, k, Ops, n);
  }

  /** An operator that fits at `k` spells the characters there. */
  lemma FitsHead(s: string, k: nat, o: string)
    requires k <= |s| && o != [] && Fits(s, k, o)
    ensures s[k] == o[0] && (|o| >= 2 ==> s[k + 1] == o[1])
  {
    assert s[k..][..|o|] == o;
    assert s[k..][0] == s[k];
    if |o| >= 2 {
      assert s[k..][1] == s[k + 1];
    }
  }

  /** The first alternative that fits is the one taken. */
  lemma OpAtFirst(s: string, k: nat, ops: seq<string>, n: nat)
    requires k <= |s| && n < |ops| && Fits(s, k, ops[n])
    requires forall j :: 0 <= j < n ==> !Fits(s, k, ops[j])
    ensures OpAt(s, k, ops) == Some(ops[n])
    decreases n
  {
    if n > 0 {
      assert forall j :: 0 <= j < n - 1 ==> ops[1..][j] == ops[j + 1];
      OpAtFirst(s, k, ops[1..], n - 1);
    }
  }

  /** `text.strip('"').strip("'")`. */
  function StripQuotes(text: string): string
  {
    StripChars(StripChars(text, {'"'}), {'\''})
  }

  // ---------------------------------------------------------------------------------------
  // Building the predicate list

  /** The predicates built from an option's values, appended to `acc` in order; the first
      invalid value raises. */
  function ParseAll<C>(acc: seq<C>, specs: seq<string>, parse: string -> Result<C>): Result<seq<C>>
  {
    if specs == [] then Ok(acc)
    else
      match ParseAll(acc, specs[..|specs| - 1], parse)
      case Err(m) => Err(m)
      case Ok(cs) =>
        match parse(specs[|specs| - 1])
        case Err(m) => Err(m)
        case Ok(c) => Ok(cs + [c])
  }

  /** One of `main`'s loops appending to the predicate list. */
  method AppendAll<C>(acc: seq<C>, specs: seq<string>, parse: string -> Result<C>) returns (r: Result<seq<C>>)
    ensures r == ParseAll(acc, specs, parse)
  {
    var preds := acc;
    var i := 0;
    while i < |specs|
      invariant 0 <= i <= |specs|
      invariant ParseAll(acc, specs[..i], parse) == Ok(preds)
    {
      assert specs[..i + 1][..i] == specs[..i];
      var c := parse(specs[i]);
      if c.Err? {
        assert ParseAll(acc, specs[..i + 1], parse) == Err(c.msg);
        ParseAllErr(acc, specs, parse, i + 1);
        return Err(c.msg);
      }
      preds := preds + [c.value];
      i := i + 1;
    }
    assert specs[..i] == specs;
    return Ok(preds);
  }

  /** An error among the first values is the error of them all. */
  lemma {:induction false} ParseAllErr<C>(acc: seq<C>, specs: seq<string>, parse: string -> Result<C>, n: nat)
    requires n <= |specs| && ParseAll(acc, specs[..n], parse).Err?
    ensures ParseAll(acc, specs, parse) == ParseAll(acc, specs[..n], parse)
    decreases |specs| - n
  {
    if n < |specs| {
      assert specs[..n + 1][..n] == specs[..n];
      ParseAllErr(acc, specs, parse, n + 1);
    } else {
      assert specs[..n] == specs;
    }
  }

  /** The list fails exactly when some value fails to parse; otherwise it is `acc` followed by
      one predicate per value, in order. */
  lemma {:induction false} ParseAllShape<C>(acc: seq<C>, specs: seq<string>, parse: string -> Result<C>)
    ensures ParseAll(acc, specs, parse).Ok? <==> forall i :: 0 <= i < |specs| ==> parse(specs[i]).Ok?
    ensures ParseAll(acc, specs, parse).Ok? ==> var cs := ParseAll(acc, specs, parse).value;
      |cs| == |acc| + |specs| && cs[..|acc|] == acc
      && forall i :: 0 <= i < |specs| ==> parse(specs[i]) == Ok(cs[|acc| + i])
  {
    if specs != [] {
      var init := specs[..|specs| - 1];
      var prev := ParseAll(acc, init, parse);
      var c := parse(specs[|specs| - 1]);
      ParseAllShape(acc, init, parse);
      assert forall i :: 0 <= i < |init| ==> init[i] == specs[i];
      if prev.Ok? && c.Ok? {
        var cs := ParseAll(acc, specs, parse).value;
        assert cs == prev.value + [c.value];
        forall i | 0 <= i < |specs| ensures parse(specs[i]) == Ok(cs[|acc| + i]) {
          if i < |init| {
            assert cs[|acc| + i] == prev.value[|acc| + i];
          } else {
            assert cs[|acc| + i] == c.value;
          }
        }
      } else if prev.Err? {
        var i :| 0 <= i < |init| && !parse(init[i]).Ok?;
        assert !parse(specs[i]).Ok?;
      }
    }
  }
}
