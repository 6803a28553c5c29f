/** The row filter of the CSV commands (csv-tools/scripts/filter.py): string comparisons, set
    membership, substring and pattern conditions and the empty / non-empty checks on a column,
    combined with AND or OR. */
module CsvFilter {
  import opened Text
  import opened Seqs
  import opened Conditions
  import opened CsvCommon

  /** `parse_rhs(raw)`. */
  function ParseRhs(raw: string): string
  {
    StripQuotes(Strip(raw))
  }

  /** Python's comparison operators on two strings. */
  function CompareStr(op: string, a: string, b: string): bool
  {
    if op == "==" then a == b
    else if op == "!=" then a != b
    else if op == ">" then StrLess(b, a)
    else if op == "<" then StrLess(a, b)
    else if op == ">=" then StrLessEq(b, a)
    else StrLessEq(a, b)
  }

  datatype Condition =
    | Where(field: string, op: string, rhs: string)
    | InSet(col: string, values: set<string>)
    | Substr(col: string, substring: string)
    | Matches(col: string, pattern: string)
    | IsEmpty(col: string)
    | NonEmpty(col: string)

  /** Whether `row` passes the predicate built from a condition; `search(pattern, text)` stands
      for `re.search`. */
  predicate Satisfies(c: Condition, row: Row, search: (string, string) -> bool)
  {
    match c
    case Where(field, op, rhs) => CompareStr(op, Get(row, field), rhs)
    case InSet(col, values) => Strip(Get(row, col)) in values
    case Substr(col, substring) => Contains(Get(row, col), substring)
    case Matches(col, pattern) => search(pattern, Get(row, col))
    case IsEmpty(col) => Strip(Get(row, col)) == ""
    case NonEmpty(col) => Strip(Get(row, col)) != ""
  }

  /** `compare_condition(expr)`. */
  function CompareCondition(expr: string): (r: Result<Condition>)
    ensures r.Ok? <==> SplitExpr(Strip(expr)).Some?
    ensures r.Ok? ==> r.value.Where? && r.value.op in Ops
    ensures r.Ok? ==> var e := SplitExpr(Strip(expr)).value;
      r.value == Where(Strip(e.field), e.op, ParseRhs(e.rhs))
    ensures r.Err? ==> r.msg == "Invalid --where expression: " + StrRepr(expr)
  {
    match SplitExpr(Strip(expr))
    case None => Err("Invalid --where expression: " + StrRepr(expr))
    case Some(e) => Ok(Where(Strip(e.field), e.op, ParseRhs(e.rhs)))
  }

  /** A field, an operator and a right-hand side written one after the other give back the
      comparison of that column, with that operator, against the unquoted right-hand side. */
  lemma CompareConditionParts(field: string, op: string, rhs: string)
    requires field != "" && '\n' !in field && forall i :: 0 <= i < |field| ==> !OpChar(field[i])
    requires op in Ops && rhs != "" && '\n' !in rhs && rhs[0] != '='
    requires field[0] !in Whitespace && rhs[|rhs| - 1] !in Whitespace
    ensures CompareCondition(field + op + rhs) == Ok(Where(Strip(field), op, ParseRhs(rhs)))
  {
    var expr := field + op + rhs;
    assert expr[0] == field[0] && expr[|expr| - 1] == rhs[|rhs| - 1];
    StripDigits(expr);
    SplitExprExact(field, op, rhs);
  }

  /** `--where "age>=30"` compares the column `age` with the text `30`. */
  lemma CompareAgeExample()
    ensures CompareCondition("age" + ">=" + "30") == Ok(Where("age", ">=", "30"))
  {
    var field, op, rhs := "age", ">=", "30";
    assert forall i :: 0 <= i < |field| ==> !OpChar(field[i]);
    assert op in Ops;
    assert field[0] !in Whitespace && rhs[|rhs| - 1] !in Whitespace;
    CompareConditionParts(field, op, rhs);
    AgeParts();
  }

  lemma AgeParts()
    ensures Strip("age") == "age" && ParseRhs("30") == "30"
  {
    StripDigits("age");
    StripDigits("30");
    assert StripQuotes("30") == "30";
  }

  /** `{v.strip() for v in values}`. */
  function StrippedSet(values: seq<string>): (r: set<string>)
    ensures forall x :: x in r <==> exists i :: 0 <= i < |values| && Strip(values[i]) == x
  {
    set i | 0 <= i < |values| :: Strip(values[i])
  }

  /** The `--in` option: `column:value1,value2`. */
  function InCondition(spec: string): (r: Result<Condition>)
    ensures r.Ok? <==> ':' in spec
    ensures r.Ok? ==> r.value == InSet(Strip(SplitFirst(spec, ':').0), StrippedSet(Split(SplitFirst(spec, ':').1, ',')))
  {
    if ':' !in spec then Err("--in must be column:value1,value2")
    else
      var parts := SplitFirst(spec, ':');
      Ok(InSet(Strip(parts.0), StrippedSet(Split(parts.1, ','))))
  }

  /** A `--contains` value: the column is stripped, the substring is not. */
  function ContainsCondition(spec: string): (r: Result<Condition>)
    ensures r.Ok? <==> ':' in spec
    ensures r.Ok? ==> r.value == Substr(Strip(SplitFirst(spec, ':').0), SplitFirst(spec, ':').1)
  {
    if ':' !in spec then Err("--contains must be column:substring")
    else
      var parts := SplitFirst(spec, ':');
      Ok(Substr(Strip(parts.0), parts.1))
  }

  /** A `--regex` value, for a pattern that compiles. */
  function RegexCondition(spec: string): (r: Result<Condition>)
    ensures r.Ok? <==> ':' in spec
    ensures r.Ok? ==> r.value == Matches(Strip(SplitFirst(spec, ':').0), SplitFirst(spec, ':').1)
  {
    if ':' !in spec then Err("--regex must be column:pattern")
    else
      var parts := SplitFirst(spec, ':');
      Ok(Matches(Strip(parts.0), parts.1))
  }

  function EmptyParser(empty: bool): string -> Result<Condition>
  {
    (col: string) => Ok(if empty then IsEmpty(Strip(col)) else NonEmpty(Strip(col)))
  }

  /** The `--where` predicate compares the cell (`""` when the column is missing) with the
      unquoted right-hand side as strings; `--empty` and `--non-empty` on a column are exact
      complements; `--in` is membership of the stripped cell among the stripped values. */
  lemma ConditionMeaning(row: Row, field: string, rhs: string, col: string, values: seq<string>, search: (string, string) -> bool)
    ensures Satisfies(Where(field, "<", rhs), row, search) == StrLess(Get(row, field), rhs)
    ensures Satisfies(Where(field, ">", rhs), row, search) == StrLess(rhs, Get(row, field))
    ensures Satisfies(Where(field, "==", rhs), row, search) == (Get(row, field) == rhs)
    ensures !(col in row) ==> Satisfies(Where(col, "==", rhs), row, search) == (rhs == "")
    ensures Satisfies(IsEmpty(col), row, search) == !Satisfies(NonEmpty(col), row, search)
    ensures Satisfies(InSet(col, StrippedSet(values)), row, search) <==>
      exists i :: 0 <= i < |values| && Strip(values[i]) == Strip(Get(row, col))
  {
  }

  /** Exactly one of `<`, `==` and `>` holds between two cells, and `<=` is `<` or `==`. */
  lemma CompareTrichotomy(a: string, b: string)
    ensures CompareStr("<", a, b) || CompareStr("==", a, b) || CompareStr(">", a, b)
    ensures !(CompareStr("<", a, b) && CompareStr(">", a, b))
    ensures !(CompareStr("<", a, b) && CompareStr("==", a, b))
    ensures CompareStr("<=", a, b) == (CompareStr("<", a, b) || CompareStr("==", a, b))
    ensures CompareStr(">=", a, b) == CompareStr("<=", b, a)
  {
    if a != b {
      StrLessTotal(a, b);
      if StrLess(a, b) {
        StrLessAsymmetric(a, b);
      }
    } else {
      StrLessIrreflexive(a);
    }
  }

  /** The option values in the order `main` reads them. */
  datatype Options = Options(wheres: seq<string>, inSpec: Option<string>, contains: seq<string>,
                             regexes: seq<string>, empties: seq<string>, nonEmpties: seq<string>)

  /** The `--in` value taken into account: none, or an empty one, adds no predicate. */
  function InSpecs(inSpec: Option<string>): seq<string>
  {
    if inSpec.Some? && inSpec.value != "" then [inSpec.value] else []
  }

  /** All the predicates `main` builds, in option order; the first invalid value raises. */
  function BuiltConditions(o: Options): Result<seq<Condition>>
  {
    match ParseAll([], o.wheres, CompareCondition)
    case Err(m) => Err(m)
    case Ok(a) =>
      match ParseAll(a, InSpecs(o.inSpec), InCondition)
      case Err(m) => Err(m)
      case Ok(b) =>
        match ParseAll(b, o.contains, ContainsCondition)
        case Err(m) => Err(m)
        case Ok(c) =>
          match ParseAll(c, o.regexes, RegexCondition)
          case Err(m) => Err(m)
          case Ok(d) =>
            match ParseAll(d, o.empties, EmptyParser(true))
            case Err(m) => Err(m)
            case Ok(e) => ParseAll(e, o.nonEmpties, EmptyParser(false))
  }

  /** `main`'s construction of `preds`. */
  method BuildConditions(o: Options) returns (r: Result<seq<Condition>>)
    ensures r == BuiltConditions(o)
  {
    r := AppendAll([], o.wheres, CompareCondition);
    if r.Err? { return; }
    r := AppendAll(r.value, InSpecs(o.inSpec), InCondition);
    if r.Err? { return; }
    r := AppendAll(r.value, o.contains, ContainsCondition);
    if r.Err? { return; }
    r := AppendAll(r.value, o.regexes, RegexCondition);
    if r.Err? { return; }
    r := AppendAll(r.value, o.empties, EmptyParser(true));
    if r.Err? { return; }
    r := AppendAll(r.value, o.nonEmpties, EmptyParser(false));
  }

  /** A `--in`, `--contains` or `--regex` value without `:` raises; the column checks never do. */
  lemma OptionErrors(acc: seq<Condition>, specs: seq<string>, cols: seq<string>, empty: bool)
    ensures ParseAll(acc, specs, InCondition).Err? <==> exists i :: 0 <= i < |specs| && ':' !in specs[i]
    ensures ParseAll(acc, specs, ContainsCondition).Err? <==> exists i :: 0 <= i < |specs| && ':' !in specs[i]
    ensures ParseAll(acc, specs, RegexCondition).Err? <==> exists i :: 0 <= i < |specs| && ':' !in specs[i]
    ensures ParseAll(acc, cols, EmptyParser(empty)).Ok?
  {
    ParseAllShape(acc, specs, InCondition);
    ParseAllShape(acc, specs, ContainsCondition);
    ParseAllShape(acc, specs, RegexCondition);
    ParseAllShape(acc, cols, EmptyParser(empty));
  }

  /** `combined(row)`. */
  predicate Combined(preds: seq<Condition>, useOr: bool, row: Row, search: (string, string) -> bool)
  {
    if preds == [] then true
    else if useOr then exists i :: 0 <= i < |preds| && Satisfies(preds[i], row, search)
    else forall i :: 0 <= i < |preds| ==> Satisfies(preds[i], row, search)
  }

  /** `[r for r in rows if combined(r)]`. */
  function FilterRows(rows: seq<Row>, preds: seq<Condition>, useOr: bool, search: (string, string) -> bool): seq<Row>
  {
    Filter(rows, (r: Row) => Combined(preds, useOr, r, search))
  }

  /** The output is the subsequence of the rows that pass: all rows without predicates, every
      kept row passes, and no passing row is dropped. */
  lemma FilterRowsProperties(rows: seq<Row>, preds: seq<Condition>, useOr: bool, search: (string, string) -> bool)
    ensures preds == [] ==> FilterRows(rows, preds, useOr, search) == rows
    ensures IsSubseq(FilterRows(rows, preds, useOr, search), rows)
    ensures forall i :: 0 <= i < |FilterRows(rows, preds, useOr, search)| ==>
      Combined(preds, useOr, FilterRows(rows, preds, useOr, search)[i], search)
    ensures forall i :: 0 <= i < |rows| && Combined(preds, useOr, rows[i], search) ==>
      rows[i] in FilterRows(rows, preds, useOr, search)
  {
    var p := (r: Row) => Combined(preds, useOr, r, search);
    FilterIsSubseq(rows, p);
    if preds == [] {
      FilterAll(rows, p);
    }
  }
}
