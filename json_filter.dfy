/** The row filter of the JSON commands (json-tools/scripts/filter.py): `--where` comparisons,
    `--exists`/`--not-exists`, `--type` and `--contains` conditions, combined with AND or OR over
    the rows of the resolved array. */
module JsonFilter {
  import opened Text
  import opened Seqs
  import opened Json
  import opened JsonCommon
  import opened Conditions

  // ---------------------------------------------------------------------------------------
  // The right-hand side

  /** `parse_rhs(raw)`. `floatRepr` stands for `float()`: the repr of the float it returns, or
      None for a ValueError. */
  function ParseRhs(raw: string, floatRepr: string -> Option<string>): JValue
  {
    var text := Strip(raw);
    var low := Lower(text);
    if low == "true" then JBool(true)
    else if low == "false" then JBool(false)
    else if low == "null" then JNull
    else if '.' in text then
      match floatRepr(text)
      case Some(repr) => JFloat(repr)
      case None => JStr(StripQuotes(text))
    else
      match ParseInt(text)
      case Some(i) => JInt(i)
      case None => JStr(StripQuotes(text))
  }

  /** The keywords are recognised in any case. */
  lemma ParseRhsKeywords(raw: string, floatRepr: string -> Option<string>)
    ensures Lower(Strip(raw)) == "true" ==> ParseRhs(raw, floatRepr) == JBool(true)
    ensures Lower(Strip(raw)) == "false" ==> ParseRhs(raw, floatRepr) == JBool(false)
    ensures Lower(Strip(raw)) == "null" ==> ParseRhs(raw, floatRepr) == JNull
  {
  }

  /** A rendered integer parses back to that integer. */
  lemma ParseRhsInt(i: int, floatRepr: string -> Option<string>)
    ensures ParseRhs(IntToString(i), floatRepr) == JInt(i)
  {
    var t := IntToString(i);
    IntToStringShape(i);
    assert Strip(t) == t by {
      StripDigits(t);
    }
    NotKeyword(t);
    IntRoundTrip(i);
    assert ParseInt(Strip(t)) == Some(i);
  }

  /** Text starting with a sign or a digit is none of the keywords, in any case. */
  lemma NotKeyword(t: string)
    requires t != [] && (t[0] == '-' || IsDigit(t[0]))
    ensures Lower(t) != "true" && Lower(t) != "false" && Lower(t) != "null"
  {
    assert Lower(t)[0] == t[0];
  }

  /** A rendered integer is a sign and digits: no dot, no surrounding blanks. */
  lemma IntToStringShape(i: int)
    ensures var t := IntToString(i);
      t != [] && (t[0] == '-' || IsDigit(t[0])) && IsDigit(t[|t| - 1]) && '.' !in t
      && t[0] !in Whitespace && t[|t| - 1] !in Whitespace
  {
    var d := NatToString(if i < 0 then -i else i);
    var t := IntToString(i);
    if i < 0 {
      assert t == "-" + d;
      assert forall j :: 1 <= j < |t| ==> t[j] == d[j - 1];
    }
  }

  /** Text that is neither a keyword nor a number has its quotes stripped. */
  lemma ParseRhsFallback(raw: string, floatRepr: string -> Option<string>)
    requires Lower(Strip(raw)) !in {"true", "false", "null"}
    requires if '.' in Strip(raw) then floatRepr(Strip(raw)) == None else ParseInt(Strip(raw)) == None
    ensures ParseRhs(raw, floatRepr) == JStr(StripQuotes(Strip(raw)))
  {
  }

  // ---------------------------------------------------------------------------------------
  // Comparison

  function Sign(n: int): int
  {
    if n < 0 then -1 else if n > 0 then 1 else 0
  }

  predicate IsNumber(v: JValue)
  {
    v.JInt? || v.JBool?
  }

  /** The integer value of a bool or an int (a bool is an int in Python). */
  function NumberValue(v: JValue): int
    requires IsNumber(v)
  {
    if v.JInt? then v.i else if v.b then 1 else 0
  }

  /** The sign of Python's ordering of two values, or None where ordering raises TypeError. */
  function Order(a: JValue, b: JValue): (r: Option<int>)
    ensures r.Some? ==> -1 <= r.value <= 1
    decreases a, 1
  {
    if IsNumber(a) && IsNumber(b) then Some(Sign(NumberValue(a) - NumberValue(b)))
    else if a.JStr? && b.JStr? then Some(if a.s == b.s then 0 else if StrLess(a.s, b.s) then -1 else 1)
    else if a.JArr? && b.JArr? then LexOrder(a, b, 0)
    else None
  }

  /** List ordering from index `i`: the first unequal pair decides, else the lengths do. */
  function LexOrder(a: JValue, b: JValue, i: nat): (r: Option<int>)
    requires a.JArr? && b.JArr? && i <= |a.elems| && i <= |b.elems|
    ensures r.Some? ==> -1 <= r.value <= 1
    decreases a, 0, |a.elems| - i
  {
    if i == |a.elems| || i == |b.elems| then Some(Sign(|a.elems| - |b.elems|))
    else if a.elems[i] == b.elems[i] then LexOrder(a, b, i + 1)
    else Order(a.elems[i], b.elems[i])
  }

  function Negate(r: Option<int>): Option<int>
  {
    if r.Some? then Some(-r.value) else None
  }

  /** Swapping the operands negates the ordering, and leaves it undefined where it was. */
  lemma {:induction false} OrderConverse(a: JValue, b: JValue)
    ensures Order(b, a) == Negate(Order(a, b))
    decreases a, 1
  {
    if IsNumber(a) && IsNumber(b) {
    } else if a.JStr? && b.JStr? {
      if a.s != b.s {
        StrLessTotal(a.s, b.s);
        if StrLess(a.s, b.s) {
          StrLessAsymmetric(a.s, b.s);
        }
      }
    } else if a.JArr? && b.JArr? {
      LexOrderConverse(a, b, 0);
    }
  }

  lemma {:induction false} LexOrderConverse(a: JValue, b: JValue, i: nat)
    requires a.JArr? && b.JArr? && i <= |a.elems| && i <= |b.elems|
    ensures LexOrder(b, a, i) == Negate(LexOrder(a, b, i))
    decreases a, 0, |a.elems| - i
  {
    if i == |a.elems| || i == |b.elems| {
    } else if a.elems[i] == b.elems[i] {
      LexOrderConverse(a, b, i + 1);
    } else {
      OrderConverse(a.elems[i], b.elems[i]);
    }
  }

  /** `OPS[op](a, b)`, or None for a TypeError. */
  function Holds(op: string, a: JValue, b: JValue): Option<bool>
  {
    if op == "==" then Some(a == b)
    else if op == "!=" then Some(a != b)
    else
      match Order(a, b)
      case None => None
      case Some(c) =>
        Some(if op == ">" then c > 0 else if op == "<" then c < 0 else if op == ">=" then c >= 0 else c <= 0)
  }

  /** On integers the operators mean what they say, and `>` is `<` with the operands swapped. */
  lemma HoldsProperties(op: string, a: JValue, b: JValue, x: int, y: int)
    requires op in Ops
    ensures Holds(op, JInt(x), JInt(y)) == Some(
      if op == "==" then x == y else if op == "!=" then x != y else if op == ">" then x > y
      else if op == "<" then x < y else if op == ">=" then x >= y else x <= y)
    ensures Holds(">", a, b) == Holds("<", b, a) && Holds(">=", a, b) == Holds("<=", b, a)
  {
    OrderConverse(a, b);
  }

  /** The compare predicate's loop: some value satisfies the operator; values whose comparison
      raises are skipped. */
  function AnyHolds(values: seq<JValue>, op: string, rhs: JValue): (r: bool)
    ensures r <==> exists i :: 0 <= i < |values| && Holds(op, values[i], rhs) == Some(true)
  {
    if values == [] then false
    else if Holds(op, values[0], rhs) == Some(true) then true
    else
      var r := AnyHolds(values[1..], op, rhs);
      assert forall i :: 1 <= i < |values| ==> values[i] == values[1..][i - 1];
      r
  }

  /** The contains predicate's loop: some string value contains the substring. */
  function AnyContains(values: seq<JValue>, substring: string): (r: bool)
    ensures r <==> exists i :: 0 <= i < |values| && values[i].JStr? && Contains(values[i].s, substring)
  {
    if values == [] then false
    else if values[0].JStr? && Contains(values[0].s, substring) then true
    else
      var r := AnyContains(values[1..], substring);
      assert forall i :: 1 <= i < |values| ==> values[i] == values[1..][i - 1];
      r
  }

  // ---------------------------------------------------------------------------------------
  // Conditions

  datatype Condition =
    | Compare(field: string, op: string, rhs: JValue)
    | Exists(path: string, invert: bool)
    | TypeIs(field: string, expected: string)
    | Has(field: string, substring: string)
    | Matches(field: string, pattern: string)

  /** Whether `record` passes the predicate built from a condition. `search(pattern, text)`
      stands for `re.search`. */
  predicate Satisfies(c: Condition, record: JValue, search: (string, string) -> bool)
  {
    match c
    case Compare(field, op, rhs) => AnyHolds(Extract(record, field), op, rhs)
    case Exists(path, invert) => if invert then !ExistsPath(record, Strip(path)) else ExistsPath(record, Strip(path))
    case TypeIs(field, expected) => exists v :: v in Extract(record, field) && TypeName(v) == expected
    case Has(field, substring) => AnyContains(Extract(record, field), substring)
    case Matches(field, pattern) => exists v :: v in Extract(record, field) && v.JStr? && search(pattern, v.s)
  }

  const AllowedTypes: set<string> := {"string", "int", "float", "bool", "null", "array", "object"}

  /** `str(sorted(ALLOWED_TYPES))`, as the error message prints it. */
  const AllowedTypesText := "['array', 'bool', 'float', 'int', 'null', 'object', 'string']"

  /** `compare_condition(expr)`. */
  function CompareCondition(expr: string, floatRepr: string -> Option<string>): (r: Result<Condition>)
    ensures r.Ok? <==> SplitExpr(Strip(expr)).Some?
    ensures r.Ok? ==> r.value.Compare? && r.value.op in Ops
    ensures r.Ok? ==> var e := SplitExpr(Strip(expr)).value;
      r.value == Compare(Strip(e.field), e.op, ParseRhs(e.rhs, floatRepr))
    ensures r.Err? ==> r.msg == "Invalid --where expression: " + expr
  {
    match SplitExpr(Strip(expr))
    case None => Err("Invalid --where expression: " + expr)
    case Some(e) => Ok(Compare(Strip(e.field), e.op, ParseRhs(e.rhs, floatRepr)))
  }

  /** A field, an operator and a right-hand side written one after the other give back the
      comparison of that field, with that operator, against the parsed right-hand side. */
  lemma CompareConditionParts(field: string, op: string, rhs: string, floatRepr: string -> Option<string>)
    requires field != "" && '\n' !in field && forall i :: 0 <= i < |field| ==> !OpChar(field[i])
    requires op in Ops && rhs != "" && '\n' !in rhs && rhs[0] != '='
    requires field[0] !in Whitespace && rhs[|rhs| - 1] !in Whitespace
    ensures CompareCondition(field + op + rhs, floatRepr) == Ok(Compare(Strip(field), op, ParseRhs(rhs, floatRepr)))
  {
    var expr := field + op + rhs;
    assert expr[0] == field[0] && expr[|expr| - 1] == rhs[|rhs| - 1];
    StripDigits(expr);
    SplitExprExact(field, op, rhs);
  }

  /** `--where "age>=30"` compares the field `age` with the integer 30. */
  lemma CompareAgeExample(floatRepr: string -> Option<string>)
    ensures CompareCondition("age" + ">=" + "30", floatRepr) == Ok(Compare("age", ">=", JInt(30)))
  {
    var field, op, rhs := "age", ">=", "30";
    assert forall i :: 0 <= i < |field| ==> !OpChar(field[i]);
    assert op in Ops;
    assert field[0] !in Whitespace && rhs[|rhs| - 1] !in Whitespace;
    CompareConditionParts(field, op, rhs, floatRepr);
    AgeParts(floatRepr);
  }

  lemma AgeParts(floatRepr: string -> Option<string>)
    ensures Strip("age") == "age" && ParseRhs("30", floatRepr) == JInt(30)
  {
    StripDigits("age");
    assert IntToString(30) == "30";
    ParseRhsInt(30, floatRepr);
  }

  /** `type_condition(spec)`. */
  function TypeCondition(spec: string): (r: Result<Condition>)
    ensures r.Ok? <==> '=' in spec && Strip(SplitFirst(spec, '=').1) in AllowedTypes
    ensures r.Ok? ==> r.value == TypeIs(Strip(SplitFirst(spec, '=').0), Strip(SplitFirst(spec, '=').1))
    ensures r.Err? && '=' in spec ==>
      r.msg == "Unsupported type '" + Strip(SplitFirst(spec, '=').1) + "'. Use one of: " + AllowedTypesText
    ensures '=' !in spec ==> r == Err("--type must use field=typename syntax")
  {
    if '=' !in spec then Err("--type must use field=typename syntax")
    else
      var parts := SplitFirst(spec, '=');
      var field := Strip(parts.0);
      var expected := Strip(parts.1);
      if expected !in AllowedTypes then Err("Unsupported type '" + expected + "'. Use one of: " + AllowedTypesText)
      else Ok(TypeIs(field, expected))
  }

  /** `contains_condition(spec)`: the field is stripped, the substring is not. */
  function ContainsCondition(spec: string): (r: Result<Condition>)
    ensures r.Ok? <==> ':' in spec
    ensures r.Ok? ==> r.value == Has(Strip(SplitFirst(spec, ':').0), SplitFirst(spec, ':').1)
  {
    if ':' !in spec then Err("--contains must be field:substring")
    else
      var parts := SplitFirst(spec, ':');
      Ok(Has(Strip(parts.0), parts.1))
  }

  /** `regex_condition(spec)`, for a pattern that compiles. */
  function RegexCondition(spec: string): (r: Result<Condition>)
    ensures r.Ok? <==> ':' in spec
    ensures r.Ok? ==> r.value == Matches(Strip(SplitFirst(spec, ':').0), SplitFirst(spec, ':').1)
  {
    if ':' !in spec then Err("--regex must be field:pattern")
    else
      var parts := SplitFirst(spec, ':');
      Ok(Matches(Strip(parts.0), parts.1))
  }

  /** A type condition holds exactly when some extracted value carries the tag; a contains
      condition exactly when some extracted string contains the substring; an inverted exists
      condition exactly when the plain one fails. */
  lemma ConditionMeaning(record: JValue, field: string, expected: string, substring: string, path: string,
                         search: (string, string) -> bool)
    ensures Satisfies(TypeIs(field, expected), record, search) <==>
      exists i :: 0 <= i < |Extract(record, field)| && TypeName(Extract(record, field)[i]) == expected
    ensures Satisfies(Has(field, substring), record, search) <==>
      exists i :: 0 <= i < |Extract(record, field)| && Extract(record, field)[i].JStr? && Contains(Extract(record, field)[i].s, substring)
    ensures Satisfies(Exists(path, true), record, search) == !Satisfies(Exists(path, false), record, search)
    ensures Satisfies(Exists(path, false), record, search) == ExistsPath(record, Strip(path))
  {
  }

  // ---------------------------------------------------------------------------------------
  // Building and combining the predicates (`main`)

  /** The values of the option lists, in the order `main` reads them. */
  datatype Options = Options(wheres: seq<string>, existsPaths: seq<string>, notExists: seq<string>,
                             types: seq<string>, contains: seq<string>, regexes: seq<string>)

  function WhereParser(floatRepr: string -> Option<string>): string -> Result<Condition>
  {
    (spec: string) => CompareCondition(spec, floatRepr)
  }

  function ExistsParser(invert: bool): string -> Result<Condition>
  {
    (spec: string) => Ok(Exists(spec, invert))
  }

  /** All the predicates `main` builds, in option order; the first invalid value raises. */
  function BuiltConditions(o: Options, floatRepr: string -> Option<string>): Result<seq<Condition>>
  {
    match ParseAll([], o.wheres, WhereParser(floatRepr))
    case Err(m) => Err(m)
    case Ok(a) =>
      match ParseAll(a, o.existsPaths, ExistsParser(false))
      case Err(m) => Err(m)
      case Ok(b) =>
        match ParseAll(b, o.notExists, ExistsParser(true))
        case Err(m) => Err(m)
        case Ok(c) =>
          match ParseAll(c, o.types, TypeCondition)
          case Err(m) => Err(m)
          case Ok(d) =>
            match ParseAll(d, o.contains, ContainsCondition)
            case Err(m) => Err(m)
            case Ok(e) => ParseAll(e, o.regexes, RegexCondition)
  }

  /** `main`'s loops building the predicate list. */
  method BuildConditions(o: Options, floatRepr: string -> Option<string>) returns (r: Result<seq<Condition>>)
    ensures r == BuiltConditions(o, floatRepr)
  {
    r := AppendAll([], o.wheres, WhereParser(floatRepr));
    if r.Err? { return; }
    r := AppendAll(r.value, o.existsPaths, ExistsParser(false));
    if r.Err? { return; }
    r := AppendAll(r.value, o.notExists, ExistsParser(true));
    if r.Err? { return; }
    r := AppendAll(r.value, o.types, TypeCondition);
    if r.Err? { return; }
    r := AppendAll(r.value, o.contains, ContainsCondition);
    if r.Err? { return; }
    r := AppendAll(r.value, o.regexes, RegexCondition);
  }

  /** The exists options always parse, one predicate per path; a `--type` value fails exactly
      when it has no `=` or names an unknown tag, and a `--contains` or `--regex` value exactly
      when it has no `:`. */
  lemma OptionErrors(paths: seq<string>, invert: bool, acc: seq<Condition>, specs: seq<string>)
    ensures ParseAll(acc, paths, ExistsParser(invert)).Ok?
    ensures |ParseAll(acc, paths, ExistsParser(invert)).value| == |acc| + |paths|
    ensures ParseAll(acc, specs, TypeCondition).Err? <==>
      exists i :: 0 <= i < |specs| && ('=' !in specs[i] || Strip(SplitFirst(specs[i], '=').1) !in AllowedTypes)
    ensures ParseAll(acc, specs, ContainsCondition).Err? <==> exists i :: 0 <= i < |specs| && ':' !in specs[i]
    ensures ParseAll(acc, specs, RegexCondition).Err? <==> exists i :: 0 <= i < |specs| && ':' !in specs[i]
  {
    ParseAllShape(acc, paths, ExistsParser(invert));
    ParseAllShape(acc, specs, TypeCondition);
    ParseAllShape(acc, specs, ContainsCondition);
    ParseAllShape(acc, specs, RegexCondition);
  }

  predicate AllHold(conds: seq<Condition>, record: JValue, search: (string, string) -> bool)
  {
    forall i :: 0 <= i < |conds| ==> Satisfies(conds[i], record, search)
  }

  predicate AnyHold(conds: seq<Condition>, record: JValue, search: (string, string) -> bool)
  {
    exists i :: 0 <= i < |conds| && Satisfies(conds[i], record, search)
  }

  /** The filtered rows `main` writes. */
  function FilterRows(rows: seq<JValue>, conds: seq<Condition>, useOr: bool, search: (string, string) -> bool): seq<JValue>
  {
    if conds == [] then rows
    else if useOr then Filter(rows, (r: JValue) => AnyHold(conds, r, search))
    else Filter(rows, (r: JValue) => AllHold(conds, r, search))
  }

  /** Without predicates the rows pass unchanged; otherwise the output is the subsequence of the
      rows meeting all predicates (any of them under `--or`): nothing else is kept and nothing
      meeting them is dropped. */
  lemma FilterRowsProperties(rows: seq<JValue>, conds: seq<Condition>, useOr: bool, search: (string, string) -> bool)
    ensures conds == [] ==> FilterRows(rows, conds, useOr, search) == rows
    ensures IsSubseq(FilterRows(rows, conds, useOr, search), rows)
    ensures conds != [] ==> forall i :: 0 <= i < |FilterRows(rows, conds, useOr, search)| ==>
      var r := FilterRows(rows, conds, useOr, search)[i];
      if useOr then AnyHold(conds, r, search) else AllHold(conds, r, search)
    ensures conds != [] ==> forall i :: 0 <= i < |rows| && (if useOr then AnyHold(conds, rows[i], search) else AllHold(conds, rows[i], search)) ==>
      rows[i] in FilterRows(rows, conds, useOr, search)
  {
    if conds == [] {
      FilterAll(rows, (r: JValue) => true);
      FilterIsSubseq(rows, (r: JValue) => true);
    } else if useOr {
      FilterIsSubseq(rows, (r: JValue) => AnyHold(conds, r, search));
    } else {
      FilterIsSubseq(rows, (r: JValue) => AllHold(conds, r, search));
    }
  }
}
