/** The json `sort` command: the records of the selected array (or the document), stably sorted by
    the tuple of their values at the `--by` paths, compared as text or, under `--numeric`, as
    floats. */
module JsonSort {
  import opened Text
  import opened Seqs
  import opened Json
  import opened JsonCommon
  import opened Sorting

  // ---------------------------------------------------------------------------------------
  // Keys

  /** `normalize(value, False)`: None sorts as `""`, anything else as its `str`. A dict or a list
      prints as its Python `repr`, given as `reprOf`. */
  function TextKey(v: JValue, reprOf: JValue -> string): string
  {
    if v.JNull? then "" else if IsComposite(v) then reprOf(v) else PyStr(v)
  }

  /** `float(value)` for a value that is not None. Booleans convert exactly. An integer goes
      through `intToFloat`, which rounds it to the nearest double and gives None where Python
      raises `OverflowError`; that error is not caught, so it is the `Err` case. Float and string
      texts go through `parseFloat`, which gives None where Python raises `ValueError`. A dict or
      a list raises `TypeError`. `Ok(None)` stands for the two errors `normalize` catches. */
  function FloatOf(v: JValue, parseFloat: string -> Option<NumKey>, intToFloat: int -> Option<real>): Result<Option<NumKey>>
  {
    match v
    case JNull => Ok(None)
    case JBool(b) => Ok(Some(Num(if b then 1.0 else 0.0)))
    case JInt(i) =>
      (match intToFloat(i)
       case Some(x) => Ok(Some(Num(x)))
       case None => Err(OverflowMessage))
    case JFloat(r) => Ok(parseFloat(r))
    case JStr(s) => Ok(parseFloat(s))
    case JArr(_) => Ok(None)
    case JObj(_) => Ok(None)
  }

  const OverflowMessage := "OverflowError: int too large to convert to float"

  /** `normalize(value, True)`: None and a value `float` refuses sort as `-inf`; an integer too
      large for a float raises. */
  function NumberKey(v: JValue, parseFloat: string -> Option<NumKey>, intToFloat: int -> Option<real>): Result<NumKey>
  {
    match FloatOf(v, parseFloat, intToFloat)
    case Ok(Some(x)) => Ok(x)
    case Ok(None) => Ok(NegInf)
    case Err(m) => Err(m)
  }

  /** `key_for_record(record, fields, False)`. */
  function TextKeys(fields: seq<string>, reprOf: JValue -> string): JValue -> seq<string>
  {
    (record: JValue) => MapSeq(fields, (f: string) => TextKey(FirstValue(record, f, JNull), reprOf))
  }

  /** The key of one field under `--numeric`; the `-inf` in the `Err` case is never compared,
      because `sorted` computes every key before it compares any. */
  function FieldKey(record: JValue, f: string, parseFloat: string -> Option<NumKey>, intToFloat: int -> Option<real>): NumKey
  {
    match NumberKey(FirstValue(record, f, JNull), parseFloat, intToFloat)
    case Ok(k) => k
    case Err(_) => NegInf
  }

  /** `key_for_record(record, fields, True)`, for records where it does not raise. */
  function NumberKeys(fields: seq<string>, parseFloat: string -> Option<NumKey>, intToFloat: int -> Option<real>): JValue -> seq<NumKey>
  {
    (record: JValue) => MapSeq(fields, (f: string) => FieldKey(record, f, parseFloat, intToFloat))
  }

  /** The key of field `f` of `record` raises `OverflowError`. */
  predicate KeyRaises(record: JValue, f: string, parseFloat: string -> Option<NumKey>, intToFloat: int -> Option<real>)
  {
    NumberKey(FirstValue(record, f, JNull), parseFloat, intToFloat).Err?
  }

  /** Some field of `record` raises `OverflowError`. */
  predicate RecordRaises(record: JValue, fields: seq<string>, parseFloat: string -> Option<NumKey>, intToFloat: int -> Option<real>)
  {
    fields != [] && (KeyRaises(record, fields[0], parseFloat, intToFloat) || RecordRaises(record, fields[1..], parseFloat, intToFloat))
  }

  /** Some record's key raises `OverflowError`. */
  predicate Overflows(rows: seq<JValue>, fields: seq<string>, parseFloat: string -> Option<NumKey>, intToFloat: int -> Option<real>)
  {
    rows != [] && (RecordRaises(rows[0], fields, parseFloat, intToFloat) || Overflows(rows[1..], fields, parseFloat, intToFloat))
  }

  /** The sort raises exactly when some field of some record does. */
  lemma {:induction false} OverflowsIff(rows: seq<JValue>, fields: seq<string>, parseFloat: string -> Option<NumKey>, intToFloat: int -> Option<real>)
    ensures Overflows(rows, fields, parseFloat, intToFloat)
      <==> exists i, j :: 0 <= i < |rows| && 0 <= j < |fields| && KeyRaises(rows[i], fields[j], parseFloat, intToFloat)
    decreases |rows|
  {
    if rows != [] {
      RecordRaisesIff(rows[0], fields, parseFloat, intToFloat);
      OverflowsIff(rows[1..], fields, parseFloat, intToFloat);
      if Overflows(rows[1..], fields, parseFloat, intToFloat) {
        var i, j :| 0 <= i < |rows[1..]| && 0 <= j < |fields| && KeyRaises(rows[1..][i], fields[j], parseFloat, intToFloat);
        assert KeyRaises(rows[i + 1], fields[j], parseFloat, intToFloat);
      }
      if exists i, j :: 0 <= i < |rows| && 0 <= j < |fields| && KeyRaises(rows[i], fields[j], parseFloat, intToFloat) {
        var i, j :| 0 <= i < |rows| && 0 <= j < |fields| && KeyRaises(rows[i], fields[j], parseFloat, intToFloat);
        if i > 0 {
          assert KeyRaises(rows[1..][i - 1], fields[j], parseFloat, intToFloat);
        }
      }
    }
  }

  lemma {:induction false} RecordRaisesIff(record: JValue, fields: seq<string>, parseFloat: string -> Option<NumKey>, intToFloat: int -> Option<real>)
    ensures RecordRaises(record, fields, parseFloat, intToFloat)
      <==> exists j :: 0 <= j < |fields| && KeyRaises(record, fields[j], parseFloat, intToFloat)
    decreases |fields|
  {
    if fields != [] {
      RecordRaisesIff(record, fields[1..], parseFloat, intToFloat);
      if RecordRaises(record, fields[1..], parseFloat, intToFloat) {
        var j :| 0 <= j < |fields[1..]| && KeyRaises(record, fields[1..][j], parseFloat, intToFloat);
        assert KeyRaises(record, fields[j + 1], parseFloat, intToFloat);
      }
      if exists j :: 0 <= j < |fields| && KeyRaises(record, fields[j], parseFloat, intToFloat) {
        var j :| 0 <= j < |fields| && KeyRaises(record, fields[j], parseFloat, intToFloat);
        if j > 0 {
          assert KeyRaises(record, fields[1..][j - 1], parseFloat, intToFloat);
        }
      }
    }
  }

  /** `sorted(rows, key=..., reverse=desc)` in either mode, where computing the keys does not
      raise. */
  function SortRecords(rows: seq<JValue>, fields: seq<string>, desc: bool, numeric: bool, reprOf: JValue -> string,
                       parseFloat: string -> Option<NumKey>, intToFloat: int -> Option<real>): (r: seq<JValue>)
    ensures multiset(r) == multiset(rows)
  {
    if numeric then SortNumeric(rows, fields, desc, parseFloat, intToFloat) else SortText(rows, fields, desc, reprOf)
  }

  /** `sorted(rows, key=..., reverse=desc)` without `--numeric`: keys are tuples of strings. */
  function SortText(rows: seq<JValue>, fields: seq<string>, desc: bool, reprOf: JValue -> string): (r: seq<JValue>)
    ensures multiset(r) == multiset(rows)
  {
    SortBy(rows, KeyOrder(TextKeys(fields, reprOf), StrLess, desc))
  }

  /** `sorted(rows, key=..., reverse=desc)` with `--numeric`, where no key raises: keys are
      tuples of floats. */
  function SortNumeric(rows: seq<JValue>, fields: seq<string>, desc: bool,
                       parseFloat: string -> Option<NumKey>, intToFloat: int -> Option<real>): (r: seq<JValue>)
    ensures multiset(r) == multiset(rows)
  {
    SortBy(rows, KeyOrder(NumberKeys(fields, parseFloat, intToFloat), NumLess, desc))
  }

  /** The document `main` writes, or the `OverflowError` it stops with when some key raises. */
  function SortDoc(data: JValue, arrayPath: Option<string>, byArg: string, desc: bool, numeric: bool, reprOf: JValue -> string,
                   parseFloat: string -> Option<NumKey>, intToFloat: int -> Option<real>): (r: Result<JValue>)
    ensures r.Err? <==> numeric && Overflows(Records(data, arrayPath), ParseFields(byArg), parseFloat, intToFloat)
    ensures r.Err? ==> r.msg == OverflowMessage
    ensures r.Ok? ==> r.value == JArr(SortRecords(Records(data, arrayPath), ParseFields(byArg), desc, numeric, reprOf, parseFloat, intToFloat))
  {
    var rows := Records(data, arrayPath);
    var fields := ParseFields(byArg);
    if numeric && Overflows(rows, fields, parseFloat, intToFloat) then Err(OverflowMessage)
    else Ok(JArr(SortRecords(rows, fields, desc, numeric, reprOf, parseFloat, intToFloat)))
  }

  // ---------------------------------------------------------------------------------------
  // Properties

  /** The keys of one value: a missing field and a null sort as `""` (text) or `-inf`
      (numeric); a string sorts as itself under text and as its `float` under `--numeric`, `-inf`
      when `float` refuses it; booleans compare as `1.0` and `0.0`; an integer as its rounded
      double, and it raises exactly when it is too large for one; containers sort as `-inf`;
      nothing sorts below `-inf`. */
  lemma KeyProperties(record: JValue, field: string, reprOf: JValue -> string,
                      parseFloat: string -> Option<NumKey>, intToFloat: int -> Option<real>)
    ensures Extract(record, field) == [] ==>
      TextKey(FirstValue(record, field, JNull), reprOf) == ""
      && NumberKey(FirstValue(record, field, JNull), parseFloat, intToFloat) == Ok(NegInf)
    ensures forall s :: TextKey(JStr(s), reprOf) == s
    ensures forall s :: (NumberKey(JStr(s), parseFloat, intToFloat)
      == Ok(if parseFloat(s).Some? then parseFloat(s).value else NegInf))
    ensures NumberKey(JBool(true), parseFloat, intToFloat) == Ok(Num(1.0))
      && NumberKey(JBool(false), parseFloat, intToFloat) == Ok(Num(0.0))
    ensures forall i :: NumberKey(JInt(i), parseFloat, intToFloat).Err? <==> intToFloat(i).None?
    ensures forall i, x :: intToFloat(i) == Some(x) ==> NumberKey(JInt(i), parseFloat, intToFloat) == Ok(Num(x))
    ensures forall v :: NumberKey(v, parseFloat, intToFloat).Err? ==> v.JInt?
    ensures forall v :: IsComposite(v) ==> NumberKey(v, parseFloat, intToFloat) == Ok(NegInf)
    ensures forall v :: NumberKey(v, parseFloat, intToFloat).Ok? ==> !NumLess(NumberKey(v, parseFloat, intToFloat).value, NegInf)
  {
  }

  /** Two integers that round to the same double tie under `--numeric`, so they keep their input
      order; `float("inf")` sorts above every number. */
  lemma NumericKeyExamples(parseFloat: string -> Option<NumKey>, intToFloat: int -> Option<real>)
    requires intToFloat(9007199254740993) == Some(9007199254740992.0)
    requires intToFloat(9007199254740992) == Some(9007199254740992.0)
    requires parseFloat("inf") == Some(PosInf) && intToFloat(5) == Some(5.0)
    ensures NumberKey(JInt(9007199254740993), parseFloat, intToFloat) == NumberKey(JInt(9007199254740992), parseFloat, intToFloat)
    ensures NumLess(NumberKey(JInt(5), parseFloat, intToFloat).value, NumberKey(JStr("inf"), parseFloat, intToFloat).value)
  {
  }

  /** Text mode: the output is a rearrangement of the records in ascending (or with `--desc`
      descending) order of their key tuples, records with equal keys in input order. */
  lemma TextSortProperties(rows: seq<JValue>, fields: seq<string>, desc: bool, reprOf: JValue -> string)
    ensures IsKeySort(rows, SortText(rows, fields, desc, reprOf), TextKeys(fields, reprOf), StrLess, desc)
  {
    StrLessOrder();
    SortByIsKeySort(rows, TextKeys(fields, reprOf), StrLess, desc);
  }

  /** Numeric mode: where no key raises, the same kind of sort with keys compared as floats. */
  lemma NumericSortProperties(rows: seq<JValue>, fields: seq<string>, desc: bool,
                              parseFloat: string -> Option<NumKey>, intToFloat: int -> Option<real>)
    ensures IsKeySort(rows, SortNumeric(rows, fields, desc, parseFloat, intToFloat), NumberKeys(fields, parseFloat, intToFloat), NumLess, desc)
  {
    NumLessOrder();
    SortByIsKeySort(rows, NumberKeys(fields, parseFloat, intToFloat), NumLess, desc);
  }

  /** A `--by` naming no field gives every record the key `()`, so the records come out in
      input order; this is the text mode, `NoFieldsKeepsOrderNumeric` the numeric one. */
  lemma NoFieldsKeepsOrder(rows: seq<JValue>, desc: bool, reprOf: JValue -> string)
    ensures SortText(rows, [], desc, reprOf) == rows
  {
    var le := KeyOrder(TextKeys([], reprOf), StrLess, desc);
    forall x, y ensures le(x, y) {
      assert TextKeys([], reprOf)(x) == [] && TextKeys([], reprOf)(y) == [];
    }
    SortByAllEqual(rows, le);
  }

  /** With no `--by` field, `--numeric` keeps the input order too. */
  lemma NoFieldsKeepsOrderNumeric(rows: seq<JValue>, desc: bool, parseFloat: string -> Option<NumKey>, intToFloat: int -> Option<real>)
    ensures SortNumeric(rows, [], desc, parseFloat, intToFloat) == rows
  {
    var nle := KeyOrder(NumberKeys([], parseFloat, intToFloat), NumLess, desc);
    forall x, y ensures nle(x, y) {
      assert NumberKeys([], parseFloat, intToFloat)(x) == [] && NumberKeys([], parseFloat, intToFloat)(y) == [];
    }
    SortByAllEqual(rows, nle);
  }

  /** Records whose text keys are all distinct come out of `--desc` in exactly the reverse of the
      ascending order. */
  lemma DescIsReversedAsc(rows: seq<JValue>, fields: seq<string>, reprOf: JValue -> string)
    requires forall x, y :: x in rows && y in rows && TextKeys(fields, reprOf)(x) == TextKeys(fields, reprOf)(y) ==> x == y
    ensures SortText(rows, fields, true, reprOf) == Reversed(SortText(rows, fields, false, reprOf))
  {
    StrLessOrder();
    DescReversesAsc(rows, TextKeys(fields, reprOf), StrLess);
  }
}
