/** String helpers with the meaning Python's `str` methods give them (strip, split, startswith,
    `in`, comparison, lower-casing against ASCII words, decimal rendering and `int()` parsing). */
module Text {

  /** The characters Python's `str.isspace()` accepts: what `str.strip()` with no argument removes. */
  const Whitespace: set<char> := {
    ' ', '\t', '\n', '\r', '\U{000B}', '\U{000C}', '\U{001C}', '\U{001D}', '\U{001E}', '\U{001F}',
    '\U{0085}', '\U{00A0}', '\U{1680}', '\U{2000}', '\U{2001}', '\U{2002}', '\U{2003}', '\U{2004}',
    '\U{2005}', '\U{2006}', '\U{2007}', '\U{2008}', '\U{2009}', '\U{200A}', '\U{2028}', '\U{2029}',
    '\U{202F}', '\U{205F}', '\U{3000}'
  }

  /** The number of leading characters of `s` that are in `cs`. */
  function LeadCount(s: string, cs: set<char>): (n: nat)
    ensures n <= |s|
    ensures forall i :: 0 <= i < n ==> s[i] in cs
    ensures n == |s| || s[n] !in cs
  {
    if s != [] && s[0] in cs then 1 + LeadCount(s[1..], cs) else 0
  }

  /** The end of `s[lo..]` once its trailing characters in `cs` are dropped. */
  function TrailStop(s: string, cs: set<char>, lo: nat): (m: nat)
    requires lo <= |s|
    ensures lo <= m <= |s|
    ensures forall i :: m <= i < |s| ==> s[i] in cs
    ensures m == lo || s[m - 1] !in cs
    decreases |s|
  {
    if |s| > lo && s[|s| - 1] in cs then TrailStop(s[..|s| - 1], cs, lo) else |s|
  }

  /** Python's `s.strip(chars)`: the middle part of `s` between its leading and trailing runs of
      characters of `cs`. */
  function StripChars(s: string, cs: set<char>): (r: string)
    ensures |r| <= |s|
    ensures r == s[LeadCount(s, cs)..TrailStop(s, cs, LeadCount(s, cs))]
  {
    var a := LeadCount(s, cs);
    s[a..TrailStop(s, cs, a)]
  }

  /** Python's `s.strip()`. */
  function Strip(s: string): string
  {
    StripChars(s, Whitespace)
  }

  /** Neither end of a stripped string is in the stripped set, and whatever was removed was. */
  lemma StripCharsEnds(s: string, cs: set<char>)
    ensures var r := StripChars(s, cs); r == [] || (r[0] !in cs && r[|r| - 1] !in cs)
  {
  }

  /** A string strips to "" exactly when every character is whitespace. */
  lemma StripEmptyIff(s: string)
    ensures Strip(s) == "" <==> forall i :: 0 <= i < |s| ==> s[i] in Whitespace
  {
  }

  /** Stripping twice changes nothing more. */
  lemma StripIdempotent(s: string)
    ensures Strip(Strip(s)) == Strip(s)
  {
    var r := Strip(s);
    assert LeadCount(r, Whitespace) == 0;
    assert TrailStop(r, Whitespace, 0) == |r|;
  }

  /** Python's `s.startswith(p)`. */
  predicate StartsWith(s: string, p: string)
  {
    |p| <= |s| && s[..|p|] == p
  }

  /** Python's `sub in s` for strings: `sub` occurs at some position (the empty string always does). */
  predicate Contains(s: string, sub: string)
  {
    exists i | 0 <= i <= |s| - |sub| :: OccursAt(s, sub, i)
  }

  predicate OccursAt(s: string, sub: string, i: nat)
  {
    i + |sub| <= |s| && s[i..i + |sub|] == sub
  }

  /** The index of the first occurrence of `c` in `s`, or |s| when there is none. */
  function FirstIndex(s: string, c: char): (i: nat)
    ensures i <= |s|
    ensures forall j :: 0 <= j < i ==> s[j] != c
    ensures i < |s| ==> s[i] == c
    ensures i == |s| <==> c !in s
  {
    if s == [] then 0 else if s[0] == c then 0 else 1 + FirstIndex(s[1..], c)
  }

  /** The index of the last occurrence of `c` in `s`; requires that there is one. */
  function LastIndex(s: string, c: char): (i: nat)
    requires c in s
    ensures i < |s| && s[i] == c
    ensures forall j :: i < j < |s| ==> s[j] != c
  {
    if s[|s| - 1] == c then |s| - 1 else LastIndex(s[..|s| - 1], c)
  }

  /** Python's `s.split(c)` with a one-character separator ("" splits into [""]). */
  function Split(s: string, c: char): (parts: seq<string>)
    ensures |parts| >= 1
    ensures forall k :: 0 <= k < |parts| ==> c !in parts[k]
    decreases |s|
  {
    var i := FirstIndex(s, c);
    if i == |s| then [s] else [s[..i]] + Split(s[i + 1..], c)
  }

  /** Python's `sep.join(parts)`. */
  function Join(parts: seq<string>, sep: string): string
  {
    if parts == [] then "" else if |parts| == 1 then parts[0] else parts[0] + sep + Join(parts[1..], sep)
  }

  /** Joining the pieces of a split with the separator gives back the string. */
  lemma {:induction false} JoinSplit(s: string, c: char)
    ensures Join(Split(s, c), [c]) == s
    decreases |s|
  {
    var i := FirstIndex(s, c);
    if i < |s| {
      var rest := Split(s[i + 1..], c);
      assert Split(s, c) == [s[..i]] + rest;
      assert ([s[..i]] + rest)[1..] == rest;
      JoinSplit(s[i + 1..], c);
      assert Join(Split(s, c), [c]) == s[..i] + [c] + s[i + 1..];
      assert s == s[..i] + [c] + s[i + 1..];
    }
  }

  /** Splitting a join of separator-free pieces gives back the pieces. */
  lemma {:induction false} SplitJoin(parts: seq<string>, c: char)
    requires |parts| >= 1
    requires forall k :: 0 <= k < |parts| ==> c !in parts[k]
    ensures Split(Join(parts, [c]), c) == parts
    decreases |parts|
  {
    if |parts| > 1 {
      var s := Join(parts, [c]);
      var rest := Join(parts[1..], [c]);
      assert s == parts[0] + [c] + rest;
      var i := FirstIndex(s, c);
      assert forall j :: 0 <= j < |parts[0]| ==> s[j] == parts[0][j];
      assert s[|parts[0]|] == c;
      assert i == |parts[0]|;
      assert s[..i] == parts[0];
      assert s[i + 1..] == rest;
      SplitJoin(parts[1..], c);
    }
  }

  /** Python's `s.split(c, 1)` when `c` occurs in `s`. */
  function SplitFirst(s: string, c: char): (r: (string, string))
    requires c in s
    ensures s == r.0 + [c] + r.1 && c !in r.0
  {
    var i := FirstIndex(s, c);
    (s[..i], s[i + 1..])
  }

  /** Python's `s.rsplit(c, 1)` when `c` occurs in `s`. */
  function SplitLast(s: string, c: char): (r: (string, string))
    requires c in s
    ensures s == r.0 + [c] + r.1 && c !in r.1
  {
    var i := LastIndex(s, c);
    assert s == s[..i] + [c] + s[i + 1..];
    (s[..i], s[i + 1..])
  }

  /** The list-field parser shared by the scripts (`parse_fields`, `parse_columns`):
      split on ',', strip each part, drop the empty ones. */
  function ParseFields(raw: string): (fields: seq<string>)
    ensures forall k :: 0 <= k < |fields| ==> fields[k] != "" && ',' !in fields[k]
  {
    StripNonEmpty(Split(raw, ','))
  }

  function StripNonEmpty(parts: seq<string>): (r: seq<string>)
    requires forall k :: 0 <= k < |parts| ==> ',' !in parts[k]
    ensures |r| <= |parts|
    ensures forall k :: 0 <= k < |r| ==> r[k] != "" && ',' !in r[k]
  {
    if parts == [] then []
    else
      var p := Strip(parts[0]);
      var rest := StripNonEmpty(parts[1..]);
      assert ',' !in p;
      if p == "" then rest else [p] + rest
  }

  /** Parsing fields of a string without commas or surrounding blanks gives that one field;
      the empty string gives none. */
  lemma ParseFieldsSingle(f: string)
    requires ',' !in f && Strip(f) == f
    ensures ParseFields(f) == if f == "" then [] else [f]
  {
    assert Split(f, ',') == [f];
  }

  /** The `parse_fields(raw)` of the commands whose option may be missing: no option and the
      empty option both give no fields. */
  function OptionalFields(raw: Option<string>): (fields: seq<string>)
    ensures raw.None? || raw == Some("") ==> fields == []
    ensures raw.Some? ==> fields == ParseFields(raw.value)
  {
    if raw.None? then []
    else
      assert Split("", ',') == [""];
      ParseFields(raw.value)
  }

  /** Lower-cases ASCII letters and the Kelvin sign (U+212A, whose lower case is 'k'). These are
      all the characters whose Python lower case is a single ASCII letter, so comparing `Lower(s)`
      with an ASCII lower-case word gives the same answer as comparing `s.lower()` with it. */
  function LowerChar(c: char): char
  {
    if 'A' <= c <= 'Z' then (c as int + 32) as char
    else if c == '\U{212A}' then 'k'
    else c
  }

  function Lower(s: string): (r: string)
    ensures |r| == |s| && forall i :: 0 <= i < |s| ==> r[i] == LowerChar(s[i])
  {
    if s == [] then [] else [LowerChar(s[0])] + Lower(s[1..])
  }

  /** Python's `<` on `str`: lexicographic by code point, a proper prefix being smaller. */
  predicate StrLess(a: string, b: string)
  {
    if a == [] then b != []
    else if b == [] then false
    else if a[0] != b[0] then a[0] < b[0]
    else StrLess(a[1..], b[1..])
  }

  lemma {:induction false} StrLessIrreflexive(a: string)
    ensures !StrLess(a, a)
  {
    if a != [] {
      StrLessIrreflexive(a[1..]);
    }
  }

  lemma {:induction false} StrLessTransitive(a: string, b: string, c: string)
    requires StrLess(a, b) && StrLess(b, c)
    ensures StrLess(a, c)
  {
    if a != [] && b != [] && c != [] && a[0] == b[0] == c[0] {
      StrLessTransitive(a[1..], b[1..], c[1..]);
    }
  }

  lemma {:induction false} StrLessTotal(a: string, b: string)
    ensures a == b || StrLess(a, b) || StrLess(b, a)
  {
    if a != [] && b != [] && a[0] == b[0] {
      StrLessTotal(a[1..], b[1..]);
      if a[1..] == b[1..] {
        assert a == [a[0]] + a[1..];
        assert b == [b[0]] + b[1..];
      }
    }
  }

  lemma {:induction false} StrLessAsymmetric(a: string, b: string)
    requires StrLess(a, b)
    ensures !StrLess(b, a)
  {
    if a != [] && b != [] && a[0] == b[0] {
      StrLessAsymmetric(a[1..], b[1..]);
    }
  }

  /** Python's `<=` on `str`. */
  predicate StrLessEq(a: string, b: string)
  {
    a == b || StrLess(a, b)
  }

  predicate IsDigit(c: char)
  {
    '0' <= c <= '9'
  }

  function DigitValue(c: char): nat
    requires IsDigit(c)
  {
    c as int - '0' as int
  }

  /** The value of a string of decimal digits ("" stands for 0). */
  function DigitsValue(s: string): nat
    requires forall i :: 0 <= i < |s| ==> IsDigit(s[i])
  {
    if s == [] then 0 else 10 * DigitsValue(s[..|s| - 1]) + DigitValue(s[|s| - 1])
  }

  /** Python's `str(n)` for a non-negative int. */
  function NatToString(n: nat): (s: string)
    ensures s != [] && forall i :: 0 <= i < |s| ==> IsDigit(s[i])
  {
    if n < 10 then [('0' as int + n) as char]
    else NatToString(n / 10) + [('0' as int + n % 10) as char]
  }

  /** Reading back a rendered number gives the number. */
  lemma {:induction false} NatToStringRoundTrip(n: nat)
    ensures DigitsValue(NatToString(n)) == n
  {
    if n >= 10 {
      NatToStringRoundTrip(n / 10);
      var s := NatToString(n);
      assert s[..|s| - 1] == NatToString(n / 10);
    }
  }

  /** Python's `str(i)` for an int. */
  function IntToString(i: int): string
  {
    if i < 0 then "-" + NatToString(-i) else NatToString(i)
  }

  datatype Option<T> = None | Some(value: T)

  /** An outcome or the message of the `ValueError` raised instead. */
  datatype Result<T> = Ok(value: T) | Err(msg: string)

  /** Python's `int(text)`: surrounding whitespace, an optional sign, then ASCII digits with
      single underscores allowed between digits. None stands for ValueError. */
  function ParseInt(text: string): (r: Option<int>)
  {
    ParseSignedDigits(Strip(text))
  }

  function ParseSignedDigits(text: string): (r: Option<int>)
    ensures r.Some? && text != [] && text[0] != '-' && text[0] != '+' ==> r.value >= 0
  {
    if text == [] then None
    else if text[0] == '-' then
      match ParseDigitGroups(text[1..])
      case Some(n) => Some(-(n as int))
      case None => None
    else if text[0] == '+' then
      match ParseDigitGroups(text[1..])
      case Some(n) => Some(n)
      case None => None
    else
      match ParseDigitGroups(text)
      case Some(n) => Some(n)
      case None => None
  }

  /** Digits with single underscores between them, nothing else. */
  predicate IsDigitGroups(s: string)
  {
    s != [] && IsDigit(s[0]) && IsDigit(s[|s| - 1])
    && (forall i :: 0 <= i < |s| ==> IsDigit(s[i]) || s[i] == '_')
    && (forall i :: 0 <= i < |s| - 1 ==> !(s[i] == '_' && s[i + 1] == '_'))
  }

  function RemoveUnderscores(s: string): (r: string)
    ensures forall i :: 0 <= i < |r| ==> r[i] in s && r[i] != '_'
  {
    if s == [] then [] else (if s[0] == '_' then [] else [s[0]]) + RemoveUnderscores(s[1..])
  }

  function ParseDigitGroups(s: string): (r: Option<nat>)
    ensures r.Some? <==> IsDigitGroups(s)
  {
    if IsDigitGroups(s) then Some(DigitsValue(RemoveUnderscores(s))) else None
  }

  /** A rendered int parses back to itself. */
  lemma IntRoundTrip(i: int)
    ensures ParseInt(IntToString(i)) == Some(i)
  {
    var t := IntToString(i);
    assert Strip(t) == t by {
      IntToStringEnds(i);
      StripDigits(t);
    }
    SignedRoundTrip(i);
  }

  /** A rendered int starts with a sign or a digit and ends with a digit. */
  lemma IntToStringEnds(i: int)
    ensures IntToString(i) != []
    ensures IntToString(i)[0] !in Whitespace
    ensures IntToString(i)[|IntToString(i)| - 1] !in Whitespace
  {
  }

  /** The sign and digits of a rendered int read back as that int. */
  lemma SignedRoundTrip(i: int)
    ensures ParseSignedDigits(IntToString(i)) == Some(i)
  {
    var t := IntToString(i);
    if i < 0 {
      var d := NatToString(-i);
      assert t[0] == '-' && t[1..] == d;
      assert ParseDigitGroups(d) == Some(-i) by { DigitsRoundTrip(-i); }
    } else {
      var d := NatToString(i);
      assert t == d && IsDigit(d[0]);
      assert ParseDigitGroups(d) == Some(i) by { DigitsRoundTrip(i); }
    }
  }

  /** The digits of a number read back as that number. */
  lemma DigitsRoundTrip(n: nat)
    ensures ParseDigitGroups(NatToString(n)) == Some(n)
  {
    var d := NatToString(n);
    NatToStringRoundTrip(n);
    assert IsDigitGroups(d);
    NoUnderscores(d);
  }

  /** A rendered int has no surrounding whitespace. */
  lemma StripDigits(t: string)
    requires t != [] && t[0] !in Whitespace && t[|t| - 1] !in Whitespace
    ensures Strip(t) == t
  {
  }

  lemma {:induction false} NoUnderscores(s: string)
    requires forall i :: 0 <= i < |s| ==> IsDigit(s[i])
    ensures RemoveUnderscores(s) == s
  {
    if s != [] {
      NoUnderscores(s[1..]);
    }
  }

  // ---------------------------------------------------------------------------------------
  // repr of a string

  /** The quote `repr` puts around a string: a double quote when the text holds a single quote
      and no double quote, a single quote otherwise. */
  function ReprQuote(s: string): char
  {
    if '\'' in s && '"' !in s then '"' else '\''
  }

  function HexDigit(d: int): char
    requires 0 <= d < 16
  {
    "0123456789abcdef"[d]
  }

  /** How `repr` writes one character inside the quote `q`: the backslash and the quote are
      escaped, tab, newline and carriage return get their letter escapes, the other control
      characters, U+007F to U+00A0 and the soft hyphen U+00AD are written `\xhh`, and any other
      character stands for itself. */
  function ReprChar(c: char, q: char): (r: string)
    ensures r != []
  {
    if c == '\\' then "\\\\"
    else if c == q then ['\\', q]
    else if c == '\t' then "\\t"
    else if c == '\n' then "\\n"
    else if c == '\r' then "\\r"
    else if c as int < 32 || 127 <= c as int <= 160 || c as int == 173 then
      "\\x" + [HexDigit(c as int / 16), HexDigit(c as int % 16)]
    else [c]
  }

  function ReprBody(s: string, q: char): string
  {
    if s == [] then [] else ReprChar(s[0], q) + ReprBody(s[1..], q)
  }

  /** Python's `repr` of a string (`{text!r}` in an f-string). */
  function StrRepr(s: string): (r: string)
    ensures |r| >= 2 && r[0] == r[|r| - 1] == ReprQuote(s)
  {
    [ReprQuote(s)] + ReprBody(s, ReprQuote(s)) + [ReprQuote(s)]
  }

  /** A character `repr` writes as itself inside the quote `q`. */
  predicate Plain(c: char, q: char)
  {
    32 <= c as int < 127 && c != '\\' && c != q
  }

  lemma {:induction false} PlainBody(s: string, q: char)
    requires forall i :: 0 <= i < |s| ==> Plain(s[i], q)
    ensures ReprBody(s, q) == s
  {
    if s != [] {
      assert Plain(s[0], q);
      PlainBody(s[1..], q);
    }
  }

  /** Printable ASCII text without a backslash is quoted as it is: in single quotes when it has
      no single quote, in double quotes when it has a single quote but no double quote. */
  lemma PlainRepr(s: string)
    requires forall i :: 0 <= i < |s| ==> 32 <= s[i] as int < 127 && s[i] != '\\'
    requires '\'' !in s || '"' !in s
    ensures '\'' !in s ==> StrRepr(s) == "'" + s + "'"
    ensures '\'' in s ==> StrRepr(s) == "\"" + s + "\""
  {
    PlainBody(s, ReprQuote(s));
  }

  /** A layout character is escaped: `a<newline>b` is written `'a\nb'`. */
  lemma ReprNewline()
    ensures StrRepr("a\nb") == "'a\\nb'"
  {
    assert ReprQuote("a\nb") == '\'';
    assert ReprBody("b", '\'') == "b";
    assert ReprBody("\nb", '\'') == "\\nb";
  }
}
