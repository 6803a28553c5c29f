/** The shared engine of the JSON commands (json-tools/scripts/common.py): dot paths with
    brackets, their breadth-first evaluation against a document, flattening of nested values
    into path-keyed records, type tags and value counting. */
module JsonCommon {
  import opened Text
  import opened Seqs
  import opened Sorting
  import opened Tally
  import opened Json

  // ---------------------------------------------------------------------------------------
  // Paths

  /** A path token: a dict key (`"*"` is the wildcard) or a list index. */
  datatype Token = Key(name: string) | Index(n: nat)

  const Wildcard: Token := Key("*")

  /** The characters that end a key in a path. */
  predicate IsPathSep(c: char)
  {
    c == '.' || c == '[' || c == ']'
  }

  /** The length of the run of key characters at the start of `s`. */
  function KeyLen(s: string): (n: nat)
    ensures n <= |s| && (forall k :: 0 <= k < n ==> !IsPathSep(s[k]))
    ensures n == |s| || IsPathSep(s[n])
  {
    if s == [] || IsPathSep(s[0]) then 0 else 1 + KeyLen(s[1..])
  }

  /** The length of the run of ASCII digits at the start of `s`. */
  function DigitLen(s: string): (n: nat)
    ensures n <= |s| && (forall k :: 0 <= k < n ==> IsDigit(s[k]))
    ensures n == |s| || !IsDigit(s[n])
  {
    if s == [] || !IsDigit(s[0]) then 0 else 1 + DigitLen(s[1..])
  }

  /** The match of the path pattern `([^.\[\]]+)|(\[(\*|\d+)\])` at the start of `s`: the token
      it yields and the length it consumes, or None when neither alternative matches there. */
  function MatchAt(s: string): (r: Option<(Token, nat)>)
    requires s != []
    ensures r.Some? ==> 0 < r.value.1 <= |s|
  {
    if !IsPathSep(s[0]) then
      var n := KeyLen(s);
      Some((Key(s[..n]), n))
    else if s[0] == '[' then
      if |s| >= 3 && s[1] == '*' && s[2] == ']' then Some((Wildcard, 3))
      else
        var d := DigitLen(s[1..]);
        if d > 0 && d + 1 < |s| && s[d + 1] == ']' then Some((Index(DigitsValue(s[1..d + 1])), d + 2))
        else None
    else None
  }

  /** The tokens `re.finditer` finds scanning `s` from the left: each match yields its token and
      scanning resumes after it; a character where nothing matches is skipped. */
  function Tokens(s: string): seq<Token>
    decreases |s|
  {
    if s == [] then []
    else
      match MatchAt(s)
      case Some(m) => [m.0] + Tokens(s[m.1..])
      case None => Tokens(s[1..])
  }

  /** `parse_path(path)`. */
  method ParsePath(path: string) returns (tokens: seq<Token>)
    ensures tokens == Tokens(path)
    ensures path == "" ==> tokens == []
  {
    tokens := [];
    if path == "" {
      return;
    }
    var i := 0;
    while i < |path|
      invariant 0 <= i <= |path|
      invariant tokens + Tokens(path[i..]) == Tokens(path)
      decreases |path| - i
    {
      var found, next := MatchNext(path, i);
      SeqAssoc(tokens, found, Tokens(path[next..]));
      tokens := tokens + found;
      i := next;
    }
  }

  /** One turn of the `finditer` scan at position `i`: the token of a match there (none where
      nothing matches) and the position where scanning resumes. */
  method MatchNext(path: string, i: nat) returns (found: seq<Token>, next: nat)
    requires i < |path|
    ensures i < next <= |path|
    ensures Tokens(path[i..]) == found + Tokens(path[next..])
  {
    var m := MatchAt(path[i..]);
    TokensStep(path, i);
    match m {
      case Some(r) =>
        found := [r.0];
        next := i + r.1;
      case None =>
        found := [];
        next := i + 1;
    }
  }

  /** One turn of the scan: a match yields its token and scanning resumes after it, elsewhere one
      character is skipped. */
  lemma TokensStep(path: string, i: nat)
    requires i < |path|
    ensures MatchAt(path[i..]).Some? ==>
      var found := MatchAt(path[i..]).value;
      Tokens(path[i..]) == [found.0] + Tokens(path[i + found.1..])
    ensures MatchAt(path[i..]).None? ==> Tokens(path[i..]) == Tokens(path[i + 1..])
  {
    var m := MatchAt(path[i..]);
    if m.Some? {
      assert path[i..][m.value.1..] == path[i + m.value.1..];
    } else {
      assert path[i..][1..] == path[i + 1..];
    }
  }

  // The path pattern as the source spells it

  /* The raw string at common.py:16 doubles every backslash, so the compiled pattern is not the
     one `MatchAt` reads. Its first alternative is one character other than `.`, `\` and `[`
     followed by one or more `]`; its second is a backslash followed by one of `(\*|d+)`; and
     it has only two groups, so `match.group(3)` raises IndexError on the first match. */

  /** A character the first alternative's class `[^.\\[\\]` refuses. */
  predicate LiteralKeyRefused(c: char)
  {
    c == '.' || c == '\\' || c == '['
  }

  /** Whether the literal pattern matches at position `i`. */
  predicate LiteralMatchAt(s: string, i: nat)
    requires i < |s|
  {
    i + 1 < |s|
    && ((!LiteralKeyRefused(s[i]) && s[i + 1] == ']') || (s[i] == '\\' && s[i + 1] in "(\\*|d+)"))
  }

  /** Whether `finditer` with the literal pattern finds a match at `i` or later. */
  function LiteralMatchFrom(s: string, i: nat): (b: bool)
    requires i <= |s|
    ensures b <==> exists j :: i <= j < |s| && LiteralMatchAt(s, j)
    decreases |s| - i
  {
    if i == |s| then false else LiteralMatchAt(s, i) || LiteralMatchFrom(s, i + 1)
  }

  /** `parse_path(path)` with the pattern as written: an IndexError (`Err`) at the first match,
      otherwise no tokens at all. */
  function ParsePathLiteral(path: string): (r: Result<seq<Token>>)
    ensures r.Ok? ==> r.value == []
    ensures r.Err? <==> exists j :: 0 <= j < |path| && LiteralMatchAt(path, j)
  {
    if path == "" then Ok([])
    else if LiteralMatchFrom(path, 0) then Err("IndexError: no such group")
    else Ok([])
  }

  /** As written, a path without `]` and without a backslash has no tokens, so every dotted
      path names the whole document; the intended scan splits it at each dot. */
  lemma {:induction false} LiteralDotPaths(path: string)
    requires forall i :: 0 <= i < |path| ==> path[i] != ']' && path[i] != '\\'
    ensures ParsePathLiteral(path) == Ok([])
  {
    forall j | 0 <= j < |path|
      ensures !LiteralMatchAt(path, j)
    {
      if j + 1 < |path| {
        assert path[j + 1] != ']';
        assert path[j] != '\\';
      }
    }
  }

  /** The discrepancy on concrete paths: `a.b` yields no tokens as written and two keys as
      intended; `items[0]`, `[x]` and `[-1]` raise IndexError as written. */
  lemma LiteralExamples()
    ensures ParsePathLiteral("a.b") == Ok([]) && Tokens("a.b") == [Key("a"), Key("b")]
    ensures ParsePathLiteral("items[0]").Err? && ParsePathLiteral("[x]").Err? && ParsePathLiteral("[-1]").Err?
  {
    LiteralDotPaths("a.b");
    assert LiteralMatchAt("items[0]", 6);
    assert LiteralMatchAt("[x]", 1);
    assert LiteralMatchAt("[-1]", 2);
    TokensKeyHead("b", "");
    assert "b" + "" == "b" && ['.'] + "b" == ".b" && "a" + ".b" == "a.b";
    TokensSkipHead('.', "b");
    TokensKeyHead("a", ".b");
  }

  /** A key that a path can name: non-empty and free of `.`, `[` and `]`. */
  predicate PathSafeKey(k: string)
  {
    k != [] && forall i :: 0 <= i < |k| ==> !IsPathSep(k[i])
  }

  predicate PathSafe(toks: seq<Token>)
  {
    forall i :: 0 <= i < |toks| ==> toks[i].Key? ==> PathSafeKey(toks[i].name)
  }

  /** Writes one token: a key after `.` unless it comes first, an index in brackets. */
  function RenderToken(t: Token, first: bool): string
  {
    match t
    case Key(k) => if first then k else "." + k
    case Index(n) => "[" + NatToString(n) + "]"
  }

  function RenderFrom(toks: seq<Token>, first: bool): string
  {
    if toks == [] then "" else RenderToken(toks[0], first) + RenderFrom(toks[1..], false)
  }

  /** The path text naming `toks`, as in `a.b[0].c`. */
  function RenderPath(toks: seq<Token>): string
  {
    RenderFrom(toks, true)
  }

  /** A key run followed by a separator is read exactly up to the separator. */
  lemma {:induction false} KeyLenConcat(k: string, rest: string)
    requires forall i :: 0 <= i < |k| ==> !IsPathSep(k[i])
    requires rest == [] || IsPathSep(rest[0])
    ensures KeyLen(k + rest) == |k|
    decreases |k|
  {
    if k != [] {
      assert (k + rest)[1..] == k[1..] + rest;
      KeyLenConcat(k[1..], rest);
    }
  }

  lemma {:induction false} DigitLenConcat(d: string, rest: string)
    requires forall i :: 0 <= i < |d| ==> IsDigit(d[i])
    requires rest == [] || !IsDigit(rest[0])
    ensures DigitLen(d + rest) == |d|
    decreases |d|
  {
    if d != [] {
      assert (d + rest)[1..] == d[1..] + rest;
      DigitLenConcat(d[1..], rest);
    }
  }

  /** Every token but the first is written starting with `.` or `[`. */
  lemma RenderLaterStartsWithSep(toks: seq<Token>)
    ensures RenderFrom(toks, false) == [] || (IsPathSep(RenderFrom(toks, false)[0]) && RenderFrom(toks, false)[0] != ']')
  {
  }

  /** A key run at the start of the text, up to a separator or the end, is one key token. */
  lemma TokensKeyHead(k: string, rest: string)
    requires PathSafeKey(k) && (rest == [] || IsPathSep(rest[0]))
    ensures Tokens(k + rest) == [Key(k)] + Tokens(rest)
  {
    KeyLenConcat(k, rest);
    assert (k + rest)[..|k|] == k && (k + rest)[|k|..] == rest;
  }

  /** A separator where no bracket token starts is skipped. */
  lemma TokensSkipHead(c: char, rest: string)
    requires IsPathSep(c) && MatchAt([c] + rest) == None
    ensures Tokens([c] + rest) == Tokens(rest)
  {
    assert ([c] + rest)[1..] == rest;
  }

  /** A bracketed number at the start of the text is one index token. */
  lemma TokensIndexHead(n: nat, rest: string)
    ensures Tokens("[" + NatToString(n) + "]" + rest) == [Index(n)] + Tokens(rest)
  {
    var d := NatToString(n);
    var s := "[" + d + "]" + rest;
    assert s[1..] == d + ("]" + rest);
    DigitLenConcat(d, "]" + rest);
    assert s[1..|d| + 1] == d;
    assert s[|d| + 1] == ']';
    assert IsDigit(s[1]);
    NatToStringRoundTrip(n);
    assert MatchAt(s) == Some((Index(n), |d| + 2));
    assert s[|d| + 2..] == rest;
  }

  /** One rendered token followed by more rendered tokens reads back as that token. */
  lemma TokensRenderToken(t: Token, first: bool, rest: string)
    requires t.Key? ==> PathSafeKey(t.name)
    requires rest == [] || IsPathSep(rest[0])
    ensures Tokens(RenderToken(t, first) + rest) == [t] + Tokens(rest)
  {
    match t {
      case Key(k) =>
        TokensKeyHead(k, rest);
        if !first {
          assert RenderToken(t, first) + rest == ['.'] + (k + rest);
          TokensSkipHead('.', k + rest);
        }
      case Index(n) =>
        TokensIndexHead(n, rest);
    }
  }

  lemma PathSafeTail(toks: seq<Token>)
    requires PathSafe(toks) && toks != []
    ensures PathSafe(toks[1..]) && (toks[0].Key? ==> PathSafeKey(toks[0].name))
  {
    forall i | 0 <= i < |toks[1..]| && toks[1..][i].Key? ensures PathSafeKey(toks[1..][i].name) {
      assert toks[1..][i] == toks[i + 1];
    }
  }

  /** Reading back a rendered key-safe path gives its tokens. */
  lemma {:induction false} TokensRenderFrom(toks: seq<Token>, first: bool)
    requires PathSafe(toks)
    ensures Tokens(RenderFrom(toks, first)) == toks
    decreases |toks|
  {
    if toks != [] {
      var rest := RenderFrom(toks[1..], false);
      PathSafeTail(toks);
      TokensRenderFrom(toks[1..], false);
      RenderLaterStartsWithSep(toks[1..]);
      TokensRenderToken(toks[0], first, rest);
      assert toks == [toks[0]] + toks[1..];
    }
  }

  /** `parse_path` inverts path rendering for the paths it can express. */
  lemma ParseRenderRoundTrip(toks: seq<Token>)
    requires PathSafe(toks)
    ensures Tokens(RenderPath(toks)) == toks
  {
    TokensRenderFrom(toks, true);
  }

  /** Repeated and leading dots are skipped. */
  lemma ExampleDoubleDot()
    ensures Tokens("a..b") == [Key("a"), Key("b")]
  {
    TokensKeyHead("b", "");
    assert "b" + "" == "b" && ['.'] + "b" == ".b" && ['.'] + ".b" == "..b" && "a" + "..b" == "a..b";
    TokensSkipHead('.', "b");
    TokensSkipHead('.', ".b");
    TokensKeyHead("a", "..b");
  }

  /** A bracket around a non-number does not match, and the key inside is read as a key. */
  lemma ExampleBracketKey()
    ensures Tokens("[x]") == [Key("x")]
  {
    assert [']'] + "" == "]" && "x" + "]" == "x]" && ['['] + "x]" == "[x]";
    TokensSkipHead(']', "");
    TokensKeyHead("x", "]");
    assert DigitLen("x]") == 0;
    TokensSkipHead('[', "x]");
  }

  /** There are no negative indices: `[-1]` is the key `-1`. */
  lemma ExampleNegativeIndex()
    ensures Tokens("[-1]") == [Key("-1")]
  {
    assert [']'] + "" == "]" && "-1" + "]" == "-1]" && ['['] + "-1]" == "[-1]";
    TokensSkipHead(']', "");
    TokensKeyHead("-1", "]");
    assert DigitLen("-1]") == 0;
    TokensSkipHead('[', "-1]");
  }

  // ---------------------------------------------------------------------------------------
  // Evaluation

  /** What one item contributes for one token: all list elements or dict values for the
      wildcard, the value under a key of a dict that has it, the element at an index of a
      list that long; nothing otherwise. */
  function Pick(item: JValue, t: Token): (r: seq<JValue>)
    ensures t != Wildcard ==> |r| <= 1
  {
    if t == Wildcard then
      match item
      case JArr(es) => es
      case JObj(m) => MemberValues(m)
      case _ => []
    else
      match t
      case Index(n) => if item.JArr? && n < |item.elems| then [item.elems[n]] else []
      case Key(k) => if item.JObj? && k in MemberKeys(item.members) then [Lookup(item.members, k).value] else []
  }

  /** One token applied to the whole working list: the contributions, in working-list order. */
  function Step(values: seq<JValue>, t: Token): seq<JValue>
  {
    if values == [] then [] else Step(values[..|values| - 1], t) + Pick(values[|values| - 1], t)
  }

  /** The working list after the tokens, starting from `[data]`. */
  function Eval(data: JValue, toks: seq<Token>): seq<JValue>
  {
    if toks == [] then [data] else Step(Eval(data, toks[..|toks| - 1]), toks[|toks| - 1])
  }

  /** The working list after the tokens, starting from the given list. */
  function EvalAll(values: seq<JValue>, toks: seq<Token>): seq<JValue>
  {
    if values == [] then [] else EvalAll(values[..|values| - 1], toks) + Eval(values[|values| - 1], toks)
  }

  /** `extract_values(data, path)`. */
  function Extract(data: JValue, path: string): seq<JValue>
  {
    Eval(data, Tokens(path))
  }

  /** `extract_values(data, path)`, as the nested loops of the source compute it. */
  method ExtractValues(data: JValue, path: string) returns (values: seq<JValue>)
    ensures values == Extract(data, path)
  {
    var tokens := ParsePath(path);
    if tokens == [] {
      return [data];
    }
    values := [data];
    var k := 0;
    while k < |tokens|
      invariant 0 <= k <= |tokens|
      invariant values == Eval(data, tokens[..k])
    {
      var next := StepValues(values, tokens[k]);
      assert tokens[..k + 1][..k] == tokens[..k];
      values := next;
      k := k + 1;
    }
    assert tokens[..k] == tokens;
  }

  /** The inner loop of `extract_values`: what one token picks from each current value, in
      order. */
  method StepValues(values: seq<JValue>, token: Token) returns (next: seq<JValue>)
    ensures next == Step(values, token)
  {
    next := [];
    var j := 0;
    while j < |values|
      invariant 0 <= j <= |values|
      invariant next == Step(values[..j], token)
    {
      var item := values[j];
      if token == Wildcard {
        if item.JArr? {
          next := next + item.elems;
        } else if item.JObj? {
          next := next + MemberValues(item.members);
        }
      } else if token.Index? {
        if item.JArr? && token.n < |item.elems| {
          next := next + [item.elems[token.n]];
        }
      } else {
        if item.JObj? && token.name in MemberKeys(item.members) {
          next := next + [Lookup(item.members, token.name).value];
        }
      }
      assert values[..j + 1][..j] == values[..j];
      j := j + 1;
    }
    assert values[..j] == values;
  }

  /** A token acts on each item of the working list independently. */
  lemma {:induction false} StepConcat(a: seq<JValue>, b: seq<JValue>, t: Token)
    ensures Step(a + b, t) == Step(a, t) + Step(b, t)
    decreases |b|
  {
    if b == [] {
      assert a + b == a;
    } else {
      assert (a + b)[..|a + b| - 1] == a + b[..|b| - 1];
      StepConcat(a, b[..|b| - 1], t);
    }
  }

  lemma {:induction false} StepEvalAll(values: seq<JValue>, q: seq<Token>, t: Token)
    ensures Step(EvalAll(values, q), t) == EvalAll(values, q + [t])
    decreases |values|
  {
    if values != [] {
      var init := values[..|values| - 1];
      StepEvalAll(init, q, t);
      StepConcat(EvalAll(init, q), Eval(values[|values| - 1], q), t);
      assert (q + [t])[..|q + [t]| - 1] == q;
    }
  }

  lemma {:induction false} EvalAllSingle(v: JValue, q: seq<Token>)
    ensures EvalAll([v], q) == Eval(v, q)
  {
    assert [v][..0] == [];
  }

  /** Evaluating `p` then `q` is evaluating `q` from every value `p` reaches, in order. */
  lemma {:induction false} EvalConcat(data: JValue, p: seq<Token>, q: seq<Token>)
    ensures Eval(data, p + q) == EvalAll(Eval(data, p), q)
    decreases |q|
  {
    if q == [] {
      assert p + q == p;
      EvalAllBase(Eval(data, p));
    } else {
      var q' := q[..|q| - 1];
      var t := q[|q| - 1];
      assert (p + q)[..|p + q| - 1] == p + q';
      assert q' + [t] == q;
      EvalConcat(data, p, q');
      StepEvalAll(Eval(data, p), q', t);
    }
  }

  lemma {:induction false} EvalAllBase(values: seq<JValue>)
    ensures EvalAll(values, []) == values
    decreases |values|
  {
    if values != [] {
      EvalAllBase(values[..|values| - 1]);
    }
  }

  predicate NoWildcard(toks: seq<Token>)
  {
    forall i :: 0 <= i < |toks| ==> toks[i] != Wildcard
  }

  lemma {:induction false} StepAtMostOne(values: seq<JValue>, t: Token)
    requires |values| <= 1 && t != Wildcard
    ensures |Step(values, t)| <= 1
  {
    if values != [] {
      assert values[..0] == [];
    }
  }

  /** A path without wildcards reaches at most one value. */
  lemma {:induction false} EvalNoWildcard(data: JValue, toks: seq<Token>)
    requires NoWildcard(toks)
    ensures |Eval(data, toks)| <= 1
    decreases |toks|
  {
    if toks != [] {
      var init := toks[..|toks| - 1];
      assert NoWildcard(init) by {
        forall i | 0 <= i < |init| ensures init[i] != Wildcard {
          assert init[i] == toks[i];
        }
      }
      EvalNoWildcard(data, init);
      StepAtMostOne(Eval(data, init), toks[|toks| - 1]);
    }
  }

  /** `exists_path(data, path)`. */
  function ExistsPath(data: JValue, path: string): (b: bool)
    ensures Tokens(path) == [] ==> b
  {
    Extract(data, path) != []
  }

  /** `first_value(data, path, default)`. */
  function FirstValue(data: JValue, path: string, default: JValue): (r: JValue)
    ensures r == default || r in Extract(data, path)
  {
    var values := Extract(data, path);
    if values != [] then values[0] else default
  }

  /** On a wildcard-free path, `extract_values` gives exactly the first value when the path
      exists, and nothing otherwise. */
  lemma FirstValueIsOnlyValue(data: JValue, path: string, default: JValue)
    requires NoWildcard(Tokens(path))
    ensures Extract(data, path) == if ExistsPath(data, path) then [FirstValue(data, path, default)] else []
  {
    EvalNoWildcard(data, Tokens(path));
  }

  /** The elements of the first list among `values`, or `[]` when there is none. */
  function FirstList(values: seq<JValue>): (r: seq<JValue>)
    ensures (forall i :: 0 <= i < |values| ==> !values[i].JArr?) ==> r == []
    ensures (exists i :: 0 <= i < |values| && values[i].JArr?) ==>
      exists i :: 0 <= i < |values| && values[i] == JArr(r) && forall j :: 0 <= j < i ==> !values[j].JArr?
  {
    if values == [] then []
    else if values[0].JArr? then values[0].elems
    else
      var r := FirstList(values[1..]);
      assert forall i :: 1 <= i < |values| ==> values[i] == values[1..][i - 1];
      r
  }

  /** `resolve_array(data, array_path)`; `None` and `""` are both the absent path. */
  function ResolveArray(data: JValue, arrayPath: Option<string>): (r: seq<JValue>)
    ensures (arrayPath == None || arrayPath == Some("")) ==> r == (if data.JArr? then data.elems else [])
    ensures arrayPath.Some? && arrayPath.value != "" ==> r == FirstList(Extract(data, arrayPath.value))
  {
    if arrayPath.Some? && arrayPath.value != "" then FirstList(Extract(data, arrayPath.value))
    else if data.JArr? then data.elems
    else []
  }

  /** The rows the scripts work on (`resolve_array` with its fallback): the resolved array,
      or the document itself when it is not a list and nothing resolved. */
  function InputRows(data: JValue, arrayPath: Option<string>): (rows: seq<JValue>)
    ensures !data.JArr? && ResolveArray(data, arrayPath) == [] ==> rows == [data]
    ensures data.JArr? || ResolveArray(data, arrayPath) != [] ==> rows == ResolveArray(data, arrayPath)
  {
    var rows := ResolveArray(data, arrayPath);
    if rows == [] && !data.JArr? then [data] else rows
  }

  /** The fallback of the group, sort and stats commands: the resolved array, else the document's
      own elements when it is a list, else the document as the only record. */
  function Records(data: JValue, arrayPath: Option<string>): (rows: seq<JValue>)
    ensures ResolveArray(data, arrayPath) != [] ==> rows == ResolveArray(data, arrayPath)
    ensures ResolveArray(data, arrayPath) == [] && data.JArr? ==> rows == data.elems
    ensures ResolveArray(data, arrayPath) == [] && !data.JArr? ==> rows == [data]
  {
    var rows := ResolveArray(data, arrayPath);
    if rows != [] then rows else if data.JArr? then data.elems else [data]
  }

  // ---------------------------------------------------------------------------------------
  // Flattening

  /** The `array_mode` of `flatten_json`: any other text behaves as `index`. */
  datatype ArrayMode = IndexMode | IgnoreMode | ExpandMode

  /** The key of a dict member under `prefix`: the separator only after a non-empty prefix. */
  function JoinKey(prefix: string, sep: string, key: string): string
  {
    if prefix != "" then prefix + sep + key else key
  }

  /** The key of a list element under `prefix`: `[i]` with no separator. */
  function JoinIndex(prefix: string, idx: nat): string
  {
    prefix + "[" + NatToString(idx) + "]"
  }

  predicate AllScalar(es: seq<JValue>)
  {
    forall i :: 0 <= i < |es| ==> !IsComposite(es[i])
  }

  /** The assignments `walk(v, prefix)` makes to the output dict, in order. */
  function Assignments(v: JValue, prefix: string, sep: string, mode: ArrayMode): Members
    decreases v, 1, 0
  {
    match v
    case JObj(m) =>
      if m == [] && prefix != "" then [(prefix, JObj([]))]
      else MemberAssignments(v, |m|, prefix, sep, mode)
    case JArr(es) =>
      if mode == IgnoreMode then [(prefix, v)]
      else if mode == ExpandMode && AllScalar(es) then [(prefix, v)]
      else ElemAssignments(v, |es|, prefix, sep, mode) + (if es == [] && prefix != "" then [(prefix, JArr([]))] else [])
    case _ => [(prefix, v)]
  }

  /** The assignments made by walking the first `k` members of a dict. */
  function MemberAssignments(v: JValue, k: nat, prefix: string, sep: string, mode: ArrayMode): Members
    requires v.JObj? && k <= |v.members|
    decreases v, 0, k
  {
    if k == 0 then []
    else
      var member := v.members[k - 1];
      MemberAssignments(v, k - 1, prefix, sep, mode) + Assignments(member.1, JoinKey(prefix, sep, member.0), sep, mode)
  }

  /** The prefix of the element at `idx`: the same prefix in expand mode. */
  function ElemPrefix(prefix: string, idx: nat, mode: ArrayMode): string
  {
    if mode == ExpandMode then prefix else JoinIndex(prefix, idx)
  }

  /** The assignments made by walking the first `k` elements of a list. */
  function ElemAssignments(v: JValue, k: nat, prefix: string, sep: string, mode: ArrayMode): Members
    requires v.JArr? && k <= |v.elems|
    decreases v, 0, k
  {
    if k == 0 then []
    else ElemAssignments(v, k - 1, prefix, sep, mode) + Assignments(v.elems[k - 1], ElemPrefix(prefix, k - 1, mode), sep, mode)
  }

  /** `flatten_json(data, separator, array_mode)`: the output dict after all assignments. */
  function Flatten(data: JValue, sep: string, mode: ArrayMode): Members
  {
    PutAll([], Assignments(data, "", sep, mode))
  }

  /** `walk(value, prefix)`, updating the output dict as the source does. */
  method Walk(v: JValue, prefix: string, sep: string, mode: ArrayMode, output: Members) returns (out: Members)
    ensures out == PutAll(output, Assignments(v, prefix, sep, mode))
    decreases v, 3
  {
    match v {
      case JObj(m) =>
        if m == [] && prefix != "" {
          out := Put(output, prefix, JObj([]));
        } else {
          out := WalkMembers(v, prefix, sep, mode, output);
        }
      case JArr(es) =>
        out := WalkList(v, prefix, sep, mode, output);
      case _ =>
        out := Put(output, prefix, v);
    }
  }

  /** The list branch of `walk`. */
  method WalkList(v: JValue, prefix: string, sep: string, mode: ArrayMode, output: Members) returns (out: Members)
    requires v.JArr?
    ensures out == PutAll(output, Assignments(v, prefix, sep, mode))
    decreases v, 2
  {
    var es := v.elems;
    if mode == IgnoreMode {
      out := Put(output, prefix, v);
    } else if mode == ExpandMode && AllScalar(es) {
      out := Put(output, prefix, v);
    } else {
      out := WalkElems(v, prefix, sep, mode, output);
      if es == [] && prefix != "" {
        PutAllConcat(output, ElemAssignments(v, |es|, prefix, sep, mode), [(prefix, JArr([]))]);
        out := Put(out, prefix, JArr([]));
      } else {
        assert ElemAssignments(v, |es|, prefix, sep, mode) + [] == ElemAssignments(v, |es|, prefix, sep, mode);
      }
    }
  }

  /** The loop of `walk` over the members of a dict. */
  method WalkMembers(v: JValue, prefix: string, sep: string, mode: ArrayMode, output: Members) returns (out: Members)
    requires v.JObj?
    ensures out == PutAll(output, MemberAssignments(v, |v.members|, prefix, sep, mode))
    decreases v, 1
  {
    out := output;
    for i := 0 to |v.members|
      invariant out == PutAll(output, MemberAssignments(v, i, prefix, sep, mode))
    {
      out := WalkMember(v, i, prefix, sep, mode, output, out);
    }
  }

  /** One turn of the member loop: `walk(inner, next_prefix)` for member `i`. */
  method WalkMember(v: JValue, i: nat, prefix: string, sep: string, mode: ArrayMode, output: Members, sofar: Members)
    returns (out: Members)
    requires v.JObj? && i < |v.members|
    requires sofar == PutAll(output, MemberAssignments(v, i, prefix, sep, mode))
    ensures out == PutAll(output, MemberAssignments(v, i + 1, prefix, sep, mode))
    decreases v, 0
  {
    var key := v.members[i].0;
    var inner := v.members[i].1;
    var nextPrefix := if prefix != "" then prefix + sep + key else key;
    assert nextPrefix == JoinKey(prefix, sep, key);
    out := Walk(inner, nextPrefix, sep, mode, sofar);
    WalkMemberStep(output, v, i, prefix, sep, mode);
  }

  /** The loop of `walk` over the elements of a list. */
  method WalkElems(v: JValue, prefix: string, sep: string, mode: ArrayMode, output: Members) returns (out: Members)
    requires v.JArr?
    ensures out == PutAll(output, ElemAssignments(v, |v.elems|, prefix, sep, mode))
    decreases v, 1
  {
    out := output;
    for i := 0 to |v.elems|
      invariant out == PutAll(output, ElemAssignments(v, i, prefix, sep, mode))
    {
      out := WalkElem(v, i, prefix, sep, mode, output, out);
    }
  }

  /** One turn of the element loop: `walk(inner, next_prefix)` for element `i`. */
  method WalkElem(v: JValue, i: nat, prefix: string, sep: string, mode: ArrayMode, output: Members, sofar: Members)
    returns (out: Members)
    requires v.JArr? && i < |v.elems|
    requires sofar == PutAll(output, ElemAssignments(v, i, prefix, sep, mode))
    ensures out == PutAll(output, ElemAssignments(v, i + 1, prefix, sep, mode))
    decreases v, 0
  {
    var nextPrefix := if mode == ExpandMode then prefix else prefix + "[" + NatToString(i) + "]";
    assert nextPrefix == ElemPrefix(prefix, i, mode);
    out := Walk(v.elems[i], nextPrefix, sep, mode, sofar);
    WalkElemStep(output, v, i, prefix, sep, mode);
  }

  /** Walking member `i` after the members before it makes the assignments of the first `i + 1`. */
  lemma WalkMemberStep(output: Members, v: JValue, i: nat, prefix: string, sep: string, mode: ArrayMode)
    requires v.JObj? && i < |v.members|
    ensures PutAll(PutAll(output, MemberAssignments(v, i, prefix, sep, mode)),
                   Assignments(v.members[i].1, JoinKey(prefix, sep, v.members[i].0), sep, mode))
      == PutAll(output, MemberAssignments(v, i + 1, prefix, sep, mode))
  {
    PutAllConcat(output, MemberAssignments(v, i, prefix, sep, mode),
                 Assignments(v.members[i].1, JoinKey(prefix, sep, v.members[i].0), sep, mode));
  }

  /** Walking element `i` after the elements before it makes the assignments of the first `i + 1`. */
  lemma WalkElemStep(output: Members, v: JValue, i: nat, prefix: string, sep: string, mode: ArrayMode)
    requires v.JArr? && i < |v.elems|
    ensures PutAll(PutAll(output, ElemAssignments(v, i, prefix, sep, mode)),
                   Assignments(v.elems[i], ElemPrefix(prefix, i, mode), sep, mode))
      == PutAll(output, ElemAssignments(v, i + 1, prefix, sep, mode))
  {
    PutAllConcat(output, ElemAssignments(v, i, prefix, sep, mode),
                 Assignments(v.elems[i], ElemPrefix(prefix, i, mode), sep, mode));
  }

  /** `flatten_json(data, separator, array_mode)`. */
  method FlattenJson(data: JValue, sep: string, mode: ArrayMode) returns (output: Members)
    ensures output == Flatten(data, sep, mode)
  {
    output := Walk(data, "", sep, mode, []);
  }

  /** A flattened record has distinct keys, and each key holds the value of the last assignment
      to it. */
  lemma FlattenKeys(data: JValue, sep: string, mode: ArrayMode, k: string)
    ensures UniqueKeys(Flatten(data, sep, mode))
    ensures var a := Assignments(data, "", sep, mode);
      Lookup(Flatten(data, sep, mode), k) == if k in MemberKeys(a) then Some(a[LastIndexOfKey(a, k)].1) else None
  {
    PutAllUniqueKeys([], Assignments(data, "", sep, mode));
    PutAllLookup([], Assignments(data, "", sep, mode), k);
  }

  /** A top-level scalar is stored under the empty key. */
  lemma FlattenScalar(v: JValue, sep: string, mode: ArrayMode)
    requires !IsComposite(v)
    ensures Flatten(v, sep, mode) == [("", v)]
  {
    var a := Assignments(v, "", sep, mode);
    assert a == [("", v)];
    assert a[..0] == [];
    assert PutAll([], a) == Put([], "", v);
  }

  /** Empty containers are kept only under a non-empty prefix, except for the whole-list
      rule of the ignore and expand modes. */
  lemma FlattenEmptyTop(sep: string)
    ensures Flatten(JObj([]), sep, IndexMode) == []
    ensures Flatten(JArr([]), sep, IndexMode) == []
    ensures Flatten(JArr([]), sep, ExpandMode) == [("", JArr([]))]
    ensures Flatten(JArr([]), sep, IgnoreMode) == [("", JArr([]))]
  {
    assert Assignments(JArr([]), "", sep, IndexMode) == [];
  }

  /** The leaves a flattening stores: scalars and empty containers in index mode, and in expand
      mode also lists of scalars. */
  predicate Leaf(x: JValue, mode: ArrayMode)
  {
    match x
    case JObj(m) => m == []
    case JArr(es) => es == [] || mode == IgnoreMode || (mode == ExpandMode && AllScalar(es))
    case _ => true
  }

  lemma {:induction false} AssignmentsLeaves(v: JValue, prefix: string, sep: string, mode: ArrayMode)
    ensures forall e :: e in Assignments(v, prefix, sep, mode) ==> Leaf(e.1, mode)
    decreases v, 1, 0
  {
    match v {
      case JObj(m) =>
        if !(m == [] && prefix != "") {
          MemberAssignmentsLeaves(v, |m|, prefix, sep, mode);
        }
      case JArr(es) =>
        if mode != IgnoreMode && !(mode == ExpandMode && AllScalar(es)) {
          ElemAssignmentsLeaves(v, |es|, prefix, sep, mode);
        }
      case _ =>
    }
  }

  lemma {:induction false} MemberAssignmentsLeaves(v: JValue, k: nat, prefix: string, sep: string, mode: ArrayMode)
    requires v.JObj? && k <= |v.members|
    ensures forall e :: e in MemberAssignments(v, k, prefix, sep, mode) ==> Leaf(e.1, mode)
    decreases v, 0, k
  {
    if k > 0 {
      MemberAssignmentsLeaves(v, k - 1, prefix, sep, mode);
      AssignmentsLeaves(v.members[k - 1].1, JoinKey(prefix, sep, v.members[k - 1].0), sep, mode);
    }
  }

  lemma {:induction false} ElemAssignmentsLeaves(v: JValue, k: nat, prefix: string, sep: string, mode: ArrayMode)
    requires v.JArr? && k <= |v.elems|
    ensures forall e :: e in ElemAssignments(v, k, prefix, sep, mode) ==> Leaf(e.1, mode)
    decreases v, 0, k
  {
    if k > 0 {
      ElemAssignmentsLeaves(v, k - 1, prefix, sep, mode);
      AssignmentsLeaves(v.elems[k - 1], ElemPrefix(prefix, k - 1, mode), sep, mode);
    }
  }

  /** Every value of a flattened record is a leaf: no non-empty dict survives, and lists survive
      only whole in ignore mode, or as lists of scalars in expand mode. */
  lemma FlattenLeaves(data: JValue, sep: string, mode: ArrayMode)
    ensures forall e :: e in Flatten(data, sep, mode) ==> Leaf(e.1, mode)
  {
    AssignmentsLeaves(data, "", sep, mode);
    PutAllMembers([], Assignments(data, "", sep, mode));
  }

  // ---------------------------------------------------------------------------------------
  // Flattened keys are paths

  /** Every dict key inside `v` can be written in a path and is not the wildcard. */
  predicate PathSafeValue(v: JValue)
  {
    match v
    case JArr(es) => forall i :: 0 <= i < |es| ==> PathSafeValue(es[i])
    case JObj(m) => forall i :: 0 <= i < |m| ==> PathSafeKey(m[i].0) && m[i].0 != "*" && PathSafeValue(m[i].1)
    case _ => true
  }

  lemma {:induction false} RenderFromSnoc(toks: seq<Token>, t: Token, first: bool)
    ensures RenderFrom(toks + [t], first) == RenderFrom(toks, first) + RenderToken(t, first && toks == [])
    decreases |toks|
  {
    if toks == [] {
      assert [] + [t] == [t];
      assert [t][1..] == [];
    } else {
      assert (toks + [t])[1..] == toks[1..] + [t];
      RenderFromSnoc(toks[1..], t, false);
    }
  }

  lemma RenderPathEmpty(toks: seq<Token>)
    requires PathSafe(toks)
    ensures RenderPath(toks) == "" <==> toks == []
  {
    if toks != [] {
      assert RenderToken(toks[0], true) != "";
    }
  }

  lemma PathSafeSnoc(toks: seq<Token>, t: Token)
    requires PathSafe(toks) && (t.Key? ==> PathSafeKey(t.name))
    ensures PathSafe(toks + [t])
  {
    assert forall i :: 0 <= i < |toks| ==> (toks + [t])[i] == toks[i];
  }

  lemma EvalSnoc(data: JValue, toks: seq<Token>, t: Token, v: JValue)
    requires Eval(data, toks) == [v]
    ensures Eval(data, toks + [t]) == Pick(v, t)
  {
    assert (toks + [t])[..|toks|] == toks;
    assert [v][..0] == [];
    assert Step([v], t) == Step([], t) + Pick(v, t);
    assert Eval(data, toks + [t]) == Step([v], t);
  }

  /** What a flattening entry must satisfy: its key, read as a path, reaches exactly its
      value. */
  predicate Resolves(data: JValue, e: (string, JValue))
  {
    Eval(data, Tokens(e.0)) == [e.1]
  }

  /** The path `toks` can be written and read back, and reaches exactly `v`, whose keys can be
      written in a path too. */
  predicate Reaches(data: JValue, v: JValue, toks: seq<Token>)
  {
    PathSafe(toks) && Eval(data, toks) == [v] && PathSafeValue(v) && WellFormed(v)
  }

  /** Every entry of `es` resolves. */
  ghost predicate AllResolve(data: JValue, es: Members)
  {
    forall e :: e in es ==> Resolves(data, e)
  }

  lemma {:induction false} AssignmentsResolve(data: JValue, v: JValue, toks: seq<Token>)
    requires Reaches(data, v, toks)
    ensures AllResolve(data, Assignments(v, RenderPath(toks), ".", IndexMode))
    decreases v, 1, 0
  {
    ParseRenderRoundTrip(toks);
    assert Resolves(data, (RenderPath(toks), v));
    match v {
      case JObj(m) =>
        if !(m == [] && RenderPath(toks) != "") {
          MemberAssignmentsResolve(data, v, |m|, toks);
        }
      case JArr(es) =>
        ElemAssignmentsResolve(data, v, |es|, toks);
      case _ =>
    }
  }

  lemma {:induction false} MemberAssignmentsResolve(data: JValue, v: JValue, k: nat, toks: seq<Token>)
    requires v.JObj? && k <= |v.members|
    requires Reaches(data, v, toks)
    ensures AllResolve(data, MemberAssignments(v, k, RenderPath(toks), ".", IndexMode))
    decreases v, 0, k
  {
    if k > 0 {
      MemberResolves(data, v, k - 1, toks);
    }
  }

  /** The assignments made under one more member of a dict resolve too. */
  lemma {:induction false} MemberResolves(data: JValue, v: JValue, i: nat, toks: seq<Token>)
    requires v.JObj? && i < |v.members|
    requires Reaches(data, v, toks)
    ensures AllResolve(data, MemberAssignments(v, i + 1, RenderPath(toks), ".", IndexMode))
    decreases v, 0, i
  {
    if i > 0 {
      MemberResolves(data, v, i - 1, toks);
    }
    var member := v.members[i];
    MemberReach(data, v, i, toks);
    AssignmentsResolve(data, member.1, toks + [Key(member.0)]);
    ResolvesConcat(data, MemberAssignments(v, i, RenderPath(toks), ".", IndexMode),
                   Assignments(member.1, JoinKey(RenderPath(toks), ".", member.0), ".", IndexMode));
  }

  /** The path of a dict member extends the dict's path by the member's key, and reaches the
      member's value. */
  lemma MemberReach(data: JValue, v: JValue, i: nat, toks: seq<Token>)
    requires v.JObj? && i < |v.members|
    requires Reaches(data, v, toks)
    ensures var key := v.members[i].0;
      var toks' := toks + [Key(key)];
      && PathSafe(toks')
      && JoinKey(RenderPath(toks), ".", key) == RenderPath(toks')
      && Eval(data, toks') == [v.members[i].1]
      && PathSafeValue(v.members[i].1) && WellFormed(v.members[i].1)
  {
    var m := v.members;
    var key := m[i].0;
    var toks' := toks + [Key(key)];
    assert PathSafeKey(key) && key != "*";
    PathSafeSnoc(toks, Key(key));
    RenderFromSnoc(toks, Key(key), true);
    RenderPathEmpty(toks);
    EvalSnoc(data, toks, Key(key), v);
    assert MemberKeys(m)[i] == key;
    var j := IndexOf(MemberKeys(m), key);
    assert MemberKeys(m)[j] == MemberKeys(m)[i];
  }

  lemma ResolvesConcat(data: JValue, a: Members, b: Members)
    requires AllResolve(data, a)
    requires AllResolve(data, b)
    ensures AllResolve(data, a + b)
  {
  }

  lemma {:induction false} ElemAssignmentsResolve(data: JValue, v: JValue, k: nat, toks: seq<Token>)
    requires v.JArr? && k <= |v.elems|
    requires Reaches(data, v, toks)
    ensures AllResolve(data, ElemAssignments(v, k, RenderPath(toks), ".", IndexMode))
    decreases v, 0, k
  {
    if k > 0 {
      ElemResolves(data, v, k - 1, toks);
    }
  }

  /** The assignments made under one more element of a list resolve too. */
  lemma {:induction false} ElemResolves(data: JValue, v: JValue, i: nat, toks: seq<Token>)
    requires v.JArr? && i < |v.elems|
    requires Reaches(data, v, toks)
    ensures AllResolve(data, ElemAssignments(v, i + 1, RenderPath(toks), ".", IndexMode))
    decreases v, 0, i
  {
    if i > 0 {
      ElemResolves(data, v, i - 1, toks);
    }
    var toks' := toks + [Index(i)];
    ElemReach(data, v, i, toks);
    AssignmentsResolve(data, v.elems[i], toks');
    ResolvesConcat(data, ElemAssignments(v, i, RenderPath(toks), ".", IndexMode),
                   Assignments(v.elems[i], RenderPath(toks'), ".", IndexMode));
  }

  /** The path of a list element extends the list's path by the element's index, and reaches
      the element. */
  lemma ElemReach(data: JValue, v: JValue, i: nat, toks: seq<Token>)
    requires v.JArr? && i < |v.elems|
    requires Reaches(data, v, toks)
    ensures var toks' := toks + [Index(i)];
      && PathSafe(toks')
      && ElemPrefix(RenderPath(toks), i, IndexMode) == RenderPath(toks')
      && Eval(data, toks') == [v.elems[i]]
      && PathSafeValue(v.elems[i]) && WellFormed(v.elems[i])
  {
    var inner := v.elems[i];
    var toks' := toks + [Index(i)];
    assert PathSafeValue(inner) && WellFormed(inner);
    assert PathSafe(toks') by {
      PathSafeSnoc(toks, Index(i));
    }
    assert ElemPrefix(RenderPath(toks), i, IndexMode) == RenderPath(toks') by {
      RenderFromSnoc(toks, Index(i), true);
      assert RenderToken(Index(i), toks == []) == "[" + NatToString(i) + "]";
    }
    assert Eval(data, toks') == [inner] by {
      EvalSnoc(data, toks, Index(i), v);
      assert Pick(v, Index(i)) == [inner];
    }
  }

  /** In index mode with the default separator, every key of the flattened record is a path
      that `extract_values` resolves to exactly the value stored under it, provided the
      document's keys can be written in a path. */
  lemma FlattenResolves(data: JValue)
    requires PathSafeValue(data) && WellFormed(data)
    ensures forall e :: e in Flatten(data, ".", IndexMode) ==> Extract(data, e.0) == [e.1]
  {
    assert Eval(data, []) == [data];
    assert RenderPath([]) == "";
    AssignmentsResolve(data, data, []);
    PutAllMembers([], Assignments(data, "", ".", IndexMode));
  }

  /** Expand mode walks every element of a list of dicts under the list's own key, so later
      elements overwrite earlier ones: `{"a": [{"x": 1}, {"x": 2}]}` flattens to `{"a.x": 2}`. */
  lemma ExampleExpandOverwrites()
    ensures Flatten(JObj([("a", JArr([JObj([("x", JInt(1))]), JObj([("x", JInt(2))])]))]), ".", ExpandMode)
      == [("a.x", JInt(2))]
  {
    var arr := JArr([JObj([("x", JInt(1))]), JObj([("x", JInt(2))])]);
    var data := JObj([("a", arr)]);
    var pairs := [("a.x", JInt(1)), ("a.x", JInt(2))];
    ExpandedList();
    assert Assignments(data, "", ".", ExpandMode) == pairs by {
      assert JoinKey("", ".", "a") == "a";
      assert MemberAssignments(data, 1, "", ".", ExpandMode)
        == MemberAssignments(data, 0, "", ".", ExpandMode) + Assignments(arr, "a", ".", ExpandMode);
    }
    LaterOverwrites();
  }

  /** The dict `{"x": n}` under the key `a` assigns `a.x` once. */
  lemma ExpandedMember(n: int)
    ensures Assignments(JObj([("x", JInt(n))]), "a", ".", ExpandMode) == [("a.x", JInt(n))]
  {
    var o := JObj([("x", JInt(n))]);
    assert JoinKey("a", ".", "x") == "a.x";
    assert MemberAssignments(o, 1, "a", ".", ExpandMode) == MemberAssignments(o, 0, "a", ".", ExpandMode) + Assignments(JInt(n), "a.x", ".", ExpandMode);
  }

  /** The list of the two dicts under `a` assigns `a.x` twice, element by element. */
  lemma ExpandedList()
    ensures Assignments(JArr([JObj([("x", JInt(1))]), JObj([("x", JInt(2))])]), "a", ".", ExpandMode)
      == [("a.x", JInt(1)), ("a.x", JInt(2))]
  {
    var o1 := JObj([("x", JInt(1))]);
    var o2 := JObj([("x", JInt(2))]);
    var arr := JArr([o1, o2]);
    ExpandedMember(1);
    ExpandedMember(2);
    assert !AllScalar([o1, o2]) by {
      assert IsComposite([o1, o2][0]);
    }
    assert ElemAssignments(arr, 2, "a", ".", ExpandMode)
      == ElemAssignments(arr, 1, "a", ".", ExpandMode) + Assignments(o2, "a", ".", ExpandMode);
    assert ElemAssignments(arr, 1, "a", ".", ExpandMode)
      == ElemAssignments(arr, 0, "a", ".", ExpandMode) + Assignments(o1, "a", ".", ExpandMode);
  }

  /** Applying the two assignments of `a.x` keeps the later value. */
  lemma LaterOverwrites()
    ensures PutAll([], [("a.x", JInt(1)), ("a.x", JInt(2))]) == [("a.x", JInt(2))]
  {
    var pairs := [("a.x", JInt(1)), ("a.x", JInt(2))];
    assert pairs[..1] == [("a.x", JInt(1))] && pairs[..1][..0] == [];
    assert PutAll([], pairs[..1]) == [("a.x", JInt(1))];
    assert MemberKeys([("a.x", JInt(1))]) == ["a.x"];
  }

  // ---------------------------------------------------------------------------------------
  // Type tags and counting

  /** `type_name(value)`. */
  function TypeName(v: JValue): (r: string)
    ensures r in {"null", "bool", "int", "float", "string", "array", "object"}
  {
    match v
    case JNull => "null"
    case JBool(_) => "bool"
    case JInt(_) => "int"
    case JFloat(_) => "float"
    case JStr(_) => "string"
    case JArr(_) => "array"
    case JObj(_) => "object"
  }

  /** Two values have the same tag exactly when they are the same kind of JSON value; in
      particular a boolean is never tagged `int` and every float is tagged `float`. */
  lemma TypeNameKinds(v: JValue, w: JValue)
    ensures TypeName(v) == TypeName(w) <==> SameKind(v, w)
    ensures TypeName(v) == "float" <==> v.JFloat?
    ensures TypeName(v) == "int" <==> v.JInt?
  {
  }

  predicate SameKind(v: JValue, w: JValue)
  {
    (v.JNull? && w.JNull?) || (v.JBool? && w.JBool?) || (v.JInt? && w.JInt?) || (v.JFloat? && w.JFloat?)
    || (v.JStr? && w.JStr?) || (v.JArr? && w.JArr?) || (v.JObj? && w.JObj?)
  }

  /** `unique_types(values)`. */
  function UniqueTypes(values: seq<JValue>): seq<string>
  {
    SortedSet(MapSeq(values, TypeName))
  }

  /** `unique_types` lists, in strictly increasing order, exactly the tags of the values. */
  lemma UniqueTypesProperties(values: seq<JValue>)
    ensures forall t :: t in UniqueTypes(values) <==> exists i :: 0 <= i < |values| && TypeName(values[i]) == t
    ensures forall i, j :: 0 <= i < j < |UniqueTypes(values)| ==> StrLess(UniqueTypes(values)[i], UniqueTypes(values)[j])
  {
    var names := MapSeq(values, TypeName);
    SortedSetProperties(names);
    forall t ensures t in names <==> exists i :: 0 <= i < |values| && TypeName(values[i]) == t {
      if t in names {
        var i :| 0 <= i < |names| && names[i] == t;
        assert TypeName(values[i]) == t;
      }
    }
  }

  /** The text a value is counted under: key-sorted JSON for dicts and lists, `str` otherwise. */
  function FrequencyKey(v: JValue): string
  {
    if IsComposite(v) then Dumps(v, DefaultSeparators) else PyStr(v)
  }

  /** `frequency(values)`. */
  function Frequency(values: seq<JValue>): seq<(string, nat)>
  {
    Count(MapSeq(values, FrequencyKey))
  }

  /** The counts of `frequency` add up to the number of values; each counted text appears
      once, with the number of values counted under it. */
  lemma FrequencyProperties(values: seq<JValue>)
    ensures Total(Frequency(values)) == |values|
    ensures NoDups(Values(Frequency(values)))
    ensures forall i :: 0 <= i < |Frequency(values)| ==>
      Frequency(values)[i].1 == multiset(MapSeq(values, FrequencyKey))[Frequency(values)[i].0] > 0
  {
    CountProperties(MapSeq(values, FrequencyKey));
  }

  /** Dicts are counted independently of the order of their keys. */
  lemma FrequencyKeyOrderFree(m: Members, m': Members)
    requires UniqueKeys(m) && multiset(m) == multiset(m')
    ensures FrequencyKey(JObj(m)) == FrequencyKey(JObj(m'))
  {
    DumpsKeyOrderFree(m, m', DefaultSeparators);
  }

  /** `parse_literal(value)`: the keywords `null`, `true` and `false` in any case, then what
      `json.loads` makes of the stripped text (`loads`, None for a decoding error), then the
      stripped text itself. */
  function ParseLiteral(value: string, loads: string -> Option<JValue>): (r: JValue)
  {
    var candidate := Strip(value);
    var lowered := Lower(candidate);
    if lowered == "null" then JNull
    else if lowered == "true" then JBool(true)
    else if lowered == "false" then JBool(false)
    else
      match loads(candidate)
      case Some(v) => v
      case None => JStr(candidate)
  }

  /** The keywords are recognised whatever their case and surrounding whitespace. */
  lemma ParseLiteralKeywords(value: string, loads: string -> Option<JValue>)
    requires Lower(Strip(value)) in {"null", "true", "false"}
    ensures ParseLiteral(value, loads) == if Lower(Strip(value)) == "null" then JNull else JBool(Lower(Strip(value)) == "true")
    ensures forall other :: Lower(Strip(other)) == Lower(Strip(value)) ==> ParseLiteral(other, loads) == ParseLiteral(value, loads)
  {
  }

  /** Non-keyword text that `json.loads` rejects is kept, stripped, as a string. */
  lemma ParseLiteralFallback(value: string, loads: string -> Option<JValue>)
    requires Lower(Strip(value)) !in {"null", "true", "false"} && loads(Strip(value)) == None
    ensures ParseLiteral(value, loads) == JStr(Strip(value))
  {
  }

  // ---------------------------------------------------------------------------------------
  // The keys of a sequence of records

  /** The keys of a dict, none for anything else. */
  function ItemKeys(v: JValue): seq<string>
  {
    if v.JObj? then MemberKeys(v.members) else []
  }

  /** Every key of every record, record by record (what `key_counts.update(item.keys())`
      feeds to the counter). */
  function AllKeys(es: seq<JValue>): seq<string>
  {
    if es == [] then [] else AllKeys(es[..|es| - 1]) + ItemKeys(es[|es| - 1])
  }

  /** `key in item` for a record. */
  function HasKey(k: string): JValue -> bool
  {
    (v: JValue) => k in ItemKeys(v)
  }

  /** A key occurs among all the keys exactly when some record has it. */
  lemma {:induction false} AllKeysHolder(es: seq<JValue>, k: string)
    ensures k in AllKeys(es) <==> exists i :: 0 <= i < |es| && HasKey(k)(es[i])
  {
    if es != [] {
      var init := es[..|es| - 1];
      AllKeysHolder(init, k);
      if k in AllKeys(init) {
        var i :| 0 <= i < |init| && HasKey(k)(init[i]);
        assert es[i] == init[i];
      }
      if exists i :: 0 <= i < |es| && HasKey(k)(es[i]) {
        var i :| 0 <= i < |es| && HasKey(k)(es[i]);
        if i < |es| - 1 {
          assert init[i] == es[i];
        }
      }
    }
  }

  /** The distinct keys of the records in increasing order: `sorted(key_counts)` in `infer_schema`,
      `sorted(field_candidates)` in the stats `main`. */
  function MergedKeys(es: seq<JValue>): (ks: seq<string>)
    ensures forall k :: k in ks ==> k in AllKeys(es)
  {
    SortedSetProperties(AllKeys(es));
    SortedSet(AllKeys(es))
  }

  /** The merged keys are the keys some record has, each once, in increasing order. */
  lemma MergedKeysProperties(es: seq<JValue>)
    ensures forall k :: k in MergedKeys(es) <==> exists i :: 0 <= i < |es| && HasKey(k)(es[i])
    ensures forall a, b :: 0 <= a < b < |MergedKeys(es)| ==> StrLess(MergedKeys(es)[a], MergedKeys(es)[b])
  {
    SortedSetProperties(AllKeys(es));
    forall k ensures k in MergedKeys(es) <==> exists i :: 0 <= i < |es| && HasKey(k)(es[i]) {
      AllKeysHolder(es, k);
    }
  }
}
