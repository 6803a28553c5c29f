/** The shared row shaper of the CSV commands (csv-tools/scripts/common.py): comment-line
    filtering, blank rows, header detection by the most common row width, and turning parsed rows
    into header-keyed records. Splitting text into lines (`str.splitlines`) and tokenizing lines
    into cells (Python's `csv.reader` with the chosen delimiter) are parameters. */
module CsvCommon {
  import opened Text
  import opened Seqs
  import opened Sorting
  import opened Tally

  /** A parsed row: its cells in order. */
  type Cells = seq<string>

  /** A record: column name to cell text (`dict(zip(header, cells))`). */
  type Row = map<string, string>

  /** A loaded table: the columns, the records and the 1-based position of the header among
      the parsed rows (0 without a header). */
  datatype Table = Table(columns: seq<string>, rows: seq<Row>, headerRow: nat)

  const EmptyTable := Table([], [], 0)

  /** `row.get(col, "")` (every loaded cell is a string, so a following `or ""` changes nothing). */
  function Get(row: Row, col: string): string
  {
    if col in row then row[col] else ""
  }

  // ---------------------------------------------------------------------------------------
  // Comment lines

  /** A line whose stripped text is non-empty and starts with the comment marker. */
  predicate IsCommentLine(line: string, comment: string)
  {
    Strip(line) != "" && StartsWith(Strip(line), comment)
  }

  /** `_lines_filter_comment(lines, comment_char)`; `None` and `""` both disable it. */
  function CommentFree(lines: seq<string>, comment: Option<string>): seq<string>
  {
    if comment == None || comment.value == "" then lines
    else Filter(lines, (line: string) => !IsCommentLine(line, comment.value))
  }

  /** `_lines_filter_comment`, as its loop computes it. */
  method FilterComment(lines: seq<string>, comment: Option<string>) returns (out: seq<string>)
    ensures out == CommentFree(lines, comment)
  {
    if comment == None || comment.value == "" {
      return lines;
    }
    var c := comment.value;
    out := [];
    var i := 0;
    while i < |lines|
      invariant 0 <= i <= |lines|
      invariant out == Filter(lines[..i], (line: string) => !IsCommentLine(line, c))
    {
      assert lines[..i + 1][..i] == lines[..i];
      var s := Strip(lines[i]);
      if s != "" && StartsWith(s, c) {
        i := i + 1;
        continue;
      }
      out := out + [lines[i]];
      i := i + 1;
    }
    assert lines[..i] == lines;
  }

  /** Comment filtering keeps the other lines, unchanged and in order, and drops exactly the
      comment lines. */
  lemma CommentFreeProperties(lines: seq<string>, comment: string)
    requires comment != ""
    ensures var out := CommentFree(lines, Some(comment));
      && IsSubseq(out, lines)
      && (forall i :: 0 <= i < |out| ==> !IsCommentLine(out[i], comment))
      && (forall i :: 0 <= i < |lines| && !IsCommentLine(lines[i], comment) ==> lines[i] in out)
      && |out| + |Filter(lines, (line: string) => IsCommentLine(line, comment))| == |lines|
  {
    var keep := (line: string) => !IsCommentLine(line, comment);
    var drop := (line: string) => IsCommentLine(line, comment);
    FilterIsSubseq(lines, keep);
    FilterComplement(lines, keep, drop);
  }

  // ---------------------------------------------------------------------------------------
  // Blank rows and header detection

  /** `_is_blank_row(row)`. */
  predicate IsBlankRow(row: Cells)
  {
    forall i :: 0 <= i < |row| ==> Strip(row[i]) == ""
  }

  /** A row is blank exactly when it holds nothing but whitespace; the empty row is blank. */
  lemma BlankRowIff(row: Cells)
    ensures IsBlankRow(row) <==> forall i, j :: 0 <= i < |row| && 0 <= j < |row[i]| ==> row[i][j] in Whitespace
    ensures IsBlankRow([])
  {
    forall i | 0 <= i < |row| {
      StripEmptyIff(row[i]);
    }
  }

  function NonBlankRows(rows: seq<Cells>): seq<Cells>
  {
    Filter(rows, (r: Cells) => !IsBlankRow(r))
  }

  /** The widths of the non-blank rows, in order. */
  function Widths(rows: seq<Cells>): seq<nat>
  {
    MapSeq(NonBlankRows(rows), (r: Cells) => |r|)
  }

  /** The first width in `most_common()` order whose count reaches `minSame`. */
  function FirstQualifying(all: seq<(nat, nat)>, minSame: int): (r: Option<nat>)
    ensures r.Some? ==> exists i :: 0 <= i < |all| && all[i].0 == r.value && all[i].1 >= minSame
    ensures r.None? <==> forall i :: 0 <= i < |all| ==> all[i].1 < minSame
    ensures all != [] && all[0].1 >= minSame ==> r == Some(all[0].0)
  {
    if all == [] then None
    else if all[0].1 >= minSame then Some(all[0].0)
    else
      var r := FirstQualifying(all[1..], minSame);
      assert forall i :: 1 <= i < |all| ==> all[i] == all[1..][i - 1];
      r
  }

  /** The width `_find_header_row` settles on: the first qualifying width, else the mode. */
  function BestWidth(rows: seq<Cells>, minSame: int): nat
    requires NonBlankRows(rows) != []
  {
    var all := MostCommonAll(Count(Widths(rows)));
    match FirstQualifying(all, minSame)
    case Some(w) => w
    case None => MostCommon(Count(Widths(rows)), 1)[0].0
  }

  /** The position of the first row of width `w`, or `|rows|` when there is none. */
  function FindWidth(rows: seq<Cells>, w: nat): (i: nat)
    ensures i <= |rows| && forall j :: 0 <= j < i ==> |rows[j]| != w
    ensures i < |rows| ==> |rows[i]| == w
  {
    if rows == [] || |rows[0]| == w then 0
    else
      var i := FindWidth(rows[1..], w);
      assert forall j :: 1 <= j < |rows| ==> rows[j] == rows[1..][j - 1];
      1 + i
  }

  /** The first index of a row of width `w`, or 0 when there is none. */
  function FirstWithWidth(rows: seq<Cells>, w: nat): (i: nat)
    ensures i < |rows| || i == 0
    ensures (exists j :: 0 <= j < |rows| && |rows[j]| == w) ==>
      i < |rows| && |rows[i]| == w && forall j :: 0 <= j < i ==> |rows[j]| != w
  {
    var i := FindWidth(rows, w);
    if i < |rows| then i else 0
  }

  /** The position found by a scan that stops at the first row of width `w`. */
  lemma FirstWithWidthAt(rows: seq<Cells>, w: nat, i: nat)
    requires i <= |rows| && forall j :: 0 <= j < i ==> |rows[j]| != w
    requires i < |rows| ==> |rows[i]| == w
    ensures FirstWithWidth(rows, w) == if i < |rows| then i else 0
  {
  }

  /** `_find_header_row(rows_list, min_same_count)`. */
  function HeaderIndex(rows: seq<Cells>, minSame: int): (i: nat)
    ensures rows != [] ==> i < |rows|
  {
    if NonBlankRows(rows) == [] then 0 else FirstWithWidth(rows, BestWidth(rows, minSame))
  }

  /** `_find_header_row`, as its two loops compute it. */
  method FindHeaderRow(rows: seq<Cells>, minSame: int) returns (idx: nat)
    ensures idx == HeaderIndex(rows, minSame)
  {
    var nonBlank := NonBlankRows(rows);
    if nonBlank == [] {
      return 0;
    }
    var countFreq := Count(Widths(rows));
    var all := MostCommonAll(countFreq);
    var best: Option<nat> := None;
    var k := 0;
    while k < |all|
      invariant 0 <= k <= |all|
      invariant FirstQualifying(all[k..], minSame) == FirstQualifying(all, minSame)
    {
      if all[k].1 >= minSame {
        best := Some(all[k].0);
        break;
      }
      assert all[k..][1..] == all[k + 1..];
      k := k + 1;
    }
    if best == None {
      best := Some(MostCommon(countFreq, 1)[0].0);
    }
    var w := best.value;
    assert HeaderIndex(rows, minSame) == FirstWithWidth(rows, w);
    idx := ScanForWidth(rows, w);
  }

  /** The second loop of `_find_header_row`: the first row of width `w`, else 0. */
  method ScanForWidth(rows: seq<Cells>, w: nat) returns (idx: nat)
    ensures idx == FirstWithWidth(rows, w)
  {
    var i := 0;
    while i < |rows|
      invariant 0 <= i <= |rows|
      invariant forall j :: 0 <= j < i ==> |rows[j]| != w
    {
      if |rows[i]| == w {
        FirstWithWidthAt(rows, w, i);
        return i;
      }
      i := i + 1;
    }
    FirstWithWidthAt(rows, w, |rows|);
    return 0;
  }

  /** Whatever `min_same_count` is, the width chosen is the first entry of `most_common()`:
      when that entry's count is below the threshold, so is every other count. */
  lemma BestWidthIsMode(rows: seq<Cells>, minSame: int)
    requires NonBlankRows(rows) != []
    ensures BestWidth(rows, minSame) == MostCommonAll(Count(Widths(rows)))[0].0
  {
    var t := Count(Widths(rows));
    var all := MostCommonAll(t);
    MostCommonProperties(t, 1, all[0]);
    if all[0].1 < minSame {
      assert forall i :: 0 <= i < |all| ==> all[i].1 < minSame by {
        forall i | 0 <= i < |all| ensures all[i].1 < minSame {
          assert i == 0 || all[0].1 >= all[i].1;
        }
      }
    }
  }

  /** A width of a non-blank row belongs to some row. */
  lemma WidthHasRow(rows: seq<Cells>, w: nat)
    requires w in Widths(rows)
    ensures exists j :: 0 <= j < |rows| && |rows[j]| == w
  {
    var nb := NonBlankRows(rows);
    var i :| 0 <= i < |nb| && |nb[i]| == w;
    assert nb[i] in rows;
  }

  /** When some row is not blank, the header is the first row, in the full list, whose width
      is a most common width among the non-blank rows, ties going to the width counted first;
      so the final `return 0` of the source is never reached. */
  lemma HeaderIndexProperties(rows: seq<Cells>, minSame: int)
    requires NonBlankRows(rows) != []
    ensures var t := Count(Widths(rows));
      var w := BestWidth(rows, minSame);
      var idx := HeaderIndex(rows, minSame);
      && idx < |rows| && |rows[idx]| == w && (forall j :: 0 <= j < idx ==> |rows[j]| != w)
      && w in Widths(rows)
      && (forall e :: e in t ==> e.1 <= multiset(Widths(rows))[w])
      && (forall j :: 0 <= j < |t| && t[j].0 == w ==> forall j' :: 0 <= j' < j ==> t[j'].1 < t[j].1)
  {
    var xs := Widths(rows);
    var t := Count(xs);
    var all := MostCommonAll(t);
    BestWidthIsMode(rows, minSame);
    ModeIsFirstMaximal(t);
    CountProperties(xs);
    var m := all[0];
    var w := m.0;
    var p :| 0 <= p < |t| && t[p] == m;
    assert Values(t)[p] == w;
    assert w in xs;
    assert m.1 == multiset(xs)[w];
    WidthHasRow(rows, w);
    forall j | 0 <= j < |t| && t[j].0 == w ensures forall j' :: 0 <= j' < j ==> t[j'].1 < t[j].1 {
      assert Values(t)[j] == Values(t)[p];
      assert j == p;
      assert IndexOf(t, m) == p by {
        var q := IndexOf(t, m);
        assert Values(t)[q] == Values(t)[p];
      }
    }
  }

  // ---------------------------------------------------------------------------------------
  // Loading

  /** `dict(zip(header, cells))` over the first `n` pairs: later duplicates of a column name
      overwrite earlier ones. */
  function ZipN(header: seq<string>, cells: Cells, n: nat): Row
    requires n <= |header| && n <= |cells|
  {
    if n == 0 then map[] else ZipN(header, cells, n - 1)[header[n - 1] := cells[n - 1]]
  }

  /** `dict(zip(header, cells))`. */
  function ZipRow(header: seq<string>, cells: Cells): Row
  {
    ZipN(header, cells, if |header| < |cells| then |header| else |cells|)
  }

  lemma {:induction false} ZipNProperties(header: seq<string>, cells: Cells, n: nat)
    requires n <= |header| && n <= |cells|
    ensures ZipN(header, cells, n).Keys == set i | 0 <= i < n :: header[i]
    ensures forall i :: 0 <= i < n && (forall j :: i < j < n ==> header[j] != header[i]) ==>
      ZipN(header, cells, n)[header[i]] == cells[i]
  {
    if n > 0 {
      ZipNProperties(header, cells, n - 1);
      assert (set i | 0 <= i < n :: header[i]) == (set i | 0 <= i < n - 1 :: header[i]) + {header[n - 1]};
    }
  }

  /** A record has exactly the header's names as keys, and under a name the cell of its last
      column with that name; with distinct names, cell `i` sits under name `i`. */
  lemma ZipRowProperties(header: seq<string>, cells: Cells)
    requires |cells| == |header|
    ensures ZipRow(header, cells).Keys == set i | 0 <= i < |header| :: header[i]
    ensures forall i :: 0 <= i < |header| && (forall j :: i < j < |header| ==> header[j] != header[i]) ==>
      ZipRow(header, cells)[header[i]] == cells[i]
  {
    ZipNProperties(header, cells, |header|);
  }

  /** `[f"col{i}" for i in range(n)]`. */
  function ColNames(n: nat): (names: seq<string>)
    ensures |names| == n
  {
    seq(n, i requires 0 <= i < n => "col" + NatToString(i))
  }

  /** The loop dropping leading whitespace-only lines. */
  function DropBlankLines(lines: seq<string>): (r: seq<string>)
    ensures r == [] || Strip(r[0]) != ""
  {
    if lines != [] && Strip(lines[0]) == "" then DropBlankLines(lines[1..]) else lines
  }

  /** The loop dropping leading blank rows. */
  function DropBlankRows(rows: seq<Cells>): (r: seq<Cells>)
    ensures r == [] || !IsBlankRow(r[0])
  {
    if rows != [] && IsBlankRow(rows[0]) then DropBlankRows(rows[1..]) else rows
  }

  /** The header, the rows after it and the 1-based header position. */
  function HeaderSplit(rows: seq<Cells>, hasHeader: bool, skip: bool): (r: (seq<string>, seq<Cells>, nat))
    requires rows != []
    ensures r.2 <= |rows| && r.1 == rows[r.2..]
  {
    if hasHeader then
      if skip then (rows[0], rows[1..], 1)
      else
        var idx := HeaderIndex(rows, 2);
        (rows[idx], rows[idx + 1..], idx + 1)
    else (ColNames(|rows[0]|), rows, 0)
  }

  function WidthIs(n: nat): Cells -> bool
  {
    (r: Cells) => |r| == n
  }

  function ZipAll(header: seq<string>, rows: seq<Cells>): (r: seq<Row>)
    ensures |r| == |rows| && forall i :: 0 <= i < |rows| ==> r[i] == ZipRow(header, rows[i])
  {
    MapSeq(rows, (cells: Cells) => ZipRow(header, cells))
  }

  /** What `load_csv` makes of the rows left after tokenizing and dropping leading blank rows. */
  function ShapeRows(rows: seq<Cells>, hasHeader: bool, skip: bool): Table
    requires rows != []
  {
    var split := HeaderSplit(rows, hasHeader, skip);
    Table(split.0, ZipAll(split.0, Filter(split.1, WidthIs(|split.0|))), split.2)
  }

  /** `load_csv`, from the text to the table. `splitLines` is `str.splitlines` and `reader`
      the tokenizing of the remaining lines joined by newlines. */
  function LoadCsvSpec(text: string, hasHeader: bool, comment: Option<string>, skipLines: Option<int>,
                       splitLines: string -> seq<string>, reader: seq<string> -> seq<Cells>): Table
  {
    var text1 := if StartsWith(text, "\U{FEFF}") then text[1..] else text;
    var lines := splitLines(text1);
    if lines == [] then EmptyTable
    else
      var lines2 := CommentFree(lines, comment);
      if lines2 == [] then EmptyTable
      else
        var lines3 := DropBlankLines(lines2);
        if lines3 == [] then EmptyTable
        else
          var skip := skipLines.Some? && skipLines.value > 0;
          var lines4 := if skip then lines3[if skipLines.value < |lines3| then skipLines.value else |lines3|..] else lines3;
          if lines4 == [] then EmptyTable
          else
            var rows := reader(lines4);
            if rows == [] then EmptyTable
            else
              var rows2 := DropBlankRows(rows);
              if rows2 == [] then EmptyTable
              else ShapeRows(rows2, hasHeader, skip)
  }

  lemma ZipAllSnoc(header: seq<string>, rows: seq<Cells>, cells: Cells)
    ensures ZipAll(header, rows + [cells]) == ZipAll(header, rows) + [ZipRow(header, cells)]
  {
  }

  /** The loop appending `dict(zip(header, r))` for each kept row. */
  method ZipRows(header: seq<string>, dataRows: seq<Cells>) returns (rows: seq<Row>)
    ensures rows == ZipAll(header, dataRows)
  {
    rows := [];
    var i := 0;
    while i < |dataRows|
      invariant 0 <= i <= |dataRows|
      invariant rows == ZipAll(header, dataRows[..i])
    {
      assert dataRows[..i + 1] == dataRows[..i] + [dataRows[i]];
      ZipAllSnoc(header, dataRows[..i], dataRows[i]);
      rows := rows + [ZipRow(header, dataRows[i])];
      i := i + 1;
    }
    assert dataRows[..i] == dataRows;
  }

  lemma HeaderSplitDetected(rows: seq<Cells>)
    requires rows != []
    ensures var i := HeaderIndex(rows, 2);
      i < |rows| && HeaderSplit(rows, true, false) == (rows[i], rows[i + 1..], i + 1)
  {
  }

  /** The header choice of `load_csv`: the first row when lines were skipped, the detected
      header row otherwise, or `col0..` names without a header. */
  method ChooseHeader(rowsList: seq<Cells>, hasHeader: bool, skip: bool)
      returns (header: seq<string>, dataRowsRaw: seq<Cells>, headerRow: nat)
    requires rowsList != []
    ensures (header, dataRowsRaw, headerRow) == HeaderSplit(rowsList, hasHeader, skip)
  {
    if hasHeader {
      if skip {
        header := rowsList[0];
        dataRowsRaw := rowsList[1..];
        headerRow := 1;
      } else {
        var headerIdx := FindHeaderRow(rowsList, 2);
        HeaderSplitDetected(rowsList);
        header := rowsList[headerIdx];
        dataRowsRaw := rowsList[headerIdx + 1..];
        headerRow := headerIdx + 1;
      }
    } else {
      header := ColNames(|rowsList[0]|);
      dataRowsRaw := rowsList;
      headerRow := 0;
    }
  }

  /** The second half of `load_csv`: choosing the header and zipping the rows of its width. */
  method ShapeLoaded(rowsList: seq<Cells>, hasHeader: bool, skip: bool) returns (t: Table)
    requires rowsList != []
    ensures t == ShapeRows(rowsList, hasHeader, skip)
  {
    var header, dataRowsRaw, headerRow := ChooseHeader(rowsList, hasHeader, skip);
    var expectedLen := |header|;
    dataRowsRaw := Filter(dataRowsRaw, WidthIs(expectedLen));
    var rows := ZipRows(header, dataRowsRaw);
    t := Table(header, rows, headerRow);
  }

  /** `load_csv`, step by step as the source runs it. */
  method LoadCsv(text: string, hasHeader: bool, comment: Option<string>, skipLines: Option<int>,
                 splitLines: string -> seq<string>, reader: seq<string> -> seq<Cells>) returns (t: Table)
    ensures t == LoadCsvSpec(text, hasHeader, comment, skipLines, splitLines, reader)
  {
    var text1 := text;
    if StartsWith(text1, "\U{FEFF}") {
      text1 := text1[1..];
    }
    var lines := splitLines(text1);
    if lines == [] {
      return EmptyTable;
    }
    lines := FilterComment(lines, comment);
    if lines == [] {
      return EmptyTable;
    }
    ghost var commentFree := lines;
    while lines != [] && Strip(lines[0]) == ""
      invariant DropBlankLines(lines) == DropBlankLines(commentFree)
      decreases |lines|
    {
      lines := lines[1..];
    }
    if lines == [] {
      return EmptyTable;
    }
    var skip := skipLines.Some? && skipLines.value > 0;
    if skip {
      lines := lines[if skipLines.value < |lines| then skipLines.value else |lines|..];
    }
    if lines == [] {
      return EmptyTable;
    }
    var rowsList := reader(lines);
    if rowsList == [] {
      return EmptyTable;
    }
    ghost var parsed := rowsList;
    while rowsList != [] && IsBlankRow(rowsList[0])
      invariant DropBlankRows(rowsList) == DropBlankRows(parsed)
      decreases |rowsList|
    {
      rowsList := rowsList[1..];
    }
    if rowsList == [] {
      return EmptyTable;
    }
    t := ShapeLoaded(rowsList, hasHeader, skip);
  }

  /** The shape of a loaded table: each record is the zip of the columns with a parsed row of
      exactly their width, taken in order from the rows after the header; the columns are
      `col0..` for the first row's width without a header, the first remaining row after
      skipped lines, and the detected header row otherwise. */
  lemma ShapeRowsProperties(rows: seq<Cells>, hasHeader: bool, skip: bool)
    requires rows != []
    ensures var t := ShapeRows(rows, hasHeader, skip);
      && t.headerRow <= |rows|
      && t.rows == ZipAll(t.columns, Filter(rows[t.headerRow..], WidthIs(|t.columns|)))
      && IsSubseq(Filter(rows[t.headerRow..], WidthIs(|t.columns|)), rows[t.headerRow..])
      && (forall i :: 0 <= i < |t.rows| ==> t.rows[i].Keys == set c | c in t.columns)
      && (!hasHeader ==> t.columns == ColNames(|rows[0]|) && t.headerRow == 0)
      && (hasHeader && skip ==> t.columns == rows[0] && t.headerRow == 1)
      && (hasHeader && !skip ==> t.headerRow == HeaderIndex(rows, 2) + 1 && t.columns == rows[t.headerRow - 1])
  {
    var t := ShapeRows(rows, hasHeader, skip);
    var kept := Filter(rows[t.headerRow..], WidthIs(|t.columns|));
    FilterIsSubseq(rows[t.headerRow..], WidthIs(|t.columns|));
    forall i | 0 <= i < |t.rows| ensures t.rows[i].Keys == set c | c in t.columns {
      assert WidthIs(|t.columns|)(kept[i]);
      ZipRowProperties(t.columns, kept[i]);
      assert (set j | 0 <= j < |t.columns| :: t.columns[j]) == set c | c in t.columns;
    }
  }

  /** `sniff_type(value)`; `isNumber` stands for "`float()` accepts the stripped text". */
  function SniffType(value: string, isNumber: string -> bool): (r: string)
    ensures r == "empty" <==> Strip(value) == ""
    ensures r in {"empty", "number", "string"}
  {
    var s := Strip(value);
    if s == "" then "empty" else if isNumber(s) then "number" else "string"
  }

  /** A value `float()` accepts after stripping (`isNumber` stands for `float()`); empty ones are
      skipped before. */
  predicate IsNumeric(v: string, isNumber: string -> bool)
  {
    Strip(v) != "" && isNumber(Strip(v))
  }

  function NumericFn(isNumber: string -> bool): string -> bool
  {
    (v: string) => IsNumeric(v, isNumber)
  }

  /** The stripped texts of the numeric values, in order: the `nums` of `compute_agg`
      and of `numeric_summary`. */
  function Nums(values: seq<string>, isNumber: string -> bool): seq<string>
  {
    MapSeq(Filter(values, NumericFn(isNumber)), Strip)
  }

  /** The `nums` loop of `compute_agg` and `numeric_summary`. */
  method CollectNums(values: seq<string>, isNumber: string -> bool) returns (nums: seq<string>)
    ensures nums == Nums(values, isNumber)
  {
    nums := [];
    for i := 0 to |values|
      invariant nums == Nums(values[..i], isNumber)
    {
      assert values[..i + 1][..i] == values[..i];
      var v := Strip(values[i]);
      if v != "" && isNumber(v) {
        nums := nums + [v];
      }
    }
    assert values[..|values|] == values;
  }

  /** `parse_delimiter(s)`. */
  function ParseDelimiter(s: string): (r: string)
    ensures r == "\t" <==> s == "\\t" || s == "tab" || s == "\t"
    ensures r != "\t" ==> r == s
  {
    if s == "\\t" || s == "tab" then "\t" else s
  }

  /** Parsing a parsed delimiter keeps it. */
  lemma ParseDelimiterIdempotent(s: string)
    ensures ParseDelimiter(ParseDelimiter(s)) == ParseDelimiter(s)
  {
  }

  // ---------------------------------------------------------------------------------------
  // Column selection in the commands

  function InColumns(columns: seq<string>): string -> bool
  {
    (c: string) => c in columns
  }

  /** `[c for c in requested if c in columns]`. */
  function Present(requested: seq<string>, columns: seq<string>): seq<string>
  {
    Filter(requested, InColumns(columns))
  }

  /** The requested columns that exist, in request order (with repetitions kept). */
  lemma PresentProperties(requested: seq<string>, columns: seq<string>)
    ensures IsSubseq(Present(requested, columns), requested)
    ensures forall c :: c in Present(requested, columns) <==> c in requested && c in columns
    ensures (forall c :: c in requested ==> c in columns) ==> Present(requested, columns) == requested
  {
    var p := Present(requested, columns);
    FilterIsSubseq(requested, InColumns(columns));
    forall c | c in p ensures c in requested && c in columns {
      var i :| 0 <= i < |p| && p[i] == c;
    }
    forall c | c in requested && c in columns ensures c in p {
      var i :| 0 <= i < |requested| && requested[i] == c;
    }
    if forall c :: c in requested ==> c in columns {
      FilterAll(requested, InColumns(columns));
    }
  }

  /** The by-columns of `group` and `sort`: the requested ones that exist, else the first column. */
  function ByColumns(requested: seq<string>, columns: seq<string>): (r: seq<string>)
    ensures forall c :: c in r ==> c in columns
  {
    var p := Present(requested, columns);
    PresentProperties(requested, columns);
    if p != [] then p else Take(columns, 1)
  }

  /** The columns of `stats` and `extract`: the requested ones that exist, else all columns. */
  function SelectColumns(requested: seq<string>, columns: seq<string>): (r: seq<string>)
    ensures forall c :: c in r ==> c in columns
  {
    var p := Present(requested, columns);
    PresentProperties(requested, columns);
    if p != [] then p else columns
  }

  /** Both selections keep the existing requested columns; when none exists, `ByColumns` falls
      back to the first column (none for a table without columns) and `SelectColumns` to all. */
  lemma ColumnFallbacks(requested: seq<string>, columns: seq<string>)
    ensures Present(requested, columns) != [] ==>
      ByColumns(requested, columns) == Present(requested, columns) == SelectColumns(requested, columns)
    ensures Present(requested, columns) == [] ==>
      ByColumns(requested, columns) == (if columns == [] then [] else [columns[0]])
      && SelectColumns(requested, columns) == columns
    ensures ByColumns(requested, columns) == [] <==> columns == []
    ensures SelectColumns(requested, columns) == [] <==> columns == []
  {
    PresentProperties(requested, columns);
    if columns != [] && Present(requested, columns) == [] {
      assert Take(columns, 1) == [columns[0]];
    }
  }

  /** The `--fields` selection of `stats` and `extract`: the parsed option when given (else all
      columns), kept where the columns exist, falling back to all columns. */
  function Selected(raw: Option<string>, columns: seq<string>): seq<string>
  {
    var requested := if raw.None? || raw == Some("") then columns else ParseFields(raw.value);
    var present := Present(requested, columns);
    if present == [] then columns else present
  }

  /** The selection is `SelectColumns` applied to the parsed option (no option and an empty one
      both naming none): the requested columns that exist, in request order, else all columns. */
  lemma SelectedProperties(raw: Option<string>, columns: seq<string>)
    ensures Selected(raw, columns) == SelectColumns(OptionalFields(raw), columns)
    ensures raw.None? || raw == Some("") ==> Selected(raw, columns) == columns
    ensures forall c :: c in Selected(raw, columns) ==> c in columns
    ensures Selected(raw, columns) == [] <==> columns == []
  {
    PresentProperties(columns, columns);
    ColumnFallbacks(OptionalFields(raw), columns);
    if raw.None? || raw == Some("") {
      PresentProperties([], columns);
    }
  }

  /** `{c: row.get(c, "") for c in columns}`: a row cut to the given columns, with `""`
      for a column the row lacks. */
  function Project(row: Row, columns: seq<string>): (r: Row)
    ensures r.Keys == set c | c in columns
    ensures forall c :: c in columns ==> r[c] == Get(row, c)
  {
    map c | c in columns :: Get(row, c)
  }

  function ProjectFn(columns: seq<string>): Row -> Row
  {
    (row: Row) => Project(row, columns)
  }

  /** Projecting a row onto exactly its own columns gives the row back. */
  lemma ProjectOwnColumns(row: Row, columns: seq<string>)
    requires row.Keys == set c | c in columns
    ensures Project(row, columns) == row
  {
    forall c | c in columns
      ensures Project(row, columns)[c] == row[c]
    {
      assert c in row.Keys;
    }
  }

  // Row keys

  /** `(row.get(f, "") or "").strip()`. */
  function Cell(row: Row, f: string): string
  {
    Strip(Get(row, f))
  }

  function CellFn(row: Row): string -> string
  {
    (f: string) => Cell(row, f)
  }

  /** `tuple((row.get(c, "") or "").strip() for c in columns)`: the key of a row is its stripped cell
      for every key column. */
  function RowKey(row: Row, columns: seq<string>): seq<string>
  {
    MapSeq(columns, CellFn(row))
  }

  function RowKeyFn(columns: seq<string>): Row -> seq<string>
  {
    (row: Row) => RowKey(row, columns)
  }

  /** A key has one entry per key column: the stripped cell, `""` when the row has no such column. */
  lemma RowKeyProperties(row: Row, columns: seq<string>)
    ensures |RowKey(row, columns)| == |columns|
    ensures forall i :: 0 <= i < |columns| ==> RowKey(row, columns)[i] == Strip(Get(row, columns[i]))
    ensures forall i :: 0 <= i < |columns| && columns[i] !in row ==> RowKey(row, columns)[i] == ""
  {
    forall i | 0 <= i < |columns| && columns[i] !in row ensures RowKey(row, columns)[i] == "" {
      StripEmptyIff("");
    }
  }
}
