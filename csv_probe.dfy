/** Delimiter detection of the CSV probe (csv-tools/scripts/probe.py). The CSV tokenizer is a
    parameter: `fieldCount(line, delim)` is the width of the first row it reads from `line`, or
    `None` when it reads no row. */
module CsvProbe {
  import opened Text
  import opened Seqs
  import opened Tally
  import opened CsvCommon

  const Candidates: seq<string> := [",", "\t", ";"]

  /** How many filtered lines are scored. */
  const ScoredLines := 30

  /** The widths `counts` collects for `delim` from `lines`: blank lines and lines the tokenizer
      reads no row from are skipped. */
  function LineWidths(lines: seq<string>, delim: string, fieldCount: (string, string) -> Option<nat>): (counts: seq<nat>)
    ensures |counts| <= |lines|
  {
    if lines == [] then []
    else
      var init := LineWidths(lines[..|lines| - 1], delim, fieldCount);
      var line := lines[|lines| - 1];
      if Strip(line) == "" then init
      else match fieldCount(line, delim)
        case None => init
        case Some(n) => init + [n]
  }

  /** The first `ScoredLines` lines, or all of them when there are fewer. */
  function Head(lines: seq<string>): (h: seq<string>)
    ensures |h| <= ScoredLines && |h| <= |lines| && h == lines[..|h|]
    ensures |lines| <= ScoredLines ==> h == lines
  {
    if |lines| <= ScoredLines then lines else lines[..ScoredLines]
  }

  /** `Counter(counts).most_common(1)[0]`: the modal width and its frequency. */
  function Mode(counts: seq<nat>): (nat, nat)
    requires counts != []
  {
    MostCommon(Count(counts), 1)[0]
  }

  /** The score of a candidate: the frequency of the modal width times that width, 0 when the
      modal width is at most 1, and `None` (never chosen) when no width was collected. */
  function Score(counts: seq<nat>): Option<int>
  {
    if counts == [] then None
    else
      var mode := Mode(counts);
      Some(mode.1 * (if mode.0 > 1 then mode.0 else 0))
  }

  /** The score as the comparison with `best_score` sees it: no score ranks below every score. */
  function Rank(s: Option<int>): int
  {
    if s.None? then -1 else s.value
  }

  /** The rank `best_score` compares. */
  function DelimRank(lines: seq<string>, delim: string, fieldCount: (string, string) -> Option<nat>): (r: int)
    ensures r >= -1
    ensures r == -1 <==> LineWidths(Head(lines), delim, fieldCount) == []
  {
    var s := Score(LineWidths(Head(lines), delim, fieldCount));
    assert s.Some? ==> s.value >= 0;
    Rank(s)
  }

  /** The ranks of the candidates for the filtered lines. */
  function RankOf(lines: seq<string>, fieldCount: (string, string) -> Option<nat>): string -> int
  {
    (d: string) => DelimRank(lines, d, fieldCount)
  }

  /** The loop over the candidates: a later candidate replaces the best only with a strictly
      greater rank. */
  function Choose(delims: seq<string>, rank: string -> int): (string, int)
  {
    if delims == [] then (",", -1)
    else
      var prev := Choose(delims[..|delims| - 1], rank);
      var d := delims[|delims| - 1];
      if rank(d) > prev.1 then (d, rank(d)) else prev
  }

  /** One candidate more. */
  lemma ChooseSnoc(delims: seq<string>, rank: string -> int, k: nat)
    requires k < |delims|
    ensures var prev := Choose(delims[..k], rank);
      Choose(delims[..k + 1], rank) == if rank(delims[k]) > prev.1 then (delims[k], rank(delims[k])) else prev
  {
    assert delims[..k + 1][..k] == delims[..k];
  }

  /** `detect_delimiter(lines, comment_char)`. */
  function DetectDelimiter(lines: seq<string>, comment: Option<string>, fieldCount: (string, string) -> Option<nat>): string
  {
    var filtered := CommentFree(lines, comment);
    if filtered == [] then "," else Choose(Candidates, RankOf(filtered, fieldCount)).0
  }

  /** The inner loop: the widths of the scored lines for one candidate. */
  method CollectWidths(filtered: seq<string>, delim: string, fieldCount: (string, string) -> Option<nat>) returns (counts: seq<nat>)
    ensures counts == LineWidths(Head(filtered), delim, fieldCount)
  {
    var head := if |filtered| <= ScoredLines then filtered else filtered[..ScoredLines];
    counts := [];
    var i := 0;
    while i < |head|
      invariant 0 <= i <= |head|
      invariant counts == LineWidths(head[..i], delim, fieldCount)
    {
      assert head[..i + 1][..i] == head[..i];
      var line := head[i];
      if Strip(line) == "" {
        i := i + 1;
        continue;
      }
      var parsed := fieldCount(line, delim);
      if parsed.None? {
        i := i + 1;
        continue;
      }
      counts := counts + [parsed.value];
      i := i + 1;
    }
    assert head[..i] == head;
  }

  /** `detect_delimiter`, as its nested loops run. */
  method DetectDelimiterLoop(lines: seq<string>, comment: Option<string>, fieldCount: (string, string) -> Option<nat>) returns (best: string)
    ensures best == DetectDelimiter(lines, comment, fieldCount)
  {
    var filtered := FilterComment(lines, comment);
    if filtered == [] {
      return ",";
    }
    best := ",";
    var bestScore: int := -1;
    ghost var rank := RankOf(filtered, fieldCount);
    var k := 0;
    while k < |Candidates|
      invariant 0 <= k <= |Candidates|
      invariant (best, bestScore) == Choose(Candidates[..k], rank)
    {
      ChooseSnoc(Candidates, rank, k);
      var delim := Candidates[k];
      var counts := CollectWidths(filtered, delim, fieldCount);
      if counts == [] {
        assert rank(delim) == -1;
        k := k + 1;
        continue;
      }
      var mode := Mode(counts);
      var score := mode.1 * (if mode.0 > 1 then mode.0 else 0);
      assert score == rank(delim);
      if score > bestScore {
        bestScore := score;
        best := delim;
      }
      k := k + 1;
    }
    assert Candidates[..k] == Candidates;
  }

  /** Only the first `ScoredLines` filtered lines count, blank lines among them are ignored,
      and every collected width is the tokenizer's width of one such line. */
  lemma {:induction false} LineWidthsProperties(lines: seq<string>, delim: string, fieldCount: (string, string) -> Option<nat>)
    ensures forall i :: 0 <= i < |LineWidths(lines, delim, fieldCount)| ==>
      exists j :: 0 <= j < |lines| && Strip(lines[j]) != "" && fieldCount(lines[j], delim) == Some(LineWidths(lines, delim, fieldCount)[i])
  {
    if lines != [] {
      var init := lines[..|lines| - 1];
      LineWidthsProperties(init, delim, fieldCount);
      assert forall j :: 0 <= j < |init| ==> init[j] == lines[j];
      var r := LineWidths(lines, delim, fieldCount);
      var ri := LineWidths(init, delim, fieldCount);
      assert r == ri || (r == ri + [r[|r| - 1]] && Strip(lines[|init|]) != "" && fieldCount(lines[|init|], delim) == Some(r[|r| - 1]));
      forall i | 0 <= i < |r|
        ensures exists j :: 0 <= j < |lines| && Strip(lines[j]) != "" && fieldCount(lines[j], delim) == Some(r[i])
      {
        if i < |ri| {
          assert exists j :: 0 <= j < |init| && Strip(init[j]) != "" && fieldCount(init[j], delim) == Some(LineWidths(init, delim, fieldCount)[i]);
          var j :| 0 <= j < |init| && Strip(init[j]) != "" && fieldCount(init[j], delim) == Some(ri[i]);
          assert lines[j] == init[j];
        } else {
          assert fieldCount(lines[|init|], delim) == Some(r[i]);
        }
      }
      assert forall i :: 0 <= i < |LineWidths(lines, delim, fieldCount)| ==>
        exists j :: 0 <= j < |lines| && Strip(lines[j]) != "" && fieldCount(lines[j], delim) == Some(LineWidths(lines, delim, fieldCount)[i]);
    } else {
      assert LineWidths(lines, delim, fieldCount) == [];
    }
  }

  /** Blank lines yield no width. */
  lemma {:induction false} LineWidthsBlank(lines: seq<string>, delim: string, fieldCount: (string, string) -> Option<nat>)
    requires forall j :: 0 <= j < |lines| ==> Strip(lines[j]) == ""
    ensures LineWidths(lines, delim, fieldCount) == []
  {
    if lines != [] {
      var init := lines[..|lines| - 1];
      assert forall j :: 0 <= j < |init| ==> init[j] == lines[j];
      LineWidthsBlank(init, delim, fieldCount);
      assert Strip(lines[|lines| - 1]) == "";
    }
  }

  /** `w` occurs in `counts` as often as any width, and more often than every width first seen
      before it. */
  ghost predicate IsModal(counts: seq<nat>, w: nat)
  {
    && w in counts
    && (forall v :: v in counts ==> multiset(counts)[v] <= multiset(counts)[w])
    && (forall i, j :: 0 <= i < j < |Dedup(counts)| && Dedup(counts)[j] == w ==>
          multiset(counts)[Dedup(counts)[i]] < multiset(counts)[w])
  }

  /** `most_common(1)[0]` is the modal width, the first seen among the most frequent ones, with
      its frequency. */
  lemma ModeProperties(counts: seq<nat>)
    requires counts != []
    ensures IsModal(counts, Mode(counts).0)
    ensures Mode(counts).1 == multiset(counts)[Mode(counts).0]
  {
    var t := Count(counts);
    assert t != [] by {
      CountProperties(counts);
      assert counts[0] in Values(t);
    }
    var m := MostCommonAll(t)[0];
    assert Mode(counts) == m by {
      MostCommonProperties(t, 1, t[0]);
    }
    ModeIsFirstMaximal(t);
    ModeFacts(counts, IndexOf(t, m), m);
  }

  /** The entry of the tally at `p` that no entry outnumbers and no earlier entry matches is
      the modal value with its count. */
  lemma ModeFacts(counts: seq<nat>, p: nat, m: (nat, nat))
    requires p < |Count(counts)| && Count(counts)[p] == m
    requires forall e :: e in Count(counts) ==> e.1 <= m.1
    requires forall j :: 0 <= j < p ==> Count(counts)[j].1 < m.1
    ensures IsModal(counts, m.0) && m.1 == multiset(counts)[m.0]
  {
    var t := Count(counts);
    var ks := Dedup(counts);
    DedupProperties(counts);
    assert m == (ks[p], multiset(counts)[ks[p]]);
    assert m.0 in counts;
    forall v | v in counts ensures multiset(counts)[v] <= m.1 {
      var q :| 0 <= q < |ks| && ks[q] == v;
      assert t[q] in t;
    }
    forall i, j | 0 <= i < j < |ks| && ks[j] == m.0 ensures multiset(counts)[ks[i]] < m.1 {
      assert j == p;
      assert t[i].1 < m.1;
    }
  }

  /** The score is the frequency of the modal width times that width, or 0 when the modal width
      is at most 1; a score is never negative. */
  lemma ScoreProperties(counts: seq<nat>)
    requires counts != []
    ensures exists w :: IsModal(counts, w) && Score(counts) == Some(multiset(counts)[w] * (if w > 1 then w else 0))
    ensures Score(counts).value >= 0
  {
    ModeProperties(counts);
    var w := Mode(counts).0;
    assert IsModal(counts, w) && Score(counts) == Some(multiset(counts)[w] * (if w > 1 then w else 0));
  }

  /** `delims[k]` has the highest rank among `delims`, and every earlier one a lower rank. */
  ghost predicate FirstBest(delims: seq<string>, rank: string -> int, k: nat)
  {
    && k < |delims|
    && (forall j :: 0 <= j < |delims| ==> rank(delims[j]) <= rank(delims[k]))
    && (forall j :: 0 <= j < k ==> rank(delims[j]) < rank(delims[k]))
  }

  /** The candidate loop keeps the first candidate of the highest rank, together with that
      rank, when no rank is below -1 and the first candidate is ",". */
  lemma {:induction false} ChooseProperties(delims: seq<string>, rank: string -> int)
    requires delims != [] && delims[0] == ","
    requires forall d :: rank(d) >= -1
    ensures exists k: nat :: FirstBest(delims, rank, k) && Choose(delims, rank) == (delims[k], rank(delims[k]))
  {
    var n := |delims| - 1;
    var init := delims[..n];
    var d := delims[n];
    if n == 0 {
      assert init == [];
      assert Choose(init, rank) == (",", -1);
      assert FirstBest(delims, rank, 0);
    } else {
      ChooseProperties(init, rank);
      var k: nat :| FirstBest(init, rank, k) && Choose(init, rank) == (init[k], rank(init[k]));
      assert forall j :: 0 <= j < n ==> init[j] == delims[j];
      if rank(d) > rank(init[k]) {
        assert FirstBest(delims, rank, n);
      } else {
        assert FirstBest(delims, rank, k);
      }
    }
  }

  /** The result is always a candidate; "," when no line remains after comment filtering or when
      every remaining line is blank; otherwise the first candidate of the highest rank, so an
      earlier candidate wins a tie. */
  lemma DetectDelimiterProperties(lines: seq<string>, comment: Option<string>, fieldCount: (string, string) -> Option<nat>)
    ensures DetectDelimiter(lines, comment, fieldCount) in Candidates
    ensures var filtered := CommentFree(lines, comment);
      (forall j :: 0 <= j < |filtered| ==> Strip(filtered[j]) == "") ==> DetectDelimiter(lines, comment, fieldCount) == ","
    ensures var filtered := CommentFree(lines, comment);
      filtered != [] ==> exists k: nat ::
        FirstBest(Candidates, RankOf(filtered, fieldCount), k) && Candidates[k] == DetectDelimiter(lines, comment, fieldCount)
  {
    var filtered := CommentFree(lines, comment);
    if filtered != [] {
      ChooseProperties(Candidates, RankOf(filtered, fieldCount));
      if forall j :: 0 <= j < |filtered| ==> Strip(filtered[j]) == "" {
        var head := Head(filtered);
        assert forall j :: 0 <= j < |head| ==> Strip(head[j]) == "";
        forall d | d in Candidates ensures DelimRank(filtered, d, fieldCount) == -1 {
          LineWidthsBlank(head, d, fieldCount);
        }
      }
    }
  }
}
