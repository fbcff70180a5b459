/**
 * The per-line analyzer: the text split into lines as `str.splitlines`
 * does, and one coverage record per line, numbered from 1.
 */
module PerLine {
  import opened HanScript
  import opened Coverage

  /** The line boundaries `str.splitlines` recognises ("\r\n" counts as one). */
  predicate IsLineBreak(c: char) {
    var x := c as int;
    || 0x0A <= x <= 0x0D || 0x1C <= x <= 0x1E || x == 0x85 || x == 0x2028 || x == 0x2029
  }

  /** The line boundaries, listed one by one. */
  const LineBreakChars: set<char> := {
    '\U{A}', '\U{B}', '\U{C}', '\U{D}', '\U{1C}', '\U{1D}', '\U{1E}', '\U{85}', '\U{2028}', '\U{2029}' }

  /** The range test is exactly the table. */
  lemma LineBreakTable(c: char)
    ensures IsLineBreak(c) <==> c in LineBreakChars
  {
    var x := c as int;
    assert c == x as char;
  }

  /** Every line boundary is whitespace, so no line break is ever counted. */
  lemma LineBreakIsWhitespace(c: char)
    ensures IsLineBreak(c) ==> IsWhitespace(c) && !Counted(c, false)
  {
  }

  /** The index of the first line break, or `|t|` when there is none. */
  function BreakIndex(t: string): (k: nat)
    ensures k <= |t|
    ensures k < |t| ==> IsLineBreak(t[k])
    ensures forall j :: 0 <= j < k ==> !IsLineBreak(t[j])
  {
    if t == [] || IsLineBreak(t[0]) then 0 else 1 + BreakIndex(t[1..])
  }

  /** How many characters the break at `k` takes: two for "\r\n", else one. */
  function BreakWidth(t: string, k: nat): (w: nat)
    requires k < |t|
    ensures 1 <= w <= |t| - k
  {
    if t[k] == '\r' && k + 1 < |t| && t[k + 1] == '\n' then 2 else 1
  }

  /** A piece of text without any line break in it. */
  predicate HasNoBreak(s: string) {
    forall j :: 0 <= j < |s| ==> !IsLineBreak(s[j])
  }

  /**
   * `text.splitlines()`: the pieces between line breaks, the breaks
   * themselves dropped; a final piece without a break is a line of its
   * own, and a final break does not start an empty line.
   */
  function SplitLines(t: string): (lines: seq<string>)
    ensures t == [] <==> lines == []
    ensures forall i :: 0 <= i < |lines| ==> HasNoBreak(lines[i])
    decreases |t|
  {
    if t == [] then []
    else
      var k := BreakIndex(t);
      if k == |t| then [t]
      else [t[..k]] + SplitLines(t[k + BreakWidth(t, k)..])
  }

  /** The text with every line-break character removed. */
  function RemoveBreaks(t: string): string {
    if t == [] then [] else (if IsLineBreak(t[0]) then [] else [t[0]]) + RemoveBreaks(t[1..])
  }

  function Concat(lines: seq<string>): string {
    if lines == [] then [] else lines[0] + Concat(lines[1..])
  }

  lemma {:induction false} RemoveBreaksAppend(a: string, b: string)
    ensures RemoveBreaks(a + b) == RemoveBreaks(a) + RemoveBreaks(b)
  {
    if a != [] {
      assert (a + b)[1..] == a[1..] + b;
      RemoveBreaksAppend(a[1..], b);
    } else {
      assert a + b == b;
    }
  }

  lemma {:induction false} RemoveBreaksOfLine(t: string)
    requires forall j :: 0 <= j < |t| ==> !IsLineBreak(t[j])
    ensures RemoveBreaks(t) == t
  {
    if t != [] {
      RemoveBreaksOfLine(t[1..]);
    }
  }

  lemma {:induction false} RemoveBreaksOfBreaks(t: string)
    requires forall j :: 0 <= j < |t| ==> IsLineBreak(t[j])
    ensures RemoveBreaks(t) == []
  {
    if t != [] {
      RemoveBreaksOfBreaks(t[1..]);
    }
  }

  lemma {:induction false} RemoveBreaksAroundBreak(t: string, k: nat)
    requires k < |t| && IsLineBreak(t[k])
    requires forall j :: 0 <= j < k ==> !IsLineBreak(t[j])
    ensures RemoveBreaks(t) == t[..k] + RemoveBreaks(t[k + BreakWidth(t, k)..])
  {
    var w := BreakWidth(t, k);
    var head, mid, rest := t[..k], t[k..k + w], t[k + w..];
    assert t == head + (mid + rest);
    RemoveBreaksAppend(head, mid + rest);
    RemoveBreaksAppend(mid, rest);
    RemoveBreaksOfBreaks(mid);
    RemoveBreaksOfLine(head);
    assert RemoveBreaks(mid + rest) == RemoveBreaks(rest);
  }

  /** Splitting loses nothing but the line breaks: the lines put together are the text without them. */
  lemma {:induction false} SplitLinesKeepsText(t: string)
    ensures Concat(SplitLines(t)) == RemoveBreaks(t)
    decreases |t|
  {
    if t != [] {
      var k := BreakIndex(t);
      if k == |t| {
        RemoveBreaksOfLine(t);
        assert Concat([t]) == t + Concat([]);
      } else {
        var rest := t[k + BreakWidth(t, k)..];
        SplitLinesKeepsText(rest);
        RemoveBreaksAroundBreak(t, k);
        var lines := SplitLines(t);
        assert lines == [t[..k]] + SplitLines(rest);
        assert lines[1..] == SplitLines(rest);
      }
    }
  }

  /** The number of line breaks in `t`, "\r\n" counting as one. */
  function BreakCount(t: string): nat
    decreases |t|
  {
    if t == [] then 0
    else if IsLineBreak(t[0]) then 1 + BreakCount(t[BreakWidth(t, 0)..])
    else BreakCount(t[1..])
  }

  lemma {:induction false} BreakCountSkip(t: string, k: nat)
    requires k <= |t|
    requires forall j :: 0 <= j < k ==> !IsLineBreak(t[j])
    ensures BreakCount(t) == BreakCount(t[k..])
  {
    if k > 0 {
      BreakCountSkip(t[1..], k - 1);
      assert t[1..][k - 1..] == t[k..];
    }
  }

  /** The breaks of `t` are its first one and those after it. */
  lemma {:induction false} BreakCountAtFirst(t: string)
    requires BreakIndex(t) < |t|
    ensures BreakCount(t) == 1 + BreakCount(t[BreakIndex(t) + BreakWidth(t, BreakIndex(t))..])
  {
    var k := BreakIndex(t);
    var w := BreakWidth(t, k);
    BreakCountSkip(t, k);
    assert BreakWidth(t[k..], 0) == w;
    assert t[k..][w..] == t[k + w..];
  }

  /** The first line of `t`, then the lines after its first break. */
  lemma {:induction false} SplitLinesAtFirst(t: string)
    requires BreakIndex(t) < |t|
    ensures SplitLines(t) == [t[..BreakIndex(t)]] + SplitLines(t[BreakIndex(t) + BreakWidth(t, BreakIndex(t))..])
  {
  }

  /** A text ends in a break exactly when the rest after its first break is empty or ends in one. */
  lemma {:induction false} EndsAfterFirst(t: string)
    requires BreakIndex(t) < |t|
    ensures var rest := t[BreakIndex(t) + BreakWidth(t, BreakIndex(t))..];
      IsLineBreak(t[|t| - 1]) <==> rest == [] || IsLineBreak(rest[|rest| - 1])
  {
    var k := BreakIndex(t);
    var rest := t[k + BreakWidth(t, k)..];
    if rest != [] {
      assert t[|t| - 1] == rest[|rest| - 1];
    }
  }

  /** 1 when `t` ends in a piece that no line break closes, else 0. */
  function Tail(t: string): nat {
    if t != [] && !IsLineBreak(t[|t| - 1]) then 1 else 0
  }

  lemma SplitLinesCountNoBreak(t: string)
    requires t != [] && BreakIndex(t) == |t|
    ensures |SplitLines(t)| == BreakCount(t) + Tail(t)
  {
    assert SplitLines(t) == [t];
    assert BreakCount(t) == 0 by {
      BreakCountSkip(t, |t|);
      assert t[|t|..] == [];
    }
  }

  lemma SplitLinesCountStep(t: string)
    requires BreakIndex(t) < |t|
    requires var rest := t[BreakIndex(t) + BreakWidth(t, BreakIndex(t))..];
      |SplitLines(rest)| == BreakCount(rest) + Tail(rest)
    ensures |SplitLines(t)| == BreakCount(t) + Tail(t)
  {
    SplitLinesAtFirst(t);
    BreakCountAtFirst(t);
    EndsAfterFirst(t);
  }

  /**
   * One line per break and one more for a final piece that does not end
   * in a break: a trailing break starts no empty line.
   */
  lemma {:induction false} SplitLinesCount(t: string)
    ensures |SplitLines(t)| == BreakCount(t) + Tail(t)
    decreases |t|
  {
    if t != [] {
      var k := BreakIndex(t);
      if k < |t| {
        SplitLinesCount(t[k + BreakWidth(t, k)..]);
        SplitLinesCountStep(t);
      } else {
        SplitLinesCountNoBreak(t);
      }
    }
  }

  /** The lines joined with "\n", as `"\n".join(lines)` does. */
  function JoinLines(lines: seq<string>): string {
    if lines == [] then []
    else if |lines| == 1 then lines[0]
    else lines[0] + "\n" + JoinLines(lines[1..])
  }

  lemma {:induction false} JoinLinesCons(a: string, r: seq<string>)
    requires r != []
    ensures JoinLines([a] + r) == a + "\n" + JoinLines(r)
  {
    assert ([a] + r)[1..] == r;
  }

  /** Putting a line, a "\n" and the joined lines of the rest back together. */
  lemma JoinAroundBreak(t: string, k: nat, lines: seq<string>)
    requires k < |t| - 1 && t[k] == '\n' && lines != []
    requires JoinLines(lines) == DropFinalNewline(t[k + 1..])
    ensures JoinLines([t[..k]] + lines) == DropFinalNewline(t)
  {
    JoinLinesCons(t[..k], lines);
    var rest := t[k + 1..];
    assert t[|t| - 1] == rest[|rest| - 1];
    if t[|t| - 1] == '\n' {
      assert t[..|t| - 1] == t[..k] + "\n" + rest[..|rest| - 1];
    } else {
      assert t == t[..k] + "\n" + rest;
    }
  }

  /** Every line break of `t` is "\n". */
  predicate OnlyNewlines(t: string) {
    forall j :: 0 <= j < |t| && IsLineBreak(t[j]) ==> t[j] == '\n'
  }

  /** `t` without its final "\n", if it has one. */
  function DropFinalNewline(t: string): string {
    if t != [] && t[|t| - 1] == '\n' then t[..|t| - 1] else t
  }

  lemma OnlyNewlinesSuffix(t: string, k: nat)
    requires k <= |t| && OnlyNewlines(t)
    ensures OnlyNewlines(t[k..])
  {
    assert forall j :: 0 <= j < |t| - k ==> t[k..][j] == t[k + j];
  }

  lemma SplitLinesJoinStep(t: string)
    requires BreakIndex(t) < |t| && t[BreakIndex(t)] == '\n'
    requires var rest := t[BreakIndex(t) + 1..];
      JoinLines(SplitLines(rest)) == DropFinalNewline(rest)
    ensures JoinLines(SplitLines(t)) == DropFinalNewline(t)
  {
    var k := BreakIndex(t);
    assert BreakWidth(t, k) == 1;
    var rest := t[k + 1..];
    SplitLinesAtFirst(t);
    if rest == [] {
      assert k == |t| - 1;
    } else {
      JoinAroundBreak(t, k, SplitLines(rest));
    }
  }

  /**
   * For a text whose only line break is "\n", joining the lines with
   * "\n" gives the text back, without its final "\n" if it has one.
   */
  lemma {:induction false} SplitLinesJoin(t: string)
    requires OnlyNewlines(t)
    ensures JoinLines(SplitLines(t)) == DropFinalNewline(t)
    decreases |t|
  {
    if t != [] {
      var k := BreakIndex(t);
      if k == |t| {
        assert SplitLines(t) == [t];
        assert !IsLineBreak(t[|t| - 1]);
      } else {
        assert t[k] == '\n' && BreakWidth(t, k) == 1;
        OnlyNewlinesSuffix(t, k + 1);
        SplitLinesJoin(t[k + 1..]);
        SplitLinesJoinStep(t);
      }
    }
  }

  /** The tuple `per_line_breakdown` yields for one line. */
  datatype LineRecord = LineRecord(lineNo: nat, total: nat, known: nat, pct: real, text: string)

  /** The record of line number `no`; a line with nothing counted is 100% covered. */
  function LineRecordOf(no: nat, line: string, inv: set<char>, hanOnly: bool): (r: LineRecord)
    ensures r.lineNo == no && r.text == line
    ensures r.total == |CountedChars(line, hanOnly)|
    ensures r.known == |KnownOf(CountedChars(line, hanOnly), inv)| <= r.total
    ensures r.pct == CoveragePct(r.known, r.total)
  {
    var chars := CountedChars(line, hanOnly);
    KnownUnknownPartition(chars, inv);
    if |chars| == 0 then LineRecord(no, 0, 0, 100.0, line)
    else
      var known := |KnownOf(chars, inv)|;
      LineRecord(no, |chars|, known, CoveragePct(known, |chars|), line)
  }

  /** The records of `lines`, numbered consecutively from `first`. */
  function Records(lines: seq<string>, first: nat, inv: set<char>, hanOnly: bool): (rs: seq<LineRecord>)
    ensures |rs| == |lines|
    ensures forall i :: 0 <= i < |rs| ==> rs[i] == LineRecordOf(first + i, lines[i], inv, hanOnly)
  {
    if lines == [] then []
    else [LineRecordOf(first, lines[0], inv, hanOnly)] + Records(lines[1..], first + 1, inv, hanOnly)
  }

  /** What `per_line_breakdown` returns. */
  function Breakdown(text: string, inv: set<char>, hanOnly: bool): (rs: seq<LineRecord>)
    ensures text == [] ==> rs == []
    ensures |rs| == |SplitLines(text)|
    ensures forall i :: 0 <= i < |rs| ==> rs[i].lineNo == i + 1 && rs[i].text == SplitLines(text)[i]
    ensures forall i :: 0 <= i < |rs| ==> rs[i].known <= rs[i].total
    ensures forall i :: 0 <= i < |rs| ==> rs[i].total == 0 ==> rs[i].known == 0 && rs[i].pct == 100.0
    ensures forall i :: 0 <= i < |rs| ==> rs[i].pct == CoveragePct(rs[i].known, rs[i].total)
  {
    Records(SplitLines(text), 1, inv, hanOnly)
  }

  /** `per_line_breakdown(text, inventory, han_only)`: one record appended per line. */
  method PerLineBreakdown(text: string, inv: set<char>, hanOnly: bool) returns (results: seq<LineRecord>)
    ensures results == Breakdown(text, inv, hanOnly)
  {
    var lines := SplitLines(text);
    results := [];
    for i := 0 to |lines|
      invariant |results| == i
      invariant forall j :: 0 <= j < i ==> results[j] == LineRecordOf(j + 1, lines[j], inv, hanOnly)
    {
      var line := lines[i];
      var chars := CountedChars(line, hanOnly);
      var total := |chars|;
      if total == 0 {
        results := results + [LineRecord(i + 1, 0, 0, 100.0, line)];
        continue;
      }
      var known := |KnownOf(chars, inv)|;
      var pct := known as real / total as real * 100.0;
      results := results + [LineRecord(i + 1, total, known, pct, line)];
    }
  }

  function SumTotals(rs: seq<LineRecord>): nat {
    if rs == [] then 0 else rs[0].total + SumTotals(rs[1..])
  }

  function SumKnown(rs: seq<LineRecord>): nat {
    if rs == [] then 0 else rs[0].known + SumKnown(rs[1..])
  }

  lemma {:induction false} CountedCharsOfBreaks(t: string, hanOnly: bool)
    requires forall j :: 0 <= j < |t| ==> IsLineBreak(t[j])
    ensures CountedChars(t, hanOnly) == []
  {
    if t != [] {
      CountedCharsOfBreaks(t[1..], hanOnly);
    }
  }

  /** A line break between two pieces of text adds nothing to the counted characters. */
  lemma {:induction false} CountedCharsAroundBreak(t: string, k: nat, hanOnly: bool)
    requires k < |t| && IsLineBreak(t[k])
    ensures CountedChars(t, hanOnly) ==
      CountedChars(t[..k], hanOnly) + CountedChars(t[k + BreakWidth(t, k)..], hanOnly)
  {
    var w := BreakWidth(t, k);
    var head, mid, rest := t[..k], t[k..k + w], t[k + w..];
    assert CountedChars(mid, hanOnly) == [] by {
      assert forall j :: 0 <= j < |mid| ==> mid[j] == t[k + j];
      CountedCharsOfBreaks(mid, hanOnly);
    }
    assert CountedChars(mid + rest, hanOnly) == CountedChars(rest, hanOnly) by {
      CountedCharsAppend(mid, rest, hanOnly);
    }
    assert t == head + (mid + rest);
    CountedCharsAppend(head, mid + rest, hanOnly);
  }

  /**
   * Line breaks are never counted, so the per-line totals and known
   * counts add up to those of the whole text.
   */
  lemma {:induction false} LineSumsMatchWholeText(t: string, first: nat, inv: set<char>, hanOnly: bool)
    ensures SumTotals(Records(SplitLines(t), first, inv, hanOnly)) == |CountedChars(t, hanOnly)|
    ensures SumKnown(Records(SplitLines(t), first, inv, hanOnly)) == |KnownOf(CountedChars(t, hanOnly), inv)|
    decreases |t|
  {
    if t != [] {
      var k := BreakIndex(t);
      var rs := Records(SplitLines(t), first, inv, hanOnly);
      if k == |t| {
        assert rs == [LineRecordOf(first, t, inv, hanOnly)];
      } else {
        var rest := t[k + BreakWidth(t, k)..];
        LineSumsMatchWholeText(rest, first + 1, inv, hanOnly);
        CountedCharsAroundBreak(t, k, hanOnly);
        KnownOfAppend(CountedChars(t[..k], hanOnly), CountedChars(rest, hanOnly), inv);
        assert SplitLines(t) == [t[..k]] + SplitLines(rest);
        assert rs[1..] == Records(SplitLines(rest), first + 1, inv, hanOnly);
      }
    }
  }

  /** Summed over the breakdown: the per-line totals give the report's total and known counts. */
  lemma BreakdownSumsToReport(text: string, inv: set<char>, hanOnly: bool)
    ensures SumTotals(Breakdown(text, inv, hanOnly)) == CoverageReport(text, inv, hanOnly).total
    ensures SumKnown(Breakdown(text, inv, hanOnly)) == CoverageReport(text, inv, hanOnly).known
  {
    LineSumsMatchWholeText(text, 1, inv, hanOnly);
  }

  lemma SplitTwoLines()
    ensures SplitLines("甲乙\n丙") == ["甲乙", "丙"]
  {
    var t := "甲乙\n丙";
    assert BreakIndex(t) == 2;
    assert BreakIndex("丙") == 1;
    assert BreakWidth(t, 2) == 1 && t[3..] == "丙" && t[..2] == "甲乙";
    assert SplitLines("丙") == ["丙"];
    assert SplitLines(t) == [t[..2]] + SplitLines(t[3..]);
  }

  /** A line of two counted characters, the first known: 1 of 2, 50%. */
  lemma RecordOfKnownThenUnknown(no: nat, x: char, y: char, inv: set<char>)
    requires Counted(x, true) && Counted(y, true) && x in inv && y !in inv
    ensures LineRecordOf(no, [x, y], inv, true) == LineRecord(no, 2, 1, 50.0, [x, y])
  {
    assert CountedChars([x, y], true) == [x, y] by {
      assert [x, y][1..] == [y];
      assert CountedChars([y], true) == [y] by {
        assert [y][1..] == [];
      }
    }
    assert KnownOf([x, y], inv) == [x] by {
      assert [x, y][1..] == [y];
      assert KnownOf([y], inv) == [] by {
        assert [y][1..] == [];
      }
    }
    assert CoveragePct(1, 2) == 50.0;
  }

  /** A line of one counted character, not known: 0 of 1, 0%. */
  lemma RecordOfUnknown(no: nat, y: char, inv: set<char>)
    requires Counted(y, true) && y !in inv
    ensures LineRecordOf(no, [y], inv, true) == LineRecord(no, 1, 0, 0.0, [y])
  {
    assert CountedChars([y], true) == [y] by {
      assert [y][1..] == [];
    }
    assert KnownOf([y], inv) == [];
    assert CoveragePct(0, 1) == 0.0;
  }

  /** "甲乙\n丙" against {甲}: line 1 has 2 counted, 1 known (50%); line 2 has 1 counted, 0 known. */
  lemma ScenarioTwoLines()
    ensures var rs := Breakdown("甲乙\n丙", {'甲'}, true);
      |rs| == 2 && rs[0] == LineRecord(1, 2, 1, 50.0, "甲乙") && rs[1] == LineRecord(2, 1, 0, 0.0, "丙")
  {
    SplitTwoLines();
    assert Counted('甲', true) && Counted('乙', true) && Counted('丙', true) by {
      assert Contains(HanRanges[1], '甲' as int) && Contains(HanRanges[1], '乙' as int);
      assert Contains(HanRanges[1], '丙' as int);
    }
    RecordOfKnownThenUnknown(1, '甲', '乙', {'甲'});
    RecordOfUnknown(2, '丙', {'甲'});
  }
}
