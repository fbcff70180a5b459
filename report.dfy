/**
 * The text report of `build_report_text`: a header listing the loaded
 * inventories, one results block per inventory, and an optional block for
 * the union of all inventories. Lines are abstract records: plain text is
 * rendered exactly (integers with thousands separators, codepoints as
 * `U+XXXX`), lines holding a float percentage keep the number itself.
 */
module ReportText {
  import opened Wrappers
  import opened Numerals
  import opened Inventories
  import opened Counting
  import opened Coverage
  import opened PerLine
  import opened Ranking

  datatype ReportLine =
    | Plain(s: string)
      /** `Coverage: {pct:.2f}%` */
    | CoverageLine(pct: real)
      /** `{line_no:>4}: {known:>4}/{total:<4} {pct:6.2f}% | {line}` */
    | PerLineRow(rec: LineRecord)

  /** The keyword arguments of `build_report_text`; `top_unknown` is never negative here. */
  datatype Options = Options(union: bool, topUnknown: nat, hanOnly: bool, perLine: bool)

  /** The character names of the Unicode database, `None` where a character has no name. */
  type Names = char -> Option<string>

  const NoUnknown: string := "\nNo unknown characters. \U{1F389}"
  const NoUnknownUnion: string := "\nNo unknown characters under union. \U{1F389}"
  const UnionTitle: string := "UNION of inventories"
  const UniqueHeading: string := "\nList of characters not present (unique OOV, freq-desc):"

  /** `{ch}\t{cnt}\t{code}\t{name}`, with `<unnamed>` for a character without a name. */
  function ItemRow(item: (char, nat), names: Names): string {
    [item.0] + "\t" + Decimal(item.1) + "\t" + CodeLabel(item.0) + "\t" + names(item.0).GetOr("<unnamed>")
  }

  function ItemRows(items: seq<(char, nat)>, names: Names): (rows: seq<ReportLine>)
    ensures |rows| == |items|
  {
    seq(|items|, i requires 0 <= i < |items| => Plain(ItemRow(items[i], names)))
  }

  function TopHeading(n: nat): string {
    "\nTop " + Decimal(n) + " unknown characters (high frequency):"
  }

  function BottomHeading(n: nat): string {
    "\nBottom " + Decimal(n) + " unknown characters (low frequency):"
  }

  /** The five lines of figures that open every results block. */
  function StatsBlock(title: string, rep: Report): seq<ReportLine> {
    [ Plain("\n=== Results for [" + title + "] ==="),
      Plain("Total counted chars: " + HumanInt(rep.total)),
      Plain("Known (in-inventory): " + HumanInt(rep.known)),
      Plain("Unknown (OOV): " + HumanInt(rep.unknown)),
      CoverageLine(rep.coverage) ]
  }

  /** The unknown-character lists of a block, or the single all-known message. */
  function OovSection(rep: Report, n: nat, names: Names, noneMsg: string): seq<ReportLine>
    requires Valid(rep.unknownFreq)
  {
    if rep.unknown > 0 then
      [Plain(UniqueHeading), Plain(UniqueOov(rep.unknownFreq))]
      + [Plain(TopHeading(n))] + ItemRows(MostCommon(rep.unknownFreq, n), names)
      + [Plain(BottomHeading(n))] + ItemRows(BottomItems(rep.unknownFreq, n), names)
    else
      [Plain(noneMsg)]
  }

  function RecordRows(rs: seq<LineRecord>): (rows: seq<ReportLine>)
    ensures |rows| == |rs|
  {
    seq(|rs|, i requires 0 <= i < |rs| => PerLineRow(rs[i]))
  }

  function PerLineSection(text: string, inv: set<char>, hanOnly: bool): seq<ReportLine> {
    [Plain("\nPer-line coverage:")] + RecordRows(Breakdown(text, inv, hanOnly))
  }

  /** The results block of one loaded inventory. */
  function InventoryBlock(text: string, inv: Inventory, opts: Options, names: Names): seq<ReportLine> {
    var rep := CoverageReport(text, inv.chars, opts.hanOnly);
    StatsBlock(inv.name, rep)
    + OovSection(rep, opts.topUnknown, names, NoUnknown)
    + (if opts.perLine then PerLineSection(text, inv.chars, opts.hanOnly) else [])
  }

  /** The results blocks of the inventories, in the order they were loaded. */
  function Blocks(text: string, invs: seq<Inventory>, opts: Options, names: Names): seq<ReportLine> {
    if invs == [] then []
    else Blocks(text, invs[..|invs| - 1], opts, names) + InventoryBlock(text, invs[|invs| - 1], opts, names)
  }

  /** The union is reported only when asked for and when there is more than one inventory. */
  predicate ShowUnion(opts: Options, invs: seq<Inventory>) {
    opts.union && |invs| > 1
  }

  function InventoryLine(inv: Inventory): ReportLine {
    Plain("- " + inv.name + ": " + HumanInt(|inv.chars|) + " characters")
  }

  function UnionLine(invs: seq<Inventory>): ReportLine {
    Plain("- <union>: " + HumanInt(RawSize(invs)) + " (raw sum; union unique size " + HumanInt(|UnionOf(invs)|) + ")")
  }

  function InventoryLines(invs: seq<Inventory>): (lines: seq<ReportLine>)
    ensures |lines| == |invs|
  {
    if invs == [] then [] else InventoryLines(invs[..|invs| - 1]) + [InventoryLine(invs[|invs| - 1])]
  }

  function Header(invs: seq<Inventory>, show: bool): seq<ReportLine> {
    [Plain("=== Inventories Loaded ===")]
    + InventoryLines(invs)
    + (if show then [UnionLine(invs)] else [])
  }

  function UnionBlock(text: string, invs: seq<Inventory>, opts: Options, names: Names): seq<ReportLine> {
    var rep := CoverageReport(text, UnionOf(invs), opts.hanOnly);
    StatsBlock(UnionTitle, rep) + OovSection(rep, opts.topUnknown, names, NoUnknownUnion)
  }

  /** The whole report, line by line, before the lines are joined with newlines. */
  function ReportLines(text: string, invs: seq<Inventory>, opts: Options, names: Names): seq<ReportLine> {
    var show := ShowUnion(opts, invs);
    Header(invs, show)
    + Blocks(text, invs, opts, names)
    + (if show then UnionBlock(text, invs, opts, names) else [])
  }

  /** The item rows, one per loop iteration. */
  method Rows(items: seq<(char, nat)>, names: Names) returns (rows: seq<ReportLine>)
    ensures rows == ItemRows(items, names)
  {
    rows := [];
    for i := 0 to |items|
      invariant |rows| == i
      invariant forall j :: 0 <= j < i ==> rows[j] == Plain(ItemRow(items[j], names))
    {
      rows := rows + [Plain(ItemRow(items[i], names))];
    }
  }

  /** The unknown-character lists of one block. */
  method Oov(rep: Report, n: nat, names: Names, noneMsg: string) returns (section: seq<ReportLine>)
    requires Valid(rep.unknownFreq)
    ensures section == OovSection(rep, n, names, noneMsg)
  {
    if rep.unknown > 0 {
      var uniqueOov := UniqueOov(rep.unknownFreq);
      section := [Plain(UniqueHeading), Plain(uniqueOov)];
      section := section + [Plain(TopHeading(n))];
      var top := Rows(MostCommon(rep.unknownFreq, n), names);
      section := section + top;
      section := section + [Plain(BottomHeading(n))];
      var bottom := Rows(BottomItems(rep.unknownFreq, n), names);
      section := section + bottom;
    } else {
      section := [Plain(noneMsg)];
    }
  }

  /** One row per line record. */
  method RecordLines(rs: seq<LineRecord>) returns (rows: seq<ReportLine>)
    ensures rows == RecordRows(rs)
  {
    rows := [];
    for i := 0 to |rs|
      invariant |rows| == i
      invariant forall j :: 0 <= j < i ==> rows[j] == PerLineRow(rs[j])
    {
      rows := rows + [PerLineRow(rs[i])];
    }
  }

  /** The per-line rows of one inventory. */
  method PerLineRows(text: string, inv: set<char>, hanOnly: bool) returns (section: seq<ReportLine>)
    ensures section == PerLineSection(text, inv, hanOnly)
  {
    var rs := PerLineBreakdown(text, inv, hanOnly);
    var rows := RecordLines(rs);
    section := [Plain("\nPer-line coverage:")] + rows;
  }

  /** The results block of one inventory: figures, unknown characters, per-line rows. */
  method Block(text: string, inv: Inventory, opts: Options, names: Names) returns (block: seq<ReportLine>)
    ensures block == InventoryBlock(text, inv, opts, names)
  {
    var rep := CoverageReport(text, inv.chars, opts.hanOnly);
    block := StatsBlock(inv.name, rep);
    var oov := Oov(rep, opts.topUnknown, names, NoUnknown);
    block := block + oov;
    if opts.perLine {
      var rows := PerLineRows(text, inv.chars, opts.hanOnly);
      block := block + rows;
    }
  }

  lemma InventoryLinesStep(invs: seq<Inventory>, i: nat)
    requires i < |invs|
    ensures InventoryLines(invs[..i + 1]) == InventoryLines(invs[..i]) + [InventoryLine(invs[i])]
  {
    assert invs[..i + 1][..i] == invs[..i];
  }

  lemma BlocksStep(text: string, invs: seq<Inventory>, opts: Options, names: Names, i: nat)
    requires i < |invs|
    ensures Blocks(text, invs[..i + 1], opts, names) == Blocks(text, invs[..i], opts, names) + InventoryBlock(text, invs[i], opts, names)
  {
    assert invs[..i + 1][..i] == invs[..i];
  }

  /** The header: one line per inventory, then the union summary when the union is shown. */
  method HeaderLines(invs: seq<Inventory>, show: bool) returns (header: seq<ReportLine>)
    ensures header == Header(invs, show)
  {
    var entries: seq<ReportLine> := [];
    for i := 0 to |invs|
      invariant entries == InventoryLines(invs[..i])
    {
      InventoryLinesStep(invs, i);
      entries := entries + [InventoryLine(invs[i])];
    }
    assert invs[..|invs|] == invs;
    header := [Plain("=== Inventories Loaded ===")] + entries;
    if show {
      header := header + [UnionLine(invs)];
    }
  }

  /** The results blocks, one per inventory in load order. */
  method BlockLines(text: string, invs: seq<Inventory>, opts: Options, names: Names)
    returns (blocks: seq<ReportLine>)
    ensures blocks == Blocks(text, invs, opts, names)
  {
    blocks := [];
    for i := 0 to |invs|
      invariant blocks == Blocks(text, invs[..i], opts, names)
    {
      var block := Block(text, invs[i], opts, names);
      BlocksStep(text, invs, opts, names, i);
      blocks := blocks + block;
    }
    assert invs[..|invs|] == invs;
  }

  /** The results block of the union of all inventories. */
  method UnionLines(text: string, invs: seq<Inventory>, opts: Options, names: Names)
    returns (union: seq<ReportLine>)
    ensures union == UnionBlock(text, invs, opts, names)
  {
    var rep := CoverageReport(text, UnionOf(invs), opts.hanOnly);
    union := StatsBlock(UnionTitle, rep);
    var oov := Oov(rep, opts.topUnknown, names, NoUnknownUnion);
    union := union + oov;
  }

  /** `build_report_text`, appending each section to the list of lines in turn. */
  method BuildReportText(text: string, invs: seq<Inventory>, opts: Options, names: Names)
    returns (lines: seq<ReportLine>)
    ensures lines == ReportLines(text, invs, opts, names)
  {
    var show := opts.union && |invs| > 1;
    lines := HeaderLines(invs, show);
    var blocks := BlockLines(text, invs, opts, names);
    lines := lines + blocks;
    if show {
      var union := UnionLines(text, invs, opts, names);
      lines := lines + union;
    }
  }

  /**
   * An item row starts with the character, a tab, the count in decimal
   * (which reads back as the count) and another tab ...
   */
  lemma ItemRowDecodesCount(item: (char, nat), names: Names)
    ensures var row := ItemRow(item, names); var d := |Decimal(item.1)|;
      3 + d < |row| && row[0] == item.0 && row[1] == '\t'
      && (forall i :: 2 <= i < 2 + d ==> IsDigit(row[i]))
      && ParseDecimal(row[2..2 + d]) == item.1
      && row[2 + d] == '\t'
  {
    var row := ItemRow(item, names);
    var dec := Decimal(item.1);
    DecimalRoundTrip(item.1);
    assert row == ([item.0] + "\t") + dec + ("\t" + CodeLabel(item.0) + "\t" + names(item.0).GetOr("<unnamed>"));
    assert row[2..2 + |dec|] == dec;
  }

  /**
   * ... followed by the `U+` label of the codepoint (which reads back as
   * the codepoint), a tab, and the name or `<unnamed>`.
   */
  lemma ItemRowDecodesCode(item: (char, nat), names: Names)
    ensures var row := ItemRow(item, names); var d := |Decimal(item.1)|; var e := 3 + d + |CodeLabel(item.0)|;
      e < |row| && row[3 + d..5 + d] == "U+"
      && (forall i :: 5 + d <= i < e ==> IsHexDigit(row[i]))
      && ParseHex(row[5 + d..e]) == item.0 as int
      && row[e] == '\t'
      && row[e + 1..] == names(item.0).GetOr("<unnamed>")
  {
    var row := ItemRow(item, names);
    var code := CodeLabel(item.0);
    var name := names(item.0).GetOr("<unnamed>");
    var pre := [item.0] + "\t" + Decimal(item.1) + "\t";
    var d := |Decimal(item.1)|;
    var e := 3 + d + |code|;
    CodeLabelRoundTrip(item.0);
    assert row == pre + code + "\t" + name;
    assert |pre| == 3 + d;
    assert row[3 + d..e] == code;
    assert row[5 + d..e] == code[2..];
    assert row[e + 1..] == name;
  }

  /** A well-formed counter has keys exactly when it has counts. */
  lemma KeysEmptyIff(ctr: Counter)
    requires Valid(ctr)
    ensures |ctr.keys| == 0 <==> |ctr.counts| == 0
  {
    if ctr.keys == [] {
      assert forall c :: c !in ctr.counts;
      assert ctr.counts == multiset{};
    } else {
      assert ctr.keys[0] in ctr.counts;
    }
  }

  lemma SectionLayout<T>(h0: T, h1: T, h2: T, top: seq<T>, b: T, bottom: seq<T>)
    ensures var sec := [h0, h1] + [h2] + top + [b] + bottom;
      |sec| == 4 + |top| + |bottom| && sec[0] == h0 && sec[1] == h1 && sec[2] == h2 && sec[3 + |top|] == b
  {
  }

  lemma ThreeParts<T>(h: seq<T>, b: seq<T>, u: seq<T>)
    ensures var r := h + b + u;
      |r| == |h| + |b| + |u|
      && (forall i :: 0 <= i < |h| ==> r[i] == h[i])
      && r[|h|..|h| + |b|] == b
      && (forall j :: 0 <= j < |u| ==> r[|h| + |b| + j] == u[j])
      && (u == [] ==> r[|h|..] == b)
  {
  }

  /** The lines of a non-empty unknown-character section, counted and placed. */
  lemma OovSectionShape(rep: Report, n: nat, names: Names, noneMsg: string)
    requires Valid(rep.unknownFreq) && rep.unknown > 0
    ensures var sec := OovSection(rep, n, names, noneMsg); var k := |rep.unknownFreq.keys|;
      |sec| == 4 + 2 * Min(n, k)
      && sec[0] == Plain(UniqueHeading) && sec[1] == Plain(UniqueOov(rep.unknownFreq))
      && sec[2] == Plain(TopHeading(n)) && sec[3 + Min(n, k)] == Plain(BottomHeading(n))
  {
    var ctr := rep.unknownFreq;
    SectionLayout(Plain(UniqueHeading), Plain(UniqueOov(ctr)), Plain(TopHeading(n)),
      ItemRows(MostCommon(ctr, n), names), Plain(BottomHeading(n)), ItemRows(BottomItems(ctr, n), names));
  }

  /**
   * The unknown-character section of a report: the all-known message
   * exactly when nothing is unknown, otherwise the unique string (every
   * unknown character once), `min(n, k)` top rows and `min(n, k)` bottom
   * rows for `k` distinct unknown characters.
   */
  lemma OovSectionOfReport(text: string, inv: set<char>, hanOnly: bool, n: nat, names: Names, noneMsg: string)
    ensures var rep := CoverageReport(text, inv, hanOnly); var k := |rep.unknownFreq.keys|;
      (k == 0 <==> rep.unknown == 0)
      && (rep.unknown == 0 ==> OovSection(rep, n, names, noneMsg) == [Plain(noneMsg)])
      && (rep.unknown > 0 ==>
            |OovSection(rep, n, names, noneMsg)| == 4 + 2 * Min(n, k)
            && OovSection(rep, n, names, noneMsg)[1] == Plain(UniqueOov(rep.unknownFreq))
            && |UniqueOov(rep.unknownFreq)| == k)
  {
    var rep := CoverageReport(text, inv, hanOnly);
    KeysEmptyIff(rep.unknownFreq);
    if rep.unknown > 0 {
      OovSectionShape(rep, n, names, noneMsg);
      UniqueOovIsPermutation(rep.unknownFreq);
    }
  }

  /** Listed items are keys of the table, with their counts, each at least one. */
  lemma ListedAreKeys(ctr: Counter, n: nat)
    requires Valid(ctr)
    ensures forall item :: item in MostCommon(ctr, n) + BottomItems(ctr, n) ==>
      item.0 in ctr.counts && item.1 == ctr.counts[item.0] && item.1 >= 1
  {
    var listed := MostCommon(ctr, n) + BottomItems(ctr, n);
    forall item | item in listed
      ensures item.0 in ctr.counts && item.1 == ctr.counts[item.0] && item.1 >= 1
    {
      var i :| 0 <= i < |listed| && listed[i] == item;
      assert item.0 in ctr.keys;
    }
  }

  /**
   * Every character in the top and bottom lists of a report is a counted
   * character outside the inventory, listed with a count of at least one.
   */
  lemma ListedRowsAreUnknown(text: string, inv: set<char>, hanOnly: bool, n: nat)
    ensures var ctr := CoverageReport(text, inv, hanOnly).unknownFreq;
      forall item :: item in MostCommon(ctr, n) + BottomItems(ctr, n) ==>
        item.0 !in inv && Counted(item.0, hanOnly) && item.1 >= 1 && item.1 == ctr.counts[item.0]
  {
    ListedAreKeys(CoverageReport(text, inv, hanOnly).unknownFreq, n);
  }

  lemma {:induction false} InventoryLinesAt(invs: seq<Inventory>)
    ensures forall i :: 0 <= i < |invs| ==> InventoryLines(invs)[i] == InventoryLine(invs[i])
  {
    if invs != [] {
      var init := invs[..|invs| - 1];
      var lines := InventoryLines(invs);
      InventoryLinesAt(init);
      assert lines == InventoryLines(init) + [InventoryLine(invs[|invs| - 1])];
      forall i | 0 <= i < |invs| ensures lines[i] == InventoryLine(invs[i]) {
        if i < |init| {
          assert init[i] == invs[i] && lines[i] == InventoryLines(init)[i];
        }
      }
    }
  }

  /** The header lists every inventory in order and ends with the union summary when it is shown. */
  lemma HeaderShape(invs: seq<Inventory>, show: bool)
    ensures var h := Header(invs, show);
      |h| == 1 + |invs| + (if show then 1 else 0)
      && h[0] == Plain("=== Inventories Loaded ===")
      && (forall i :: 0 <= i < |invs| ==> h[1 + i] == InventoryLine(invs[i]))
      && (show ==> h[1 + |invs|] == UnionLine(invs))
  {
    var entries := InventoryLines(invs);
    InventoryLinesAt(invs);
    ThreeParts([Plain("=== Inventories Loaded ===")], entries, if show then [UnionLine(invs)] else []);
  }

  /** Where the parts of a report lie once the header, the blocks and the union block are put together. */
  lemma ReportLayout(h: seq<ReportLine>, b: seq<ReportLine>, u: seq<ReportLine>, invs: seq<Inventory>, show: bool)
    requires |h| == 1 + |invs| + (if show then 1 else 0)
    requires forall i :: 0 <= i < |invs| ==> h[1 + i] == InventoryLine(invs[i])
    requires show ==> h[1 + |invs|] == UnionLine(invs)
    requires show ==> u != [] && u[0] == Plain("\n=== Results for [" + UnionTitle + "] ===")
    requires !show ==> u == []
    ensures var r := h + b + u;
      |r| == 1 + |invs| + |b| + (if show then 1 + |u| else 0)
      && (forall i :: 0 <= i < |invs| ==> r[1 + i] == InventoryLine(invs[i]))
      && (show ==>
            r[1 + |invs|] == UnionLine(invs)
            && r[2 + |invs| + |b|] == Plain("\n=== Results for [" + UnionTitle + "] ===")
            && r[2 + |invs|..2 + |invs| + |b|] == b)
      && (!show ==> r[1 + |invs|..] == b)
  {
    ThreeParts(h, b, u);
  }

  /**
   * The union summary line and the union block are present exactly when
   * the union was asked for and more than one inventory was loaded.
   */
  lemma UnionOnlyWhenAsked(text: string, invs: seq<Inventory>, opts: Options, names: Names)
    ensures var r := ReportLines(text, invs, opts, names); var b := Blocks(text, invs, opts, names);
      |r| == 1 + |invs| + |b| + (if ShowUnion(opts, invs) then 1 + |UnionBlock(text, invs, opts, names)| else 0)
      && (forall i :: 0 <= i < |invs| ==> r[1 + i] == InventoryLine(invs[i]))
      && (ShowUnion(opts, invs) ==>
            r[1 + |invs|] == UnionLine(invs)
            && r[2 + |invs| + |b|] == Plain("\n=== Results for [" + UnionTitle + "] ===")
            && r[2 + |invs|..2 + |invs| + |b|] == b)
      && (!ShowUnion(opts, invs) ==> r[1 + |invs|..] == b)
  {
    var show := ShowUnion(opts, invs);
    var h := Header(invs, show);
    var b := Blocks(text, invs, opts, names);
    var u := if show then UnionBlock(text, invs, opts, names) else [];
    HeaderShape(invs, show);
    ReportLayout(h, b, u, invs, show);
    assert ReportLines(text, invs, opts, names) == h + b + u;
  }

  /** With at most one inventory the union flag changes nothing. */
  lemma UnionFlagIgnoredWhenFew(text: string, invs: seq<Inventory>, opts: Options, names: Names)
    requires |invs| <= 1
    ensures ReportLines(text, invs, opts.(union := true), names) == ReportLines(text, invs, opts.(union := false), names)
  {
    assert !ShowUnion(opts.(union := true), invs);
    assert Blocks(text, invs, opts.(union := true), names) == Blocks(text, invs, opts.(union := false), names) by {
      if invs != [] {
        assert invs[..0] == [];
      }
    }
  }

  /** An inventory block over empty text: five figures, the all-known message, and the per-line heading if asked. */
  lemma BlockOfEmptyText(inv: Inventory, opts: Options, names: Names)
    ensures InventoryBlock("", inv, opts, names) ==
      StatsBlock(inv.name, CoverageReport("", inv.chars, opts.hanOnly)) + [Plain(NoUnknown)]
      + (if opts.perLine then [Plain("\nPer-line coverage:")] else [])
  {
    ScenarioEmptyText(inv.chars, opts.hanOnly);
    assert Breakdown("", inv.chars, opts.hanOnly) == [];
  }

  lemma {:induction false} BlocksOfEmptyText(invs: seq<Inventory>, opts: Options, names: Names)
    ensures |Blocks("", invs, opts, names)| == |invs| * (if opts.perLine then 7 else 6)
  {
    if invs != [] {
      BlocksOfEmptyText(invs[..|invs| - 1], opts, names);
      BlockOfEmptyText(invs[|invs| - 1], opts, names);
    }
  }

  /** The union block over empty text: five figures and the all-known-under-union message. */
  lemma UnionBlockOfEmptyText(invs: seq<Inventory>, opts: Options, names: Names)
    ensures UnionBlock("", invs, opts, names) ==
      StatsBlock(UnionTitle, CoverageReport("", UnionOf(invs), opts.hanOnly)) + [Plain(NoUnknownUnion)]
  {
    ScenarioEmptyText(UnionOf(invs), opts.hanOnly);
  }

  /**
   * Empty text: the heading, then per inventory one header line and a
   * six-line block (seven with the per-line section, which then has no
   * rows) and, when shown, the union summary line and a six-line union
   * block.
   */
  lemma EmptyTextReport(invs: seq<Inventory>, opts: Options, names: Names)
    ensures |ReportLines("", invs, opts, names)| ==
      1 + |invs| * (if opts.perLine then 8 else 7) + (if ShowUnion(opts, invs) then 1 + 6 else 0)
  {
    var show := ShowUnion(opts, invs);
    var k := if opts.perLine then 7 else 6;
    assert |Blocks("", invs, opts, names)| == |invs| * k by {
      BlocksOfEmptyText(invs, opts, names);
    }
    assert |Header(invs, show)| == 1 + |invs| + (if show then 1 else 0) by {
      HeaderShape(invs, show);
    }
    if show {
      assert |UnionBlock("", invs, opts, names)| == 6 by {
        UnionBlockOfEmptyText(invs, opts, names);
      }
    }
    var u := if show then UnionBlock("", invs, opts, names) else [];
    assert ReportLines("", invs, opts, names) == Header(invs, show) + Blocks("", invs, opts, names) + u;
  }
}
