# SanBaiQian coverage engine in Dafny

A Dafny model of the coverage engine of the SanBaiQian coverage checker
(`sanbaiqian_coverage.py`). The checker measures how much of a text is
covered by reference character inventories, for example a list of
commonly taught Han characters. The model covers these parts:

- **Han classification** (`HanScript`): the table of twelve inclusive
  codepoint intervals and `is_han`. `is_han` is a loop with an early
  return, proved equal to "some interval contains the codepoint".
- **Inventories** (`Inventories`): `load_inventory` keeps the Han
  characters of a file's contents. `load_inventories` labels each
  inventory by the file's stem. A label that is already taken is
  retried as `stem-2`, `stem-3`, and so on until one is free.
- **Counting** (`Counting`): `collections.Counter` as a value. It holds
  the keys in first-seen order and a multiset of counts.
- **Coverage** (`Coverage`): `iter_text_chars` (Han-only filter and
  Python's whitespace test), `coverage_report` (known/unknown partition,
  frequency tables, percentage) and the union of inventories.
- **Per-line breakdown** (`PerLine`): `str.splitlines` and
  `per_line_breakdown`. The loop that appends records is written as a
  method and proved equal to a specification function.
- **Orderings** (`Ranking`): the unique-OOV order (count descending,
  then codepoint ascending), `Counter.most_common` (count descending,
  ties in first-seen order) and the bottom list (count ascending, then
  codepoint ascending). All three use one insertion sort on a strict
  lexicographic rank.
- **Numbers** (`Numerals`): `str(n)`, `human_int` (`f"{n:,}"`) and
  `f"U+{cp:04X}"`, each with a decoder and a round-trip lemma.
- **Report assembly** (`ReportText`): `build_report_text` as a sequence
  of line records. The header, the results blocks and the union block are
  appended section by section, and the result is proved equal to a
  specification function.

Text is `seq<char>` with Unicode scalar values, so `ord(ch)` is
`ch as int`. Inventories are `set<char>`, and a frequency table is a
`Counter` value. The dictionary returned by `load_inventories` is a
sequence of `Inventory(name, chars)` in insertion order, with pairwise
distinct names.

Two facts about the code:

- The interval table is not ascending: Extension I (line 25) follows
  Extension H (line 24). `HanScript.RangesNotAscending` proves this.
  Membership is "some interval contains the codepoint", which does not
  depend on order (`HanScript.MembershipIndependentOfOrder`).
- The Top-N list uses `Counter.most_common`, which breaks count ties by
  first occurrence. The unique-OOV string breaks them by codepoint.
  `Ranking.MostCommonTieFollowsFirstSeen` and
  `Ranking.UniqueOovTieFollowsCodepoint` state the two tie-breaks, and
  `Ranking.TwoOnesTies` applies both to the table of "二一": the Top-1
  entry is 二, while the unique-OOV string is "一二".

## Model

| member | source | states |
|---|---|---|
| HanScript.IsHan | sanbaiqian_coverage.py:29-36 | The scan over the table returns true exactly when the input is one character whose codepoint lies in one of the twelve inclusive intervals, and false for the empty string |
| HanScript.HanMatchesMergedBlocks | sanbaiqian_coverage.py:14-27 | Membership in the twelve intervals equals membership in six merged Unicode blocks (the adjacent extensions joined), so the table has no gaps between C–F or G–J |
| HanScript.RangesWellFormedAndDisjoint | sanbaiqian_coverage.py:14-27 | Every interval has start ≤ end, and any two intervals are disjoint |
| HanScript.RangesNotAscending | sanbaiqian_coverage.py:24-25 | The table is not in ascending order, because Extension I follows Extension H |
| HanScript.MembershipIndependentOfOrder | sanbaiqian_coverage.py:33-35 | The result of the linear scan does not depend on the order of the intervals |
| HanScript.HanExamples | sanbaiqian_coverage.py:14-36 | 一, 丙 and U+2EBF0 are Han; 'a', space, the ideographic space and U+2A6E0 (the gap after Extension B) are not |
| Inventories.LoadInventory | sanbaiqian_coverage.py:46-48 | The inventory holds exactly the Han characters occurring in the data: every member is Han and occurs, and every Han character of the data is a member |
| Inventories.LoadInventorySize | sanbaiqian_coverage.py:47 | An inventory has no more members than the data has characters |
| Inventories.BaseLabel | sanbaiqian_coverage.py:55 | `p.stem or str(p)`: the stem when it is non-empty, otherwise the path; empty only when both are |
| Inventories.CandidateInjective | sanbaiqian_coverage.py:55-60 | Different retry numbers give different candidate labels (`stem`, `stem-2`, `stem-3`, ...) |
| Inventories.FreeLabel | sanbaiqian_coverage.py:56-60 | The collision loop stops, and returns the first candidate not yet used, with every earlier candidate already used |
| Inventories.LoadInventories | sanbaiqian_coverage.py:51-62 | One entry per file in file order; each entry's characters are `load_inventory` of its contents; each label is the first free candidate for its file's stem (or path) given the earlier labels; labels are pairwise distinct |
| Inventories.ChooseNext | sanbaiqian_coverage.py:58-61 | Adding an entry under the first free label keeps every earlier label the first free one for its file |
| Inventories.AppendLabel | sanbaiqian_coverage.py:61 | Adding an entry adds exactly its label to the set of labels; a fresh label keeps labels distinct |
| Inventories.FirstFreeUnique | sanbaiqian_coverage.py:56-60 | The chosen label is determined by the stem and the labels already used |
| Inventories.FirstFreeKeepsUnusedBase | sanbaiqian_coverage.py:55-58 | A stem not yet used is kept as is; the chosen label is never one already used |
| Inventories.DuplicateStemScenario | sanbaiqian_coverage.py:55-61 | Two files with stem "a" are labelled "a" and "a-2" |
| Inventories.UnionOf | sanbaiqian_coverage.py:197 | The union contains every inventory and contains nothing outside them |
| Inventories.UnionAtMostRawSize | sanbaiqian_coverage.py:206-207 | The union's size is at most the raw sum of the inventory sizes shown in the header |
| Inventories.RawSize | sanbaiqian_coverage.py:206 | The raw sum is 0 for no inventories and is at least the size of each inventory |
| Inventories.RawSizeOne | sanbaiqian_coverage.py:206 | The raw sum of one inventory is its size |
| Inventories.RawSizeAppend | sanbaiqian_coverage.py:206 | The raw sum adds up over concatenation; with RawSizeOne it is the sum of the inventory sizes |
| Counting.Dedup | sanbaiqian_coverage.py:95-96 | The keys of a `Counter` are distinct and are exactly the elements counted |
| Counting.DedupOrder | sanbaiqian_coverage.py:95-96 | The keys of a `Counter` are in order of first occurrence |
| Counting.CounterOf | sanbaiqian_coverage.py:95-96 | `Counter(list)` holds exactly the multiset of the list, with distinct keys in first-occurrence order |
| Counting.Filter | sanbaiqian_coverage.py:83-84 | A filtered string holds only elements of the input that pass the test |
| Counting.FilterCount | sanbaiqian_coverage.py:83-84 | Every element that passes the test is kept as often as it occurs in the input; an element that fails it is not kept |
| Counting.FilterFirstOrder | sanbaiqian_coverage.py:83-84 | Of two kept elements, the one met first in the filtered string is the one met first in the input |
| Coverage.WhitespaceIsNotHan | sanbaiqian_coverage.py:67-70 | No whitespace character is Han, so in Han-only mode the whitespace test never drops anything |
| Coverage.WhitespaceTable | sanbaiqian_coverage.py:69 | `ch.strip() == ""` holds exactly for the 29 characters Python treats as whitespace (tab to carriage return, the file/group/record/unit separators, space, U+0085, U+00A0, U+1680, U+2000–U+200A, U+2028, U+2029, U+202F, U+205F, U+3000) |
| Coverage.CountedChars | sanbaiqian_coverage.py:65-71 | The filtered text is no longer than the text, and every character in it passes the Han-only test and is not whitespace |
| Coverage.CountedCharsCount | sanbaiqian_coverage.py:65-71 | A counted character occurs in the filtered text exactly as often as in the text; any other character does not occur |
| Coverage.CountedCharsIsFilter | sanbaiqian_coverage.py:65-71 | The filtered text is the text filtered by "passes the Han-only test and is not whitespace" |
| Coverage.KnownOf | sanbaiqian_coverage.py:83 | Every selected character is in the inventory |
| Coverage.UnknownOf | sanbaiqian_coverage.py:84 | Every selected character is outside the inventory |
| Coverage.KnownOfIsFilter | sanbaiqian_coverage.py:83 | Selecting known characters is filtering by membership |
| Coverage.UnknownOfIsFilter | sanbaiqian_coverage.py:84 | Selecting unknown characters is filtering by non-membership |
| Coverage.KnownUnknownPartition | sanbaiqian_coverage.py:83-87 | Known and unknown characters together are the counted characters, as a multiset and in number |
| Coverage.KnownUnknownMembers | sanbaiqian_coverage.py:83-84 | Known characters are in the inventory and unknown ones are not |
| Coverage.CoveragePct | sanbaiqian_coverage.py:88 | The percentage is 100 when the total is 0; otherwise pct × total = 100 × known, and it lies in [0, 100] |
| Coverage.CoverageReport | sanbaiqian_coverage.py:74-97 | total = number of counted characters; known + unknown = total; the count sums of the two frequency tables equal known and unknown and together give the counted characters; known keys are in the inventory and unknown keys are not; the keys of each table occur in the text in order of first occurrence; coverage is 100 for an empty total and lies in [0, 100] |
| Coverage.KeysInTextOrder | sanbaiqian_coverage.py:80-96 | The keys of the `Counter` of any filtered part of the counted characters occur in the text, in order of their first occurrence in the text |
| Coverage.FrequencyKeysInTextOrder | sanbaiqian_coverage.py:80-96 | The keys of both frequency tables are in order of first occurrence in the text |
| Coverage.HanOnlyAtMostAll | sanbaiqian_coverage.py:65-71 | The Han-only total is at most the all-characters total on the same text |
| Coverage.KnownMonotone | sanbaiqian_coverage.py:83 | A larger inventory never lowers the known count |
| Coverage.UnionKnowsAtLeastEach | sanbaiqian_coverage.py:196-198 | The union's known count is at least that of each inventory |
| Coverage.CountedCharsAppend | sanbaiqian_coverage.py:65-71 | Filtering distributes over concatenation |
| Coverage.KnownOfAppend | sanbaiqian_coverage.py:83 | Selecting known characters distributes over concatenation |
| Coverage.ScenarioOneTwoThreeFour | sanbaiqian_coverage.py:74-97 | "一二三四" against {一,二,三}: 4 counted, 3 known, 1 unknown (四), coverage 75% |
| Coverage.ScenarioEmptyText | sanbaiqian_coverage.py:88 | Empty text: nothing counted and coverage 100% |
| Coverage.ScenarioUnion | sanbaiqian_coverage.py:196-198 | The union of {甲} and {乙} on "甲乙丙": 3 counted, 2 known, 丙 unknown |
| PerLine.SplitLines | sanbaiqian_coverage.py:111 | Empty text has no lines, non-empty text has at least one, and no line contains a line terminator |
| PerLine.SplitLinesKeepsText | sanbaiqian_coverage.py:111 | Joining the lines gives back the text without its line terminators |
| PerLine.LineBreakTable | sanbaiqian_coverage.py:111 | `str.splitlines` breaks exactly at the ten characters \n, \v, \f, \r, U+001C–U+001E, U+0085, U+2028 and U+2029 |
| PerLine.LineBreakIsWhitespace | sanbaiqian_coverage.py:69-111 | Every line terminator is whitespace and is never counted, even with Han-only off |
| PerLine.SplitLinesCount | sanbaiqian_coverage.py:111 | The number of lines is the number of line breaks (\r\n counting once), plus one (`Tail`) when the text is non-empty and does not end with a terminator |
| PerLine.SplitLinesJoin | sanbaiqian_coverage.py:111 | For text whose only terminator is \n, joining the lines with \n gives back the text, less one final \n (`DropFinalNewline`) |
| PerLine.LineRecordOf | sanbaiqian_coverage.py:112-119 | A line's record has known ≤ total; a line with nothing counted has known 0 and 100%; otherwise pct × total = 100 × known |
| PerLine.Breakdown | sanbaiqian_coverage.py:100-120 | Empty text gives no records; one record per line, numbered 1, 2, … in order, carrying its line; known ≤ total; zero-total lines have known 0 and 100% |
| PerLine.PerLineBreakdown | sanbaiqian_coverage.py:110-120 | The append loop, including its early `continue` for zero-total lines, returns exactly `Breakdown` |
| PerLine.CountedCharsAroundBreak | sanbaiqian_coverage.py:65-71 | A line terminator is whitespace: the counted characters of a text are those before and after the terminator |
| PerLine.LineSumsMatchWholeText | sanbaiqian_coverage.py:111-119 | The per-line totals and known counts sum to the counts of the whole text |
| PerLine.BreakdownSumsToReport | sanbaiqian_coverage.py:80-119 | The sum of per-line totals equals `coverage_report`'s total, and likewise for the known counts |
| PerLine.RecordOfKnownThenUnknown | sanbaiqian_coverage.py:112-119 | A line of one known and one unknown counted character has total 2, known 1, coverage 50% |
| PerLine.RecordOfUnknown | sanbaiqian_coverage.py:112-119 | A line of one unknown counted character has total 1, known 0, coverage 0% |
| PerLine.ScenarioTwoLines | sanbaiqian_coverage.py:100-120 | "甲乙\n丙" against {甲}: line 1 has 1 of 2 known (50%), line 2 has 0 of 1 (0%) |
| Ranking.IndexInIsFirstIndex | sanbaiqian_coverage.py:226 | The tie-break position of a key in `most_common` is the key's first index among the keys, that is, its first-seen order |
| Ranking.Insert | sanbaiqian_coverage.py:220 | Inserting into a sorted sequence keeps it sorted and adds exactly the element |
| Ranking.Sort | sanbaiqian_coverage.py:220-236 | The sort's result is sorted by the rank and is a permutation of its input |
| Ranking.SortedUnique | sanbaiqian_coverage.py:220-236 | Two sequences sorted by the same strict rank with the same elements are equal, so the sort's result is determined |
| Ranking.UniqueOov | sanbaiqian_coverage.py:219-222 | The unique-OOV string is a permutation of the unknown keys, ordered by count descending and then codepoint ascending |
| Ranking.UniqueOovIsPermutation | sanbaiqian_coverage.py:219-222 | The unique-OOV string lists every unknown character exactly once |
| Ranking.UniqueOovDetermined | sanbaiqian_coverage.py:220 | Any ordering of the keys by (count descending, codepoint ascending) is the unique-OOV string |
| Ranking.MostCommon | sanbaiqian_coverage.py:226 | `most_common(n)` has min(n, k) entries, with their true counts, non-increasing; equal counts appear in first-seen order |
| Ranking.MostCommonOmitsOnlyLower | sanbaiqian_coverage.py:226 | A key left out of `most_common(n)` has, against every listed entry, a lower count, or an equal count and a later first occurrence |
| Ranking.BottomItems | sanbaiqian_coverage.py:235-236 | The bottom list has min(n, k) entries, with their true counts, ordered by count ascending and then codepoint ascending |
| Ranking.BottomOmitsOnlyHigher | sanbaiqian_coverage.py:235-236 | A key left out of the bottom list comes after every listed entry by (count, codepoint) |
| Ranking.TopAndBottomOverlapWhenFew | sanbaiqian_coverage.py:226-236 | When there are at most n keys, every key is in both lists: the lists overlap and are not deduplicated |
| Ranking.CounterOfTwo | sanbaiqian_coverage.py:96 | The table of two different characters has both as keys, in the order met, once each |
| Ranking.MostCommonTieFollowsFirstSeen | sanbaiqian_coverage.py:226 | Of two keys with equal counts, the one seen first is the top-1 entry, whatever the codepoints |
| Ranking.UniqueOovTieFollowsCodepoint | sanbaiqian_coverage.py:220 | Of two keys with equal counts, the unique-OOV string puts the lower codepoint first |
| Ranking.TwoOnesTies | sanbaiqian_coverage.py:220-226 | On the table of "二一", the Top-1 entry is 二 (first seen) while the unique-OOV string is "一二" (codepoint order) |
| Numerals.Decimal | sanbaiqian_coverage.py:59 | `str(n)` is a non-empty string of digits with no leading zero |
| Numerals.DecimalRoundTrip | sanbaiqian_coverage.py:59 | Reading `str(n)` back gives n |
| Numerals.DecimalInjective | sanbaiqian_coverage.py:59 | Different numbers have different decimal strings |
| Numerals.GroupStrip | sanbaiqian_coverage.py:125-126 | Removing the thousands separators from a grouped digit string gives the digits back |
| Numerals.GroupLength | sanbaiqian_coverage.py:125-126 | Grouping d ≥ 1 digits adds (d − 1) / 3 separators |
| Numerals.GroupCommas | sanbaiqian_coverage.py:125-126 | A comma stands exactly at the positions a positive multiple of four from the end |
| Numerals.HumanIntRoundTrip | sanbaiqian_coverage.py:125-126 | `f"{n:,}"` without its commas is `str(n)` and reads back as n; its length and its comma positions are as above |
| Numerals.HexRoundTrip | sanbaiqian_coverage.py:227 | The upper-case hexadecimal of n reads back as n |
| Numerals.HexLength | sanbaiqian_coverage.py:227 | The hexadecimal of n fits in k digits exactly when n < 16^k |
| Numerals.CodeLabelRoundTrip | sanbaiqian_coverage.py:227 | `f"U+{cp:04X}"` starts with "U+", has max(4, d) hex digits for a codepoint of d hex digits, reads back as the codepoint, and has exactly four digits exactly when cp < 0x10000 |
| ReportText.Rows | sanbaiqian_coverage.py:226-232 | The row loop produces one row per listed item, in order |
| ReportText.Oov | sanbaiqian_coverage.py:218-246 | The unknown-character section equals its specification: unique string, Top heading and rows, Bottom heading and rows, or the all-known message |
| ReportText.RecordLines | sanbaiqian_coverage.py:250-253 | One per-line row per record, in order |
| ReportText.PerLineRows | sanbaiqian_coverage.py:248-253 | The per-line section is its heading followed by one row per line record of `per_line_breakdown` |
| ReportText.Block | sanbaiqian_coverage.py:211-253 | One inventory's block is the five figures lines, the unknown-character section and, if asked, the per-line section |
| ReportText.HeaderLines | sanbaiqian_coverage.py:201-208 | The header is the heading, one line per inventory and the union summary when the union is shown |
| ReportText.BlockLines | sanbaiqian_coverage.py:211 | One results block per inventory, in load order |
| ReportText.UnionLines | sanbaiqian_coverage.py:256-289 | The union block is its five figures lines and its unknown-character section, with the union-specific all-known message |
| ReportText.BuildReportText | sanbaiqian_coverage.py:177-291 | The lines appended are exactly the specified report: header, per-inventory blocks, then the union block only when it is shown |
| ReportText.ItemRowDecodesCount | sanbaiqian_coverage.py:227-232 | An item row starts with the character, a tab, the count in decimal (which reads back as the count) and a tab |
| ReportText.ItemRowDecodesCode | sanbaiqian_coverage.py:227-232 | The row continues with the `U+` label (which reads back as the codepoint), a tab, and the name or `<unnamed>` |
| ReportText.OovSectionOfReport | sanbaiqian_coverage.py:218-246 | The all-known message appears exactly when nothing is unknown; otherwise the section has 4 + 2·min(n, k) lines for k distinct unknown characters, and its unique-string line has k characters |
| ReportText.ListedRowsAreUnknown | sanbaiqian_coverage.py:226-236 | Every character in the top and bottom lists is a counted character outside the inventory, listed with its count of at least one |
| ReportText.HeaderShape | sanbaiqian_coverage.py:201-208 | The header has 1 + |invs| lines (plus the summary when shown), lists the inventories in order, and ends with the union summary when shown |
| ReportText.ReportLayout | sanbaiqian_coverage.py:201-258 | Header, blocks and union block put together: inventory lines at 1..|invs|, the union summary and union heading exactly when the union is shown |
| ReportText.UnionOnlyWhenAsked | sanbaiqian_coverage.py:196-258 | The union summary line and the union block are present exactly when `union` is set and there is more than one inventory; otherwise the blocks end the report |
| ReportText.UnionFlagIgnoredWhenFew | sanbaiqian_coverage.py:196 | With at most one inventory, the `union` flag does not change the report |
| ReportText.EmptyTextReport | sanbaiqian_coverage.py:177-291 | On empty text the report has 1 + 7·|invs| lines (8·|invs| with per-line mode), plus 7 lines when the union is shown |

## Left out

- File and standard-input reading, and saving the report, are I/O. Inventory contents, file stems and paths, and the text are given as strings.
- `unicodedata.name` is a lookup in the Unicode database. It is passed in as a parameter `names: char -> Option<string>`, and a missing name is shown as `<unnamed>`.
- Floating-point rendering (`:.2f`, `6.2f`) and the padded per-line row (`{line_no:>4}: {known:>4}/{total:<4} …`) are not rendered. Their lines are the records `CoverageLine(pct)` and `PerLineRow(record)`. Percentages are exact reals, not IEEE doubles.
- The final `"\n".join(lines)` is not modelled. The report is its sequence of lines.
- ReportText.BuildReportText: the per-line section looks the inventory up by label (`inventories[label]`). Labels are distinct, so the model uses the inventory of the block being built.
- HanScript.IsHan: requires at most one character. `ord` raises an error on longer strings, and callers only pass single characters.
- Ranking.MostCommon: `n` is a natural number. A negative `top_unknown` would make Python's slice drop items from the end; this case is not modelled.
- Python's `list.sort`, `sorted` and `Counter.most_common` are modelled by their results. The in-place update of `unique_oov` is a value, and the sort algorithm is an insertion sort, not Timsort. The ranks are strict, so the result is the same.
- `line.rstrip("\n")` in `per_line_breakdown` is not modelled. `splitlines` already removes terminators, so it never changes a line.
- `print_stats_block`, `print_oov_list` and `print_oov_frequency` print to standard output what `build_report_text` already assembles. `main` is argument parsing and printing. `run_analysis_from_files` only reads files and calls the modelled functions. `run_coverage_wizard.py` is interactive prompts and a subprocess call. None of these is part of this model.
