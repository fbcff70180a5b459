/**
 * The coverage analyzer: which characters of a text are counted, how
 * many of them an inventory knows, and the frequency tables of the known
 * and unknown ones.
 */
module Coverage {
  import opened HanScript
  import opened Counting
  import opened Inventories

  /**
   * The characters that `str.strip()` removes, so that `ch.strip() == ""`
   * for a single character `ch`: Python's whitespace table.
   */
  predicate IsWhitespace(c: char) {
    var x := c as int;
    || 0x09 <= x <= 0x0D || 0x1C <= x <= 0x20 || x == 0x85 || x == 0xA0
    || x == 0x1680 || 0x2000 <= x <= 0x200A || x == 0x2028 || x == 0x2029
    || x == 0x202F || x == 0x205F || x == 0x3000
  }

  /** Python's whitespace characters, listed one by one. */
  const WhitespaceChars: set<char> := {
    '\U{9}', '\U{A}', '\U{B}', '\U{C}', '\U{D}', '\U{1C}', '\U{1D}', '\U{1E}', '\U{1F}', '\U{20}',
    '\U{85}', '\U{A0}', '\U{1680}',
    '\U{2000}', '\U{2001}', '\U{2002}', '\U{2003}', '\U{2004}', '\U{2005}',
    '\U{2006}', '\U{2007}', '\U{2008}', '\U{2009}', '\U{200A}',
    '\U{2028}', '\U{2029}', '\U{202F}', '\U{205F}', '\U{3000}' }

  /** The range test is exactly the table. */
  lemma WhitespaceTable(c: char)
    ensures IsWhitespace(c) <==> c in WhitespaceChars
  {
    var x := c as int;
    assert c == x as char;
  }

  /** No whitespace character is Han. */
  lemma WhitespaceIsNotHan(c: char)
    ensures IsWhitespace(c) ==> !IsHanChar(c)
  {
    if IsWhitespace(c) {
      HanMatchesMergedBlocks(c as int);
    }
  }

  /** The test `iter_text_chars` applies to each character. */
  predicate Counted(c: char, hanOnly: bool) {
    (!hanOnly || IsHanChar(c)) && !IsWhitespace(c)
  }

  /**
   * `iter_text_chars`: the characters of `text` that are counted, in text
   * order (see `CountedCharsCount` for how often each one occurs).
   */
  function CountedChars(text: string, hanOnly: bool): (cs: string)
    ensures |cs| <= |text|
    ensures forall i :: 0 <= i < |cs| ==> Counted(cs[i], hanOnly)
  {
    if text == [] then []
    else (if Counted(text[0], hanOnly) then [text[0]] else []) + CountedChars(text[1..], hanOnly)
  }

  /** A counted character occurs as often as in the text; any other not at all. */
  lemma CountedCharsCount(text: string, hanOnly: bool, c: char)
    ensures multiset(CountedChars(text, hanOnly))[c] ==
      if Counted(c, hanOnly) then multiset(text)[c] else 0
  {
    var p := (x: char) => Counted(x, hanOnly);
    CountedCharsIsFilter(text, hanOnly, p);
    FilterCount(text, p, c);
  }

  /** `[ch for ch in chars if ch in inventory]`. */
  function KnownOf(cs: string, inv: set<char>): (k: string)
    ensures forall i :: 0 <= i < |k| ==> k[i] in inv
  {
    if cs == [] then []
    else (if cs[0] in inv then [cs[0]] else []) + KnownOf(cs[1..], inv)
  }

  /** `[ch for ch in chars if ch not in inventory]`. */
  function UnknownOf(cs: string, inv: set<char>): (u: string)
    ensures forall i :: 0 <= i < |u| ==> u[i] !in inv
  {
    if cs == [] then []
    else (if cs[0] !in inv then [cs[0]] else []) + UnknownOf(cs[1..], inv)
  }

  /** Known and unknown split the counted characters: together they are all of them. */
  lemma {:induction false} KnownUnknownPartition(cs: string, inv: set<char>)
    ensures multiset(KnownOf(cs, inv)) + multiset(UnknownOf(cs, inv)) == multiset(cs)
    ensures |KnownOf(cs, inv)| + |UnknownOf(cs, inv)| == |cs|
  {
    if cs != [] {
      KnownUnknownPartition(cs[1..], inv);
      assert cs == [cs[0]] + cs[1..];
    }
  }

  /** Known characters are in the inventory, unknown ones are not, and both are counted. */
  lemma {:induction false} KnownUnknownMembers(cs: string, inv: set<char>, hanOnly: bool)
    requires forall i :: 0 <= i < |cs| ==> Counted(cs[i], hanOnly)
    ensures forall c :: c in KnownOf(cs, inv) ==> c in inv && Counted(c, hanOnly)
    ensures forall c :: c in UnknownOf(cs, inv) ==> c !in inv && Counted(c, hanOnly)
  {
    if cs != [] {
      KnownUnknownMembers(cs[1..], inv, hanOnly);
    }
  }

  lemma {:induction false} CountedCharsIsFilter(text: string, hanOnly: bool, p: char -> bool)
    requires forall c :: p(c) == Counted(c, hanOnly)
    ensures CountedChars(text, hanOnly) == Filter(text, p)
  {
    if text != [] {
      CountedCharsIsFilter(text[1..], hanOnly, p);
    }
  }

  lemma {:induction false} KnownOfIsFilter(cs: string, inv: set<char>, p: char -> bool)
    requires forall c :: p(c) == (c in inv)
    ensures KnownOf(cs, inv) == Filter(cs, p)
  {
    if cs != [] {
      KnownOfIsFilter(cs[1..], inv, p);
    }
  }

  lemma {:induction false} UnknownOfIsFilter(cs: string, inv: set<char>, p: char -> bool)
    requires forall c :: p(c) == (c !in inv)
    ensures UnknownOf(cs, inv) == Filter(cs, p)
  {
    if cs != [] {
      UnknownOfIsFilter(cs[1..], inv, p);
    }
  }

  /** The keys of a table over counted characters are in the order they first occur in the text. */
  lemma KeysInTextOrder(text: string, hanOnly: bool, part: string, keep: char -> bool)
    requires part == Filter(CountedChars(text, hanOnly), keep)
    ensures InFirstOccurrenceOrder(CounterOf(part).keys, text)
  {
    var counted := c => Counted(c, hanOnly);
    var chars := CountedChars(text, hanOnly);
    CountedCharsIsFilter(text, hanOnly, counted);
    var keys := CounterOf(part).keys;
    forall i, j | 0 <= i < j < |keys|
      ensures FirstIndex(text, keys[i]) < FirstIndex(text, keys[j])
    {
      FilterFirstOrder(chars, keep, keys[i], keys[j]);
      FilterFirstOrder(text, counted, keys[i], keys[j]);
    }
  }

  /**
   * The keys of `Counter(known)` and `Counter(unknown)` are in the order
   * in which the characters first occur in the text.
   */
  lemma FrequencyKeysInTextOrder(text: string, inv: set<char>, hanOnly: bool)
    ensures InFirstOccurrenceOrder(CounterOf(KnownOf(CountedChars(text, hanOnly), inv)).keys, text)
    ensures InFirstOccurrenceOrder(CounterOf(UnknownOf(CountedChars(text, hanOnly), inv)).keys, text)
  {
    var chars := CountedChars(text, hanOnly);
    var isKnown := c => c in inv;
    var isUnknown := c => c !in inv;
    KnownOfIsFilter(chars, inv, isKnown);
    UnknownOfIsFilter(chars, inv, isUnknown);
    KeysInTextOrder(text, hanOnly, KnownOf(chars, inv), isKnown);
    KeysInTextOrder(text, hanOnly, UnknownOf(chars, inv), isUnknown);
  }

  /** `known / total * 100.0`, and 100.0 for an empty total. */
  function CoveragePct(known: nat, total: nat): (pct: real)
    ensures total == 0 ==> pct == 100.0
    ensures total > 0 ==> pct * total as real == 100.0 * known as real
    ensures known <= total ==> 0.0 <= pct <= 100.0
  {
    if total == 0 then 100.0 else known as real / total as real * 100.0
  }

  /** The value `coverage_report` returns. */
  datatype Report = Report(
    total: nat,
    known: nat,
    unknown: nat,
    coverage: real,
    knownFreq: Counter,
    unknownFreq: Counter)

  /** `coverage_report(text, inventory, han_only)`. */
  function CoverageReport(text: string, inv: set<char>, hanOnly: bool): (rep: Report)
    ensures rep.total == |CountedChars(text, hanOnly)|
    ensures rep.known + rep.unknown == rep.total
    ensures Valid(rep.knownFreq) && Valid(rep.unknownFreq)
    ensures |rep.knownFreq.counts| == rep.known && |rep.unknownFreq.counts| == rep.unknown
    ensures rep.knownFreq.counts + rep.unknownFreq.counts == multiset(CountedChars(text, hanOnly))
    ensures forall c :: c in rep.knownFreq.counts ==> c in inv && Counted(c, hanOnly)
    ensures forall c :: c in rep.unknownFreq.counts ==> c !in inv && Counted(c, hanOnly)
    ensures rep.total == 0 ==> rep.coverage == 100.0
    ensures rep.coverage == CoveragePct(rep.known, rep.total)
    ensures 0.0 <= rep.coverage <= 100.0
    ensures InFirstOccurrenceOrder(rep.knownFreq.keys, text)
    ensures InFirstOccurrenceOrder(rep.unknownFreq.keys, text)
  {
    FrequencyKeysInTextOrder(text, inv, hanOnly);
    var chars := CountedChars(text, hanOnly);
    var known := KnownOf(chars, inv);
    var unknown := UnknownOf(chars, inv);
    KnownUnknownPartition(chars, inv);
    KnownUnknownMembers(chars, inv, hanOnly);
    var pct := CoveragePct(|known|, |chars|);
    Report(|chars|, |known|, |unknown|, pct, CounterOf(known), CounterOf(unknown))
  }

  /** Restricting the count to Han characters never raises the total. */
  lemma {:induction false} HanOnlyAtMostAll(text: string)
    ensures |CountedChars(text, true)| <= |CountedChars(text, false)|
  {
    if text != [] {
      HanOnlyAtMostAll(text[1..]);
    }
  }

  /** A larger inventory knows at least as many counted characters. */
  lemma {:induction false} KnownMonotone(cs: string, small: set<char>, large: set<char>)
    requires small <= large
    ensures |KnownOf(cs, small)| <= |KnownOf(cs, large)|
  {
    if cs != [] {
      KnownMonotone(cs[1..], small, large);
    }
  }

  /** The union inventory knows at least as much of the text as each member does. */
  lemma UnionKnowsAtLeastEach(text: string, invs: seq<Inventory>, i: nat, hanOnly: bool)
    requires i < |invs|
    ensures CoverageReport(text, UnionOf(invs), hanOnly).known
      >= CoverageReport(text, invs[i].chars, hanOnly).known
  {
    KnownMonotone(CountedChars(text, hanOnly), invs[i].chars, UnionOf(invs));
  }

  lemma {:induction false} CountedCharsAppend(a: string, b: string, hanOnly: bool)
    ensures CountedChars(a + b, hanOnly) == CountedChars(a, hanOnly) + CountedChars(b, hanOnly)
  {
    if a != [] {
      assert (a + b)[1..] == a[1..] + b;
      CountedCharsAppend(a[1..], b, hanOnly);
    } else {
      assert a + b == b;
    }
  }

  lemma {:induction false} KnownOfAppend(a: string, b: string, inv: set<char>)
    ensures KnownOf(a + b, inv) == KnownOf(a, inv) + KnownOf(b, inv)
  {
    if a != [] {
      assert (a + b)[1..] == a[1..] + b;
      KnownOfAppend(a[1..], b, inv);
    } else {
      assert a + b == b;
    }
  }

  /** Inventory {一, 二, 三} on "一二三四": 4 counted, 3 known, 75%, 四 unknown once. */
  lemma ScenarioOneTwoThreeFour()
    ensures var rep := CoverageReport("一二三四", {'一', '二', '三'}, true);
      rep.total == 4 && rep.known == 3 && rep.unknown == 1 && rep.coverage == 75.0
      && rep.unknownFreq.counts == multiset{'四'}
  {
    var text, inv := "一二三四", {'一', '二', '三'};
    assert CountedChars(text, true) == text by {
      forall i | 0 <= i < 4 ensures Counted(text[i], true) {
        assert Contains(HanRanges[1], text[i] as int);
      }
    }
    assert KnownOf(text, inv) == "一二三";
    assert UnknownOf(text, inv) == "四";
    assert CoveragePct(3, 4) == 75.0;
  }

  /** Empty text: nothing counted and coverage 100%. */
  lemma ScenarioEmptyText(inv: set<char>, hanOnly: bool)
    ensures var rep := CoverageReport("", inv, hanOnly);
      rep.total == 0 && rep.known == 0 && rep.unknown == 0 && rep.coverage == 100.0
  {
  }

  /** Union of {甲} and {乙} on "甲乙丙": 3 counted, 2 known, 丙 unknown. */
  lemma ScenarioUnion()
    ensures var rep := CoverageReport("甲乙丙", UnionOf([Inventory("A", {'甲'}), Inventory("B", {'乙'})]), true);
      rep.total == 3 && rep.known == 2 && rep.unknown == 1 && rep.unknownFreq.counts == multiset{'丙'}
  {
    var text := "甲乙丙";
    var invs := [Inventory("A", {'甲'}), Inventory("B", {'乙'})];
    assert invs[..1] == [Inventory("A", {'甲'})];
    assert UnionOf(invs) == {'甲', '乙'};
    forall i | 0 <= i < 3 ensures Counted(text[i], true) {
      assert Contains(HanRanges[1], text[i] as int);
    }
    assert CountedChars(text, true) == text;
    assert KnownOf(text, {'甲', '乙'}) == "甲乙";
    assert UnknownOf(text, {'甲', '乙'}) == "丙";
  }
}
