/**
 * The Han classifier: a fixed table of twelve inclusive codepoint
 * intervals and the test whether a character falls into one of them.
 */
module HanScript {

  /** An inclusive interval of codepoints. */
  datatype Interval = Interval(lo: int, hi: int)

  /**
   * The table in the order the program lists it. It is NOT ascending:
   * Extension I (index 10) comes after Extension H (index 9).
   */
  const HanRanges: seq<Interval> := [
    Interval(0x3400, 0x4DBF),   // Extension A
    Interval(0x4E00, 0x9FFF),   // CJK Unified Ideographs
    Interval(0xF900, 0xFAFF),   // Compatibility Ideographs
    Interval(0x20000, 0x2A6DF), // Extension B
    Interval(0x2A700, 0x2B73F), // Extension C
    Interval(0x2B740, 0x2B81F), // Extension D
    Interval(0x2B820, 0x2CEAF), // Extension E
    Interval(0x2CEB0, 0x2EBEF), // Extension F
    Interval(0x30000, 0x3134F), // Extension G
    Interval(0x31350, 0x323AF), // Extension H
    Interval(0x2EBF0, 0x2EE5D), // Extension I
    Interval(0x323B0, 0x33479)  // Extension J
  ]

  predicate Contains(r: Interval, cp: int) {
    r.lo <= cp <= r.hi
  }

  /** Membership in some interval of a table, whatever the table's order. */
  predicate InTable(table: seq<Interval>, cp: int) {
    exists i :: 0 <= i < |table| && Contains(table[i], cp)
  }

  /** The specification of `is_han` on one codepoint. */
  predicate IsHanCodepoint(cp: int) {
    InTable(HanRanges, cp)
  }

  predicate IsHanChar(c: char) {
    IsHanCodepoint(c as int)
  }

  /**
   * `is_han`: false for the empty string, otherwise a linear scan of the
   * table that returns as soon as an interval contains the codepoint.
   * A string of two or more characters makes `ord` fail; callers only
   * pass single characters.
   */
  method IsHan(ch: string) returns (b: bool)
    requires |ch| <= 1
    ensures b <==> |ch| == 1 && IsHanChar(ch[0])
  {
    if |ch| == 0 {
      return false;
    }
    var cp := ch[0] as int;
    for i := 0 to |HanRanges|
      invariant forall k :: 0 <= k < i ==> !Contains(HanRanges[k], cp)
    {
      var r := HanRanges[i];
      if r.lo <= cp <= r.hi {
        return true;
      }
    }
    return false;
  }

  /** An independent reference: the table merged into six ascending blocks. */
  predicate InMergedBlocks(cp: int) {
    || 0x3400 <= cp <= 0x4DBF
    || 0x4E00 <= cp <= 0x9FFF
    || 0xF900 <= cp <= 0xFAFF
    || 0x20000 <= cp <= 0x2A6DF
    || 0x2A700 <= cp <= 0x2EE5D
    || 0x30000 <= cp <= 0x33479
  }

  lemma HanMatchesMergedBlocks(cp: int)
    ensures IsHanCodepoint(cp) <==> InMergedBlocks(cp)
  {
    if InMergedBlocks(cp) {
      var i :=
        if cp <= 0x4DBF then 0
        else if cp <= 0x9FFF then 1
        else if cp <= 0xFAFF then 2
        else if cp <= 0x2A6DF then 3
        else if cp <= 0x2B73F then 4
        else if cp <= 0x2B81F then 5
        else if cp <= 0x2CEAF then 6
        else if cp <= 0x2EBEF then 7
        else if cp <= 0x2EE5D then 10
        else if cp <= 0x3134F then 8
        else if cp <= 0x323AF then 9
        else 11;
      assert Contains(HanRanges[i], cp);
    }
  }

  /** Every interval is non-empty and no two intervals overlap. */
  lemma RangesWellFormedAndDisjoint()
    ensures forall i :: 0 <= i < |HanRanges| ==> HanRanges[i].lo <= HanRanges[i].hi
    ensures forall i, j :: 0 <= i < j < |HanRanges| ==>
      HanRanges[i].hi < HanRanges[j].lo || HanRanges[j].hi < HanRanges[i].lo
  {
  }

  predicate Ascending(table: seq<Interval>) {
    forall i, j :: 0 <= i < j < |table| ==> table[i].hi < table[j].lo
  }

  /** The table as written is not in ascending order. */
  lemma RangesNotAscending()
    ensures !Ascending(HanRanges)
  {
    assert HanRanges[9].hi >= HanRanges[10].lo;
  }

  /**
   * Membership does not depend on the order of the table: any table with
   * the same intervals classifies every codepoint the same way.
   */
  lemma {:induction false} MembershipIndependentOfOrder(t1: seq<Interval>, t2: seq<Interval>, cp: int)
    requires multiset(t1) == multiset(t2)
    ensures InTable(t1, cp) <==> InTable(t2, cp)
  {
    if InTable(t1, cp) {
      var i :| 0 <= i < |t1| && Contains(t1[i], cp);
      assert t1[i] in multiset(t2);
      var j :| 0 <= j < |t2| && t2[j] == t1[i];
    }
    if InTable(t2, cp) {
      var j :| 0 <= j < |t2| && Contains(t2[j], cp);
      assert t2[j] in multiset(t1);
      var i :| 0 <= i < |t1| && t1[i] == t2[j];
    }
  }

  /** Representative members and non-members of the classification. */
  lemma HanExamples()
    ensures IsHanChar('一') && IsHanChar('丙') && IsHanChar('\U{2EBF0}')
    ensures !IsHanChar('a') && !IsHanChar(' ') && !IsHanChar('　') && !IsHanChar('\U{2A6E0}')
  {
    assert Contains(HanRanges[1], '一' as int);
    assert Contains(HanRanges[1], '丙' as int);
    assert Contains(HanRanges[10], 0x2EBF0);
  }
}
