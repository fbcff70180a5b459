/**
 * The three orderings of the out-of-vocabulary table used in the report:
 * the unique-OOV string (count descending, then codepoint ascending),
 * `Counter.most_common(n)` (count descending, ties in first-seen order)
 * and the bottom list (count ascending, then codepoint ascending).
 * Python's `sort`, `sorted` and `most_common` are modelled by one
 * insertion sort on a strict lexicographic rank.
 */
module Ranking {
  import opened Counting

  datatype Ordering = CountDescCode | CountAscCode | CountDescFirstSeen

  /** The position of `c` among the keys, or `|keys|` when it is not a key. */
  function IndexIn(keys: seq<char>, c: char): (k: nat)
    ensures k <= |keys|
    ensures c in keys ==> k < |keys| && keys[k] == c
    ensures c !in keys ==> k == |keys|
  {
    if keys == [] then 0 else if keys[0] == c then 0 else 1 + IndexIn(keys[1..], c)
  }

  /** On a key, the position is the first index of the key. */
  lemma {:induction false} IndexInIsFirstIndex(keys: seq<char>, c: char)
    requires c in keys
    ensures IndexIn(keys, c) == FirstIndex(keys, c)
  {
    if keys[0] != c {
      IndexInIsFirstIndex(keys[1..], c);
    }
  }

  /** The sort key of each ordering, compared lexicographically. */
  function Rank(o: Ordering, ctr: Counter, c: char): (int, int) {
    match o
    case CountDescCode => (-(ctr.counts[c] as int), c as int)
    case CountAscCode => (ctr.counts[c] as int, c as int)
    case CountDescFirstSeen => (-(ctr.counts[c] as int), IndexIn(ctr.keys, c))
  }

  predicate LexLess(p: (int, int), q: (int, int)) {
    p.0 < q.0 || (p.0 == q.0 && p.1 < q.1)
  }

  predicate Precedes(o: Ordering, ctr: Counter, a: char, b: char) {
    LexLess(Rank(o, ctr, a), Rank(o, ctr, b))
  }

  lemma PrecedesTransitive(o: Ordering, ctr: Counter, a: char, b: char, c: char)
    requires Precedes(o, ctr, a, b) && Precedes(o, ctr, b, c)
    ensures Precedes(o, ctr, a, c)
  {
  }

  predicate SortedBy(o: Ordering, ctr: Counter, s: seq<char>) {
    forall i, j :: 0 <= i < j < |s| ==> Precedes(o, ctr, s[i], s[j])
  }

  /** Any two different elements of `s` are ordered one way or the other. */
  predicate Comparable(o: Ordering, ctr: Counter, s: seq<char>) {
    forall i, j :: 0 <= i < |s| && 0 <= j < |s| && i != j ==>
      Precedes(o, ctr, s[i], s[j]) || Precedes(o, ctr, s[j], s[i])
  }

  /** Every ordering is total on the distinct keys of a table. */
  lemma KeysComparable(o: Ordering, ctr: Counter)
    requires Valid(ctr)
    ensures Comparable(o, ctr, ctr.keys)
  {
    forall i, j | 0 <= i < |ctr.keys| && 0 <= j < |ctr.keys| && i != j
      ensures Precedes(o, ctr, ctr.keys[i], ctr.keys[j]) || Precedes(o, ctr, ctr.keys[j], ctr.keys[i])
    {
      assert IndexIn(ctr.keys, ctr.keys[i]) == i && IndexIn(ctr.keys, ctr.keys[j]) == j;
    }
  }

  /** Putting an element in front of a sorted sequence whose head it precedes keeps it sorted. */
  lemma PrependSorted(o: Ordering, ctr: Counter, x: char, s: seq<char>)
    requires SortedBy(o, ctr, s)
    requires forall y :: y in s ==> Precedes(o, ctr, x, y)
    ensures SortedBy(o, ctr, [x] + s)
  {
    var r := [x] + s;
    forall i, j | 0 <= i < j < |r| ensures Precedes(o, ctr, r[i], r[j]) {
      assert r[j] == s[j - 1];
      if i > 0 {
        assert r[i] == s[i - 1];
      }
    }
  }

  function Insert(o: Ordering, ctr: Counter, x: char, s: seq<char>): (r: seq<char>)
    requires SortedBy(o, ctr, s)
    requires forall y :: y in s ==> Precedes(o, ctr, x, y) || Precedes(o, ctr, y, x)
    ensures SortedBy(o, ctr, r)
    ensures multiset(r) == multiset(s) + multiset{x}
  {
    if s == [] then [x]
    else if Precedes(o, ctr, x, s[0]) then
      assert forall y :: y in s ==> Precedes(o, ctr, x, y) by {
        forall y | y in s ensures Precedes(o, ctr, x, y) {
          var j :| 0 <= j < |s| && s[j] == y;
          if j > 0 {
            PrecedesTransitive(o, ctr, x, s[0], y);
          }
        }
      }
      PrependSorted(o, ctr, x, s);
      [x] + s
    else
      var tail := s[1..];
      assert s == [s[0]] + tail;
      assert SortedBy(o, ctr, tail) by {
        forall i, j | 0 <= i < j < |tail| ensures Precedes(o, ctr, tail[i], tail[j]) {
          assert tail[i] == s[i + 1] && tail[j] == s[j + 1];
        }
      }
      var rest := Insert(o, ctr, x, tail);
      assert forall y :: y in rest ==> Precedes(o, ctr, s[0], y) by {
        forall y | y in rest ensures Precedes(o, ctr, s[0], y) {
          assert y in multiset(rest);
          if y != x {
            var j :| 0 <= j < |tail| && tail[j] == y;
            assert y == s[j + 1];
          }
        }
      }
      PrependSorted(o, ctr, s[0], rest);
      [s[0]] + rest
  }

  /** An insertion sort; the rank is strict, so stability does not matter and the result is unique. */
  function Sort(o: Ordering, ctr: Counter, s: seq<char>): (r: seq<char>)
    requires Comparable(o, ctr, s)
    ensures SortedBy(o, ctr, r)
    ensures multiset(r) == multiset(s)
  {
    if s == [] then []
    else
      assert s == [s[0]] + s[1..];
      assert Comparable(o, ctr, s[1..]) by {
        forall i, j | 0 <= i < |s[1..]| && 0 <= j < |s[1..]| && i != j
          ensures Precedes(o, ctr, s[1..][i], s[1..][j]) || Precedes(o, ctr, s[1..][j], s[1..][i])
        {
          assert s[1..][i] == s[i + 1] && s[1..][j] == s[j + 1];
        }
      }
      var rest := Sort(o, ctr, s[1..]);
      assert forall y :: y in rest ==> y in multiset(s[1..]);
      assert forall y :: y in s[1..] ==> Precedes(o, ctr, s[0], y) || Precedes(o, ctr, y, s[0]);
      Insert(o, ctr, s[0], rest)
  }

  /** Sorted by the same strict order with the same elements: the first elements agree. */
  lemma SortedSameHead(o: Ordering, ctr: Counter, a: seq<char>, b: seq<char>)
    requires SortedBy(o, ctr, a) && SortedBy(o, ctr, b)
    requires a != [] && b != []
    requires a[0] in b && b[0] in a
    ensures a[0] == b[0]
  {
    var j :| 0 <= j < |b| && b[j] == a[0];
    var i :| 0 <= i < |a| && a[i] == b[0];
    if a[0] != b[0] {
      assert false;
    }
  }

  lemma SortedTail(o: Ordering, ctr: Counter, a: seq<char>)
    requires SortedBy(o, ctr, a) && a != []
    ensures SortedBy(o, ctr, a[1..])
  {
    var t := a[1..];
    forall i, j | 0 <= i < j < |t| ensures Precedes(o, ctr, t[i], t[j]) {
      assert t[i] == a[i + 1] && t[j] == a[j + 1];
    }
  }

  lemma TailMultiset(a: seq<char>)
    requires a != []
    ensures multiset(a[1..]) == multiset(a) - multiset{a[0]}
  {
    assert a == [a[0]] + a[1..];
  }

  /** Two sequences sorted by the same strict order with the same elements are equal. */
  lemma {:induction false} SortedUnique(o: Ordering, ctr: Counter, a: seq<char>, b: seq<char>)
    requires SortedBy(o, ctr, a) && SortedBy(o, ctr, b)
    requires multiset(a) == multiset(b)
    ensures a == b
  {
    if a == [] {
      assert |multiset(b)| == 0;
    } else {
      assert |b| == |a| by { assert |multiset(a)| == |multiset(b)|; }
      assert a[0] in multiset(b) && b[0] in multiset(a);
      SortedSameHead(o, ctr, a, b);
      TailMultiset(a);
      TailMultiset(b);
      SortedTail(o, ctr, a);
      SortedTail(o, ctr, b);
      SortedUnique(o, ctr, a[1..], b[1..]);
      assert a == [a[0]] + a[1..] && b == [b[0]] + b[1..];
    }
  }

  /** Pairs each character with its count, as `Counter.items()` does. */
  function Items(ctr: Counter, s: seq<char>): (items: seq<(char, nat)>)
    ensures |items| == |s|
    ensures forall i :: 0 <= i < |s| ==> items[i] == (s[i], ctr.counts[s[i]])
  {
    seq(|s|, i requires 0 <= i < |s| => (s[i], ctr.counts[s[i]]))
  }

  function Min(a: nat, b: nat): nat {
    if a <= b then a else b
  }

  /**
   * The unique-OOV order: every key once, by descending count and, among
   * equal counts, ascending codepoint.
   */
  function UniqueOov(ctr: Counter): (r: seq<char>)
    requires Valid(ctr)
    ensures multiset(r) == multiset(ctr.keys)
    ensures forall i, j :: 0 <= i < j < |r| ==>
      ctr.counts[r[i]] > ctr.counts[r[j]] || (ctr.counts[r[i]] == ctr.counts[r[j]] && r[i] < r[j])
  {
    KeysComparable(CountDescCode, ctr);
    Sort(CountDescCode, ctr, ctr.keys)
  }

  /** Every key is listed once: the unique-OOV string has as many characters as there are keys. */
  lemma UniqueOovIsPermutation(ctr: Counter)
    requires Valid(ctr)
    ensures |UniqueOov(ctr)| == |ctr.keys|
    ensures forall c :: c in UniqueOov(ctr) <==> c in ctr.counts
    ensures forall i, j :: 0 <= i < j < |UniqueOov(ctr)| ==> UniqueOov(ctr)[i] != UniqueOov(ctr)[j]
  {
    var r := UniqueOov(ctr);
    assert |multiset(r)| == |multiset(ctr.keys)|;
    forall c ensures c in r <==> c in ctr.counts {
      assert c in r <==> c in multiset(r);
      assert c in ctr.keys <==> c in multiset(ctr.keys);
    }
  }

  /** A full ordering of the keys: each key once, sorted by `o`. */
  function Ordered(o: Ordering, ctr: Counter): (full: seq<char>)
    requires Valid(ctr)
    ensures SortedBy(o, ctr, full)
    ensures multiset(full) == multiset(ctr.keys)
    ensures |full| == |ctr.keys|
    ensures forall c :: c in full <==> c in ctr.keys
  {
    KeysComparable(o, ctr);
    var full := Sort(o, ctr, ctr.keys);
    assert |full| == |ctr.keys| by { assert |multiset(full)| == |multiset(ctr.keys)|; }
    assert forall c :: c in full <==> c in multiset(ctr.keys);
    full
  }

  /**
   * `Counter.most_common(n)`: the first `n` keys by descending count,
   * keys of equal count in the order they were first met.
   */
  function MostCommon(ctr: Counter, n: nat): (top: seq<(char, nat)>)
    requires Valid(ctr)
    ensures |top| == Min(n, |ctr.keys|)
    ensures forall i :: 0 <= i < |top| ==> top[i].0 in ctr.keys && top[i].1 == ctr.counts[top[i].0]
    ensures forall i, j :: 0 <= i < j < |top| ==> top[i].1 >= top[j].1
    ensures forall i, j :: 0 <= i < j < |top| && top[i].1 == top[j].1 ==>
      IndexIn(ctr.keys, top[i].0) < IndexIn(ctr.keys, top[j].0)
  {
    var full := Ordered(CountDescFirstSeen, ctr);
    var top := Items(ctr, full[..Min(n, |ctr.keys|)]);
    assert forall i, j :: 0 <= i < j < |top| ==> Precedes(CountDescFirstSeen, ctr, top[i].0, top[j].0);
    top
  }

  /**
   * `sorted(items, key=(count, codepoint))[:n]`: the first `n` keys by
   * ascending count and, among equal counts, ascending codepoint.
   */
  function BottomItems(ctr: Counter, n: nat): (bottom: seq<(char, nat)>)
    requires Valid(ctr)
    ensures |bottom| == Min(n, |ctr.keys|)
    ensures forall i :: 0 <= i < |bottom| ==> bottom[i].0 in ctr.keys && bottom[i].1 == ctr.counts[bottom[i].0]
    ensures forall i, j :: 0 <= i < j < |bottom| ==>
      bottom[i].1 < bottom[j].1 || (bottom[i].1 == bottom[j].1 && bottom[i].0 < bottom[j].0)
  {
    var full := Ordered(CountAscCode, ctr);
    var bottom := Items(ctr, full[..Min(n, |ctr.keys|)]);
    assert forall i, j :: 0 <= i < j < |bottom| ==> Precedes(CountAscCode, ctr, bottom[i].0, bottom[j].0);
    bottom
  }

  /** The unique-OOV order is fully determined: any ordering of the keys by the same rule is it. */
  lemma UniqueOovDetermined(ctr: Counter, r: seq<char>)
    requires Valid(ctr)
    requires multiset(r) == multiset(ctr.keys)
    requires forall i, j :: 0 <= i < j < |r| ==>
      ctr.counts[r[i]] > ctr.counts[r[j]] || (ctr.counts[r[i]] == ctr.counts[r[j]] && r[i] < r[j])
    ensures r == UniqueOov(ctr)
  {
    var u := UniqueOov(ctr);
    assert SortedBy(CountDescCode, ctr, u);
    assert SortedBy(CountDescCode, ctr, r);
    SortedUnique(CountDescCode, ctr, r, u);
  }

  /**
   * A key left out of `most_common(n)` comes after every key in it: its
   * count is lower, or equal and it was met later.
   */
  lemma MostCommonOmitsOnlyLower(ctr: Counter, n: nat, c: char, i: nat)
    requires Valid(ctr) && c in ctr.keys
    requires forall k :: 0 <= k < |MostCommon(ctr, n)| ==> MostCommon(ctr, n)[k].0 != c
    requires i < |MostCommon(ctr, n)|
    ensures MostCommon(ctr, n)[i].1 > ctr.counts[c]
      || (MostCommon(ctr, n)[i].1 == ctr.counts[c]
          && IndexIn(ctr.keys, MostCommon(ctr, n)[i].0) < IndexIn(ctr.keys, c))
  {
    var full := Ordered(CountDescFirstSeen, ctr);
    var top := MostCommon(ctr, n);
    var m := Min(n, |ctr.keys|);
    assert top == Items(ctr, full[..m]);
    var p :| 0 <= p < |full| && full[p] == c;
    assert forall k :: 0 <= k < m ==> full[k] != c by {
      forall k | 0 <= k < m ensures full[k] != c {
        assert top[k].0 == full[k];
      }
    }
    assert i < m <= p;
    assert Precedes(CountDescFirstSeen, ctr, full[i], full[p]);
    assert top[i].1 == ctr.counts[full[i]];
  }

  /** No key left out of the bottom list comes before a key in it by (count, codepoint). */
  lemma BottomOmitsOnlyHigher(ctr: Counter, n: nat, c: char, i: nat)
    requires Valid(ctr) && c in ctr.keys
    requires forall k :: 0 <= k < |BottomItems(ctr, n)| ==> BottomItems(ctr, n)[k].0 != c
    requires i < |BottomItems(ctr, n)|
    ensures BottomItems(ctr, n)[i].1 < ctr.counts[c]
      || (BottomItems(ctr, n)[i].1 == ctr.counts[c] && BottomItems(ctr, n)[i].0 < c)
  {
    var full := Ordered(CountAscCode, ctr);
    var bottom := BottomItems(ctr, n);
    var m := Min(n, |ctr.keys|);
    assert bottom == Items(ctr, full[..m]);
    var p :| 0 <= p < |full| && full[p] == c;
    assert forall k :: 0 <= k < m ==> full[k] != c by {
      forall k | 0 <= k < m ensures full[k] != c {
        assert bottom[k].0 == full[k];
      }
    }
    assert i < m <= p;
    assert Precedes(CountAscCode, ctr, full[i], full[p]);
    assert bottom[i] == (full[i], ctr.counts[full[i]]);
  }

  /**
   * When there are no more keys than `n`, both lists hold every key: the
   * top and bottom lists overlap and are not deduplicated.
   */
  lemma TopAndBottomOverlapWhenFew(ctr: Counter, n: nat, c: char)
    requires Valid(ctr) && |ctr.keys| <= n && c in ctr.keys
    ensures exists i :: 0 <= i < |MostCommon(ctr, n)| && MostCommon(ctr, n)[i].0 == c
    ensures exists i :: 0 <= i < |BottomItems(ctr, n)| && BottomItems(ctr, n)[i].0 == c
  {
    var top := Ordered(CountDescFirstSeen, ctr);
    var p :| 0 <= p < |top| && top[p] == c;
    assert MostCommon(ctr, n)[p].0 == c;
    var bottom := Ordered(CountAscCode, ctr);
    var q :| 0 <= q < |bottom| && bottom[q] == c;
    assert BottomItems(ctr, n)[q].0 == c;
  }

  /** The table of two different characters: both keys in the order met, once each. */
  lemma CounterOfTwo(x: char, y: char)
    requires x != y
    ensures CounterOf([x, y]) == Counter([x, y], multiset{x, y})
  {
    assert [x, y][..1] == [x];
    assert Dedup([x]) == [x] by {
      assert [x][..0] == [];
    }
  }

  /**
   * Ties in `most_common` follow first occurrence, not codepoint: of two
   * keys with equal counts, the one met first is the top-1 entry, whatever
   * their codepoints (for "二一", 二).
   */
  lemma MostCommonTieFollowsFirstSeen(ctr: Counter, x: char, y: char)
    requires Valid(ctr) && ctr.keys == [x, y] && ctr.counts[x] == ctr.counts[y]
    ensures MostCommon(ctr, 1) == [(x, ctr.counts[x])]
  {
    var full := Ordered(CountDescFirstSeen, ctr);
    assert IndexIn(ctr.keys, x) == 0;
    assert IndexIn(ctr.keys, y) == 1 by {
      assert ctr.keys[1..] == [y];
    }
    assert SortedBy(CountDescFirstSeen, ctr, [x, y]);
    SortedUnique(CountDescFirstSeen, ctr, full, [x, y]);
    assert full[..1] == [x];
  }

  /**
   * ... while the unique-OOV order puts the lower codepoint first (for
   * "二一", 一).
   */
  lemma UniqueOovTieFollowsCodepoint(ctr: Counter, x: char, y: char)
    requires Valid(ctr) && ctr.keys == [x, y] && ctr.counts[x] == ctr.counts[y] && y < x
    ensures UniqueOov(ctr) == [y, x]
  {
    assert multiset([y, x]) == multiset(ctr.keys);
    UniqueOovDetermined(ctr, [y, x]);
  }

  /** For the table of "二一", `most_common(1)` is 二 while the unique-OOV string starts with 一. */
  lemma TwoOnesTies()
    ensures MostCommon(CounterOf("二一"), 1) == [('二', 1)]
    ensures UniqueOov(CounterOf("二一")) == "一二"
  {
    var ctr := CounterOf("二一");
    CounterOfTwo('二', '一');
    assert ctr.counts['二'] == 1 && ctr.counts['一'] == 1;
    MostCommonTieFollowsFirstSeen(ctr, '二', '一');
    UniqueOovTieFollowsCodepoint(ctr, '二', '一');
  }
}
