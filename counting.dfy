/**
 * A frequency table as `collections.Counter` keeps it: the counts, and
 * the keys in the order they were first met.
 */
module Counting {

  predicate Distinct(s: seq<char>) {
    forall i, j :: 0 <= i < j < |s| ==> s[i] != s[j]
  }

  /** The position of the first occurrence of `c` in `s`. */
  function FirstIndex(s: seq<char>, c: char): (k: nat)
    requires c in s
    ensures k < |s| && s[k] == c
    ensures forall j :: 0 <= j < k ==> s[j] != c
  {
    if s[0] == c then 0 else 1 + FirstIndex(s[1..], c)
  }

  lemma FirstIndexOfPrefix(s: seq<char>, n: nat, c: char)
    requires n <= |s| && c in s[..n]
    ensures FirstIndex(s, c) == FirstIndex(s[..n], c)
  {
  }

  /** Every key occurs in `s`, and the keys are listed in the order they first occur there. */
  predicate InFirstOccurrenceOrder(keys: seq<char>, s: seq<char>) {
    (forall c :: c in keys ==> c in s)
    && forall i, j :: 0 <= i < j < |keys| ==> FirstIndex(s, keys[i]) < FirstIndex(s, keys[j])
  }

  /** The elements of `s` that satisfy `p`, in order. */
  function Filter(s: seq<char>, p: char -> bool): (r: seq<char>)
    ensures forall c :: c in r ==> c in s && p(c)
  {
    if s == [] then [] else (if p(s[0]) then [s[0]] else []) + Filter(s[1..], p)
  }

  /** Filtering keeps every element that satisfies `p`, as often as it occurs, and nothing else. */
  lemma {:induction false} FilterCount(s: seq<char>, p: char -> bool, c: char)
    ensures multiset(Filter(s, p))[c] == if p(c) then multiset(s)[c] else 0
  {
    if s != [] {
      FilterCount(s[1..], p, c);
      assert s == [s[0]] + s[1..];
    }
  }

  /** Filtering keeps the order in which the kept elements first occur. */
  lemma {:induction false} FilterFirstOrder(s: seq<char>, p: char -> bool, a: char, b: char)
    requires a in Filter(s, p) && b in Filter(s, p)
    ensures FirstIndex(Filter(s, p), a) < FirstIndex(Filter(s, p), b) <==> FirstIndex(s, a) < FirstIndex(s, b)
  {
    var f := Filter(s, p);
    var x, rest := s[0], s[1..];
    var f' := Filter(rest, p);
    if p(x) {
      assert f == [x] + f';
      if a != x && b != x {
        assert a in f' && b in f';
        FilterFirstOrder(rest, p, a, b);
        assert FirstIndex(f, a) == 1 + FirstIndex(f', a) && FirstIndex(f, b) == 1 + FirstIndex(f', b);
      }
    } else {
      assert f == f';
      assert a != x && b != x;
      FilterFirstOrder(rest, p, a, b);
    }
  }

  /** The distinct elements of `s`, each where it first occurs. */
  function Dedup(s: seq<char>): (r: seq<char>)
    ensures Distinct(r)
    ensures forall c :: c in r <==> c in s
  {
    if s == [] then []
    else
      var r := Dedup(s[..|s| - 1]);
      assert s == s[..|s| - 1] + [s[|s| - 1]];
      if s[|s| - 1] in r then r else r + [s[|s| - 1]]
  }

  /** `Dedup` lists the elements in the order of their first occurrence. */
  lemma {:induction false} DedupOrder(s: seq<char>)
    ensures forall i, j :: 0 <= i < j < |Dedup(s)| ==>
      FirstIndex(s, Dedup(s)[i]) < FirstIndex(s, Dedup(s)[j])
  {
    if s != [] {
      var init, last := s[..|s| - 1], s[|s| - 1];
      DedupOrder(init);
      var r, d := Dedup(init), Dedup(s);
      forall c | c in init ensures FirstIndex(s, c) == FirstIndex(init, c) {
        FirstIndexOfPrefix(s, |s| - 1, c);
      }
      if last !in r {
        assert d == r + [last];
        assert FirstIndex(s, last) == |s| - 1;
        forall i, j | 0 <= i < j < |d|
          ensures FirstIndex(s, d[i]) < FirstIndex(s, d[j])
        {
          assert d[i] == r[i] && d[i] in init;
          if j < |r| {
            assert d[j] == r[j] && d[j] in init;
          }
        }
      }
    }
  }

  /** `Counter(xs)`: the counts, and the keys in first-occurrence order. */
  datatype Counter = Counter(keys: seq<char>, counts: multiset<char>)

  /** The table's keys are exactly the characters with a positive count, each once. */
  predicate Valid(ctr: Counter) {
    Distinct(ctr.keys) && forall c :: c in ctr.keys <==> c in ctr.counts
  }

  function CounterOf(s: seq<char>): (ctr: Counter)
    ensures Valid(ctr)
    ensures ctr.counts == multiset(s)
    ensures forall c :: c in ctr.keys <==> c in s
    ensures forall i, j :: 0 <= i < j < |ctr.keys| ==>
      FirstIndex(s, ctr.keys[i]) < FirstIndex(s, ctr.keys[j])
  {
    DedupOrder(s);
    Counter(Dedup(s), multiset(s))
  }
}
