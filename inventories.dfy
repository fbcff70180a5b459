/**
 * The inventory loader: an inventory is the set of Han characters of a
 * file's contents; several files are loaded into an insertion-ordered
 * association from label to set, the label being the file's stem with
 * "-2", "-3", ... appended on a collision.
 */
module Inventories {
  import opened HanScript
  import opened Numerals

  /** A file as the loader sees it once read: its path, stem and text. */
  datatype InventoryFile = InventoryFile(path: string, stem: string, contents: string)

  /** One entry of the label-to-set association. */
  datatype Inventory = Inventory(name: string, chars: set<char>)

  /** `load_inventory` on already-read contents: keep the Han characters. */
  function LoadInventory(data: string): (inv: set<char>)
    ensures forall c :: c in inv ==> IsHanChar(c) && c in data
    ensures forall i :: 0 <= i < |data| && IsHanChar(data[i]) ==> data[i] in inv
  {
    set c | c in data && IsHanChar(c)
  }

  /** Duplicates collapse: an inventory is never larger than its file. */
  lemma {:induction false} LoadInventorySize(data: string)
    ensures |LoadInventory(data)| <= |data|
  {
    if data != [] {
      var rest := data[..|data| - 1];
      LoadInventorySize(rest);
      var last := data[|data| - 1];
      assert data == rest + [last];
      assert LoadInventory(data) == LoadInventory(rest) + (if IsHanChar(last) then {last} else {});
    } else {
      assert LoadInventory(data) == {};
    }
  }

  /** The label a file starts from: its stem, or the whole path when the stem is empty. */
  function BaseLabel(f: InventoryFile): (base: string)
    ensures f.stem != "" ==> base == f.stem
    ensures f.stem == "" ==> base == f.path
    ensures base == "" <==> f.stem == "" && f.path == ""
  {
    if f.stem != "" then f.stem else f.path
  }

  /** The n-th label tried for `base`: `base` itself, then `base-2`, `base-3`, ... */
  function Candidate(base: string, n: nat): string
    requires n >= 1
  {
    if n == 1 then base else base + "-" + Decimal(n)
  }

  lemma CandidateInjective(base: string, m: nat, n: nat)
    requires m >= 1 && n >= 1
    requires Candidate(base, m) == Candidate(base, n)
    ensures m == n
  {
    if m != 1 && n != 1 {
      var pre := base + "-";
      assert Candidate(base, m) == pre + Decimal(m);
      assert Candidate(base, n) == pre + Decimal(n);
      assert Decimal(m) == Candidate(base, m)[|pre|..];
      assert Decimal(n) == Candidate(base, n)[|pre|..];
      DecimalInjective(m, n);
    }
  }

  /**
   * `label` is the first candidate for `base` that is not yet used: it is
   * unused, and every earlier candidate is used.
   */
  ghost predicate IsFirstFree(base: string, used: set<string>, name: string) {
    exists n: nat :: 1 <= n && name == Candidate(base, n) && name !in used &&
      forall m: nat :: 1 <= m < n ==> Candidate(base, m) in used
  }

  function LabelsOf(invs: seq<Inventory>): set<string> {
    set i | 0 <= i < |invs| :: invs[i].name
  }

  predicate DistinctLabels(invs: seq<Inventory>) {
    forall i, j :: 0 <= i < j < |invs| ==> invs[i].name != invs[j].name
  }

  /**
   * The collision loop of `load_inventories`: starting from `base`, try
   * `base-2`, `base-3`, ... until a label is not in `used`.
   */
  method FreeLabel(base: string, used: set<string>) returns (name: string)
    ensures IsFirstFree(base, used, name)
  {
    name := base;
    var n := 2;
    ghost var tried: set<string> := {};
    while name in used
      invariant n >= 2 && name == Candidate(base, n - 1)
      invariant tried == Tried(base, n - 1)
      invariant tried <= used
      decreases |used - tried|
    {
      TriedStep(base, n - 1);
      tried := tried + {name};
      name := base + "-" + Decimal(n);
      n := n + 1;
    }
  }

  /** The candidates before the `k`-th. */
  ghost function Tried(base: string, k: nat): set<string> {
    set m | 1 <= m < k :: Candidate(base, m)
  }

  lemma TriedStep(base: string, k: nat)
    requires k >= 1
    ensures Tried(base, k + 1) == Tried(base, k) + {Candidate(base, k)}
    ensures Candidate(base, k) !in Tried(base, k)
  {
    forall m | 1 <= m < k ensures Candidate(base, m) != Candidate(base, k) {
      if Candidate(base, m) == Candidate(base, k) {
        CandidateInjective(base, m, k);
      }
    }
  }

  /**
   * `load_inventories`: one entry per file, in file order; each label is
   * the first free candidate given the labels handed out before it.
   */
  method LoadInventories(files: seq<InventoryFile>) returns (invs: seq<Inventory>)
    ensures |invs| == |files|
    ensures forall i :: 0 <= i < |files| ==> invs[i].chars == LoadInventory(files[i].contents)
    ensures forall i :: 0 <= i < |files| ==>
      IsFirstFree(BaseLabel(files[i]), LabelsOf(invs[..i]), invs[i].name)
    ensures DistinctLabels(invs)
  {
    invs := [];
    var used: set<string> := {};
    for k := 0 to |files|
      invariant |invs| == k
      invariant used == LabelsOf(invs)
      invariant forall i :: 0 <= i < k ==> invs[i].chars == LoadInventory(files[i].contents)
      invariant LabelsChosen(files, invs)
      invariant DistinctLabels(invs)
    {
      var p := files[k];
      var name := FreeLabel(if p.stem != "" then p.stem else p.path, used);
      FirstFreeKeepsUnusedBase(BaseLabel(p), used, name);
      var inv := Inventory(name, LoadInventory(p.contents));
      ChooseNext(files, invs, inv);
      AppendLabel(invs, inv);
      invs := invs + [inv];
      used := used + {name};
    }
  }

  /** Every label so far is the first free candidate for its file, given the labels before it. */
  ghost predicate LabelsChosen(files: seq<InventoryFile>, invs: seq<Inventory>)
    requires |invs| <= |files|
  {
    forall i :: 0 <= i < |invs| ==> IsFirstFree(BaseLabel(files[i]), LabelsOf(invs[..i]), invs[i].name)
  }

  /** Choosing the next label as the first free one extends the chosen labels. */
  lemma ChooseNext(files: seq<InventoryFile>, invs: seq<Inventory>, inv: Inventory)
    requires |invs| < |files| && LabelsChosen(files, invs)
    requires IsFirstFree(BaseLabel(files[|invs|]), LabelsOf(invs), inv.name)
    ensures LabelsChosen(files, invs + [inv])
  {
    var after := invs + [inv];
    assert after[..|invs|] == invs;
    forall i | 0 <= i < |after|
      ensures IsFirstFree(BaseLabel(files[i]), LabelsOf(after[..i]), after[i].name)
    {
      if i < |invs| {
        assert after[..i] == invs[..i] && after[i] == invs[i];
      }
    }
  }

  /** Appending an entry adds its label; a fresh label keeps the labels distinct. */
  lemma AppendLabel(invs: seq<Inventory>, inv: Inventory)
    ensures LabelsOf(invs + [inv]) == LabelsOf(invs) + {inv.name}
    ensures DistinctLabels(invs) && inv.name !in LabelsOf(invs) ==> DistinctLabels(invs + [inv])
  {
    var after := invs + [inv];
    forall x | x in LabelsOf(after) ensures x in LabelsOf(invs) + {inv.name} {
      var i :| 0 <= i < |after| && after[i].name == x;
      if i < |invs| { assert invs[i].name == x; }
    }
    forall x | x in LabelsOf(invs) ensures x in LabelsOf(after) {
      var i :| 0 <= i < |invs| && invs[i].name == x;
      assert after[i].name == x;
    }
    assert after[|invs|].name == inv.name;
    assert LabelsOf(after) == LabelsOf(invs) + {inv.name};
    if DistinctLabels(invs) && inv.name !in LabelsOf(invs) {
      forall i, j | 0 <= i < j < |after| ensures after[i].name != after[j].name {
        assert after[i] == invs[i];
        if j == |invs| {
          assert after[j] == inv;
          assert invs[i].name in LabelsOf(invs);
        } else {
          assert after[j] == invs[j];
        }
      }
      assert DistinctLabels(after);
    }
  }

  /** The first free candidate is determined by the base and the used labels. */
  lemma FirstFreeUnique(base: string, used: set<string>, l1: string, l2: string)
    requires IsFirstFree(base, used, l1) && IsFirstFree(base, used, l2)
    ensures l1 == l2
  {
    var n1: nat :| 1 <= n1 && l1 == Candidate(base, n1) && l1 !in used &&
      forall m: nat :: 1 <= m < n1 ==> Candidate(base, m) in used;
    var n2: nat :| 1 <= n2 && l2 == Candidate(base, n2) && l2 !in used &&
      forall m: nat :: 1 <= m < n2 ==> Candidate(base, m) in used;
  }

  /** A label's first occurrence keeps its base; a taken base is never reused. */
  lemma FirstFreeKeepsUnusedBase(base: string, used: set<string>, name: string)
    requires IsFirstFree(base, used, name)
    ensures base !in used ==> name == base
    ensures name !in used
  {
    if base !in used {
      assert IsFirstFree(base, used, Candidate(base, 1));
      FirstFreeUnique(base, used, name, base);
    }
  }

  /** Two files with the stem "a" get the labels "a" and "a-2". */
  lemma DuplicateStemScenario(l1: string, l2: string)
    requires IsFirstFree("a", {}, l1)
    requires IsFirstFree("a", {l1}, l2)
    ensures l1 == "a" && l2 == "a-2"
  {
    FirstFreeKeepsUnusedBase("a", {}, l1);
    assert Decimal(2) == "2";
    assert Candidate("a", 2) == "a-2";
    assert IsFirstFree("a", {"a"}, Candidate("a", 2));
    FirstFreeUnique("a", {"a"}, l2, "a-2");
  }

  /** `set().union(*inventories.values())`. */
  function UnionOf(invs: seq<Inventory>): (u: set<char>)
    ensures forall i :: 0 <= i < |invs| ==> invs[i].chars <= u
    ensures forall c :: c in u ==> exists i :: 0 <= i < |invs| && c in invs[i].chars
  {
    if invs == [] then {} else UnionOf(invs[..|invs| - 1]) + invs[|invs| - 1].chars
  }

  /** `sum(len(inv) for inv in inventories.values())`. */
  function RawSize(invs: seq<Inventory>): (total: nat)
    ensures invs == [] ==> total == 0
    ensures forall i :: 0 <= i < |invs| ==> |invs[i].chars| <= total
  {
    if invs == [] then 0
    else
      var init := invs[..|invs| - 1];
      assert forall i :: 0 <= i < |init| ==> init[i] == invs[i];
      RawSize(init) + |invs[|invs| - 1].chars|
  }

  /** The raw sum of one inventory is its size. */
  lemma RawSizeOne(x: Inventory)
    ensures RawSize([x]) == |x.chars|
  {
    assert [x][..0] == [];
  }

  /** The raw sum adds up over concatenation, so it is the sum of the sizes. */
  lemma {:induction false} RawSizeAppend(a: seq<Inventory>, b: seq<Inventory>)
    ensures RawSize(a + b) == RawSize(a) + RawSize(b)
  {
    if b == [] {
      assert a + b == a;
    } else {
      var b' := b[..|b| - 1];
      assert (a + b)[..|a + b| - 1] == a + b';
      RawSizeAppend(a, b');
    }
  }

  /** The deduplicated union is no larger than the raw sum of sizes. */
  lemma {:induction false} UnionAtMostRawSize(invs: seq<Inventory>)
    ensures |UnionOf(invs)| <= RawSize(invs)
  {
    if invs != [] {
      UnionAtMostRawSize(invs[..|invs| - 1]);
    }
  }
}
