/**
 Code lengths. The two entries that a merge takes are the lightest of the list, so the children of a built node
 never weigh more than any entry still in the list. Heights therefore grow at most as fast as the Fibonacci
 numbers allow, and a table whose symbol 0 outweighs all others has codes of at most 22 bits.
 */
module HuffmanHeight {
  import opened StableSort
  import opened HuffmanTree

  function Fib(n: nat): (f: nat)
  {
    if n == 0 then 0 else if n == 1 then 1 else Fib(n - 1) + Fib(n - 2)
  }

  lemma {:induction false} FibMonotone(a: nat, b: nat)
    requires a <= b
    ensures Fib(a) <= Fib(b)
    decreases b
  {
    if a == b {
    } else {
      FibMonotone(a, b - 1);
      if b == 1 { } else { assert Fib(b) == Fib(b - 1) + Fib(b - 2); }
    }
  }

  lemma Fib24()
    ensures Fib(24) == 46368
  {
    assert Fib(10) == 55 && Fib(9) == 34;
    assert Fib(12) == 144 && Fib(11) == 89;
    assert Fib(14) == 377 && Fib(13) == 233;
    assert Fib(16) == 987 && Fib(15) == 610;
    assert Fib(18) == 2584 && Fib(17) == 1597;
    assert Fib(20) == 6765 && Fib(19) == 4181;
    assert Fib(22) == 17711 && Fib(21) == 10946;
  }

  /** Every subtree of height h weighs at least Fib(h + 2). */
  ghost predicate Heavy(t: Tree) {
    && t.Weight() >= Fib(t.Height() + 2)
    && (t.Node? ==> Heavy(t.zero) && Heavy(t.one))
  }

  /** No child of an inner node of `t` weighs more than `w`. */
  ghost predicate ChildrenBelow(t: Tree, w: nat) {
    t.Node? ==>
      t.zero.Weight() <= w && t.one.Weight() <= w && ChildrenBelow(t.zero, w) && ChildrenBelow(t.one, w)
  }

  lemma {:induction false} ChildrenBelowMonotone(t: Tree, w: nat, w': nat)
    requires ChildrenBelow(t, w) && w <= w'
    ensures ChildrenBelow(t, w')
  {
    if t.Leaf? {
    } else {
      ChildrenBelowMonotone(t.zero, w, w');
      ChildrenBelowMonotone(t.one, w, w');
    }
  }

  /** The invariant of the merge loop. */
  ghost predicate Balanced(list: seq<Tree>) {
    && (forall i | 0 <= i < |list| :: Heavy(list[i]))
    && (forall i, j | 0 <= i < |list| && 0 <= j < |list| :: ChildrenBelow(list[i], list[j].Weight()))
  }

  lemma FibSum(k: nat, x: nat, y: nat)
    requires x >= Fib(k + 2) && y >= Fib(k + 1)
    ensures x + y >= Fib(k + 3)
  {
  }

  lemma TallChild(t: Tree) returns (child: Tree)
    requires t.Node?
    ensures child == t.zero || child == t.one
    ensures t.Height() == child.Height() + 1
  {
    child := if t.zero.Height() >= t.one.Height() then t.zero else t.one;
  }

  lemma ChildIsHeavy(tall: Tree, other: Tree, child: Tree)
    requires tall.Node? && Heavy(tall) && ChildrenBelow(tall, other.Weight())
    requires child == tall.zero || child == tall.one
    ensures other.Weight() >= child.Weight() && Heavy(child)
  {
  }

  lemma HeavyWeight(t: Tree)
    requires Heavy(t)
    ensures t.Weight() >= Fib(t.Height() + 2)
  {
  }

  /** A tree that no child of `tall` outweighs weighs at least as much as the higher child must. */
  lemma PartnerOfNode(tall: Tree, other: Tree)
    requires tall.Node? && Heavy(tall) && ChildrenBelow(tall, other.Weight())
    ensures other.Weight() >= Fib(tall.Height() + 1)
  {
    var child := TallChild(tall);
    ChildIsHeavy(tall, other, child);
    HeavyWeight(child);
  }

  lemma PartnerOfLeaf(leaf: Tree, other: Tree)
    requires leaf.Leaf? && Heavy(other)
    ensures other.Weight() >= Fib(leaf.Height() + 1)
  {
    FibMonotone(1, other.Height() + 2);
  }

  /** Together, a tree and one that no child of the first outweighs reach the next Fibonacci number. */
  lemma PairWeight(tall: Tree, other: Tree, k: nat)
    requires Heavy(tall) && Heavy(other) && ChildrenBelow(tall, other.Weight()) && k == tall.Height()
    ensures tall.Weight() + other.Weight() >= Fib(k + 3)
  {
    if tall.Node? { PartnerOfNode(tall, other); } else { PartnerOfLeaf(tall, other); }
    HeavyWeight(tall);
    FibSum(k, tall.Weight(), other.Weight());
  }

  lemma ChildHeavyEnough(t: Tree, k: nat)
    requires t.Node? && Heavy(t.zero) && Heavy(t.one)
    requires t.Height() == k + 1 && t.Weight() >= Fib(k + 3)
    ensures Heavy(t)
  {
  }

  /** A node over two entries, where the children of each are no heavier than the other entry, is heavy. */
  lemma NodeHeavy(id: nat, a: Tree, b: Tree)
    requires Heavy(a) && Heavy(b)
    requires ChildrenBelow(a, b.Weight()) && ChildrenBelow(b, a.Weight())
    ensures Heavy(Node(id, a, b))
  {
    var t := Node(id, a, b);
    var child := TallChild(t);
    var k := child.Height();
    if child == a { PairWeight(a, b, k); } else { PairWeight(b, a, k); }
    ChildHeavyEnough(t, k);
  }

  lemma SortKeepsBalanced(list: seq<Tree>)
    requires Balanced(list)
    ensures Balanced(Sorted(list, ByWeight()))
  {
    var s := Sorted(list, ByWeight());
    forall i | 0 <= i < |s| ensures Heavy(s[i]) {
      var k := SortedFrom(list, ByWeight(), i);
    }
    forall i, j | 0 <= i < |s| && 0 <= j < |s| ensures ChildrenBelow(s[i], s[j].Weight()) {
      var k := SortedFrom(list, ByWeight(), i);
      var m := SortedFrom(list, ByWeight(), j);
    }
  }

  lemma MergeKeepsBalanced(list: seq<Tree>, id: nat)
    requires |list| >= 2 && Balanced(list) && Descending(list, ByWeight())
    ensures Balanced(MergeLast(list, id))
  {
    var m := |list|;
    var a, b := list[m - 1], list[m - 2];
    var n, r := Node(id, a, b), MergeLast(list, id);
    NodeHeavy(id, a, b);
    forall i | 0 <= i < |r| ensures Heavy(r[i]) {
      assert r[i] == n || r[i] == list[i];
    }
    forall j | 0 <= j < |r| ensures a.Weight() <= r[j].Weight() && b.Weight() <= r[j].Weight() {
      assert ByWeight()(list[m - 2]) >= ByWeight()(list[m - 1]);
      if j < m - 2 {
        assert ByWeight()(list[j]) >= ByWeight()(list[m - 2]);
      }
    }
    forall i, j | 0 <= i < |r| && 0 <= j < |r| ensures ChildrenBelow(r[i], r[j].Weight()) {
      var k := if i == m - 2 then m - 2 else i;
      ChildrenBelowMonotone(list[k], b.Weight(), r[j].Weight());
      ChildrenBelowMonotone(a, b.Weight(), r[j].Weight());
    }
  }

  lemma LeavesBalanced(freq: seq<nat>)
    requires forall i | 0 <= i < |freq| :: freq[i] >= 1
    ensures Balanced(Leaves(freq))
  {
    assert Fib(2) == 1;
  }

  /** Every tree the loop builds from positive frequencies obeys the Fibonacci bound. */
  lemma {:induction false} BuildHeavy(list: seq<Tree>, id: nat)
    requires |list| >= 1 && Balanced(list)
    ensures Heavy(Build(list, id))
    decreases |list|
  {
    if |list| == 1 {
    } else {
      var s := Sorted(list, ByWeight());
      SortKeepsBalanced(list);
      SortedIsStable(list, ByWeight());
      MergeKeepsBalanced(s, id);
      BuildHeavy(MergeLast(s, id), id + 1);
    }
  }

  // ----- A symbol heavier than all others together

  lemma {:induction false} ForestWeightAtLeast(list: seq<Tree>, i: nat)
    requires i < |list|
    ensures ForestWeight(list) >= list[i].Weight()
  {
    if i == |list| - 1 {
    } else {
      ForestWeightAtLeast(list[..|list| - 1], i);
    }
  }

  lemma {:induction false} ForestWeightTwo(list: seq<Tree>, i: nat, j: nat)
    requires i < j < |list|
    ensures ForestWeight(list) >= list[i].Weight() + list[j].Weight()
  {
    if j < |list| - 1 {
      ForestWeightTwo(list[..|list| - 1], i, j);
    } else {
      ForestWeightAtLeast(list[..|list| - 1], i);
    }
  }

  /** Some entry is the leaf `big`, and it outweighs everything else together. */
  ghost predicate Dominated(list: seq<Tree>, big: Tree) {
    big in list && 2 * big.Weight() > ForestWeight(list)
  }

  lemma {:induction false} InsertKeepsMember(x: Tree, s: seq<Tree>, y: Tree)
    requires y == x || y in s
    ensures y in Insert(x, s, ByWeight())
  {
    if s == [] || ByWeight()(s[|s| - 1]) >= ByWeight()(x) {
    } else {
      var n := |s| - 1;
      assert s == s[..n] + [s[n]];
      if y == x || y in s[..n] { InsertKeepsMember(x, s[..n], y); }
    }
  }

  lemma {:induction false} SortKeepsMember(s: seq<Tree>, y: Tree)
    requires y in s
    ensures y in Sorted(s, ByWeight())
  {
    var n := |s| - 1;
    assert s == s[..n] + [s[n]];
    if y in s[..n] { SortKeepsMember(s[..n], y); }
    InsertKeepsMember(s[n], Sorted(s[..n], ByWeight()), y);
  }

  /** After sorting, the dominating entry is the first one. */
  lemma DominatorFirst(list: seq<Tree>, big: Tree)
    requires Dominated(list, big)
    ensures Sorted(list, ByWeight())[0] == big
    ensures Dominated(Sorted(list, ByWeight()), big)
  {
    var s := Sorted(list, ByWeight());
    SortKeepsMember(list, big);
    SortKeepsForest(list);
    SortedIsStable(list, ByWeight());
    var k :| 0 <= k < |s| && s[k] == big;
    FirstIsHeaviest(s, k);
    if k != 0 {
      ForestWeightTwo(s, 0, k);
    }
  }

  lemma FirstIsHeaviest(s: seq<Tree>, k: nat)
    requires k < |s| && Descending(s, ByWeight())
    ensures s[0].Weight() >= s[k].Weight()
  {
    if k > 0 {
      assert ByWeight()(s[0]) >= ByWeight()(s[k]);
    }
  }

  /** The dominating symbol is merged last: it is the 1 branch of the root. */
  lemma {:induction false} DominatorMergedLast(list: seq<Tree>, id: nat, big: Tree)
    requires |list| >= 2 && Dominated(list, big) && Balanced(list)
    ensures var t := Build(list, id); t.Node? && t.one == big && Heavy(t.zero)
    ensures Build(list, id).zero.Weight() == ForestWeight(list) - big.Weight()
    decreases |list|
  {
    var s := Sorted(list, ByWeight());
    DominatorFirst(list, big);
    SortKeepsForest(list);
    SortKeepsBalanced(list);
    SortedIsStable(list, ByWeight());
    var r := MergeLast(s, id);
    MergeKeepsForest(s, id);
    if |list| == 2 {
      assert Build(list, id) == Build(r, id + 1) == r[0] == Node(id, s[1], s[0]);
      ForestSnoc([], r[0]);
      assert r == [] + [r[0]];
    } else {
      MergeKeepsBalanced(s, id);
      assert r[0] == big;
      DominatorMergedLast(r, id + 1, big);
    }
  }

  /** What is needed of the frequency table: positive entries, and a first entry above the sum of the rest. */
  ghost predicate ShortTable(freq: seq<nat>) {
    && |freq| >= 2
    && (forall i | 0 <= i < |freq| :: freq[i] >= 1)
    && freq[0] > Sum(freq) - freq[0]
    && Sum(freq) - freq[0] < 46368
  }

  /** Codes of such a table have at most 22 bits, and symbol 0 has the one-bit code 1. */
  lemma CodesAreShort(freq: seq<nat>)
    requires ShortTable(freq)
    ensures TreeOf(freq).Node? && TreeOf(freq).Height() <= 22
    ensures TreeOf(freq).one == Leaf(0, freq[0])
  {
    var big := Leaf(0, freq[0]);
    LeavesForest(freq);
    LeavesBalanced(freq);
    assert Leaves(freq)[0] == big;
    DominatorMergedLast(Leaves(freq), |freq|, big);
    var rest := TreeOf(freq).zero;
    if rest.Height() + 2 >= 24 {
      FibBeyond(rest.Height() + 2);
    }
  }

  lemma FibBeyond(n: nat)
    requires n >= 24
    ensures Fib(n) >= 46368
  {
    Fib24();
    FibMonotone(24, n);
  }
}
