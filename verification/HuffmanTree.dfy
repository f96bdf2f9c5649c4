/**
 The Huffman tree as a value: the merge of the two lightest entries of a sorted work list, repeated until one
 entry is left, and the code words that the root paths of the finished tree give to the symbols.
 */
module HuffmanTree {
  import opened StableSort

  /** A tree node carries its index in the node array; a leaf is a symbol with its frequency. */
  datatype Tree = Leaf(id: nat, frequency: nat) | Node(id: nat, zero: Tree, one: Tree) {

    function Weight(): (w: nat) {
      match this
      case Leaf(_, f) => f
      case Node(_, l, r) => l.Weight() + r.Weight()
    }

    function Height(): (h: nat) {
      match this
      case Leaf(_, _) => 0
      case Node(_, l, r) => 1 + if l.Height() >= r.Height() then l.Height() else r.Height()
    }

    function Symbols(): set<nat> {
      match this
      case Leaf(id, _) => {id}
      case Node(_, l, r) => l.Symbols() + r.Symbols()
    }

    /** No symbol has two leaves. */
    ghost predicate Distinct() {
      Node? ==> zero.Symbols() !! one.Symbols() && zero.Distinct() && one.Distinct()
    }

    /** Every leaf carries the frequency the table gives its symbol. */
    ghost predicate Carries(freq: seq<nat>) {
      match this
      case Leaf(id, f) => id < |freq| && f == freq[id]
      case Node(_, l, r) => l.Carries(freq) && r.Carries(freq)
    }

    /** Total weight of the inner nodes, which is the weighted length of all root paths. */
    function Cost(): (c: nat) {
      match this
      case Leaf(_, _) => 0
      case Node(_, l, r) => Weight() + l.Cost() + r.Cost()
    }

    function Child(bit: bool): (t: Tree)
      requires Node?
    {
      if bit then one else zero
    }

    /** The root path of a symbol: the order in which the bits of its code enter the stream. */
    function Code(symbol: nat): (c: seq<bool>) {
      match this
      case Leaf(_, _) => []
      case Node(_, l, r) =>
        if symbol in l.Symbols() then [false] + l.Code(symbol) else [true] + r.Code(symbol)
    }
  }

  lemma {:induction false} CodeWithinHeight(t: Tree, symbol: nat)
    ensures |t.Code(symbol)| <= t.Height()
  {
    if t.Leaf? {
    } else {
      CodeWithinHeight(t.zero, symbol);
      CodeWithinHeight(t.one, symbol);
    }
  }

  function ByWeight(): Tree -> int {
    (t: Tree) => t.Weight()
  }

  /** The last two entries become one: the very last is the 0 branch, the one before it the 1 branch. */
  function MergeLast(list: seq<Tree>, id: nat): (r: seq<Tree>)
    requires |list| >= 2
    ensures |r| == |list| - 1
  {
    list[..|list| - 2] + [Node(id, list[|list| - 1], list[|list| - 2])]
  }

  /** The construction loop on a work list whose next free node index is `id`. */
  function Build(list: seq<Tree>, id: nat): (t: Tree)
    requires |list| >= 1
    decreases |list|
  {
    if |list| == 1 then list[0] else Build(MergeLast(Sorted(list, ByWeight()), id), id + 1)
  }

  function Leaves(freq: seq<nat>): (list: seq<Tree>)
    ensures |list| == |freq|
  {
    seq(|freq|, i requires 0 <= i < |freq| => Leaf(i, freq[i]))
  }

  function TreeOf(freq: seq<nat>): (t: Tree)
    requires |freq| >= 1
  {
    Build(Leaves(freq), |freq|)
  }

  /** The code of every symbol of the table, indexed by symbol. */
  function HuffmanCodes(freq: seq<nat>): (codes: seq<seq<bool>>)
    requires |freq| >= 1
    ensures |codes| == |freq|
  {
    var t := TreeOf(freq);
    seq(|freq|, i requires 0 <= i < |freq| => t.Code(i))
  }

  // ----- The work list as a forest

  function ForestSymbols(list: seq<Tree>): set<nat> {
    if list == [] then {} else ForestSymbols(list[..|list| - 1]) + list[|list| - 1].Symbols()
  }

  ghost predicate ForestDistinct(list: seq<Tree>) {
    list != [] ==>
      var front, last := list[..|list| - 1], list[|list| - 1];
      last.Distinct() && last.Symbols() !! ForestSymbols(front) && ForestDistinct(front)
  }

  function ForestWeight(list: seq<Tree>): (w: nat) {
    if list == [] then 0 else ForestWeight(list[..|list| - 1]) + list[|list| - 1].Weight()
  }

  function ForestCost(list: seq<Tree>): (c: nat) {
    if list == [] then 0 else ForestCost(list[..|list| - 1]) + list[|list| - 1].Cost()
  }

  ghost predicate ForestCarries(list: seq<Tree>, freq: seq<nat>) {
    forall i | 0 <= i < |list| :: list[i].Carries(freq)
  }

  /** What sorting, and with it merging, does not change about a forest. */
  ghost predicate SameForest(a: seq<Tree>, b: seq<Tree>) {
    && ForestSymbols(a) == ForestSymbols(b)
    && ForestWeight(a) == ForestWeight(b)
    && ForestCost(a) == ForestCost(b)
    && (ForestDistinct(a) <==> ForestDistinct(b))
  }

  lemma ForestSnoc(front: seq<Tree>, x: Tree)
    ensures ForestSymbols(front + [x]) == ForestSymbols(front) + x.Symbols()
    ensures ForestWeight(front + [x]) == ForestWeight(front) + x.Weight()
    ensures ForestCost(front + [x]) == ForestCost(front) + x.Cost()
    ensures ForestDistinct(front + [x]) <==>
            x.Distinct() && x.Symbols() !! ForestSymbols(front) && ForestDistinct(front)
  {
    assert (front + [x])[..|front|] == front;
  }

  lemma {:induction false} InsertKeepsForest(x: Tree, s: seq<Tree>)
    ensures SameForest(Insert(x, s, ByWeight()), s + [x])
  {
    if s != [] && ByWeight()(s[|s| - 1]) < ByWeight()(x) {
      var front, z := s[..|s| - 1], s[|s| - 1];
      assert s == front + [z];
      InsertKeepsForest(x, front);
      ForestSnoc(Insert(x, front, ByWeight()), z);
      ForestSnoc(front, x);
      ForestSnoc(front, z);
      ForestSnoc(s, x);
    } else {
      assert s == [] ==> s + [x] == [x];
    }
  }

  lemma SameForestSnoc(a: seq<Tree>, b: seq<Tree>, x: Tree)
    requires SameForest(a, b)
    ensures SameForest(a + [x], b + [x])
  {
    ForestSnoc(a, x);
    ForestSnoc(b, x);
  }

  lemma {:induction false} SortKeepsForest(s: seq<Tree>)
    ensures SameForest(Sorted(s, ByWeight()), s)
  {
    if s == [] {
    } else {
      var front, x := s[..|s| - 1], s[|s| - 1];
      var sorted := Sorted(front, ByWeight());
      SortKeepsForest(front);
      InsertKeepsForest(x, sorted);
      SameForestSnoc(sorted, front, x);
      assert s == front + [x];
    }
  }

  /** Every sorted element comes from the unsorted list. */
  lemma {:induction false} InsertFrom<T>(x: T, s: seq<T>, key: T -> int, i: nat) returns (j: nat)
    requires i <= |s|
    ensures j <= |s| && Insert(x, s, key)[i] == (s + [x])[j]
  {
    if s != [] && key(s[|s| - 1]) < key(x) {
      if i == |s| {
        j := |s| - 1;
      } else {
        j := InsertFrom(x, s[..|s| - 1], key, i);
        if j == |s| - 1 {
          j := |s|;
        }
      }
    } else {
      j := i;
    }
  }

  lemma {:induction false} SortedFrom<T>(s: seq<T>, key: T -> int, i: nat) returns (j: nat)
    requires i < |s|
    ensures j < |s| && Sorted(s, key)[i] == s[j]
  {
    var front, x := s[..|s| - 1], s[|s| - 1];
    j := InsertFrom(x, Sorted(front, key), key, i);
    if j < |front| {
      j := SortedFrom(front, key, j);
    }
  }

  lemma SortKeepsCarries(s: seq<Tree>, freq: seq<nat>)
    requires ForestCarries(s, freq)
    ensures ForestCarries(Sorted(s, ByWeight()), freq)
  {
    forall i | 0 <= i < |s| ensures Sorted(s, ByWeight())[i].Carries(freq) {
      var j := SortedFrom(s, ByWeight(), i);
    }
  }

  lemma UnionOfThree(x: set<nat>, y: set<nat>, z: set<nat>)
    ensures (x + y) + z == x + (z + y)
  {
  }

  /** Merging the last two keeps the symbols and the weight, and adds the merged weight to the cost. */
  lemma MergeKeepsForest(list: seq<Tree>, id: nat)
    requires |list| >= 2
    ensures ForestSymbols(MergeLast(list, id)) == ForestSymbols(list)
    ensures ForestWeight(MergeLast(list, id)) == ForestWeight(list)
    ensures ForestCost(MergeLast(list, id))
         == ForestCost(list) + list[|list| - 1].Weight() + list[|list| - 2].Weight()
  {
    var m := |list|;
    var front, a := list[..m - 1], list[m - 1];
    var rest, b := front[..m - 2], front[m - 2];
    assert list[..m - 2] == rest;
    var n := Node(id, a, b);
    assert MergeLast(list, id)[..m - 2] == rest;
    UnionOfThree(ForestSymbols(rest), b.Symbols(), a.Symbols());
  }

  lemma MergeKeepsDistinct(list: seq<Tree>, id: nat)
    requires |list| >= 2 && ForestDistinct(list)
    ensures ForestDistinct(MergeLast(list, id))
  {
    var m := |list|;
    var front, a := list[..m - 1], list[m - 1];
    var rest, b := front[..m - 2], front[m - 2];
    assert ForestDistinct(front) && a.Symbols() !! ForestSymbols(front);
    assert ForestSymbols(front) == ForestSymbols(rest) + b.Symbols();
    assert list[..m - 2] == rest;
    var n := Node(id, a, b);
    assert n.Symbols() !! ForestSymbols(rest);
    ForestSnoc(rest, n);
  }

  lemma SingleForest(x: Tree)
    ensures ForestSymbols([x]) == x.Symbols() && ForestWeight([x]) == x.Weight() && ForestCost([x]) == x.Cost()
    ensures ForestDistinct([x]) <==> x.Distinct()
  {
    ForestSnoc([], x);
    assert [] + [x] == [x];
  }

  lemma MergeKeepsCarries(list: seq<Tree>, id: nat, freq: seq<nat>)
    requires |list| >= 2 && ForestCarries(list, freq)
    ensures ForestCarries(MergeLast(list, id), freq)
  {
  }

  /** One round of the construction loop. */
  lemma BuildRound(list: seq<Tree>, id: nat) returns (next: seq<Tree>)
    requires |list| >= 2
    ensures next == MergeLast(Sorted(list, ByWeight()), id) && |next| == |list| - 1
    ensures Build(list, id) == Build(next, id + 1)
    ensures ForestSymbols(next) == ForestSymbols(list) && ForestWeight(next) == ForestWeight(list)
    ensures ForestDistinct(list) ==> ForestDistinct(next)
  {
    var s := Sorted(list, ByWeight());
    next := MergeLast(s, id);
    SortKeepsForest(list);
    MergeKeepsForest(s, id);
    if ForestDistinct(list) {
      MergeKeepsDistinct(s, id);
    }
  }

  /** The finished tree holds exactly the symbols of the list, each once, with its frequency and total weight. */
  lemma {:induction false} BuildKeepsForest(list: seq<Tree>, id: nat, freq: seq<nat>)
    requires |list| >= 1 && ForestDistinct(list) && ForestCarries(list, freq)
    ensures Build(list, id).Symbols() == ForestSymbols(list)
    ensures Build(list, id).Weight() == ForestWeight(list)
    ensures Build(list, id).Distinct() && Build(list, id).Carries(freq)
    decreases |list|
  {
    if |list| == 1 {
      assert list == [list[0]];
      SingleForest(list[0]);
    } else {
      var next := BuildRound(list, id);
      SortKeepsCarries(list, freq);
      MergeKeepsCarries(Sorted(list, ByWeight()), id, freq);
      BuildKeepsForest(next, id + 1, freq);
    }
  }

  function Range(n: nat): (r: set<nat>)
    ensures forall i: nat :: i in r <==> i < n
  {
    if n == 0 then {} else Range(n - 1) + {n - 1}
  }

  lemma {:induction false} LeavesForest(freq: seq<nat>)
    ensures ForestSymbols(Leaves(freq)) == Range(|freq|)
    ensures ForestDistinct(Leaves(freq)) && ForestCarries(Leaves(freq), freq)
    ensures ForestWeight(Leaves(freq)) == Sum(freq)
    ensures ForestCost(Leaves(freq)) == 0
  {
    if freq == [] {
    } else {
      var n := |freq| - 1;
      var front, x := Leaves(freq[..n]), Leaf(n, freq[n]);
      LeavesForest(freq[..n]);
      assert Leaves(freq) == front + [x];
      ForestSnoc(front, x);
      assert x.Symbols() == {n} && x.Distinct() && x.Cost() == 0;
    }
  }

  function Sum(s: seq<nat>): (w: nat) {
    if s == [] then 0 else Sum(s[..|s| - 1]) + s[|s| - 1]
  }

  /** The tree of a table has exactly one leaf per symbol of the table, weighted as the table says. */
  lemma TreeOfLeaves(freq: seq<nat>)
    requires |freq| >= 1
    ensures TreeOf(freq).Symbols() == Range(|freq|)
    ensures TreeOf(freq).Distinct() && TreeOf(freq).Carries(freq)
    ensures TreeOf(freq).Weight() == Sum(freq)
  {
    LeavesForest(freq);
    BuildKeepsForest(Leaves(freq), |freq|, freq);
  }
}
