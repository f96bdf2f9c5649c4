/** The finished Huffman tree as a full binary tree: every node of the node array belongs to it exactly once. */
module HuffmanShape {
  import opened StableSort
  import opened HuffmanTree

  /** How often index `k` occurs among the inner nodes of a tree. */
  function Inner(t: Tree, k: nat): (n: nat) {
    match t
    case Leaf(_, _) => 0
    case Node(id, l, r) => Inner(l, k) + Inner(r, k) + if id == k then 1 else 0
  }

  function ForestInner(list: seq<Tree>, k: nat): (n: nat) {
    if list == [] then 0 else ForestInner(list[..|list| - 1], k) + Inner(list[|list| - 1], k)
  }

  lemma InnerSnoc(front: seq<Tree>, x: Tree, k: nat)
    ensures ForestInner(front + [x], k) == ForestInner(front, k) + Inner(x, k)
  {
    assert (front + [x])[..|front|] == front;
  }

  lemma {:induction false} InsertInner(x: Tree, s: seq<Tree>, k: nat)
    ensures ForestInner(Insert(x, s, ByWeight()), k) == ForestInner(s, k) + Inner(x, k)
  {
    if s == [] || ByWeight()(s[|s| - 1]) >= ByWeight()(x) {
      InnerSnoc(s, x, k);
      assert s == [] ==> s + [x] == [x];
    } else {
      var front, z := s[..|s| - 1], s[|s| - 1];
      InsertInner(x, front, k);
      InnerSnoc(Insert(x, front, ByWeight()), z, k);
    }
  }

  lemma {:induction false} SortedInner(s: seq<Tree>, k: nat)
    ensures ForestInner(Sorted(s, ByWeight()), k) == ForestInner(s, k)
  {
    if s == [] {
    } else {
      var front, x := s[..|s| - 1], s[|s| - 1];
      SortedInner(front, k);
      InsertInner(x, Sorted(front, ByWeight()), k);
    }
  }

  lemma LastTwo(list: seq<Tree>)
    requires |list| >= 2
    ensures list == (list[..|list| - 2] + [list[|list| - 2]]) + [list[|list| - 1]]
  {
  }

  lemma MergedInner(list: seq<Tree>, id: nat, k: nat)
    requires |list| >= 2
    ensures ForestInner(MergeLast(list, id), k) == ForestInner(list, k) + if id == k then 1 else 0
  {
    var n := |list|;
    var rest, b, a := list[..n - 2], list[n - 2], list[n - 1];
    LastTwo(list);
    InnerSnoc(rest + [b], a, k);
    InnerSnoc(rest, b, k);
    InnerSnoc(rest, Node(id, a, b), k);
  }

  /** Construction adds one inner node for every entry of the list but one, with the indices from `id` on. */
  lemma {:induction false} BuildInner(list: seq<Tree>, id: nat, k: nat)
    requires |list| >= 1
    ensures Inner(Build(list, id), k) == ForestInner(list, k) + if id <= k < id + |list| - 1 then 1 else 0
    decreases |list|
  {
    if |list| == 1 {
      InnerSnoc([], list[0], k);
      assert list == [] + [list[0]];
    } else {
      var next := BuildRound(list, id);
      SortedInner(list, k);
      MergedInner(Sorted(list, ByWeight()), id, k);
      BuildInner(next, id + 1, k);
    }
  }

  lemma {:induction false} LeavesInner(freq: seq<nat>, k: nat)
    ensures ForestInner(Leaves(freq), k) == 0
  {
    if freq == [] {
    } else {
      var n := |freq| - 1;
      LeavesInner(freq[..n], k);
      assert Leaves(freq) == Leaves(freq[..n]) + [Leaf(n, freq[n])];
      InnerSnoc(Leaves(freq[..n]), Leaf(n, freq[n]), k);
    }
  }

  /**
   The tree of a table of n entries has 2n - 1 nodes: the symbols below n are its leaves, each once, and the indices
   from n to 2n - 2 its inner nodes, each once.
   */
  lemma FullBinaryTree(freq: seq<nat>)
    requires |freq| >= 1
    ensures TreeOf(freq).Distinct() && forall s: nat :: s in TreeOf(freq).Symbols() <==> s < |freq|
    ensures forall k: nat :: Inner(TreeOf(freq), k) == if |freq| <= k < 2 * |freq| - 1 then 1 else 0
  {
    TreeOfLeaves(freq);
    forall k: nat
      ensures Inner(TreeOf(freq), k) == if |freq| <= k < 2 * |freq| - 1 then 1 else 0
    {
      LeavesInner(freq, k);
      BuildInner(Leaves(freq), |freq|, k);
    }
  }
}
