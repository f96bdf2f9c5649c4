/**
 The node array, the code bits and the lookup table of the codec, filled in place, and the tree they encode.
 */
module HuffmanNodes {
  import opened Bits
  import opened StableSort
  import opened HuffmanTree
  import opened HuffmanHeight
  import opened PrefixCodes

  const SYMBOLS: nat := 257
  const EOF_SYMBOL: nat := 256
  const MAX_NODES: nat := 513
  const LUT_BITS: nat := 10
  const LUT_SIZE: nat := 1024
  const NO_LEAF: nat := 0xffff
  const MAX_CODE: nat := 22

  /** A node of the array: its code, or `numBits == 0` for an inner node, and the indices of its children. */
  datatype NodeRecord = NodeRecord(bits: u32, numBits: u32, leaf0: nat, leaf1: nat, symbol: byte)

  datatype NodePointer = Null | At(id: nat)

  // ----- The tree a node array encodes

  /** The links and symbols of the array below `t.id` spell out `t`; children come before their parents. */
  ghost predicate Linked(nodes: seq<NodeRecord>, t: Tree) {
    && t.id < |nodes|
    && match t
       case Leaf(id, _) =>
         id < SYMBOLS && nodes[id].leaf0 == NO_LEAF == nodes[id].leaf1 && nodes[id].symbol == id % 256
       case Node(id, l, r) =>
         && SYMBOLS <= id && l.id < id && r.id < id
         && nodes[id].leaf0 == l.id && nodes[id].leaf1 == r.id
         && Linked(nodes, l) && Linked(nodes, r)
  }

  /** Leaves are marked as such and inner nodes are not; no code has been assigned yet. */
  ghost predicate Unlabelled(nodes: seq<NodeRecord>, t: Tree)
    requires Linked(nodes, t)
  {
    match t
    case Leaf(id, _) => nodes[id].numBits != 0
    case Node(id, l, r) => nodes[id].numBits == 0 && Unlabelled(nodes, l) && Unlabelled(nodes, r)
  }

  /** Every leaf carries its path from the root, which is `path` followed by its path in `t`, first bit lowest. */
  ghost predicate Labelled(nodes: seq<NodeRecord>, t: Tree, path: seq<bool>)
    requires Linked(nodes, t)
  {
    match t
    case Leaf(id, _) => nodes[id].numBits == |path| && nodes[id].bits == Val(path)
    case Node(id, l, r) =>
      && nodes[id].numBits == 0
      && Labelled(nodes, l, path + [false]) && Labelled(nodes, r, path + [true])
  }

  lemma {:induction false} LinkedBelow(a: seq<NodeRecord>, b: seq<NodeRecord>, t: Tree, n: nat)
    requires Linked(a, t) && Unlabelled(a, t) && t.id < n <= |a| && n <= |b|
    requires forall i | 0 <= i < n :: a[i] == b[i]
    ensures Linked(b, t) && Unlabelled(b, t)
  {
    if t.Leaf? {
    } else {
      LinkedBelow(a, b, t.zero, n);
      LinkedBelow(a, b, t.one, n);
    }
  }

  /** `b` differs from `a` at most in the codes of the symbols in `changed`. */
  ghost predicate OnlyCodes(a: seq<NodeRecord>, b: seq<NodeRecord>, changed: set<nat>) {
    && |a| == |b|
    && (forall i | 0 <= i < |a| && i !in changed :: a[i] == b[i])
    && (forall i | 0 <= i < |a| :: b[i] == a[i].(bits := b[i].bits, numBits := b[i].numBits))
  }

  lemma {:induction false} SymbolsBelow(nodes: seq<NodeRecord>, t: Tree)
    requires Linked(nodes, t)
    ensures forall s | s in t.Symbols() :: s < SYMBOLS
  {
    if t.Leaf? {
    } else {
      SymbolsBelow(nodes, t.zero);
      SymbolsBelow(nodes, t.one);
    }
  }

  lemma {:induction false} LinkedFrame(a: seq<NodeRecord>, b: seq<NodeRecord>, t: Tree, changed: set<nat>)
    requires OnlyCodes(a, b, changed) && Linked(a, t)
    ensures Linked(b, t)
  {
    if t.Leaf? {
    } else {
      LinkedFrame(a, b, t.zero, changed);
      LinkedFrame(a, b, t.one, changed);
    }
  }

  lemma {:induction false} UnlabelledFrame(a: seq<NodeRecord>, b: seq<NodeRecord>, t: Tree, changed: set<nat>)
    requires OnlyCodes(a, b, changed) && Linked(a, t) && Linked(b, t) && Unlabelled(a, t)
    requires changed !! t.Symbols() && forall s | s in changed :: s < SYMBOLS
    ensures Unlabelled(b, t)
  {
    if t.Leaf? {
    } else {
      UnlabelledFrame(a, b, t.zero, changed);
      UnlabelledFrame(a, b, t.one, changed);
    }
  }

  lemma {:induction false} LabelledFrame(a: seq<NodeRecord>, b: seq<NodeRecord>, t: Tree, path: seq<bool>,
                                         changed: set<nat>)
    requires OnlyCodes(a, b, changed) && Linked(a, t) && Linked(b, t) && Labelled(a, t, path)
    requires changed !! t.Symbols() && forall s | s in changed :: s < SYMBOLS
    ensures Labelled(b, t, path)
  {
    if t.Leaf? {
    } else {
      LabelledFrame(a, b, t.zero, path + [false], changed);
      LabelledFrame(a, b, t.one, path + [true], changed);
    }
  }

  lemma LongerPath(path: seq<bool>, bit: bool, code: seq<bool>)
    ensures path + ([bit] + code) == path + [bit] + code
  {
  }

  /** The array entry of a symbol holds its code: length and bits. */
  lemma {:induction false} LabelledCode(nodes: seq<NodeRecord>, t: Tree, path: seq<bool>, symbol: nat)
    requires Linked(nodes, t) && Labelled(nodes, t, path) && symbol in t.Symbols()
    ensures symbol < |nodes|
    ensures nodes[symbol].numBits == |path + t.Code(symbol)|
    ensures nodes[symbol].bits == Val(path + t.Code(symbol))
  {
    match t
    case Leaf(_, _) =>
      assert path + t.Code(symbol) == path;
    case Node(_, l, r) =>
      var bit := symbol !in l.Symbols();
      LabelledCode(nodes, t.Child(bit), path + [bit], symbol);
      LongerPath(path, bit, t.Child(bit).Code(symbol));
  }

  // ----- The work list holds what the forest holds

  function Entries(forest: seq<Tree>): (list: seq<Entry>)
    ensures |list| == |forest|
  {
    seq(|forest|, i requires 0 <= i < |forest| => Entry(forest[i].id, forest[i].Weight()))
  }

  lemma {:induction false} InsertEntries(x: Tree, s: seq<Tree>)
    ensures Insert(Entry(x.id, x.Weight()), Entries(s), ByFrequency()) == Entries(Insert(x, s, ByWeight()))
  {
    if s == [] {
    } else {
      var n := |s| - 1;
      assert Entries(s)[..n] == Entries(s[..n]);
      InsertEntries(x, s[..n]);
    }
  }

  lemma {:induction false} SortEntries(s: seq<Tree>)
    ensures Sorted(Entries(s), ByFrequency()) == Entries(Sorted(s, ByWeight()))
  {
    if s == [] {
    } else {
      var n := |s| - 1;
      assert Entries(s)[..n] == Entries(s[..n]);
      SortEntries(s[..n]);
      InsertEntries(s[n], Sorted(s[..n], ByWeight()));
    }
  }

  lemma EntryOf(s: seq<Tree>, list: seq<Entry>, i: nat)
    requires list == Entries(s) && i < |s|
    ensures i < |list| && list[i].nodeId == s[i].id && list[i].frequency == s[i].Weight()
  {
  }

  function MergedEntry(list: seq<Entry>, id: nat): (e: Entry)
    requires |list| >= 2
  {
    Entry(id, list[|list| - 1].frequency + list[|list| - 2].frequency)
  }

  lemma EntriesSnoc(s: seq<Tree>, x: Tree)
    ensures Entries(s + [x]) == Entries(s) + [Entry(x.id, x.Weight())]
  {
  }

  lemma MergeEntries(s: seq<Tree>, id: nat)
    requires |s| >= 2
    ensures Entries(MergeLast(s, id)) == Entries(s)[..|s| - 2] + [MergedEntry(Entries(s), id)]
  {
    var a, b := s[|s| - 1], s[|s| - 2];
    EntriesSnoc(s[..|s| - 2], Node(id, a, b));
    assert Entries(s[..|s| - 2]) == Entries(s)[..|s| - 2];
  }

  /** The array encodes every tree of the forest, in nodes below `bound`. */
  ghost predicate ForestLinked(nodes: seq<NodeRecord>, forest: seq<Tree>, bound: nat) {
    forall i | 0 <= i < |forest| ::
      Linked(nodes, forest[i]) && Unlabelled(nodes, forest[i]) && forest[i].id < bound
  }

  lemma SortLinked(nodes: seq<NodeRecord>, forest: seq<Tree>, bound: nat)
    requires ForestLinked(nodes, forest, bound)
    ensures ForestLinked(nodes, Sorted(forest, ByWeight()), bound)
  {
    var s := Sorted(forest, ByWeight());
    forall i | 0 <= i < |s| ensures Linked(nodes, s[i]) && Unlabelled(nodes, s[i]) && s[i].id < bound {
      var j := SortedFrom(forest, ByWeight(), i);
    }
  }

  /** Filling the next free node with the two last entries encodes the merged forest. */
  lemma MergeLinked(a: seq<NodeRecord>, b: seq<NodeRecord>, forest: seq<Tree>, id: nat)
    requires |forest| >= 2 && ForestLinked(a, forest, id) && SYMBOLS <= id < |a|
    requires |b| == |a| && forall i | 0 <= i < id :: b[i] == a[i]
    requires b[id].numBits == 0
    requires b[id].leaf0 == forest[|forest| - 1].id && b[id].leaf1 == forest[|forest| - 2].id
    ensures ForestLinked(b, MergeLast(forest, id), id + 1)
  {
    forall i | 0 <= i < |forest| ensures Linked(b, forest[i]) && Unlabelled(b, forest[i]) {
      LinkedBelow(a, b, forest[i], id);
    }
  }

  // ----- Table lookup

  /** The node reached from `t` by the low bits of `x`, after at most `k` steps. */
  function Descend(t: Tree, x: nat, k: nat): (s: Tree)
    decreases k
  {
    if k == 0 || t.Leaf? then t else Descend(t.Child(x % 2 == 1), x / 2, k - 1)
  }

  lemma {:induction false} DescendStays(t: Tree, x: nat, k: nat)
    ensures Descend(t, x, k).Symbols() <= t.Symbols()
    decreases k
  {
    if k == 0 || t.Leaf? {
    } else {
      DescendStays(t.Child(x % 2 == 1), x / 2, k - 1);
    }
  }

  lemma PrefixOfBits(bit: bool, code: seq<bool>, x: nat, k: nat)
    requires k > 0
    ensures [bit] + code <= BitsOf(x, k) <==> bit == (x % 2 == 1) && code <= BitsOf(x / 2, k - 1)
  {
    var first, rest := x % 2 == 1, BitsOf(x / 2, k - 1);
    if bit == first {
      PrefixCons(bit, code, rest);
    } else {
      assert ([bit] + code)[0] != ([first] + rest)[0];
    }
  }

  /** The low `k` bits of `x` lead to a leaf exactly when its code is a prefix of them. */
  lemma {:induction false} DescendIsPrefix(t: Tree, x: nat, k: nat, symbol: nat)
    requires t.Distinct() && symbol in t.Symbols()
    ensures Descend(t, x, k).Leaf? && Descend(t, x, k).id == symbol <==> t.Code(symbol) <= BitsOf(x, k)
    decreases k
  {
    if k == 0 || t.Leaf? {
    } else {
      var bit := x % 2 == 1;
      var child := t.Child(bit);
      if symbol in child.Symbols() {
        DescendIsPrefix(child, x / 2, k - 1, symbol);
        PrefixOfBits(bit, child.Code(symbol), x, k);
      } else {
        DescendStays(child, x / 2, k - 1);
        PrefixOfBits(!bit, t.Child(!bit).Code(symbol), x, k);
      }
    }
  }

  lemma {:induction false} DescendLinked(nodes: seq<NodeRecord>, t: Tree, x: nat, k: nat)
    requires Linked(nodes, t)
    ensures Linked(nodes, Descend(t, x, k))
    decreases k
  {
    if k == 0 || t.Leaf? {
    } else {
      DescendLinked(nodes, t.Child(x % 2 == 1), x / 2, k - 1);
    }
  }

  /**
   An entry of the lookup table is the one leaf whose code is a prefix of its ten bits, or an inner node when there
   is no such leaf.
   */
  lemma LutEntryIsPrefix(nodes: seq<NodeRecord>, lut: seq<NodePointer>, t: Tree, i: nat)
    requires TablesOf(nodes, lut, t) && CodecTree(t) && i < LUT_SIZE
    ensures forall s: nat | s < SYMBOLS :: lut[i] == At(s) <==> t.Code(s) <= BitsOf(i, LUT_BITS)
    ensures !lut[i].Null?
  {
    var node := Descend(t, i, LUT_BITS);
    forall s: nat | s < SYMBOLS
      ensures lut[i] == At(s) <==> t.Code(s) <= BitsOf(i, LUT_BITS)
    {
      DescendIsPrefix(t, i, LUT_BITS, s);
      DescendLinked(nodes, t, i, LUT_BITS);
    }
  }

  /** Everything compression and decompression rely on: `t` in the node array, its codes, and the lookup table. */
  ghost predicate TablesOf(nodes: seq<NodeRecord>, lut: seq<NodePointer>, t: Tree) {
    && |nodes| == MAX_NODES && |lut| == LUT_SIZE
    && Linked(nodes, t) && Labelled(nodes, t, [])
    && (forall i | 0 <= i < LUT_SIZE :: lut[i] == At(Descend(t, i, LUT_BITS).id))
  }

  /** The leaves are the 257 symbols. */
  ghost predicate AllSymbols(t: Tree) {
    forall s: nat :: s in t.Symbols() <==> s < SYMBOLS
  }

  /** The properties of the tree that the bounds and the termination of the codec need. */
  ghost predicate CodecTree(t: Tree) {
    t.Node? && t.Height() <= MAX_CODE && t.Distinct() && AllSymbols(t)
  }

  class Codec {
    const freq: seq<nat>
    const nodes: array<NodeRecord>
    const lut: array<NodePointer>
    var startNode: NodePointer
    var numNodes: nat
    var initialized: bool

    /** The table is one the codec can work with: 257 entries, no 32-bit overflow of the sums, short codes. */
    ghost predicate Valid()
      reads this, nodes, lut
    {
      && |freq| == SYMBOLS && ShortTable(freq) && Sum(freq) < 0x1_0000_0000
      && nodes.Length == MAX_NODES && lut.Length == LUT_SIZE
      && (initialized ==> Ready())
    }

    ghost predicate Ready()
      reads this, nodes, lut
    {
      && |freq| == SYMBOLS && ShortTable(freq) && Sum(freq) < 0x1_0000_0000
      && initialized
      && numNodes == MAX_NODES && startNode == At(TreeOf(freq).id)
      && TablesOf(nodes[..], lut[..], TreeOf(freq)) && CodecTree(TreeOf(freq))
    }

    constructor (table: seq<nat>)
      requires |table| == SYMBOLS && ShortTable(table) && Sum(table) < 0x1_0000_0000
      ensures Valid() && !initialized && freq == table && fresh(nodes) && fresh(lut)
    {
      freq := table;
      nodes := new NodeRecord[MAX_NODES](_ => NodeRecord(0, 0, 0, 0, 0));
      lut := new NodePointer[LUT_SIZE](_ => Null);
      startNode := Null;
      numNodes := 0;
      initialized := false;
    }

    /** `set_bits_recursive`: the 1 branch first, then the 0 branch, then the node's own code if it is a leaf. */
    method SetBits(node: nat, bits: u32, depth: nat, ghost t: Tree, ghost path: seq<bool>)
      requires nodes.Length == MAX_NODES
      requires Linked(nodes[..], t) && Unlabelled(nodes[..], t) && t.Distinct() && t.id == node
      requires depth == |path| && bits == Val(path) && depth + t.Height() <= MAX_CODE
      modifies nodes
      ensures OnlyCodes(old(nodes[..]), nodes[..], t.Symbols())
      ensures Linked(nodes[..], t) && Labelled(nodes[..], t, path)
      decreases t
    {
      ghost var n0 := nodes[..];
      if nodes[node].leaf1 != NO_LEAF {
        BranchBits(path, bits, depth);
        SetBits(nodes[node].leaf1, BitOr(bits, Shl32(1, depth)), depth + 1, t.one, path + [true]);
        LinkedFrame(n0, nodes[..], t.zero, t.one.Symbols());
        SymbolsBelow(n0, t.one);
        UnlabelledFrame(n0, nodes[..], t.zero, t.one.Symbols());
      }
      ghost var n1 := nodes[..];
      if nodes[node].leaf0 != NO_LEAF {
        BranchBits(path, bits, depth);
        SetBits(nodes[node].leaf0, bits, depth + 1, t.zero, path + [false]);
        LinkedFrame(n1, nodes[..], t.one, t.zero.Symbols());
        SymbolsBelow(n1, t.zero);
        LabelledFrame(n1, nodes[..], t.one, path + [true], t.zero.Symbols());
      }
      if nodes[node].numBits != 0 {
        nodes[node] := nodes[node].(bits := bits);
        nodes[node] := nodes[node].(numBits := depth);
      }
    }

    /** The first loop of `construct_tree`: one leaf node and one work-list entry per symbol. */
    method AddSymbols(list: array<Entry>)
      requires |freq| == SYMBOLS == list.Length && nodes.Length == MAX_NODES
      modifies nodes, list
      ensures list[..] == Entries(Leaves(freq)) && ForestLinked(nodes[..], Leaves(freq), SYMBOLS)
    {
      ghost var forest := Leaves(freq);
      for i := 0 to SYMBOLS
        invariant forall k | 0 <= k < i :: list[k] == Entry(k, freq[k])
        invariant forall k | 0 <= k < i :: nodes[k].numBits == 0xffff_ffff && nodes[k].symbol == k % 256
        invariant forall k | 0 <= k < i :: nodes[k].leaf0 == NO_LEAF == nodes[k].leaf1
      {
        nodes[i] := nodes[i].(numBits := 0xffff_ffff);
        nodes[i] := nodes[i].(symbol := i % 256);
        nodes[i] := nodes[i].(leaf0 := NO_LEAF, leaf1 := NO_LEAF);
        list[i] := Entry(i, freq[i]);
      }
    }

    /**
     One round of the second loop of `construct_tree`: sort, fill the next free node with the two last entries,
     and let it stand for both.
     */
    method MergeRound(list: array<Entry>, left: nat, ghost forest: seq<Tree>) returns (ghost merged: seq<Tree>)
      requires 2 <= left <= list.Length && nodes.Length == MAX_NODES && SYMBOLS <= numNodes < MAX_NODES
      requires |forest| == left && list[..left] == Entries(forest)
      requires ForestLinked(nodes[..], forest, numNodes) && ForestWeight(forest) < 0x1_0000_0000
      modifies nodes, list, `numNodes
      ensures numNodes == old(numNodes) + 1
      ensures merged == MergeLast(Sorted(forest, ByWeight()), old(numNodes)) && |merged| == left - 1
      ensures list[..left - 1] == Entries(merged) && ForestLinked(nodes[..], merged, numNodes)
      ensures Build(forest, old(numNodes)) == Build(merged, numNodes) && ForestWeight(merged) == ForestWeight(forest)
    {
      merged := BuildRound(forest, numNodes);
      BubbleSort(list, left);
      ghost var s := Sorted(forest, ByWeight());
      SortEntries(forest);
      SortKeepsForest(forest);
      SortLinked(nodes[..], forest, numNodes);
      ForestWeightTwo(s, left - 2, left - 1);
      MergeTwo(list, left, s);
    }

    /** The two last entries of the sorted list become one. */
    method MergeTwo(list: array<Entry>, left: nat, ghost s: seq<Tree>)
      requires 2 <= left <= list.Length && nodes.Length == MAX_NODES && SYMBOLS <= numNodes < MAX_NODES
      requires |s| == left && list[..left] == Entries(s) && ForestLinked(nodes[..], s, numNodes)
      requires s[left - 1].Weight() + s[left - 2].Weight() < 0x1_0000_0000
      modifies nodes, list, `numNodes
      ensures numNodes == old(numNodes) + 1
      ensures var merged := MergeLast(s, old(numNodes));
              list[..left - 1] == Entries(merged) && ForestLinked(nodes[..], merged, numNodes)
    {
      ghost var before, sorted := nodes[..], list[..left];
      MergeEntries(s, numNodes);
      EntryOf(s, sorted, left - 1);
      EntryOf(s, sorted, left - 2);
      assert list[left - 1] == sorted[left - 1] && list[left - 2] == sorted[left - 2];

      nodes[numNodes] := nodes[numNodes].(numBits := 0);
      nodes[numNodes] := nodes[numNodes].(leaf0 := list[left - 1].nodeId);
      nodes[numNodes] := nodes[numNodes].(leaf1 := list[left - 2].nodeId);
      list[left - 2] := list[left - 2].(nodeId := numNodes);
      list[left - 2] := list[left - 2].(
        frequency := (list[left - 1].frequency + list[left - 2].frequency) % 0x1_0000_0000);
      assert list[left - 2] == MergedEntry(sorted, numNodes);
      assert list[..left - 1] == sorted[..left - 2] + [list[left - 2]];
      MergeLinked(before, nodes[..], s, numNodes);
      numNodes := numNodes + 1;
    }

    /** `construct_tree`: the array and its codes become those of the tree of the frequency table. */
    method ConstructTree()
      requires |freq| == SYMBOLS && ShortTable(freq) && Sum(freq) < 0x1_0000_0000
      requires nodes.Length == MAX_NODES
      modifies nodes, `numNodes, `startNode
      ensures numNodes == MAX_NODES && startNode == At(TreeOf(freq).id)
      ensures Linked(nodes[..], TreeOf(freq)) && Labelled(nodes[..], TreeOf(freq), [])
      ensures CodecTree(TreeOf(freq))
    {
      var list := new Entry[SYMBOLS](_ => Entry(0, 0));
      var left := SYMBOLS;
      ghost var forest := Leaves(freq);
      AddSymbols(list);
      LeavesForest(freq);
      numNodes := SYMBOLS;
      assert list[..left] == list[..];

      while left > 1
        invariant 1 <= left <= SYMBOLS && numNodes + left == SYMBOLS + SYMBOLS
        invariant |forest| == left && list[..left] == Entries(forest)
        invariant ForestLinked(nodes[..], forest, numNodes)
        invariant ForestWeight(forest) == Sum(freq)
        invariant Build(forest, numNodes) == TreeOf(freq)
      {
        forest := MergeRound(list, left, forest);
        left := left - 1;
      }
      assert forest[0] == TreeOf(freq) && Linked(nodes[..], forest[0]);
      startNode := At(numNodes - 1);
      TableTree(freq);
      SetBits(numNodes - 1, 0, 0, TreeOf(freq), []);
    }

    /** The array holds the labelled tree of the frequency table. */
    ghost predicate TreeReady()
      reads this, nodes
    {
      && |freq| == SYMBOLS && nodes.Length == MAX_NODES
      && startNode == At(TreeOf(freq).id) && CodecTree(TreeOf(freq))
      && Linked(nodes[..], TreeOf(freq)) && Labelled(nodes[..], TreeOf(freq), [])
    }

    /** One entry of the lookup table: walk the ten bits of `i`, stop at a leaf, remember the node. */
    method LutEntry(i: nat)
      requires TreeReady() && i < lut.Length == LUT_SIZE
      modifies lut
      ensures lut[i] == At(Descend(TreeOf(freq), i, LUT_BITS).id)
      ensures forall k | 0 <= k < LUT_SIZE && k != i :: lut[k] == old(lut[k])
    {
      var bits: nat := i;
      var counter := 0;
      var node := startNode.id;
      ghost var sub, path: seq<bool> := TreeOf(freq), [];
      while counter < LUT_BITS
        invariant counter <= LUT_BITS && node == sub.id && sub.Node?
        invariant Linked(nodes[..], sub) && Labelled(nodes[..], sub, path)
        invariant Descend(TreeOf(freq), i, LUT_BITS) == Descend(sub, bits, LUT_BITS - counter)
      {
        node := if bits % 2 == 1 then nodes[node].leaf1 else nodes[node].leaf0;
        sub, path := sub.Child(bits % 2 == 1), path + [bits % 2 == 1];
        bits := bits / 2;
        if nodes[node].numBits != 0 {
          lut[i] := At(node);
          return;
        }
        counter := counter + 1;
      }
      lut[i] := At(node);
    }

    /** The lookup loop of `huffman_init`. */
    method BuildLut()
      requires TreeReady() && lut.Length == LUT_SIZE
      modifies lut
      ensures forall i | 0 <= i < LUT_SIZE :: lut[i] == At(Descend(TreeOf(freq), i, LUT_BITS).id)
    {
      for i := 0 to LUT_SIZE
        invariant TreeReady()
        invariant forall k | 0 <= k < i :: lut[k] == At(Descend(TreeOf(freq), k, LUT_BITS).id)
      {
        LutEntry(i);
      }
    }

    /** `huffman_init`: the tables are built on the first call and kept afterwards. */
    method Init()
      requires Valid()
      modifies nodes, lut, `numNodes, `startNode, `initialized
      ensures Ready()
      ensures old(initialized) ==> nodes[..] == old(nodes[..]) && lut[..] == old(lut[..])
    {
      if initialized {
        return;
      }
      initialized := true;
      forall i | 0 <= i < MAX_NODES { nodes[i] := NodeRecord(0, 0, 0, 0, 0); }
      forall i | 0 <= i < LUT_SIZE { lut[i] := Null; }
      startNode := Null;
      numNodes := 0;
      ConstructTree();
      BuildLut();
    }
  }

  /** Setting bit `depth` appends a 1 to the path. */
  lemma BranchBits(path: seq<bool>, bits: u32, depth: nat)
    requires depth == |path| < 31 && bits == Val(path)
    ensures BitOr(bits, Shl32(1, depth)) == Val(path + [true]) < 0x1_0000_0000
    ensures bits == Val(path + [false])
  {
    OrAppends(path, [true]);
    assert Val([true]) == 1 && Val([false]) == 0;
    ValConcat(path, [false]);
  }

  /** The last node to be filled is the root. */
  lemma {:induction false} BuildRoot(list: seq<Tree>, id: nat)
    requires |list| >= 2
    ensures Build(list, id).id == id + |list| - 2
    decreases |list|
  {
    var r := MergeLast(Sorted(list, ByWeight()), id);
    if |list| > 2 {
      BuildRoot(r, id + 1);
    } else {
      assert Build(r, id + 1) == r[0];
    }
  }

  /** The tree of a usable table: all symbols, codes of at most 22 bits, and the root in the last node. */
  lemma TableTree(freq: seq<nat>)
    requires |freq| == SYMBOLS && ShortTable(freq)
    ensures CodecTree(TreeOf(freq)) && TreeOf(freq).id == MAX_NODES - 1
  {
    CodesAreShort(freq);
    TreeOfLeaves(freq);
    BuildRoot(Leaves(freq), |freq|);
  }
}
