/**
 Optimality of the Huffman construction, by the exchange argument on code lengths: any lengths that satisfy
 Kraft's inequality can be rearranged, without getting more expensive, until the two lightest entries of the
 work list have equal and maximal length; merging these two entries then shortens the list by one.
 */
module HuffmanOptimal {
  import opened Bits
  import opened StableSort
  import opened HuffmanTree
  import opened PrefixCodes

  /** The cost of giving entry `i` of the work list a root path of length `lens[i]`. */
  function PathCost(list: seq<Tree>, lens: seq<nat>): (c: nat)
    requires |list| == |lens|
  {
    if list == [] then 0
    else
      var n := |list| - 1;
      PathCost(list[..n], lens[..n]) + Times(list[n].Weight(), lens[n])
  }

  lemma PathCostSnoc(list: seq<Tree>, lens: seq<nat>, x: Tree, l: nat)
    requires |list| == |lens|
    ensures PathCost(list + [x], lens + [l]) == PathCost(list, lens) + Times(x.Weight(), l)
  {
    assert (list + [x])[..|list|] == list && (lens + [l])[..|list|] == lens;
  }

  // ----- Lengths follow their entries through the sort

  /** The lengths of `Insert(x, list)`, when the entries of `list` have lengths `lens` and `x` has length `l`. */
  function InsertLengths(x: Tree, l: nat, list: seq<Tree>, lens: seq<nat>): (r: seq<nat>)
    requires |list| == |lens|
    ensures |r| == |list| + 1
  {
    if list == [] then [l]
    else if ByWeight()(list[|list| - 1]) >= ByWeight()(x) then lens + [l]
    else InsertLengths(x, l, list[..|list| - 1], lens[..|list| - 1]) + [lens[|list| - 1]]
  }

  function SortLengths(list: seq<Tree>, lens: seq<nat>): (r: seq<nat>)
    requires |list| == |lens|
    ensures |r| == |list|
  {
    if list == [] then []
    else
      var n := |list| - 1;
      InsertLengths(list[n], lens[n], Sorted(list[..n], ByWeight()), SortLengths(list[..n], lens[..n]))
  }

  lemma {:induction false} InsertPathCost(x: Tree, l: nat, list: seq<Tree>, lens: seq<nat>)
    requires |list| == |lens|
    ensures PathCost(Insert(x, list, ByWeight()), InsertLengths(x, l, list, lens))
         == PathCost(list, lens) + Times(x.Weight(), l)
  {
    if list == [] {
      PathCostSnoc([], [], x, l);
      assert [] + [x] == [x] && [] + [l] == [l];
    } else if ByWeight()(list[|list| - 1]) >= ByWeight()(x) {
      PathCostSnoc(list, lens, x, l);
    } else {
      var n := |list| - 1;
      InsertPathCost(x, l, list[..n], lens[..n]);
      PathCostSnoc(Insert(x, list[..n], ByWeight()), InsertLengths(x, l, list[..n], lens[..n]), list[n], lens[n]);
    }
  }

  lemma {:induction false} InsertKraft(x: Tree, l: nat, list: seq<Tree>, lens: seq<nat>, d: nat)
    requires |list| == |lens|
    ensures KraftSum(InsertLengths(x, l, list, lens), d) == KraftSum(lens, d) + Share(l, d)
  {
    if list == [] {
      KraftSnoc([], l, d);
      assert [] + [l] == [l];
    } else if ByWeight()(list[|list| - 1]) >= ByWeight()(x) {
      KraftSnoc(lens, l, d);
    } else {
      var n := |list| - 1;
      InsertKraft(x, l, list[..n], lens[..n], d);
      KraftSnoc(InsertLengths(x, l, list[..n], lens[..n]), lens[n], d);
    }
  }

  lemma {:induction false} InsertWithin(x: Tree, l: nat, list: seq<Tree>, lens: seq<nat>, d: nat)
    requires |list| == |lens| && Within(lens, d) && l <= d
    ensures Within(InsertLengths(x, l, list, lens), d)
  {
    if list == [] || ByWeight()(list[|list| - 1]) >= ByWeight()(x) {
    } else {
      InsertWithin(x, l, list[..|list| - 1], lens[..|list| - 1], d);
    }
  }

  lemma {:induction false} SortPathCost(list: seq<Tree>, lens: seq<nat>)
    requires |list| == |lens|
    ensures PathCost(Sorted(list, ByWeight()), SortLengths(list, lens)) == PathCost(list, lens)
  {
    if list == [] {
    } else {
      var n := |list| - 1;
      SortPathCost(list[..n], lens[..n]);
      InsertPathCost(list[n], lens[n], Sorted(list[..n], ByWeight()), SortLengths(list[..n], lens[..n]));
    }
  }

  lemma {:induction false} SortKraft(list: seq<Tree>, lens: seq<nat>, d: nat)
    requires |list| == |lens|
    ensures KraftSum(SortLengths(list, lens), d) == KraftSum(lens, d)
  {
    if list == [] {
    } else {
      var n := |list| - 1;
      SortKraft(list[..n], lens[..n], d);
      InsertKraft(list[n], lens[n], Sorted(list[..n], ByWeight()), SortLengths(list[..n], lens[..n]), d);
    }
  }

  lemma {:induction false} SortWithin(list: seq<Tree>, lens: seq<nat>, d: nat)
    requires |list| == |lens| && Within(lens, d)
    ensures Within(SortLengths(list, lens), d)
  {
    if list == [] {
    } else {
      var n := |list| - 1;
      SortWithin(list[..n], lens[..n], d);
      InsertWithin(list[n], lens[n], Sorted(list[..n], ByWeight()), SortLengths(list[..n], lens[..n]), d);
    }
  }

  // ----- Exchanging lengths

  lemma {:induction false} UpdateKraft(lens: seq<nat>, i: nat, l: nat, d: nat)
    requires i < |lens|
    ensures KraftSum(lens[i := l], d) + Share(lens[i], d) == KraftSum(lens, d) + Share(l, d)
  {
    var n := |lens| - 1;
    if i == n {
      assert lens[i := l][..n] == lens[..n];
    } else {
      UpdateKraft(lens[..n], i, l, d);
      assert lens[i := l][..n] == lens[..n][i := l];
    }
  }

  lemma {:induction false} UpdatePathCost(list: seq<Tree>, lens: seq<nat>, i: nat, l: nat)
    requires |list| == |lens| && i < |lens|
    ensures PathCost(list, lens[i := l]) + Times(list[i].Weight(), lens[i])
         == PathCost(list, lens) + Times(list[i].Weight(), l)
  {
    var n := |list| - 1;
    if i == n {
      assert lens[i := l][..n] == lens[..n];
    } else {
      UpdatePathCost(list[..n], lens[..n], i, l);
      assert lens[i := l][..n] == lens[..n][i := l];
    }
  }

  lemma ExchangeGain(a: nat, b: nat, la: nat, lb: nat)
    requires a >= b && la >= lb
    ensures Times(a, lb) + Times(b, la) <= Times(a, la) + Times(b, lb)
  {
    TimesIsProduct(a, lb);
    TimesIsProduct(b, la);
    TimesIsProduct(a, la);
    TimesIsProduct(b, lb);
    assert (a - b) * (la - lb) >= 0;
  }

  /** Giving the longer of two lengths to the lighter of two entries does not cost more. */
  lemma Exchange(list: seq<Tree>, lens: seq<nat>, i: nat, k: nat, d: nat) returns (lens': seq<nat>)
    requires |list| == |lens| && Within(lens, d) && i <= k < |lens|
    requires list[i].Weight() >= list[k].Weight() && lens[i] >= lens[k]
    ensures lens' == lens[i := lens[k]][k := lens[i]] && Within(lens', d)
    ensures KraftSum(lens', d) == KraftSum(lens, d)
    ensures PathCost(list, lens') <= PathCost(list, lens)
  {
    lens' := lens[i := lens[k]][k := lens[i]];
    if i != k {
      UpdateKraft(lens, i, lens[k], d);
      UpdateKraft(lens[i := lens[k]], k, lens[i], d);
      UpdatePathCost(list, lens, i, lens[k]);
      UpdatePathCost(list, lens[i := lens[k]], k, lens[i]);
      ExchangeGain(list[i].Weight(), list[k].Weight(), lens[i], lens[k]);
    } else {
      assert lens' == lens;
    }
  }

  lemma {:induction false} MaxIndex(lens: seq<nat>, n: nat) returns (i: nat)
    requires 0 < n <= |lens|
    ensures i < n && forall j | 0 <= j < n :: lens[j] <= lens[i]
  {
    if n == 1 {
      i := 0;
    } else {
      i := MaxIndex(lens, n - 1);
      if lens[n - 1] > lens[i] { i := n - 1; }
    }
  }

  /** The two last, lightest entries can be given the two largest lengths. */
  lemma LongestLast(list: seq<Tree>, lens: seq<nat>, d: nat) returns (lens': seq<nat>)
    requires |list| == |lens| >= 2 && Descending(list, ByWeight()) && Within(lens, d)
    ensures |lens'| == |lens| && Within(lens', d)
    ensures KraftSum(lens', d) == KraftSum(lens, d) && PathCost(list, lens') <= PathCost(list, lens)
    ensures forall j | 0 <= j < |lens| - 1 :: lens'[j] <= lens'[|lens| - 2] <= lens'[|lens| - 1]
  {
    var n := |lens|;
    var i := MaxIndex(lens, n);
    assert ByWeight()(list[i]) == list[i].Weight() && ByWeight()(list[n - 1]) == list[n - 1].Weight();
    lens' := Exchange(list, lens, i, n - 1, d);
    assert forall j | 0 <= j < n :: lens'[j] <= lens'[n - 1];
    var k := MaxIndex(lens', n - 1);
    assert ByWeight()(list[k]) == list[k].Weight() && ByWeight()(list[n - 2]) == list[n - 2].Weight();
    var lens1 := lens';
    lens' := Exchange(list, lens1, k, n - 2, d);
  }

  /** A length that is larger than all others may shrink to the largest of the others. */
  lemma ShortenLast(front: seq<nat>, last: nat, m: nat)
    requires Within(front, m) && m < last && Kraft(front + [last], last)
    ensures Kraft(front + [m], m)
  {
    var e := last - m;
    KraftSnoc(front, last, last);
    KraftScale(front, m, e);
    Pow2Add(e, m);
    assert Pow2(e) * KraftSum(front, m) + 1 <= Pow2(e) * Pow2(m);
    if KraftSum(front, m) >= Pow2(m) {
      MulOrder(Pow2(m), KraftSum(front, m), Pow2(e));
      assert false;
    }
    KraftSnoc(front, m, m);
  }

  /** Lengths whose two last entries are equal and maximal. */
  lemma EqualLongestLast(list: seq<Tree>, lens: seq<nat>, d: nat) returns (lens': seq<nat>, m: nat)
    requires |list| == |lens| >= 2 && Descending(list, ByWeight()) && Kraft(lens, d)
    ensures |lens'| == |lens| && PathCost(list, lens') <= PathCost(list, lens)
    ensures lens'[|lens| - 1] == lens'[|lens| - 2] == m && Kraft(lens', m)
  {
    var n := |lens|;
    lens' := LongestLast(list, lens, d);
    m := lens'[n - 2];
    var last := lens'[n - 1];
    KraftRebase(lens', d, last);
    if m < last {
      var front := lens'[..n - 1];
      assert lens' == front + [last];
      ShortenLast(front, last, m);
      UpdatePathCost(list, lens', n - 1, m);
      ShorterIsCheaper(list[n - 1].Weight(), m, last);
      lens' := lens'[n - 1 := m];
      assert lens' == front + [m];
    }
  }

  lemma {:induction false} ShorterIsCheaper(w: nat, m: nat, last: nat)
    requires m <= last
    ensures Times(w, m) <= Times(w, last)
  {
    if m < last {
      ShorterIsCheaper(w, m, last - 1);
    }
  }

  /** Two words of the largest length may become one word that is a bit shorter. */
  lemma MergeKraft(rest: seq<nat>, m: nat)
    requires Kraft(rest + [m] + [m], m)
    ensures m >= 1 && Kraft(rest + [m - 1], m)
  {
    assert Share(m, m) == 1;
    KraftSnoc(rest + [m], m, m);
    KraftSnoc(rest, m, m);
    assert Pow2(m) >= 2;
    assert Share(m - 1, m) == 2 by { assert Pow2(1) == 2 * Pow2(0); }
    KraftSnoc(rest, m - 1, m);
    assert forall i | 0 <= i < |rest| :: rest[i] == (rest + [m] + [m])[i];
  }

  lemma LastTwoCosts(list: seq<Tree>, lens: seq<nat>, n: nat)
    requires |list| == |lens| == n + 2
    ensures PathCost(list, lens) == PathCost(list[..n], lens[..n])
                                  + Times(list[n].Weight(), lens[n]) + Times(list[n + 1].Weight(), lens[n + 1])
  {
    assert list[..n + 1][..n] == list[..n];
    assert lens[..n + 1][..n] == lens[..n];
  }

  /** Merging the two last entries, one level up, keeps Kraft's inequality and saves their weights. */
  lemma MergeLengths(list: seq<Tree>, lens: seq<nat>, m: nat, id: nat) returns (lens': seq<nat>)
    requires |list| == |lens| >= 2 && Kraft(lens, m)
    requires lens[|lens| - 1] == lens[|lens| - 2] == m
    ensures |lens'| == |lens| - 1 && Kraft(lens', m)
    ensures PathCost(MergeLast(list, id), lens') + list[|list| - 1].Weight() + list[|list| - 2].Weight()
         == PathCost(list, lens)
  {
    var n := |lens| - 2;
    var rest, a, b := lens[..n], list[n + 1], list[n];
    assert lens == rest + [m] + [m];
    MergeKraft(rest, m);
    lens' := rest + [m - 1];
    LastTwoCosts(list, lens, n);
    PathCostSnoc(list[..n], rest, Node(id, a, b), m - 1);
    OneLevelUp(a.Weight(), b.Weight(), Node(id, a, b).Weight(), m);
  }

  lemma OneLevelUp(a: nat, b: nat, w: nat, m: nat)
    requires m >= 1 && w == a + b
    ensures Times(w, m - 1) + a + b == Times(b, m) + Times(a, m)
  {
    TimesIsProduct(w, m - 1);
    TimesIsProduct(a, m);
    TimesIsProduct(b, m);
  }

  /** One round turns lengths for the list into lengths for the next one that are no worse. */
  lemma OptimalRound(list: seq<Tree>, id: nat, lens: seq<nat>, d: nat)
    returns (next: seq<Tree>, lens': seq<nat>, m: nat)
    requires |list| == |lens| >= 2 && Kraft(lens, d)
    ensures |next| == |lens'| == |list| - 1 && Kraft(lens', m) && Build(list, id) == Build(next, id + 1)
    ensures ForestCost(next) + PathCost(next, lens') <= ForestCost(list) + PathCost(list, lens)
  {
    var s := Sorted(list, ByWeight());
    next := BuildRound(list, id);
    SortedIsStable(list, ByWeight());
    SortKeepsForest(list);
    var l1 := SortLengths(list, lens);
    SortPathCost(list, lens);
    SortKraft(list, lens, d);
    SortWithin(list, lens, d);
    var l2;
    l2, m := EqualLongestLast(s, l1, d);
    lens' := MergeLengths(s, l2, m, id);
    MergeKeepsForest(s, id);
  }

  /** The construction is at least as cheap as any lengths that satisfy Kraft's inequality. */
  lemma {:induction false} BuildOptimal(list: seq<Tree>, id: nat, lens: seq<nat>, d: nat)
    requires |list| == |lens| >= 1 && Kraft(lens, d)
    ensures Build(list, id).Cost() <= ForestCost(list) + PathCost(list, lens)
    decreases |list|
  {
    if |list| == 1 {
      assert list == [list[0]];
      SingleForest(list[0]);
    } else {
      var next, lens', m := OptimalRound(list, id, lens, d);
      BuildOptimal(next, id + 1, lens', m);
    }
  }

  // ----- The cost of the tree is the cost of its codes

  /** Total frequency of the symbols below `n` that have a leaf in `t`. */
  function LeafFrequency(t: Tree, freq: seq<nat>, n: nat): (w: nat)
    requires n <= |freq|
  {
    if n == 0 then 0
    else LeafFrequency(t, freq, n - 1) + if n - 1 in t.Symbols() then freq[n - 1] else 0
  }

  /** Total code length, weighted by frequency, of the symbols below `n` that have a leaf in `t`. */
  function LeafBits(t: Tree, freq: seq<nat>, n: nat): (c: nat)
    requires n <= |freq|
  {
    if n == 0 then 0
    else LeafBits(t, freq, n - 1) + if n - 1 in t.Symbols() then Times(freq[n - 1], |t.Code(n - 1)|) else 0
  }

  lemma {:induction false} LeafFrequencySplit(t: Tree, freq: seq<nat>, n: nat)
    requires n <= |freq| && t.Node? && t.Distinct()
    ensures LeafFrequency(t, freq, n) == LeafFrequency(t.zero, freq, n) + LeafFrequency(t.one, freq, n)
  {
    if n == 0 {
    } else {
      LeafFrequencySplit(t, freq, n - 1);
    }
  }

  lemma {:induction false} LeafBitsSplit(t: Tree, freq: seq<nat>, n: nat)
    requires n <= |freq| && t.Node? && t.Distinct()
    ensures LeafBits(t, freq, n)
         == LeafBits(t.zero, freq, n) + LeafBits(t.one, freq, n) + LeafFrequency(t, freq, n)
  {
    if n == 0 {
    } else {
      var i := n - 1;
      LeafBitsSplit(t, freq, i);
    }
  }

  lemma {:induction false} SingleLeaf(t: Tree, freq: seq<nat>, n: nat)
    requires n <= |freq| && t.Leaf? && t.Carries(freq)
    ensures LeafFrequency(t, freq, n) == if t.id < n then t.frequency else 0
    ensures LeafBits(t, freq, n) == 0
  {
    if n == 0 {
    } else {
      SingleLeaf(t, freq, n - 1);
    }
  }

  lemma {:induction false} TreeCost(t: Tree, freq: seq<nat>)
    requires t.Distinct() && t.Carries(freq)
    ensures LeafFrequency(t, freq, |freq|) == t.Weight()
    ensures LeafBits(t, freq, |freq|) == t.Cost()
  {
    match t
    case Leaf(_, _) => SingleLeaf(t, freq, |freq|);
    case Node(_, l, r) =>
      TreeCost(l, freq);
      TreeCost(r, freq);
      LeafFrequencySplit(t, freq, |freq|);
      LeafBitsSplit(t, freq, |freq|);
  }

  lemma {:induction false} TableBits(t: Tree, freq: seq<nat>, codes: seq<seq<bool>>, n: nat)
    requires n <= |freq| == |codes| && Range(|freq|) <= t.Symbols()
    requires forall i | 0 <= i < |codes| :: codes[i] == t.Code(i)
    ensures TotalBits(freq[..n], Lengths(codes[..n])) == LeafBits(t, freq, n)
  {
    if n == 0 {
    } else {
      TableBits(t, freq, codes, n - 1);
      assert freq[..n][..n - 1] == freq[..n - 1] && freq[..n][n - 1] == freq[n - 1];
      LengthsFront(codes, n);
    }
  }

  lemma LengthsFront(codes: seq<seq<bool>>, n: nat)
    requires 0 < n <= |codes|
    ensures Lengths(codes[..n])[..n - 1] == Lengths(codes[..n - 1])
    ensures Lengths(codes[..n])[n - 1] == |codes[n - 1]|
    ensures Lengths(codes[..n]) == Lengths(codes[..n - 1]) + [|codes[n - 1]|]
  {
  }

  lemma AllBits(t: Tree, freq: seq<nat>, codes: seq<seq<bool>>)
    requires |freq| == |codes| && Range(|freq|) <= t.Symbols()
    requires forall i | 0 <= i < |codes| :: codes[i] == t.Code(i)
    ensures TotalBits(freq, Lengths(codes)) == LeafBits(t, freq, |freq|)
  {
    TableBits(t, freq, codes, |freq|);
    assert freq[..|freq|] == freq && codes[..|freq|] == codes;
  }

  lemma HuffmanCost(freq: seq<nat>)
    requires |freq| >= 1
    ensures TotalBits(freq, Lengths(HuffmanCodes(freq))) == TreeOf(freq).Cost()
  {
    TreeOfLeaves(freq);
    TreeCost(TreeOf(freq), freq);
    AllBits(TreeOf(freq), freq, HuffmanCodes(freq));
  }

  /**
   Huffman's theorem for the construction of this library: no prefix code over the symbols of the table has a
   smaller total of frequency times code length.
   */
  lemma HuffmanIsOptimal(freq: seq<nat>, codes: seq<seq<bool>>)
    requires |codes| == |freq| >= 1 && PrefixFree(codes)
    ensures TotalBits(freq, Lengths(HuffmanCodes(freq))) <= TotalBits(freq, Lengths(codes))
  {
    var lens := Lengths(codes);
    var d := MaxLength(lens);
    PrefixFreeKraft(codes, d);
    LeavesForest(freq);
    BuildOptimal(Leaves(freq), |freq|, lens, d);
    HuffmanCost(freq);
    LeavesCost(freq, lens);
  }

  lemma {:induction false} LeavesCost(freq: seq<nat>, lens: seq<nat>)
    requires |freq| == |lens|
    ensures PathCost(Leaves(freq), lens) == TotalBits(freq, lens)
  {
    if freq == [] {
    } else {
      var n := |freq| - 1;
      LeavesCost(freq[..n], lens[..n]);
      assert Leaves(freq)[..n] == Leaves(freq[..n]);
    }
  }

  // ----- The codes form a complete prefix code

  lemma {:induction false} CodesIncomparable(t: Tree, i: nat, j: nat)
    requires i in t.Symbols() && j in t.Symbols() && i != j
    ensures !(t.Code(i) <= t.Code(j))
  {
    match t
    case Leaf(_, _) =>
    case Node(_, l, r) =>
      var bi, bj := i !in l.Symbols(), j !in l.Symbols();
      var ci, cj := t.Child(bi).Code(i), t.Child(bj).Code(j);
      assert t.Code(i) == [bi] + ci && t.Code(j) == [bj] + cj;
      if bi == bj {
        CodesIncomparable(t.Child(bi), i, j);
        PrefixCons(bi, ci, cj);
      } else {
        assert t.Code(i)[0] != t.Code(j)[0];
      }
  }

  /** Sum of 2^(d - length) over the symbols below `n` that have a leaf in `t`. */
  function LeafKraft(t: Tree, d: nat, n: nat): (k: nat)
  {
    if n == 0 then 0
    else LeafKraft(t, d, n - 1) + if n - 1 in t.Symbols() then Share(|t.Code(n - 1)|, d) else 0
  }

  lemma {:induction false} LeafKraftSplit(t: Tree, d: nat, n: nat)
    requires t.Node? && t.Distinct() && t.Height() <= d
    ensures LeafKraft(t, d, n) == LeafKraft(t.zero, d - 1, n) + LeafKraft(t.one, d - 1, n)
  {
    if n == 0 {
    } else {
      LeafKraftSplit(t, d, n - 1);
      CodeWithinHeight(t.zero, n - 1);
      CodeWithinHeight(t.one, n - 1);
    }
  }

  lemma {:induction false} SingleLeafKraft(t: Tree, d: nat, n: nat)
    requires t.Leaf?
    ensures LeafKraft(t, d, n) == if t.id < n then Pow2(d) else 0
  {
    if n == 0 {
    } else {
      SingleLeafKraft(t, d, n - 1);
    }
  }

  lemma {:induction false} TreeKraft(t: Tree, d: nat, n: nat)
    requires t.Distinct() && t.Height() <= d && t.Symbols() <= Range(n)
    ensures LeafKraft(t, d, n) == Pow2(d)
  {
    match t
    case Leaf(_, _) => SingleLeafKraft(t, d, n);
    case Node(_, l, r) =>
      LeafKraftSplit(t, d, n);
      TreeKraft(l, d - 1, n);
      TreeKraft(r, d - 1, n);
  }

  lemma KraftFront(codes: seq<seq<bool>>, d: nat, n: nat)
    requires 0 < n <= |codes|
    ensures KraftSum(Lengths(codes[..n]), d) == KraftSum(Lengths(codes[..n - 1]), d) + Share(|codes[n - 1]|, d)
  {
    LengthsFront(codes, n);
    KraftSnoc(Lengths(codes[..n - 1]), |codes[n - 1]|, d);
  }

  lemma {:induction false} TableKraft(t: Tree, codes: seq<seq<bool>>, d: nat, n: nat)
    requires n <= |codes| && Range(|codes|) <= t.Symbols()
    requires forall i | 0 <= i < |codes| :: codes[i] == t.Code(i)
    ensures KraftSum(Lengths(codes[..n]), d) == LeafKraft(t, d, n)
  {
    if n == 0 {
    } else {
      TableKraft(t, codes, d, n - 1);
      KraftFront(codes, d, n);
      assert n - 1 in Range(|codes|) && codes[n - 1] == t.Code(n - 1);
    }
  }

  /** No code is a prefix of another, and the codes fill the tree: Kraft's sum is exactly one. */
  lemma HuffmanCodesComplete(freq: seq<nat>, d: nat)
    requires |freq| >= 1 && TreeOf(freq).Height() <= d
    ensures PrefixFree(HuffmanCodes(freq))
    ensures Within(Lengths(HuffmanCodes(freq)), d)
    ensures KraftSum(Lengths(HuffmanCodes(freq)), d) == Pow2(d)
  {
    var t, codes := TreeOf(freq), HuffmanCodes(freq);
    TreeOfLeaves(freq);
    forall i, j | 0 <= i < |codes| && 0 <= j < |codes| && i != j ensures !(codes[i] <= codes[j]) {
      CodesIncomparable(t, i, j);
    }
    forall i | 0 <= i < |codes| ensures Lengths(codes)[i] <= d {
      CodeWithinHeight(t, i);
    }
    TreeKraft(t, d, |freq|);
    TableKraft(t, codes, d, |freq|);
    assert codes[..|freq|] == codes;
  }
}
