/**
 The code of the end-of-stream symbol in the tree of the library's own table: it has at least 13 bits, and the third
 bit from its end is set. The tree is not computed; the argument follows the subtree with the symbol through the
 construction loop.
 */
module EndOfStreamCode {
  import opened StableSort
  import opened HuffmanTree
  import opened HuffmanHeight
  import opened FrequencyTable

  // ----- Subtrees during construction

  ghost predicate EndsWith(c: seq<bool>, tail: seq<bool>) {
    |tail| <= |c| && c[|c| - |tail|..] == tail
  }

  lemma EndsWithCons(c: seq<bool>, bit: bool, tail: seq<bool>)
    requires EndsWith(c, [bit] + tail)
    ensures EndsWith(c, tail)
  {
    assert ([bit] + tail)[1..] == tail;
    assert c[|c| - |tail|..] == c[|c| - |tail| - 1..][1..];
  }

  lemma {:induction false} SymbolsApart(list: seq<Tree>, i: nat)
    requires ForestDistinct(list) && i < |list|
    ensures list[i].Symbols() <= ForestSymbols(list)
    ensures i < |list| - 1 ==> list[i].Symbols() !! list[|list| - 1].Symbols()
  {
    if i == |list| - 1 {
    } else {
      SymbolsApart(list[..|list| - 1], i);
    }
  }

  /** What merging the last two does to the code of a symbol in one of them. */
  lemma MergedCode(r: seq<Tree>, id: nat, s: nat)
    requires |r| >= 2 && ForestDistinct(r)
    ensures var m := Node(id, r[|r| - 1], r[|r| - 2]);
            && (s in r[|r| - 1].Symbols() ==> m.Code(s) == [false] + r[|r| - 1].Code(s))
            && (s in r[|r| - 2].Symbols() ==> m.Code(s) == [true] + r[|r| - 2].Code(s))
  {
    SymbolsApart(r, |r| - 2);
  }

  /** What `Round` returns for an entry `v`: the sorted list, the next list, and the entry with `v` in it. */
  ghost predicate RoundOf(list: seq<Tree>, id: nat, v: Tree, s: nat, r: seq<Tree>, k: nat, next: seq<Tree>, w: Tree) {
    && |list| >= 2 && r == Sorted(list, ByWeight()) && Descending(r, ByWeight()) && k < |r| && r[k] == v
    && next == MergeLast(r, id) && ForestDistinct(next) && ForestWeight(next) == ForestWeight(list)
    && w in next && s in w.Symbols() && w == if k < |r| - 2 then v else next[|r| - 2]
  }

  /** One round of the construction loop, seen from the entry `v` at place `k` of the sorted list. */
  lemma RoundAt(list: seq<Tree>, id: nat, v: Tree, s: nat, r: seq<Tree>, k: nat)
    returns (next: seq<Tree>, w: Tree)
    requires |list| >= 2 && s in v.Symbols() && ForestDistinct(list)
    requires r == Sorted(list, ByWeight()) && k < |r| && r[k] == v
    ensures RoundOf(list, id, v, s, r, k, next, w) && Build(list, id) == Build(next, id + 1)
    ensures |next| == |list| - 1
    ensures k >= |r| - 2 ==> w.Code(s) == [k == |r| - 2] + v.Code(s)
  {
    SortedIsStable(list, ByWeight());
    SortKeepsForest(list);
    next := MergeLast(r, id);
    MergeKeepsForest(r, id);
    MergeKeepsDistinct(r, id);
    if k < |r| - 2 {
      assert next[k] == v;
      w := v;
    } else {
      w := next[|r| - 2];
      MergedCode(r, id, s);
    }
  }

  lemma Round(list: seq<Tree>, id: nat, v: Tree, s: nat)
    returns (r: seq<Tree>, k: nat, next: seq<Tree>, w: Tree)
    requires |list| >= 2 && v in list && s in v.Symbols() && ForestDistinct(list)
    ensures RoundOf(list, id, v, s, r, k, next, w) && Build(list, id) == Build(next, id + 1)
    ensures |next| == |list| - 1 && |r| == |list|
    ensures k >= |r| - 2 ==> w.Code(s) == [k == |r| - 2] + v.Code(s)
  {
    r := Sorted(list, ByWeight());
    SortKeepsMember(list, v);
    k :| 0 <= k < |r| && r[k] == v;
    next, w := RoundAt(list, id, v, s, r, k);
  }

  /** An entry of the list is a subtree of the finished tree. */
  lemma {:induction false} EntryStays(list: seq<Tree>, id: nat, v: Tree, s: nat)
    requires v in list && s in v.Symbols() && ForestDistinct(list)
    ensures EndsWith(Build(list, id).Code(s), v.Code(s))
    ensures |list| >= 2 ==> |Build(list, id).Code(s)| > |v.Code(s)|
    decreases |list|
  {
    if |list| == 1 {
    } else {
      var r, k, next, w := Round(list, id, v, s);
      EntryStays(next, id + 1, w, s);
      if k >= |r| - 2 {
        EndsWithCons(Build(list, id).Code(s), k == |r| - 2, v.Code(s));
      }
    }
  }

  // ----- How deep a light entry ends up

  /** Entries of which each outweighs `bound` and all before it together; `rest` is heavier than all of that. */
  ghost predicate Ladder(bound: nat, ws: seq<Tree>, rest: nat)
    decreases |ws|
  {
    if ws == [] then bound < rest
    else ws[0].Weight() > bound && Ladder(bound + ws[0].Weight(), ws[1..], rest)
  }

  lemma {:induction false} LadderAbove(bound: nat, ws: seq<Tree>, rest: nat)
    requires Ladder(bound, ws, rest)
    ensures bound < rest && forall i | 0 <= i < |ws| :: ws[i].Weight() > bound
    decreases |ws|
  {
    if ws == [] {
    } else {
      LadderAbove(bound + ws[0].Weight(), ws[1..], rest);
      forall i | 0 <= i < |ws| ensures ws[i].Weight() > bound {
        if i > 0 { assert ws[i] == ws[1..][i - 1]; }
      }
    }
  }

  ghost predicate AllIn(ws: seq<Tree>, list: seq<Tree>) {
    forall i | 0 <= i < |ws| :: ws[i] in list
  }

  /** What is heavier than an entry before the last two stays in the list. */
  lemma HeavierStays(r: seq<Tree>, id: nat, x: Tree, limit: nat)
    requires |r| >= 2 && Descending(r, ByWeight()) && x in r && x.Weight() > limit
    requires forall k | |r| - 2 <= k < |r| :: r[k].Weight() <= limit
    ensures x in MergeLast(r, id)
  {
    var k :| 0 <= k < |r| && r[k] == x;
    assert MergeLast(r, id)[k] == x;
  }

  lemma AllStay(list: seq<Tree>, r: seq<Tree>, id: nat, ws: seq<Tree>, limit: nat)
    requires |r| >= 2 && r == Sorted(list, ByWeight()) && Descending(r, ByWeight()) && AllIn(ws, list)
    requires forall i | 0 <= i < |ws| :: ws[i].Weight() > limit
    requires forall k | |r| - 2 <= k < |r| :: r[k].Weight() <= limit
    ensures AllIn(ws, MergeLast(r, id))
  {
    forall i | 0 <= i < |ws| ensures ws[i] in MergeLast(r, id) {
      SortKeepsMember(list, ws[i]);
      HeavierStays(r, id, ws[i], limit);
    }
  }

  lemma DominatedNext(list: seq<Tree>, id: nat, big: Tree)
    requires |list| >= 3 && Dominated(list, big)
    ensures Dominated(MergeLast(Sorted(list, ByWeight()), id), big)
  {
    var r := Sorted(list, ByWeight());
    DominatorFirst(list, big);
    MergeKeepsForest(r, id);
    assert MergeLast(r, id)[0] == big;
  }

  lemma PairForestWeight(list: seq<Tree>)
    requires |list| == 2
    ensures ForestWeight(list) == list[0].Weight() + list[1].Weight()
  {
    ForestSnoc([], list[0]);
    ForestSnoc([list[0]], list[1]);
    assert list == [list[0]] + [list[1]] && [] + [list[0]] == [list[0]];
  }

  lemma ThirdEntry(list: seq<Tree>, v: Tree, big: Tree, rest: nat)
    requires v in list && big in list && rest + big.Weight() == ForestWeight(list)
    requires v.Weight() < rest < big.Weight()
    ensures |list| >= 3
  {
    ForestSnoc([], v);
    assert [] + [v] == [v];
    if |list| == 2 {
      PairForestWeight(list);
    }
  }

  /** The partner of `v` in a merge is no heavier than an entry that is heavier than `v`. */
  lemma PartnerWeight(list: seq<Tree>, r: seq<Tree>, k: nat, x: Tree)
    requires r == Sorted(list, ByWeight()) && Descending(r, ByWeight()) && |r| >= 2 && |r| - 2 <= k < |r|
    requires x in list && x.Weight() > r[k].Weight()
    ensures r[|r| - 1].Weight() + r[|r| - 2].Weight() <= r[k].Weight() + x.Weight()
  {
    SortKeepsMember(list, x);
    var j :| 0 <= j < |r| && r[j] == x;
    PartnerAt(r, k, j);
  }

  lemma PartnerAt(r: seq<Tree>, k: nat, j: nat)
    requires Descending(r, ByWeight()) && |r| >= 2 && |r| - 2 <= k < |r| && j < |r|
    requires r[j].Weight() > r[k].Weight()
    ensures r[|r| - 1].Weight() + r[|r| - 2].Weight() <= r[k].Weight() + r[j].Weight()
  {
    var n := |r|;
    WeightsDescend(r, n - 2, n - 1);
    if j < n - 2 {
      WeightsDescend(r, j, n - 2);
    }
  }

  lemma WeightsDescend(r: seq<Tree>, i: nat, j: nat)
    requires Descending(r, ByWeight()) && i <= j < |r|
    ensures r[i].Weight() >= r[j].Weight()
  {
    assert i < j ==> ByWeight()(r[i]) >= ByWeight()(r[j]);
  }

  /** `v`, which contains `s` and weighs at most `bound`, is in the list with a ladder and the heaviest entry. */
  ghost predicate Climbing(list: seq<Tree>, v: Tree, s: nat, bound: nat, ws: seq<Tree>, big: Tree, rest: nat) {
    && v in list && s in v.Symbols() && ForestDistinct(list) && v.Weight() <= bound
    && Dominated(list, big) && rest + big.Weight() == ForestWeight(list)
    && AllIn(ws, list) && Ladder(bound, ws, rest)
  }

  lemma LongEnough(list: seq<Tree>, v: Tree, s: nat, bound: nat, ws: seq<Tree>, big: Tree, rest: nat)
    requires Climbing(list, v, s, bound, ws, big, rest)
    ensures |list| >= 3
  {
    LadderAbove(bound, ws, rest);
    ThirdEntry(list, v, big, rest);
  }

  /** A round that does not merge `v` keeps the ladder. */
  lemma PassedOver(list: seq<Tree>, id: nat, v: Tree, s: nat, bound: nat, ws: seq<Tree>, big: Tree, rest: nat,
                   r: seq<Tree>, k: nat, next: seq<Tree>)
    requires Climbing(list, v, s, bound, ws, big, rest) && |list| >= 3
    requires RoundOf(list, id, v, s, r, k, next, v) && k < |r| - 2
    ensures Climbing(next, v, s, bound, ws, big, rest)
  {
    LadderAbove(bound, ws, rest);
    DominatedNext(list, id, big);
    assert forall j | |r| - 2 <= j < |r| :: ByWeight()(r[k]) >= ByWeight()(r[j]);
    AllStay(list, r, id, ws, bound);
  }

  lemma RungWeight(list: seq<Tree>, id: nat, v: Tree, s: nat, bound: nat, ws: seq<Tree>, big: Tree, rest: nat,
                   r: seq<Tree>, k: nat, next: seq<Tree>, w: Tree)
    requires Climbing(list, v, s, bound, ws, big, rest) && ws != []
    requires RoundOf(list, id, v, s, r, k, next, w) && |r| - 2 <= k
    ensures |r| >= 2 && r[|r| - 1].Weight() + r[|r| - 2].Weight() <= bound + ws[0].Weight()
  {
    PartnerWeight(list, r, k, ws[0]);
  }

  lemma RungUsed(list: seq<Tree>, bound: nat, ws: seq<Tree>, rest: nat) returns (bound': nat, ws': seq<Tree>)
    requires AllIn(ws, list) && Ladder(bound, ws, rest) && ws != []
    ensures bound' == bound + ws[0].Weight() && |ws'| == |ws| - 1
    ensures AllIn(ws', list) && Ladder(bound', ws', rest) && forall i | 0 <= i < |ws'| :: ws'[i].Weight() > bound'
  {
    bound', ws' := bound + ws[0].Weight(), ws[1..];
    LadderAbove(bound', ws', rest);
  }

  /** A round that merges `v` uses up one rung at most. */
  lemma OneRung(list: seq<Tree>, id: nat, v: Tree, s: nat, bound: nat, ws: seq<Tree>, big: Tree, rest: nat,
                r: seq<Tree>, k: nat, next: seq<Tree>, w: Tree) returns (bound': nat, ws': seq<Tree>)
    requires Climbing(list, v, s, bound, ws, big, rest) && |list| >= 3 && ws != []
    requires RoundOf(list, id, v, s, r, k, next, w) && |r| - 2 <= k
    ensures |ws'| == |ws| - 1 && Climbing(next, w, s, bound', ws', big, rest)
  {
    bound', ws' := RungUsed(list, bound, ws, rest);
    DominatedNext(list, id, big);
    RungWeight(list, id, v, s, bound, ws, big, rest, r, k, next, w);
    AllStay(list, r, id, ws', bound');
  }

  /** Every rung of the ladder is one more level above `v`, and there are two more above the last. */
  lemma {:induction false} Climb(list: seq<Tree>, id: nat, v: Tree, s: nat, bound: nat, ws: seq<Tree>,
                                 big: Tree, rest: nat, t: Tree)
    requires Climbing(list, v, s, bound, ws, big, rest) && t == Build(list, id)
    ensures |t.Code(s)| >= |v.Code(s)| + |ws| + 2
    decreases |list|
  {
    LongEnough(list, v, s, bound, ws, big, rest);
    var r, k, next, w := Round(list, id, v, s);
    if k < |r| - 2 {
      PassedOver(list, id, v, s, bound, ws, big, rest, r, k, next);
      Climb(next, id + 1, v, s, bound, ws, big, rest, t);
    } else if ws == [] {
      EntryStays(next, id + 1, w, s);
    } else {
      var bound', ws' := OneRung(list, id, v, s, bound, ws, big, rest, r, k, next, w);
      Climb(next, id + 1, w, s, bound', ws', big, rest, t);
    }
  }

  // ----- Where the light entries are

  function Below(list: seq<Tree>, b: nat): (n: nat)
    ensures n <= |list|
  {
    if list == [] then 0
    else Below(list[..|list| - 1], b) + if list[|list| - 1].Weight() < b then 1 else 0
  }

  lemma BelowSnoc(front: seq<Tree>, x: Tree, b: nat)
    ensures Below(front + [x], b) == Below(front, b) + if x.Weight() < b then 1 else 0
  {
    assert (front + [x])[..|front|] == front;
  }

  lemma {:induction false} InsertBelow(x: Tree, s: seq<Tree>, b: nat)
    ensures Below(Insert(x, s, ByWeight()), b) == Below(s, b) + if x.Weight() < b then 1 else 0
  {
    if s != [] && ByWeight()(s[|s| - 1]) < ByWeight()(x) {
      var front, z := s[..|s| - 1], s[|s| - 1];
      InsertBelow(x, front, b);
      BelowSnoc(Insert(x, front, ByWeight()), z, b);
    } else {
      BelowSnoc(s, x, b);
      assert s == [] ==> s + [x] == [x];
    }
  }

  lemma {:induction false} SortedBelow(s: seq<Tree>, b: nat)
    ensures Below(Sorted(s, ByWeight()), b) == Below(s, b)
  {
    if s == [] {
    } else {
      SortedBelow(s[..|s| - 1], b);
      InsertBelow(s[|s| - 1], Sorted(s[..|s| - 1], ByWeight()), b);
    }
  }

  lemma {:induction false} NoneBelow(s: seq<Tree>, b: nat)
    requires forall i | 0 <= i < |s| :: s[i].Weight() >= b
    ensures Below(s, b) == 0
  {
    if s == [] {
    } else {
      NoneBelow(s[..|s| - 1], b);
    }
  }

  /** In a descending list the entries below a weight are the last ones. */
  lemma {:induction false} LightLast(r: seq<Tree>, b: nat, i: nat)
    requires Descending(r, ByWeight()) && i < |r|
    ensures r[i].Weight() < b <==> i >= |r| - Below(r, b)
  {
    var n := |r| - 1;
    if r[n].Weight() >= b {
      forall j | 0 <= j < |r| ensures r[j].Weight() >= b {
        assert j < n ==> ByWeight()(r[j]) >= ByWeight()(r[n]);
      }
      NoneBelow(r, b);
    } else if i < n {
      LightLast(r[..n], b, i);
    }
  }

  /** The number of table entries below `b`. */
  function Count(freq: seq<nat>, b: nat): (n: nat)
  {
    if freq == [] then 0
    else Count(freq[..|freq| - 1], b) + if freq[|freq| - 1] < b then 1 else 0
  }

  lemma {:induction false} LeavesBelow(freq: seq<nat>, b: nat)
    ensures Below(Leaves(freq), b) == Count(freq, b)
  {
    if freq == [] {
    } else {
      var n := |freq| - 1;
      LeavesBelow(freq[..n], b);
      assert Leaves(freq)[..n] == Leaves(freq[..n]);
    }
  }

  lemma {:induction false} CountConcat(a: seq<nat>, c: seq<nat>, b: nat)
    ensures Count(a + c, b) == Count(a, b) + Count(c, b)
  {
    if c == [] {
      assert a + c == a;
    } else {
      assert (a + c)[..|a + c| - 1] == a + c[..|c| - 1];
      CountConcat(a, c[..|c| - 1], b);
    }
  }

  lemma {:induction false} CountedBelow(freq: seq<nat>, b: nat, i: nat)
    requires i < |freq| && freq[i] < b
    ensures Count(freq, b) >= 1
  {
    if i == |freq| - 1 {
    } else {
      CountedBelow(freq[..|freq| - 1], b, i);
    }
  }

  function Hit(x: nat, b: nat): (n: nat) {
    if x < b then 1 else 0
  }

  lemma Count4(s: seq<nat>, b: nat)
    requires |s| == 4
    ensures Count(s, b) == Hit(s[0], b) + Hit(s[1], b) + Hit(s[2], b) + Hit(s[3], b)
  {
    assert s[..3][..2] == s[..2] && s[..2][..1] == s[..1] && s[..1][..0] == [];
    assert Count(s[..1], b) == Hit(s[0], b);
    assert Count(s[..2], b) == Hit(s[0], b) + Hit(s[1], b);
    assert Count(s[..3], b) == Hit(s[0], b) + Hit(s[1], b) + Hit(s[2], b);
  }

  lemma Count16(s: seq<nat>, b: nat)
    requires |s| == 16
    ensures Count(s, b) == (Hit(s[0], b) + Hit(s[1], b) + Hit(s[2], b) + Hit(s[3], b))
                         + (Hit(s[4], b) + Hit(s[5], b) + Hit(s[6], b) + Hit(s[7], b))
                         + (Hit(s[8], b) + Hit(s[9], b) + Hit(s[10], b) + Hit(s[11], b))
                         + (Hit(s[12], b) + Hit(s[13], b) + Hit(s[14], b) + Hit(s[15], b))
  {
    var w, x, y, z := s[..4], s[4..8], s[8..12], s[12..];
    assert s == w + x + y + z;
    CountConcat(w + x + y, z, b);
    CountConcat(w + x, y, b);
    CountConcat(w, x, b);
    Count4(w, b);
    Count4(x, b);
    Count4(y, b);
    Count4(z, b);
  }

  /** Counts below the four limits that matter here. */
  ghost predicate Counts(s: seq<nat>, n5: nat, n6: nat, n7: nat, n12: nat) {
    Count(s, 5) == n5 && Count(s, 6) == n6 && Count(s, 7) == n7 && Count(s, 12) == n12
  }

  lemma CountsConcat(a: seq<nat>, b: seq<nat>, a5: nat, a6: nat, a7: nat, a12: nat,
                     b5: nat, b6: nat, b7: nat, b12: nat)
    requires Counts(a, a5, a6, a7, a12) && Counts(b, b5, b6, b7, b12)
    ensures Counts(a + b, a5 + b5, a6 + b6, a7 + b7, a12 + b12)
  {
    CountConcat(a, b, 5);
    CountConcat(a, b, 6);
    CountConcat(a, b, 7);
    CountConcat(a, b, 12);
  }

  lemma {:induction false} NoneCounted(s: seq<nat>)
    requires forall i | 0 <= i < |s| :: s[i] >= 12
    ensures Counts(s, 0, 0, 0, 0)
  {
    if s == [] {
    } else {
      NoneCounted(s[..|s| - 1]);
    }
  }

  lemma RowCounts(s: seq<nat>)
    requires |s| == 16
    ensures forall b: nat | b == 5 || b == 6 || b == 7 || b == 12 ::
              Count(s, b) == (Hit(s[0], b) + Hit(s[1], b) + Hit(s[2], b) + Hit(s[3], b))
                           + (Hit(s[4], b) + Hit(s[5], b) + Hit(s[6], b) + Hit(s[7], b))
                           + (Hit(s[8], b) + Hit(s[9], b) + Hit(s[10], b) + Hit(s[11], b))
                           + (Hit(s[12], b) + Hit(s[13], b) + Hit(s[14], b) + Hit(s[15], b))
  {
    Count16(s, 5);
    Count16(s, 6);
    Count16(s, 7);
    Count16(s, 12);
  }

  lemma Row5Counts() ensures Counts(ROW5, 0, 0, 0, 2) { RowCounts(ROW5); }

  lemma Row6Counts() ensures Counts(ROW6, 0, 0, 0, 4) { RowCounts(ROW6); }

  lemma Row7Counts() ensures Counts(ROW7, 0, 1, 1, 5) { RowCounts(ROW7); }

  lemma Row14Counts() ensures Counts(ROW14, 0, 0, 0, 2) { RowCounts(ROW14); }

  lemma Row15Counts() ensures Counts(ROW15, 1, 1, 2, 3) { RowCounts(ROW15); }

  lemma FirstRows()
    ensures Counts(ROW0 + ROW1 + ROW2 + ROW3, 0, 0, 0, 0)
  {
    NoneCounted(ROW0 + ROW1 + ROW2 + ROW3);
  }

  lemma SecondRows()
    ensures Counts(ROW4 + ROW5 + ROW6 + ROW7, 0, 1, 1, 11)
  {
    NoneCounted(ROW4);
    Row5Counts();
    Row6Counts();
    Row7Counts();
    CountsConcat(ROW4, ROW5, 0, 0, 0, 0, 0, 0, 0, 2);
    CountsConcat(ROW4 + ROW5, ROW6, 0, 0, 0, 2, 0, 0, 0, 4);
    CountsConcat(ROW4 + ROW5 + ROW6, ROW7, 0, 0, 0, 6, 0, 1, 1, 5);
  }

  lemma ThirdRows()
    ensures Counts(ROW8 + ROW9 + ROW10 + ROW11, 0, 0, 0, 0)
  {
    NoneCounted(ROW8 + ROW9 + ROW10 + ROW11);
  }

  lemma FourthRows()
    ensures Counts(ROW12 + ROW13 + ROW14 + ROW15, 1, 1, 2, 5)
  {
    NoneCounted(ROW12);
    NoneCounted(ROW13);
    Row14Counts();
    Row15Counts();
    CountsConcat(ROW12, ROW13, 0, 0, 0, 0, 0, 0, 0, 0);
    CountsConcat(ROW12 + ROW13, ROW14, 0, 0, 0, 0, 0, 0, 0, 2);
    CountsConcat(ROW12 + ROW13 + ROW14, ROW15, 0, 0, 0, 2, 1, 1, 2, 3);
  }

  /** One entry is below 5, one is 5, one is 6, and 13 are from 7 to 11. */
  lemma TableCounts()
    ensures Counts(TABLE, 1, 2, 3, 16)
  {
    var a, b := ROW0 + ROW1 + ROW2 + ROW3, ROW4 + ROW5 + ROW6 + ROW7;
    var c, d := ROW8 + ROW9 + ROW10 + ROW11, ROW12 + ROW13 + ROW14 + ROW15;
    FirstRows();
    SecondRows();
    ThirdRows();
    FourthRows();
    NoneCounted([0x4000_0000]);
    CountsConcat([0x4000_0000], a, 0, 0, 0, 0, 0, 0, 0, 0);
    CountsConcat([0x4000_0000] + a, b, 0, 0, 0, 0, 0, 1, 1, 11);
    CountsConcat([0x4000_0000] + a + b, c, 0, 1, 1, 11, 0, 0, 0, 0);
    CountsConcat([0x4000_0000] + a + b + c, d, 0, 1, 1, 11, 1, 1, 2, 5);
    assert TABLE == [0x4000_0000] + a + b + c + d;
  }

  lemma TableEntries()
    ensures |TABLE| == 257 && TABLE[0] == 0x4000_0000 && TABLE[1] == 4545 && TABLE[10] == 838 && TABLE[41] == 404
    ensures TABLE[66] == 99 && TABLE[86] == 50 && TABLE[91] == 24
    ensures TABLE[148] == 1674 && TABLE[168] == 200 && TABLE[256] == 1
  {
  }

  // ----- The first rounds

  /** `v`, which contains `s`, is in the list together with some heavier entries and the heaviest one. */
  ghost predicate Carrying(list: seq<Tree>, v: Tree, s: nat, ws: seq<Tree>, big: Tree, rest: nat) {
    && v in list && s in v.Symbols() && ForestDistinct(list) && v.Weight() < rest
    && Dominated(list, big) && rest + big.Weight() == ForestWeight(list)
    && AllIn(ws, list)
  }

  ghost predicate AllAbove(ws: seq<Tree>, limit: nat) {
    forall i | 0 <= i < |ws| :: ws[i].Weight() > limit
  }

  /** A round that merges two light entries. */
  lemma LightRound(list: seq<Tree>, id: nat, v: Tree, s: nat, ws: seq<Tree>, big: Tree, rest: nat,
                   r: seq<Tree>, k: nat, limit: nat)
    returns (next: seq<Tree>, w: Tree)
    requires Carrying(list, v, s, ws, big, rest) && AllAbove(ws, limit) && 2 * limit < rest
    requires r == Sorted(list, ByWeight()) && k < |r| && r[k] == v
    requires forall j | |r| - 2 <= j < |r| && j >= 0 :: r[j].Weight() <= limit
    ensures |r| >= 3 && next == MergeLast(r, id) && Build(list, id) == Build(next, id + 1)
    ensures w == if k < |r| - 2 then v else next[|r| - 2]
    ensures Carrying(next, w, s, ws, big, rest)
    ensures k >= |r| - 2 ==> w.Code(s) == [k == |r| - 2] + v.Code(s)
  {
    ThirdEntry(list, v, big, rest);
    next, w := RoundAt(list, id, v, s, r, k);
    DominatedNext(list, id, big);
    AllStay(list, r, id, ws, limit);
  }

  lemma DescendingSorted(s: seq<Tree>)
    requires Descending(s, ByWeight())
    ensures Sorted(s, ByWeight()) == s
  {
    StableDescendingIsSorted(s, s, ByWeight());
  }

  /** An entry goes past all lighter ones at the end of a list. */
  lemma {:induction false} InsertPast(x: Tree, a: seq<Tree>, b: seq<Tree>)
    requires forall i | 0 <= i < |b| :: b[i].Weight() < x.Weight()
    ensures Insert(x, a + b, ByWeight()) == Insert(x, a, ByWeight()) + b
  {
    if b == [] {
      assert a + b == a;
      assert Insert(x, a, ByWeight()) + b == Insert(x, a, ByWeight());
    } else {
      var front, z := b[..|b| - 1], b[|b| - 1];
      assert (a + b)[..|a + b| - 1] == a + front && (a + b)[|a + b| - 1] == z;
      InsertPast(x, a, front);
      assert b == front + [z];
    }
  }

  /** The merged entry of a round goes in front of `tail`, which it outweighs. */
  lemma SortedNext(front: seq<Tree>, tail: seq<Tree>, m: Tree)
    requires Descending(front + tail, ByWeight())
    requires forall i | 0 <= i < |tail| :: tail[i].Weight() < m.Weight()
    ensures Sorted(front + tail + [m], ByWeight()) == Insert(m, front, ByWeight()) + tail
  {
    var list := front + tail + [m];
    assert list[..|list| - 1] == front + tail && list[|list| - 1] == m;
    DescendingSorted(front + tail);
    InsertPast(m, front, tail);
  }

  ghost predicate AllBetween(list: seq<Tree>, low: nat, high: nat) {
    forall i | 0 <= i < |list| :: low <= list[i].Weight() < high
  }

  /**
   Behind `v` there is an odd number of lighter entries, and any two of them together outweigh `v`. They are merged in
   pairs, the last one with `v`, which becomes the 1 branch.
   */
  lemma {:induction false} PairOff(list: seq<Tree>, id: nat, front: seq<Tree>, v: Tree, light: seq<Tree>, s: nat,
                                   ws: seq<Tree>, big: Tree, rest: nat)
    returns (list': seq<Tree>, id': nat, w: Tree)
    requires Carrying(list, v, s, ws, big, rest) && AllAbove(ws, 23) && rest > 46
    requires Sorted(list, ByWeight()) == front + [v] + light
    requires v.Weight() == 12 && AllBetween(light, 7, 12) && |light| % 2 == 1
    ensures list' != [] && Build(list, id) == Build(list', id') && Carrying(list', w, s, ws, big, rest)
    ensures w.Weight() <= 23 && w.Code(s) == [true] + v.Code(s)
    decreases |light|
  {
    var r := front + [v] + light;
    var n := |light|;
    assert r[|r| - 1] == light[n - 1];
    if n == 1 {
      assert r[|r| - 2] == v;
      list', w := LightRound(list, id, v, s, ws, big, rest, r, |r| - 2, 23);
      id' := id + 1;
    } else {
      PairParts(front, v, light);
      SortedIsStable(list, ByWeight());
      var next, w' := LightRound(list, id, v, s, ws, big, rest, r, |front|, 23);
      var front', light' := PairNext(r, id, front, v, light, next);
      list', id', w := PairOff(next, id + 1, front', v, light', s, ws, big, rest);
    }
  }

  lemma PairParts(front: seq<Tree>, v: Tree, light: seq<Tree>)
    requires |light| >= 2
    ensures var r, n := front + [v] + light, |light|;
            && r[..|r| - 2] == front + ([v] + light[..n - 2]) && r[|front|] == v
            && r[|r| - 1] == light[n - 1] && r[|r| - 2] == light[n - 2]
  {
  }

  lemma PairNext(r: seq<Tree>, id: nat, front: seq<Tree>, v: Tree, light: seq<Tree>, next: seq<Tree>)
    returns (front': seq<Tree>, light': seq<Tree>)
    requires Descending(r, ByWeight()) && r == front + [v] + light && |light| >= 2 && next == MergeLast(r, id)
    requires v.Weight() == 12 && AllBetween(light, 7, 12)
    ensures |light'| == |light| - 2 && AllBetween(light', 7, 12)
    ensures Sorted(next, ByWeight()) == front' + [v] + light'
  {
    var m := Node(id, light[|light| - 1], light[|light| - 2]);
    front', light' := Insert(m, front, ByWeight()), light[..|light| - 2];
    var tail := [v] + light';
    PairParts(front, v, light);
    DescendingPrefix(r, |r| - 2);
    SortedNext(front, tail, m);
    assert front' + tail == front' + [v] + light';
  }

  lemma DescendingPrefix(r: seq<Tree>, n: nat)
    requires Descending(r, ByWeight()) && n <= |r|
    ensures Descending(r[..n], ByWeight())
  {
  }

  // ----- The library's table

  const EOF_LEAF: Tree := Leaf(256, 1)
  const BIG_LEAF: Tree := Leaf(0, 0x4000_0000)

  function Rungs(): (ws: seq<Tree>) {
    [Leaf(91, 24), Leaf(86, 50), Leaf(66, 99), Leaf(168, 200), Leaf(41, 404), Leaf(10, 838), Leaf(148, 1674),
     Leaf(1, 4545)]
  }

  lemma RungsLadder()
    ensures Ladder(23, Rungs(), 44895) && AllAbove(Rungs(), 23)
  {
    assert Ladder(7857, [], 44895);
    LadderAbove(23, Rungs(), 44895);
  }

  lemma LeafIn(i: nat, w: nat)
    requires i < |TABLE| && TABLE[i] == w
    ensures Leaf(i, w) in Leaves(TABLE)
  {
    assert Leaves(TABLE)[i] == Leaf(i, w);
  }

  /** The list that construction starts from. */
  lemma StartList()
    ensures Carrying(Leaves(TABLE), EOF_LEAF, 256, Rungs(), BIG_LEAF, 44895)
  {
    TableEntries();
    TableIsShort();
    LeavesForest(TABLE);
    LeafIn(256, 1);
    LeafIn(0, 0x4000_0000);
    LeafIn(91, 24);
    LeafIn(86, 50);
    LeafIn(66, 99);
    LeafIn(168, 200);
    LeafIn(41, 404);
    LeafIn(10, 838);
    LeafIn(148, 1674);
    LeafIn(1, 4545);
  }

  /** Only the end-of-stream symbol has a frequency below 5. */
  lemma OnlyEofIsLight(i: nat)
    requires i < |TABLE| && TABLE[i] < 5
    ensures i == 256
  {
    TableEntries();
    TableCounts();
    assert TABLE == TABLE[..256] + [TABLE[256]];
    CountConcat(TABLE[..256], [TABLE[256]], 5);
    assert [TABLE[256]][..0] == [];
    assert Count([TABLE[256]], 5) == 1;
    if i < 256 {
      CountedBelow(TABLE[..256], 5, i);
    }
  }

  /** The lightest entries after the first sort, from the end: the end-of-stream symbol, 5, 6, and 13 below 12. */
  lemma FirstSort() returns (r: seq<Tree>)
    ensures r == Sorted(Leaves(TABLE), ByWeight()) && Descending(r, ByWeight()) && |r| == 257
    ensures r[256] == EOF_LEAF && r[255].Weight() == 5 && r[254].Weight() == 6
    ensures forall i | 241 <= i < 254 :: 7 <= r[i].Weight() < 12
    ensures forall i | 0 <= i < 241 :: r[i].Weight() >= 12
  {
    TableEntries();
    TableCounts();
    r := Sorted(Leaves(TABLE), ByWeight());
    SortedIsStable(Leaves(TABLE), ByWeight());
    Limits(r);
    var j := SortedFrom(Leaves(TABLE), ByWeight(), 256);
    OnlyEofIsLight(j);
  }

  lemma Limits(r: seq<Tree>)
    requires r == Sorted(Leaves(TABLE), ByWeight()) && Descending(r, ByWeight()) && |r| == 257
    ensures forall i | 0 <= i < 257 ::
              && (r[i].Weight() < 5 <==> i >= 256) && (r[i].Weight() < 6 <==> i >= 255)
              && (r[i].Weight() < 7 <==> i >= 254) && (r[i].Weight() < 12 <==> i >= 241)
  {
    TableCounts();
    forall i | 0 <= i < 257
      ensures r[i].Weight() < 5 <==> i >= 256
      ensures r[i].Weight() < 6 <==> i >= 255
      ensures r[i].Weight() < 7 <==> i >= 254
      ensures r[i].Weight() < 12 <==> i >= 241
    {
      Limit(r, 5, i);
      Limit(r, 6, i);
      Limit(r, 7, i);
      Limit(r, 12, i);
    }
  }

  lemma Limit(r: seq<Tree>, b: nat, i: nat)
    requires r == Sorted(Leaves(TABLE), ByWeight()) && Descending(r, ByWeight()) && i < |r|
    ensures r[i].Weight() < b <==> i >= |r| - Count(TABLE, b)
  {
    LightLast(r, b, i);
    SortedBelow(Leaves(TABLE), b);
    LeavesBelow(TABLE, b);
  }

  /** The lightest entries of a sorted list, from the end: `s`, then 5, 6, and 13 from 7 to 11. */
  ghost predicate LightEnd(r: seq<Tree>, e: Tree, s: nat) {
    && |r| == 257 && Descending(r, ByWeight()) && e == Leaf(s, 1)
    && r[256] == e && r[255].Weight() == 5 && r[254].Weight() == 6
    && (forall i | 241 <= i < 254 :: 7 <= r[i].Weight() < 12)
    && (forall i | 0 <= i < 241 :: r[i].Weight() >= 12)
  }

  /** The first round merges the symbol with 5. */
  lemma FirstRound(list: seq<Tree>, r: seq<Tree>, e: Tree, s: nat, ws: seq<Tree>, big: Tree, rest: nat)
    returns (next: seq<Tree>, w: Tree)
    requires LightEnd(r, e, s) && r == Sorted(list, ByWeight())
    requires Carrying(list, e, s, ws, big, rest) && AllAbove(ws, 23) && rest > 46
    ensures next == r[..255] + [w] && Carrying(next, w, s, ws, big, rest)
    ensures Build(list, 257) == Build(next, 258) && w.Weight() == 6 && w.Code(s) == [false]
  {
    next, w := LightRound(list, 257, e, s, ws, big, rest, r, 256, 23);
    assert w == Node(257, r[256], r[255]);
    assert [false] + e.Code(s) == [false];
  }

  lemma DescendingSnoc(r: seq<Tree>, x: Tree)
    requires Descending(r, ByWeight()) && forall i | 0 <= i < |r| :: r[i].Weight() >= x.Weight()
    ensures Descending(r + [x], ByWeight())
  {
  }

  lemma HeavierInFront(r: seq<Tree>, e: Tree, s: nat)
    requires LightEnd(r, e, s)
    ensures forall i | 0 <= i < 255 :: r[..255][i].Weight() >= 6
  {
  }

  lemma SecondList(r: seq<Tree>, e: Tree, s: nat, w: Tree, list: seq<Tree>)
    requires LightEnd(r, e, s) && list == r[..255] + [w] && w.Weight() == 6
    ensures |list| == 256 && Descending(list, ByWeight())
    ensures list[255] == w && list[254].Weight() == 6 && list[..254] == r[..254]
  {
    DescendingPrefix(r, 255);
    HeavierInFront(r, e, s);
    DescendingSnoc(r[..255], w);
  }

  /** The second round merges the result with 6. */
  lemma SecondRound(list: seq<Tree>, w: Tree, s: nat, ws: seq<Tree>, big: Tree, rest: nat)
    returns (next: seq<Tree>, v: Tree)
    requires |list| == 256 && Descending(list, ByWeight()) && list[255] == w && list[254].Weight() == 6
    requires w.Weight() == 6 && w.Code(s) == [false]
    requires Carrying(list, w, s, ws, big, rest) && AllAbove(ws, 23) && rest > 46
    ensures next == list[..254] + [v] && Carrying(next, v, s, ws, big, rest)
    ensures Build(list, 258) == Build(next, 259) && v.Weight() == 12 && v.Code(s) == [false, false]
  {
    DescendingSorted(list);
    next, v := LightRound(list, 258, w, s, ws, big, rest, list, 255, 23);
    assert v == Node(258, w, list[254]);
    assert [false] + [false] == [false, false];
  }

  lemma InsertLast(x: Tree, s: seq<Tree>)
    requires forall i | 0 <= i < |s| :: s[i].Weight() >= x.Weight()
    ensures Insert(x, s, ByWeight()) == s + [x]
  {
    assert s == [] ==> s + [x] == [x];
  }

  lemma SortedBehind(front: seq<Tree>, light: seq<Tree>, v: Tree)
    requires Descending(front + light, ByWeight()) && v.Weight() == 12 && AllBetween(light, 7, 12)
    requires forall i | 0 <= i < |front| :: front[i].Weight() >= 12
    ensures Sorted(front + light + [v], ByWeight()) == front + [v] + light
  {
    SortedNext(front, light, v);
    InsertLast(v, front);
  }

  lemma LightParts(r: seq<Tree>, e: Tree, s: nat, v: Tree) returns (front: seq<Tree>, light: seq<Tree>)
    requires LightEnd(r, e, s) && v.Weight() == 12
    ensures |light| == 13 && AllBetween(light, 7, 12)
    ensures Sorted(r[..254] + [v], ByWeight()) == front + [v] + light
  {
    front, light := r[..241], r[241..254];
    assert r[..254] == front + light;
    DescendingPrefix(r, 254);
    SortedBehind(front, light, v);
  }

  /** All of the first rounds: the symbol's code ends in 100, and its subtree weighs at most 23. */
  lemma FirstRounds(list: seq<Tree>, r: seq<Tree>, e: Tree, s: nat, ws: seq<Tree>, big: Tree, rest: nat)
    returns (list': seq<Tree>, id': nat, w: Tree)
    requires LightEnd(r, e, s) && r == Sorted(list, ByWeight())
    requires Carrying(list, e, s, ws, big, rest) && AllAbove(ws, 23) && rest > 46
    ensures list' != [] && Build(list, 257) == Build(list', id') && Carrying(list', w, s, ws, big, rest)
    ensures w.Weight() <= 23 && w.Code(s) == [true, false, false]
  {
    var next, w1 := FirstRound(list, r, e, s, ws, big, rest);
    SecondList(r, e, s, w1, next);
    var third, v := SecondRound(next, w1, s, ws, big, rest);
    var front, light := LightParts(r, e, s, v);
    list', id', w := PairOff(third, 259, front, v, light, s, ws, big, rest);
    assert [true] + [false, false] == [true, false, false];
  }

  /** The code has as many bits more as the ladder has rungs, and two. */
  lemma LightCode(list: seq<Tree>, r: seq<Tree>, e: Tree, s: nat, ws: seq<Tree>, big: Tree, rest: nat)
    requires LightEnd(r, e, s) && r == Sorted(list, ByWeight())
    requires Carrying(list, e, s, ws, big, rest) && AllAbove(ws, 23) && Ladder(23, ws, rest) && rest > 46
    ensures list != []
    ensures var c := Build(list, 257).Code(s); |c| >= 5 + |ws| && EndsWith(c, [true, false, false])
  {
    var list', id', w := FirstRounds(list, r, e, s, ws, big, rest);
    EntryStays(list', id', w, s);
    Climb(list', id', w, s, 23, ws, big, rest, Build(list, 257));
  }

  /**
   In the tree of the library's table the code of the end-of-stream symbol has at least 13 bits and ends in 100, so one
   of its bits behind the tenth is set.
   */
  lemma EofCode()
    ensures var c := TreeOf(TABLE).Code(256); |c| >= 13 && EndsWith(c, [true, false, false])
  {
    TableEntries();
    StartList();
    RungsLadder();
    var r := FirstSort();
    LightCode(Leaves(TABLE), r, EOF_LEAF, 256, Rungs(), BIG_LEAF, 44895);
  }
}
