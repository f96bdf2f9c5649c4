/**
 The sort of the Huffman work list.

 `Sorted` is the reference: the stable descending arrangement of a list under a key. The in-place bubble sort
 with its shrinking range is proved to leave exactly that arrangement, so the tree built from the sorted list
 depends on the frequencies alone.
 */
module StableSort {

  /** A work-list entry: a node of the tree under construction and the weight of everything below it. */
  datatype Entry = Entry(nodeId: nat, frequency: nat)

  /** `s` with `x` placed behind every element whose key is at least the key of `x`. */
  function Insert<T>(x: T, s: seq<T>, key: T -> int): (r: seq<T>)
    ensures |r| == |s| + 1
  {
    if s == [] then [x]
    else if key(s[|s| - 1]) >= key(x) then s + [x]
    else Insert(x, s[..|s| - 1], key) + [s[|s| - 1]]
  }

  /** The stable descending arrangement of `s`. */
  function Sorted<T>(s: seq<T>, key: T -> int): (r: seq<T>)
    ensures |r| == |s|
  {
    if s == [] then [] else Insert(s[|s| - 1], Sorted(s[..|s| - 1], key), key)
  }

  ghost predicate Descending<T>(s: seq<T>, key: T -> int) {
    forall i, j | 0 <= i < j < |s| :: key(s[i]) >= key(s[j])
  }

  /** The elements of `s` with key `v`, in their order. */
  function WithKey<T>(s: seq<T>, key: T -> int, v: int): (r: seq<T>)
  {
    if s == [] then []
    else if key(s[|s| - 1]) == v then WithKey(s[..|s| - 1], key, v) + [s[|s| - 1]]
    else WithKey(s[..|s| - 1], key, v)
  }

  /** `a` and `b` hold the same elements and elements of equal key keep their relative order. */
  ghost predicate StablePermutation<T>(a: seq<T>, b: seq<T>, key: T -> int) {
    forall v :: WithKey(a, key, v) == WithKey(b, key, v)
  }

  lemma {:induction false} WithKeyConcat<T>(a: seq<T>, b: seq<T>, key: T -> int, v: int)
    ensures WithKey(a + b, key, v) == WithKey(a, key, v) + WithKey(b, key, v)
  {
    if b == [] {
      assert a + b == a;
    } else {
      var n := |b| - 1;
      assert (a + b)[..|a| + n] == a + b[..n];
      WithKeyConcat(a, b[..n], key, v);
    }
  }

  lemma WithKeySingle<T>(x: T, key: T -> int, v: int)
    ensures WithKey([x], key, v) == if key(x) == v then [x] else []
  {
    assert [x][..0] == [];
  }

  /** Swapping two neighbours of different keys is invisible to `WithKey`. */
  lemma SwapNeighbours<T>(a: seq<T>, x: T, y: T, b: seq<T>, key: T -> int)
    requires key(x) != key(y)
    ensures StablePermutation(a + [x, y] + b, a + [y, x] + b, key)
  {
    forall v ensures WithKey(a + [x, y] + b, key, v) == WithKey(a + [y, x] + b, key, v) {
      WithKeyConcat(a + [x, y], b, key, v);
      WithKeyConcat(a + [y, x], b, key, v);
      WithKeyConcat(a, [x, y], key, v);
      WithKeyConcat(a, [y, x], key, v);
      assert [x, y] == [x] + [y] && [y, x] == [y] + [x];
      WithKeyConcat([x], [y], key, v);
      WithKeyConcat([y], [x], key, v);
      WithKeySingle(x, key, v);
      WithKeySingle(y, key, v);
    }
  }

  lemma {:induction false} WithKeyMember<T>(s: seq<T>, key: T -> int, v: int)
    ensures forall x :: x in WithKey(s, key, v) <==> x in s && key(x) == v
  {
    if s == [] {
    } else {
      WithKeyMember(s[..|s| - 1], key, v);
      assert s == s[..|s| - 1] + [s[|s| - 1]];
    }
  }

  /** A stable descending arrangement is unique. */
  lemma {:induction false} StableDescendingUnique<T>(a: seq<T>, b: seq<T>, key: T -> int)
    requires Descending(a, key) && Descending(b, key) && StablePermutation(a, b, key)
    ensures a == b
    decreases |a|
  {
    if a == [] || b == [] {
      if b != [] {
        WithKeyMember(b, key, key(b[0]));
        assert false;
      }
      if a != [] {
        WithKeyMember(a, key, key(a[0]));
        assert false;
      }
    } else {
      var x, y := a[|a| - 1], b[|b| - 1];
      LastKeysAgree(a, b, key);
      var v := key(x);
      assert WithKey(a, key, v) == WithKey(a[..|a| - 1], key, v) + [x];
      assert WithKey(b, key, v) == WithKey(b[..|b| - 1], key, v) + [y];
      assert x == WithKey(a, key, v)[|WithKey(a, key, v)| - 1] == y;
      var a', b' := a[..|a| - 1], b[..|b| - 1];
      forall w ensures WithKey(a', key, w) == WithKey(b', key, w) {
        assert WithKey(a, key, w) == WithKey(b, key, w);
        if w == v {
          assert WithKey(a', key, v) == WithKey(a, key, v)[..|WithKey(a, key, v)| - 1];
          assert WithKey(b', key, v) == WithKey(b, key, v)[..|WithKey(b, key, v)| - 1];
        }
      }
      StableDescendingUnique(a', b', key);
      assert a == a[..|a| - 1] + [x] && b == b[..|b| - 1] + [y];
    }
  }

  lemma LastKeysAgree<T>(a: seq<T>, b: seq<T>, key: T -> int)
    requires Descending(a, key) && Descending(b, key) && StablePermutation(a, b, key)
    requires a != [] && b != []
    ensures key(a[|a| - 1]) == key(b[|b| - 1])
  {
    var x, y := a[|a| - 1], b[|b| - 1];
    WithKeyMember(a, key, key(x));
    WithKeyMember(b, key, key(x));
    assert x in WithKey(a, key, key(x)) && x in WithKey(b, key, key(x)) && x in b;
    WithKeyMember(a, key, key(y));
    WithKeyMember(b, key, key(y));
    assert y in WithKey(b, key, key(y)) && y in WithKey(a, key, key(y)) && y in a;
  }

  lemma {:induction false} InsertAtLeast<T>(x: T, s: seq<T>, key: T -> int, low: int)
    requires key(x) >= low && forall i | 0 <= i < |s| :: key(s[i]) >= low
    ensures forall i | 0 <= i <= |s| :: key(Insert(x, s, key)[i]) >= low
  {
    if s == [] || key(s[|s| - 1]) >= key(x) {
    } else {
      InsertAtLeast(x, s[..|s| - 1], key, low);
    }
  }

  lemma {:induction false} InsertDescending<T>(x: T, s: seq<T>, key: T -> int)
    requires Descending(s, key)
    ensures Descending(Insert(x, s, key), key)
  {
    if s == [] || key(s[|s| - 1]) >= key(x) {
    } else {
      var front, z := s[..|s| - 1], s[|s| - 1];
      InsertDescending(x, front, key);
      InsertAtLeast(x, front, key, key(z));
    }
  }

  lemma {:induction false} InsertIsStable<T>(x: T, s: seq<T>, key: T -> int, v: int)
    ensures WithKey(Insert(x, s, key), key, v) == WithKey(s + [x], key, v)
  {
    if s != [] && key(s[|s| - 1]) < key(x) {
      var front, z := s[..|s| - 1], s[|s| - 1];
      InsertIsStable(x, front, key, v);
      WithKeyConcat(Insert(x, front, key), [z], key, v);
      WithKeyConcat(front + [x], [z], key, v);
      SwapNeighbours(front, x, z, [], key);
      assert front + [x] + [z] == front + [x, z] + [];
      assert s + [x] == front + [z, x] + [];
    } else {
      assert s == [] ==> s + [x] == [x];
    }
  }

  /** `Sorted` is the stable descending arrangement of its argument. */
  lemma {:induction false} SortedIsStable<T>(s: seq<T>, key: T -> int)
    ensures Descending(Sorted(s, key), key)
    ensures StablePermutation(Sorted(s, key), s, key)
  {
    if s == [] {
    } else {
      var front, x := s[..|s| - 1], s[|s| - 1];
      SortedIsStable(front, key);
      InsertDescending(x, Sorted(front, key), key);
      forall v ensures WithKey(Sorted(s, key), key, v) == WithKey(s, key, v) {
        InsertIsStable(x, Sorted(front, key), key, v);
        WithKeyConcat(Sorted(front, key), [x], key, v);
        WithKeyConcat(front, [x], key, v);
        assert s == front + [x];
      }
    }
  }

  /** Any stable descending arrangement of `s` is `Sorted(s)`. */
  lemma StableDescendingIsSorted<T>(r: seq<T>, s: seq<T>, key: T -> int)
    requires Descending(r, key) && StablePermutation(r, s, key)
    ensures r == Sorted(s, key)
  {
    SortedIsStable(s, key);
    forall v ensures WithKey(r, key, v) == WithKey(Sorted(s, key), key, v) {
      assert WithKey(r, key, v) == WithKey(s, key, v);
      assert WithKey(Sorted(s, key), key, v) == WithKey(s, key, v);
    }
    StableDescendingUnique(r, Sorted(s, key), key);
  }

  function ByFrequency(): Entry -> int {
    (e: Entry) => e.frequency
  }

  /**
   The state of a pass over `s` that has reached `i`: the elements from `bound` on are settled (descending, and no
   heavier than anything before them), the element at `i` is a lightest one so far, and as long as nothing was
   swapped the part already passed is descending.
   */
  ghost predicate PassState(s: seq<Entry>, i: nat, bound: int, changed: bool) {
    && (forall j, k | 0 <= j < k < |s| && bound <= k :: s[j].frequency >= s[k].frequency)
    && (forall j | 0 <= j < i < |s| :: s[j].frequency >= s[i].frequency)
    && (!changed ==> forall j, k | 0 <= j < k <= i < |s| :: s[j].frequency >= s[k].frequency)
  }

  function Swapped(s: seq<Entry>, i: nat): (r: seq<Entry>)
    requires i + 1 < |s|
    ensures |r| == |s|
  {
    s[i := s[i + 1]][i + 1 := s[i]]
  }

  lemma PassStep(s: seq<Entry>, i: nat, bound: int, changed: bool)
    requires i + 1 < bound <= |s| && PassState(s, i, bound, changed)
    ensures if s[i].frequency < s[i + 1].frequency then PassState(Swapped(s, i), i + 1, bound, true)
            else PassState(s, i + 1, bound, changed)
  {
    var r := Swapped(s, i);
    if s[i].frequency < s[i + 1].frequency {
      forall j, k | 0 <= j < k < |r| && bound <= k ensures r[j].frequency >= r[k].frequency {
        assert r[k] == s[k];
        assert r[j] == s[j] || r[j] == s[i] || r[j] == s[i + 1];
      }
    }
  }

  lemma PassEnd(s: seq<Entry>, i: nat, bound: int, changed: bool)
    requires bound <= |s| && i + 1 >= bound && (i < bound || i == 0) && PassState(s, i, bound, changed)
    ensures PassState(s, 0, bound - 1, true)
    ensures !changed ==> Descending(s, ByFrequency())
  {
  }

  /** One swap of the inner loop: the arrangement stays a stable permutation of the start. */
  lemma SwapStep(s: seq<Entry>, i: nat, start: seq<Entry>)
    requires i + 1 < |s| && s[i].frequency < s[i + 1].frequency
    requires StablePermutation(s, start, ByFrequency())
    ensures StablePermutation(Swapped(s, i), start, ByFrequency())
  {
    var a, b := s[..i], s[i + 2..];
    assert s == a + [s[i], s[i + 1]] + b;
    assert Swapped(s, i) == a + [s[i + 1], s[i]] + b;
    SwapNeighbours(a, s[i], s[i + 1], b, ByFrequency());
    forall v ensures WithKey(Swapped(s, i), ByFrequency(), v) == WithKey(start, ByFrequency(), v) {
      assert WithKey(s, ByFrequency(), v) == WithKey(start, ByFrequency(), v);
      assert WithKey(a + [s[i], s[i + 1]] + b, ByFrequency(), v)
          == WithKey(a + [s[i + 1], s[i]] + b, ByFrequency(), v);
    }
  }

  /** The inner loop: one pass over the first `bound` elements. */
  method BubblePass(list: array<Entry>, size: nat, bound: int, ghost start: seq<Entry>) returns (changed: bool)
    requires bound <= size <= list.Length
    requires PassState(list[..size], 0, bound, true) && StablePermutation(list[..size], start, ByFrequency())
    modifies list
    ensures PassState(list[..size], 0, bound - 1, true)
    ensures StablePermutation(list[..size], start, ByFrequency())
    ensures !changed ==> Descending(list[..size], ByFrequency())
    ensures bound <= 1 ==> !changed
    ensures list[size..] == old(list[size..])
  {
    changed := false;
    var i := 0;
    ghost var s := list[..size];
    while i < bound - 1
      invariant 0 <= i && (i < bound || i == 0)
      invariant s == list[..size] && list[size..] == old(list[size..])
      invariant StablePermutation(s, start, ByFrequency())
      invariant PassState(s, i, bound, changed)
      invariant bound <= 1 ==> !changed
    {
      PassStep(s, i, bound, changed);
      if list[i].frequency < list[i + 1].frequency {
        SwapStep(s, i, start);
        list[i], list[i + 1] := list[i + 1], list[i];
        changed := true;
        s := Swapped(s, i);
      }
      i := i + 1;
    }
    PassEnd(s, i, bound, changed);
  }

  /** `bubble_sort_nodes`: every pass stops one element earlier, and a pass without a swap is the last. */
  method BubbleSort(list: array<Entry>, size: nat)
    requires size <= list.Length
    modifies list
    ensures list[..size] == Sorted(old(list[..size]), ByFrequency())
    ensures list[size..] == old(list[size..])
  {
    var changed := true;
    var bound: int := size;
    ghost var start := list[..size];
    while changed
      invariant bound <= size && (bound < 0 ==> !changed)
      invariant list[size..] == old(list[size..])
      invariant StablePermutation(list[..size], start, ByFrequency())
      invariant if changed then PassState(list[..size], 0, bound, true) else Descending(list[..size], ByFrequency())
      decreases changed, bound
    {
      changed := BubblePass(list, size, bound, start);
      bound := bound - 1;
    }
    StableDescendingIsSorted(list[..size], start, ByFrequency());
  }
}
