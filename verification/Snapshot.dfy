/** Snapshots: the reading of their items, and what is kept of items that the library does not know. */
module Snapshot {
  import opened Bits
  import opened Errors
  import opened Varint
  import opened Unpacker
  import opened IntString

  // ----- Reading runs of integers

  /** Integers read one after the other, whatever happens. */
  function ReadInts(c: Cursor, n: nat): (r: (seq<int32>, Cursor))
    ensures |r.0| == n
    decreases n
  {
    if n == 0 then ([], c)
    else
      var (v, c1) := IntStep(c);
      var (vs, c2) := ReadInts(c1, n - 1);
      ([v] + vs, c2)
  }

  /** How one integer is read; the loops below work the same for any way of reading. */
  type IntReader = Cursor -> (int32, Cursor)

  /** Integers read until the first error shows. */
  function ReadUntilError(read: IntReader, c: Cursor, n: nat): (r: (seq<int32>, Cursor))
    ensures r.1.err == NONE ==> |r.0| == n
    decreases n
  {
    if n == 0 then ([], c)
    else
      var (v, c1) := read(c);
      if c1.err != NONE then ([v], c1)
      else
        var (vs, c2) := ReadUntilError(read, c1, n - 1);
        ([v] + vs, c2)
  }

  /** `c'` is further on in the same data. */
  ghost predicate Behind(c: Cursor, c': Cursor) {
    |c'.rest| <= |c.rest| && c'.rest == c.rest[|c.rest| - |c'.rest|..]
  }

  lemma BehindTrans(c: Cursor, c1: Cursor, c2: Cursor)
    requires Behind(c, c1) && Behind(c1, c2)
    ensures Behind(c, c2)
  {
    var k, k1 := |c.rest| - |c1.rest|, |c1.rest| - |c2.rest|;
    assert c.rest[k..][k1..] == c.rest[k + k1..];
  }

  lemma IntStepForward(c: Cursor)
    ensures Behind(c, IntStep(c).1) && (c.err != NONE ==> IntStep(c).1.err != NONE)
  {
  }

  lemma {:induction false} ReadIntsForward(c: Cursor, n: nat)
    ensures Behind(c, ReadInts(c, n).1)
    decreases n
  {
    if n == 0 {
    } else {
      var c1 := IntStep(c).1;
      IntStepForward(c);
      ReadIntsForward(c1, n - 1);
      BehindTrans(c, c1, ReadInts(c1, n - 1).1);
    }
  }

  lemma {:induction false} ReadUntilErrorForward(c: Cursor, n: nat)
    ensures Behind(c, ReadUntilError(IntStep, c, n).1)
    ensures c.err != NONE ==> ReadUntilError(IntStep, c, n).1.err != NONE
    decreases n
  {
    if n == 0 {
    } else {
      var c1 := IntStep(c).1;
      IntStepForward(c);
      if c1.err == NONE {
        ReadUntilErrorForward(c1, n - 1);
        BehindTrans(c, c1, ReadUntilError(IntStep, c1, n - 1).1);
      }
    }
  }

  // ----- A number depends on its own bytes only

  lemma {:induction false} ReadTailLocal(s: seq<byte>, left: nat, t: seq<byte>)
    requires ReadTail(s, left).Tail?
    ensures ReadTail(s[..ReadTail(s, left).used] + t, left) == ReadTail(s, left)
  {
    if left == 0 || s[0] < 128 || left == 1 {
    } else {
      ReadTailLocal(s[1..], left - 1, t);
      var u := ReadTail(s[1..], left - 1).used;
      assert (s[..u + 1] + t)[1..] == s[1..][..u] + t;
    }
  }

  lemma DecodeIntLocal(s: seq<byte>, t: seq<byte>)
    requires DecodeInt(s).Read?
    ensures DecodeInt(s[..DecodeInt(s).used] + t) == DecodeInt(s)
  {
    var used := DecodeInt(s).used;
    if s[0] >= 128 {
      ReadTailLocal(s[1..], 4, t);
      assert (s[..used] + t)[1..] == s[1..][..used - 1] + t;
    }
  }

  lemma IntStepLocal(s: seq<byte>, t: seq<byte>)
    requires IntStep(Cursor(s, NONE)).1.err == NONE
    ensures var (v, c) := IntStep(Cursor(s, NONE));
            |c.rest| <= |s| && IntStep(Cursor(s[..|s| - |c.rest|] + t, NONE)) == (v, Cursor(t, NONE))
  {
    DecodeIntLocal(s, t);
    var used := DecodeInt(s).used;
    assert (s[..used] + t)[used..] == t;
  }

  lemma FrontOfTwo(s: seq<byte>, a: nat, u: nat, t: seq<byte>)
    requires a + u <= |s|
    ensures s[..a + u] + t == s[..a] + (s[a..][..u] + t)
  {
  }

  lemma FrontRead(s: seq<byte>, a: nat, u: nat, used: nat, t: seq<byte>, v: int32)
    requires a + u == used <= |s| && IntStep(Cursor(s, NONE)) == (v, Cursor(s[a..], NONE))
    ensures IntStep(Cursor(s[..used] + t, NONE)) == (v, Cursor(s[a..][..u] + t, NONE))
  {
    FrontOfTwo(s, a, u, t);
    IntStepLocal(s, s[a..][..u] + t);
  }

  lemma ReadIntsCons(c: Cursor, n: nat, v: int32, c1: Cursor, vs: seq<int32>, c2: Cursor)
    requires n > 0 && IntStep(c) == (v, c1) && ReadInts(c1, n - 1) == (vs, c2)
    ensures ReadInts(c, n) == ([v] + vs, c2)
  {
  }

  /** `n` integers `vs` can be read from the first `used` bytes of `s`, whatever follows them. */
  ghost predicate Rereads(s: seq<byte>, used: nat, n: nat, t: seq<byte>, vs: seq<int32>) {
    used <= |s| && ReadInts(Cursor(s[..used] + t, NONE), n) == (vs, Cursor(t, NONE))
  }

  lemma RereadNone(s: seq<byte>, t: seq<byte>)
    ensures Rereads(s, 0, 0, t, [])
  {
    assert s[..0] + t == t;
  }

  lemma RereadOneMore(s: seq<byte>, a: nat, u: nat, used: nat, t: seq<byte>, vs: seq<int32>, n: nat)
    requires n > 0 && a + u == used <= |s| && vs != [] && IntStep(Cursor(s, NONE)) == (vs[0], Cursor(s[a..], NONE))
    requires Rereads(s[a..], u, n - 1, t, vs[1..])
    ensures Rereads(s, used, n, t, vs)
  {
    FrontRead(s, a, u, used, t, vs[0]);
    ReadIntsCons(Cursor(s[..used] + t, NONE), n, vs[0], Cursor(s[a..][..u] + t, NONE), vs[1..], Cursor(t, NONE));
    assert vs == [vs[0]] + vs[1..];
  }

  lemma ReadUntilErrorCons(s: seq<byte>, n: nat, vs: seq<int32>, c: Cursor, used: nat) returns (a: nat, u: nat)
    requires n > 0 && ReadUntilError(IntStep, Cursor(s, NONE), n) == (vs, c) && c.err == NONE
    requires used + |c.rest| == |s|
    ensures a + u == used && |vs| == n && IntStep(Cursor(s, NONE)) == (vs[0], Cursor(s[a..], NONE))
    ensures ReadUntilError(IntStep, Cursor(s[a..], NONE), n - 1) == (vs[1..], c)
  {
    var (v, c1) := IntStep(Cursor(s, NONE));
    IntStepForward(Cursor(s, NONE));
    a := |s| - |c1.rest|;
    ReadUntilErrorForward(c1, n - 1);
    u := used - a;
  }

  /** What was read without an error can be read again from a copy of its bytes, and nothing is left of them. */
  lemma {:induction false} RereadInts(s: seq<byte>, n: nat, t: seq<byte>, vs: seq<int32>, c: Cursor, used: nat)
    requires ReadUntilError(IntStep, Cursor(s, NONE), n) == (vs, c) && c.err == NONE && used + |c.rest| == |s|
    ensures Rereads(s, used, n, t, vs)
    decreases n
  {
    if n == 0 {
      RereadNone(s, t);
    } else {
      var a, u := ReadUntilErrorCons(s, n, vs, c, used);
      RereadInts(s[a..], n - 1, t, vs[1..], c, u);
      RereadOneMore(s, a, u, used, t, vs, n);
    }
  }

  lemma RereadData(c: Cursor, n: nat, vs: seq<int32>, c': Cursor)
    requires ReadUntilError(IntStep, c, n) == (vs, c') && c'.err == NONE
    ensures c.err == NONE && |vs| == n && |c'.rest| <= |c.rest|
    ensures ReadInts(Cursor(c.rest[..|c.rest| - |c'.rest|], NONE), n) == (vs, Cursor([], NONE))
    ensures n == 0 ==> c' == c
  {
    ReadUntilErrorForward(c, n);
    RereadInts(c.rest, n, [], vs, c', |c.rest| - |c'.rest|);
    var data := c.rest[..|c.rest| - |c'.rest|];
    assert data + [] == data;
  }

  // ----- Items

  datatype Part = Ints(n: nat) | Flag | Text(n: nat)

  datatype Value = IntsValue(ints: seq<int32>) | FlagValue(flag: bool) | TextValue(text: seq<byte>)

  datatype Option<T> = None | Some(value: T)

  /** The fields behind the id of the items that the library knows; events begin with their position. */
  function Layout(typeId: int32): (parts: Option<seq<Part>>) {
    match typeId
    case 2 => Some([Ints(6)])
    case 3 => Some([Ints(5)])
    case 4 => Some([Ints(4)])
    case 5 => Some([Ints(3)])
    case 6 => Some([Ints(8)])
    case 7 => Some([Ints(4)])
    case 9 => Some([Ints(22)])
    case 10 => Some([Flag, Ints(4)])
    case 11 => Some([Text(4), Text(3), Ints(1), Text(6), Flag, Ints(2)])
    case 12 => Some([Ints(3)])
    case 14 => Some([Ints(2)])
    case 15 => Some([Ints(2)])
    case 16 => Some([Ints(2)])
    case 17 => Some([Ints(2), Ints(1)])
    case 18 => Some([Ints(2), Ints(1)])
    case 19 => Some([Ints(2), Ints(1)])
    case 20 => Some([Ints(2), Ints(1)])
    case _ => None
  }

  function Unsigned(v: int32): (w: u32) {
    if v < 0 then v + 0x1_0000_0000 else v
  }

  function AllUnsigned(vs: seq<int32>): (ws: seq<u32>)
    ensures |ws| == |vs|
  {
    seq(|vs|, i requires 0 <= i < |vs| => Unsigned(vs[i]))
  }

  /** One part; only `ddproto_unpack_int_array_as_str` gives up at once when there is an error. */
  function PartStep(c: Cursor, p: Part): (r: (Value, Cursor, bool)) {
    match p
    case Ints(n) => var (vs, c') := ReadInts(c, n); (IntsValue(vs), c', false)
    case Flag => var (b, c') := BoolStep(c); (FlagValue(b), c', false)
    case Text(n) =>
      var (vs, c') := ReadUntilError(IntStep, c, n);
      if c'.err != NONE then (TextValue([]), c', true) else (TextValue(StringOf(AllUnsigned(vs))), c', false)
  }

  function PartsStep(c: Cursor, parts: seq<Part>): (r: (seq<Value>, Cursor))
    decreases |parts|
  {
    if parts == [] then ([], c)
    else
      var (v, c1, stop) := PartStep(c, parts[0]);
      if stop then ([v], c1)
      else
        var (vs, c2) := PartsStep(c1, parts[1..]);
        ([v] + vs, c2)
  }

  /** An unknown item keeps a pointer to its data; it is given here as the number of bytes left from there on. */
  datatype Item =
    | KnownItem(typeId: int32, id: int32, values: seq<Value>)
    | UnknownItem(typeId: int32, id: int32, size: int32, data: seq<byte>, left: nat)

  datatype Read<T> = Got(value: T) | Broken(error: Error) | NotCovered

  /** How often the loop over the integers of an unknown item runs. */
  function Rounds(size: int32): (n: nat) {
    if size < 0 then 0 else size
  }

  /** The bytes from one cursor to the other. */
  function Between(c: Cursor, c': Cursor): (data: seq<byte>)
    ensures |c'.rest| <= |c.rest| ==> |data| == |c.rest| - |c'.rest|
  {
    if |c'.rest| <= |c.rest| then c.rest[..|c.rest| - |c'.rest|] else []
  }

  /** The default branch of `ddproto_decode_snap_item` behind the id. */
  function UnknownStep(read: IntReader, c: Cursor, typeId: int32, id: int32): (r: (Read<Item>, Cursor)) {
    var (size, c1) := read(c);
    var c2 := ReadUntilError(read, c1, Rounds(size)).1;
    if c2.err != NONE then (Broken(c2.err), c2)
    else (Got(UnknownItem(typeId, id, size, Between(c1, c2), |c1.rest|)), c2)
  }

  function KnownStep(c: Cursor, typeId: int32, id: int32, parts: seq<Part>): (r: (Read<Item>, Cursor)) {
    var (values, c1) := PartsStep(c, parts);
    if c1.err != NONE then (Broken(c1.err), c1) else (Got(KnownItem(typeId, id, values)), c1)
  }

  /** The cases of `ddproto_decode_snap_item`; the position of an event is read even where the event is rejected. */
  function CaseStep(c: Cursor, typeId: int32, id: int32, layout: Option<seq<Part>>): (r: (Read<Item>, Cursor)) {
    match layout
    case Some(parts) => KnownStep(c, typeId, id, parts)
    case None =>
      if typeId == 13 then (Broken(UNKNOWN_SNAP_ITEM), ReadInts(c, 2).1)
      else if 0 < typeId < 3000 then (Broken(UNKNOWN_SNAP_ITEM), c)
      else UnknownStep(IntStep, c, typeId, id)
  }

  /** `ddproto_decode_snap_item`. */
  function ItemStep(c: Cursor): (r: (Read<Item>, Cursor)) {
    var (typeId, c1) := IntStep(c);
    var (id, c2) := IntStep(c1);
    CaseStep(c2, typeId, id, Layout(typeId))
  }

  lemma UnknownData(c: Cursor, typeId: int32, id: int32)
    returns (size: int32, c1: Cursor, vs: seq<int32>, c2: Cursor)
    requires UnknownStep(IntStep, c, typeId, id).0.Got?
    ensures IntStep(c) == (size, c1) && ReadUntilError(IntStep, c1, Rounds(size)) == (vs, c2) && c2.err == NONE
    ensures |c2.rest| <= |c1.rest|
    ensures UnknownStep(IntStep, c, typeId, id).0.value
         == UnknownItem(typeId, id, size, Between(c1, c2), |c1.rest|)
  {
    size, c1 := IntStep(c).0, IntStep(c).1;
    ReadUntilErrorForward(c1, Rounds(size));
    vs, c2 := ReadUntilError(IntStep, c1, Rounds(size)).0, ReadUntilError(IntStep, c1, Rounds(size)).1;
  }

  /**
   The data of an unknown item holds exactly as many integers as its size says: unpacking it again gives the integers
   that were skipped, with no error and nothing left over. A negative size is accepted, with no data.
   */
  lemma UnknownItemRereads(c: Cursor, typeId: int32, id: int32)
    requires UnknownStep(IntStep, c, typeId, id).0.Got?
    ensures var item := UnknownStep(IntStep, c, typeId, id).0.value;
            var skipped := ReadUntilError(IntStep, IntStep(c).1, Rounds(item.size)).0;
            && |skipped| == Rounds(item.size) && (item.size <= 0 ==> item.data == [])
            && ReadInts(Cursor(item.data, NONE), Rounds(item.size)) == (skipped, Cursor([], NONE))
  {
    var size, c1, vs, c2 := UnknownData(c, typeId, id);
    RereadData(c1, Rounds(size), vs, c2);
  }

  /** The data of an unknown item holds exactly as many integers as the item says. */
  ghost predicate Rereadable(item: Item) {
    item.UnknownItem? ==>
      (item.size <= 0 ==> item.data == [])
      && ReadInts(Cursor(item.data, NONE), Rounds(item.size)).1 == Cursor([], NONE)
  }

  /** So it is for every item that is read, from wherever the cursor is. */
  lemma ItemRereads(c: Cursor)
    ensures ItemStep(c).0.Got? ==> Rereadable(ItemStep(c).0.value)
  {
    var (typeId, c1) := IntStep(c);
    var (id, c2) := IntStep(c1);
    CaseRereads(c2, typeId, id, Layout(typeId));
  }

  lemma CaseRereads(c: Cursor, typeId: int32, id: int32, layout: Option<seq<Part>>)
    ensures var r := CaseStep(c, typeId, id, layout).0; r.Got? ==> Rereadable(r.value)
  {
    if layout.None? && UnknownStep(IntStep, c, typeId, id).0.Got? {
      UnknownItemRereads(c, typeId, id);
    }
  }

  // ----- Whole snapshots

  datatype Snapshot = Snapshot(removedKeys: seq<int32>, items: seq<Item>)

  /** How one item is read; what is said of lists of items holds whatever kinds there are. */
  type ItemReader = Cursor -> (Read<Item>, Cursor)

  function ItemsStep(read: ItemReader, c: Cursor, n: nat): (r: (Read<seq<Item>>, Cursor))
    decreases n
  {
    if n == 0 then (Got([]), c)
    else
      var (item, c1) := read(c);
      match item
      case Broken(e) => (Broken(e), c1)
      case NotCovered => (NotCovered, c1)
      case Got(i) =>
        var (items, c2) := ItemsStep(read, c1, n - 1);
        (if items.Got? then Got([i] + items.value) else items, c2)
  }

  function CountsStep(c: Cursor): (r: (int32, int32, Cursor)) {
    var (removed, c1) := IntStep(c);
    var (count, c2) := IntStep(c1);
    (removed, count, IntStep(c2).1)
  }

  function BodyStep(read: ItemReader, c: Cursor, removed: nat, count: int32): (r: (Read<Snapshot>, Cursor)) {
    var (keys, c1) := ReadInts(c, removed);
    if c1.err != NONE then (Broken(c1.err), c1)
    else if count < 0 then (NotCovered, c1)
    else
      var (items, c2) := ItemsStep(read, c1, count);
      match items
      case Got(all) => (Got(Snapshot(keys, all)), c2)
      case Broken(e) => (Broken(e), c2)
      case NotCovered => (NotCovered, c2)
  }

  /** `ddproto_decode_snapshot`; negative counts, which it takes for huge ones, are not covered. */
  function SnapshotStep(read: ItemReader, c: Cursor): (r: (Read<Snapshot>, Cursor)) {
    var (removed, count, c1) := CountsStep(c);
    if c1.err != NONE then (Broken(c1.err), c1)
    else if removed < 0 then (NotCovered, c1)
    else BodyStep(read, c1, removed, count)
  }

  lemma PartForward(c: Cursor, p: Part)
    ensures Behind(c, PartStep(c, p).1)
  {
    match p
    case Ints(n) => ReadIntsForward(c, n);
    case Flag => IntStepForward(c);
    case Text(n) => ReadUntilErrorForward(c, n);
  }

  lemma {:induction false} PartsForward(c: Cursor, parts: seq<Part>)
    ensures Behind(c, PartsStep(c, parts).1)
    decreases |parts|
  {
    if parts == [] {
    } else {
      var c1 := PartStep(c, parts[0]).1;
      PartForward(c, parts[0]);
      PartsForward(c1, parts[1..]);
      BehindTrans(c, c1, PartsStep(c1, parts[1..]).1);
    }
  }

  /** The data of an unknown item is the part of `s` that begins `left` bytes before its end. */
  ghost predicate SliceOf(item: Item, s: seq<byte>) {
    item.UnknownItem? ==>
      |item.data| <= item.left <= |s| && s[|s| - item.left..|s| - item.left + |item.data|] == item.data
  }

  /** How many bytes are left behind the item's data. */
  function LeftBehind(item: Item): (n: int)
    requires item.UnknownItem?
  {
    item.left - |item.data|
  }

  lemma SliceOfWhole(item: Item, c: Cursor, c': Cursor)
    requires Behind(c, c') && SliceOf(item, c'.rest)
    ensures SliceOf(item, c.rest)
  {
    if item.UnknownItem? {
      var k, a, n := |c.rest| - |c'.rest|, |c'.rest| - item.left, |item.data|;
      assert c.rest[k..][a..a + n] == c.rest[k + a..k + a + n];
    }
  }

  /** Reading an item moves forward, over the data of an unknown item and no further. */
  ghost predicate ItemRead(c: Cursor, r: (Read<Item>, Cursor)) {
    && Behind(c, r.1)
    && (r.0.Got? && r.0.value.UnknownItem? ==> SliceOf(r.0.value, c.rest) && LeftBehind(r.0.value) == |r.1.rest|)
  }

  lemma ItemReadWhole(c: Cursor, c1: Cursor, r: (Read<Item>, Cursor))
    requires Behind(c, c1) && ItemRead(c1, r)
    ensures ItemRead(c, r)
  {
    BehindTrans(c, c1, r.1);
    if r.0.Got? {
      SliceOfWhole(r.0.value, c, c1);
    }
  }

  lemma UnknownForward(c: Cursor, typeId: int32, id: int32)
    ensures ItemRead(c, UnknownStep(IntStep, c, typeId, id))
  {
    var (size, c1) := IntStep(c);
    IntStepForward(c);
    ReadUntilErrorForward(c1, Rounds(size));
    var r := UnknownStep(IntStep, c, typeId, id);
    if r.0.Got? {
      assert c1.rest[0..|r.0.value.data|] == r.0.value.data;
    }
    ItemReadWhole(c, c1, r);
  }

  lemma KnownForward(c: Cursor, typeId: int32, id: int32, parts: seq<Part>)
    ensures ItemRead(c, KnownStep(c, typeId, id, parts))
  {
    PartsForward(c, parts);
  }

  lemma BrokenForward(c: Cursor, c': Cursor)
    requires Behind(c, c')
    ensures ItemRead(c, (Broken(UNKNOWN_SNAP_ITEM), c'))
  {
  }

  lemma CaseForward(c: Cursor, typeId: int32, id: int32, layout: Option<seq<Part>>)
    ensures ItemRead(c, CaseStep(c, typeId, id, layout))
  {
    match layout
    case Some(parts) => KnownForward(c, typeId, id, parts);
    case None =>
      if typeId == 13 {
        ReadIntsForward(c, 2);
        BrokenForward(c, ReadInts(c, 2).1);
      } else if 0 < typeId < 3000 {
        BrokenForward(c, c);
      } else {
        UnknownForward(c, typeId, id);
      }
  }

  lemma ItemForward(c: Cursor)
    ensures ItemRead(c, ItemStep(c))
  {
    var (typeId, c1) := IntStep(c);
    var (id, c2) := IntStep(c1);
    IntStepForward(c);
    IntStepForward(c1);
    BehindTrans(c, c1, c2);
    CaseForward(c2, typeId, id, Layout(typeId));
    ItemReadWhole(c, c2, CaseStep(c2, typeId, id, Layout(typeId)));
  }

  ghost predicate ReadsForward(read: ItemReader) {
    forall c {:trigger read(c)} :: ItemRead(c, read(c))
  }

  lemma ItemsAreReadForward()
    ensures ReadsForward(ItemStep)
  {
    forall c: Cursor
      ensures ItemRead(c, ItemStep(c))
    {
      ItemForward(c);
    }
  }

  /** The unknown items point into `s`, each behind the end of the one before; all end before the last `end` bytes. */
  ghost predicate Disjoint(items: seq<Item>, s: seq<byte>, end: nat) {
    && (forall i | 0 <= i < |items| :: SliceOf(items[i], s))
    && (forall i | 0 <= i < |items| && items[i].UnknownItem? :: LeftBehind(items[i]) >= end)
    && (forall i, j | 0 <= i < j < |items| && items[i].UnknownItem? && items[j].UnknownItem? ::
          items[j].left <= LeftBehind(items[i]))
  }

  lemma DisjointCons(item: Item, items: seq<Item>, c: Cursor, c1: Cursor, end: nat)
    requires Behind(c, c1) && Disjoint(items, c1.rest, end) && end <= |c1.rest|
    requires item.UnknownItem? ==> SliceOf(item, c.rest) && LeftBehind(item) == |c1.rest|
    ensures Disjoint([item] + items, c.rest, end)
  {
    var all := [item] + items;
    forall i | 0 <= i < |all|
      ensures SliceOf(all[i], c.rest)
    {
      if i > 0 {
        SliceOfWhole(items[i - 1], c, c1);
      }
    }
    forall i, j | 0 <= i < j < |all| && all[i].UnknownItem? && all[j].UnknownItem?
      ensures all[j].left <= LeftBehind(all[i])
    {
      assert SliceOf(items[j - 1], c1.rest);
    }
  }

  lemma DisjointInWhole(items: seq<Item>, c: Cursor, c': Cursor, end: nat)
    requires Behind(c, c') && Disjoint(items, c'.rest, end)
    ensures Disjoint(items, c.rest, end)
  {
    forall i | 0 <= i < |items|
      ensures SliceOf(items[i], c.rest)
    {
      SliceOfWhole(items[i], c, c');
    }
  }

  ghost predicate ItemsRead(c: Cursor, r: (Read<seq<Item>>, Cursor)) {
    Behind(c, r.1) && (r.0.Got? ==> Disjoint(r.0.value, c.rest, |r.1.rest|))
  }

  lemma {:induction false} ItemsForward(read: ItemReader, c: Cursor, n: nat)
    requires ReadsForward(read)
    ensures ItemsRead(c, ItemsStep(read, c, n))
    decreases n
  {
    if n == 0 {
    } else {
      var (item, c1) := read(c);
      assert ItemRead(c, read(c));
      if item.Got? {
        var (items, c2) := ItemsStep(read, c1, n - 1);
        ItemsForward(read, c1, n - 1);
        BehindTrans(c, c1, c2);
        if items.Got? {
          DisjointCons(item.value, items.value, c, c1, |c2.rest|);
        }
      }
    }
  }

  ghost predicate SnapshotRead(c: Cursor, r: (Read<Snapshot>, Cursor)) {
    Behind(c, r.1) && (r.0.Got? ==> Disjoint(r.0.value.items, c.rest, |r.1.rest|))
  }

  lemma CountsForward(c: Cursor)
    ensures Behind(c, CountsStep(c).2)
  {
    var c1 := IntStep(c).1;
    var c2 := IntStep(c1).1;
    IntStepForward(c);
    IntStepForward(c1);
    IntStepForward(c2);
    BehindTrans(c, c1, c2);
    BehindTrans(c, c2, IntStep(c2).1);
  }

  lemma BodyForward(read: ItemReader, c: Cursor, removed: nat, count: int32)
    requires ReadsForward(read)
    ensures SnapshotRead(c, BodyStep(read, c, removed, count))
  {
    var c1 := ReadInts(c, removed).1;
    ReadIntsForward(c, removed);
    if c1.err == NONE && count >= 0 {
      var (items, c2) := ItemsStep(read, c1, count);
      ItemsForward(read, c1, count);
      BehindTrans(c, c1, c2);
      if items.Got? {
        DisjointInWhole(items.value, c, c1, |c2.rest|);
      }
    }
  }

  /**
   Across a whole snapshot the cursor only moves forward, and the data of the unknown items are disjoint slices of
   the buffer, in the order of the items.
   */
  lemma UnknownSlicesDisjoint(c: Cursor)
    ensures SnapshotRead(c, SnapshotStep(ItemStep, c))
  {
    ItemsAreReadForward();
    SlicesDisjoint(ItemStep, c);
  }

  lemma SlicesDisjoint(read: ItemReader, c: Cursor)
    requires ReadsForward(read)
    ensures SnapshotRead(c, SnapshotStep(read, c))
  {
    var (removed, count, c1) := CountsStep(c);
    CountsForward(c);
    if c1.err == NONE && removed >= 0 {
      var r := BodyStep(read, c1, removed, count);
      BodyForward(read, c1, removed, count);
      BehindTrans(c, c1, r.1);
      if r.0.Got? {
        DisjointInWhole(r.0.value.items, c, c1, |r.1.rest|);
      }
    }
  }

  ghost predicate AllRereadable(items: seq<Item>) {
    forall i | 0 <= i < |items| :: Rereadable(items[i])
  }

  ghost predicate ReadsRereadable(read: ItemReader) {
    forall c {:trigger read(c)} :: read(c).0.Got? ==> Rereadable(read(c).0.value)
  }

  lemma {:induction false} ItemsReread(read: ItemReader, c: Cursor, n: nat)
    requires ReadsRereadable(read)
    ensures ItemsStep(read, c, n).0.Got? ==> AllRereadable(ItemsStep(read, c, n).0.value)
    decreases n
  {
    if n == 0 {
    } else {
      var (item, c1) := read(c);
      if item.Got? {
        ItemsReread(read, c1, n - 1);
      }
    }
  }

  lemma BodyRereads(read: ItemReader, c: Cursor)
    requires ReadsRereadable(read)
    ensures SnapshotStep(read, c).0.Got? ==> AllRereadable(SnapshotStep(read, c).0.value.items)
  {
    var (removed, count, c1) := CountsStep(c);
    if c1.err == NONE && removed >= 0 {
      var c2 := ReadInts(c1, removed).1;
      if count >= 0 {
        ItemsReread(read, c2, count);
      }
    }
  }

  /** Every unknown item of a decoded snapshot can be unpacked again from its data, completely. */
  lemma SnapshotRereads(c: Cursor)
    ensures SnapshotStep(ItemStep, c).0.Got? ==> AllRereadable(SnapshotStep(ItemStep, c).0.value.items)
  {
    forall c': Cursor
      ensures ItemStep(c').0.Got? ==> Rereadable(ItemStep(c').0.value)
    {
      ItemRereads(c');
    }
    BodyRereads(ItemStep, c);
  }

  // ----- Errors

  /** No error shows while fewer than `n` integers have been read from `c`. */
  ghost predicate GoodUntil(c: Cursor, n: nat) {
    forall k | 0 <= k < n :: ReadInts(c, k).1.err == NONE
  }

  lemma GoodUntilCons(c: Cursor, c1: Cursor, n: nat)
    requires c.err == NONE && IntStep(c).1 == c1 && GoodUntil(c1, n)
    ensures GoodUntil(c, n + 1)
  {
    forall k | 0 <= k < n + 1
      ensures ReadInts(c, k).1.err == NONE
    {
      if k > 0 {
        assert ReadInts(c1, k - 1).1.err == NONE;
      }
    }
  }

  lemma FirstOfUntilError(c: Cursor, n: nat, vs: seq<int32>, c': Cursor) returns (c1: Cursor)
    requires n > 0 && ReadUntilError(IntStep, c, n) == (vs, c')
    ensures vs != [] && IntStep(c) == (vs[0], c1)
    ensures if c1.err == NONE then ReadUntilError(IntStep, c1, n - 1) == (vs[1..], c') else vs == [vs[0]] && c' == c1
  {
    c1 := IntStep(c).1;
  }

  lemma IntsCons(c: Cursor, m: nat, c1: Cursor, vs: seq<int32>, c2: Cursor)
    requires m > 0 && |vs| == m && IntStep(c) == (vs[0], c1) && ReadInts(c1, m - 1) == (vs[1..], c2)
    ensures ReadInts(c, m) == (vs, c2)
  {
    ReadIntsCons(c, m, vs[0], c1, vs[1..], c2);
    assert vs == [vs[0]] + vs[1..];
  }

  /** Reading until an error stops behind the first integer that sets it, and reads all of them if none does. */
  lemma {:induction false} StopsAtFirstError(c: Cursor, n: nat, vs: seq<int32>, c': Cursor, m: nat)
    requires c.err == NONE && ReadUntilError(IntStep, c, n) == (vs, c') && m == |vs|
    ensures m <= n && ReadInts(c, m) == (vs, c') && (c'.err == NONE ==> m == n) && GoodUntil(c, m)
    decreases n
  {
    if n == 0 {
    } else {
      var c1 := FirstOfUntilError(c, n, vs, c');
      if c1.err == NONE {
        StopsAtFirstError(c1, n - 1, vs[1..], c', m - 1);
        GoodUntilCons(c, c1, m - 1);
      }
      IntsCons(c, m, c1, vs, c');
    }
  }

  /** An error in a string ends the item there, with this error. */
  lemma StringEndsItem(c: Cursor, typeId: int32, id: int32, parts: seq<Part>)
    requires parts != [] && parts[0].Text?
    ensures var c' := ReadUntilError(IntStep, c, parts[0].n).1;
            c'.err != NONE ==> KnownStep(c, typeId, id, parts) == (Broken(c'.err), c')
  {
  }

  /** A success leaves no error behind, and a failure reports the error that is set, or a type that is rejected. */
  ghost predicate Honest<T>(r: (Read<T>, Cursor)) {
    && (r.0.Got? ==> r.1.err == NONE)
    && (r.0.Broken? ==> r.0.error == UNKNOWN_SNAP_ITEM || r.0.error == r.1.err != NONE)
  }

  lemma CaseIsHonest(c: Cursor, typeId: int32, id: int32, layout: Option<seq<Part>>)
    ensures Honest(CaseStep(c, typeId, id, layout))
  {
  }

  lemma ItemIsHonest(c: Cursor)
    ensures Honest(ItemStep(c))
  {
    var (typeId, c1) := IntStep(c);
    var (id, c2) := IntStep(c1);
    CaseIsHonest(c2, typeId, id, Layout(typeId));
  }

  lemma {:induction false} ItemsAreHonest(read: ItemReader, c: Cursor, n: nat)
    requires c.err == NONE && forall c' :: Honest(read(c'))
    ensures Honest(ItemsStep(read, c, n))
    decreases n
  {
    if n == 0 {
    } else {
      var (item, c1) := read(c);
      assert Honest(read(c));
      if item.Got? {
        ItemsAreHonest(read, c1, n - 1);
      }
    }
  }

  lemma BodyIsHonest(read: ItemReader, c: Cursor)
    requires forall c' :: Honest(read(c'))
    ensures Honest(SnapshotStep(read, c))
  {
    var (removed, count, c1) := CountsStep(c);
    if c1.err == NONE && removed >= 0 {
      var c2 := ReadInts(c1, removed).1;
      if c2.err == NONE && count >= 0 {
        ItemsAreHonest(read, c2, count);
      }
    }
  }

  /** A snapshot that is decoded was read to its end without an error. */
  lemma SnapshotIsHonest(c: Cursor)
    ensures Honest(SnapshotStep(ItemStep, c))
  {
    forall c': Cursor
      ensures Honest(ItemStep(c'))
    {
      ItemIsHonest(c');
    }
    BodyIsHonest(ItemStep, c);
  }

  // ----- The library functions

  /** Reading `n` integers from `c` has come to `vs` and `cur`, with `left` still to be read. */
  ghost predicate IntsSoFar(c: Cursor, n: nat, vs: seq<int32>, cur: Cursor, left: nat) {
    ReadInts(c, n) == (vs + ReadInts(cur, left).0, ReadInts(cur, left).1)
  }

  lemma IntsStart(c: Cursor, n: nat)
    ensures IntsSoFar(c, n, [], c, n)
  {
    var vs := ReadInts(c, n).0;
    assert [] + vs == vs;
  }

  lemma IntsNext(c: Cursor, n: nat, vs: seq<int32>, cur: Cursor, left: nat)
    requires IntsSoFar(c, n, vs, cur, left) && left > 0
    ensures var (v, next) := IntStep(cur); IntsSoFar(c, n, vs + [v], next, left - 1)
  {
    var (v, next) := IntStep(cur);
    var rest := ReadInts(next, left - 1).0;
    assert vs + ([v] + rest) == (vs + [v]) + rest;
  }

  lemma IntsEnd(c: Cursor, n: nat, vs: seq<int32>, cur: Cursor)
    requires IntsSoFar(c, n, vs, cur, 0)
    ensures ReadInts(c, n) == (vs, cur)
  {
    assert vs + [] == vs;
  }

  /** The same for reading that stops at an error. */
  ghost predicate UntilErrorSoFar(read: IntReader, c: Cursor, n: nat, vs: seq<int32>, cur: Cursor, left: nat) {
    ReadUntilError(read, c, n) == (vs + ReadUntilError(read, cur, left).0, ReadUntilError(read, cur, left).1)
  }

  lemma UntilErrorStart(read: IntReader, c: Cursor, n: nat)
    ensures UntilErrorSoFar(read, c, n, [], c, n)
  {
    var vs := ReadUntilError(read, c, n).0;
    assert [] + vs == vs;
  }

  lemma UntilErrorGoesOn(read: IntReader, c: Cursor, n: nat, vs: seq<int32>, cur: Cursor, left: nat,
                         v: int32, next: Cursor)
    requires UntilErrorSoFar(read, c, n, vs, cur, left) && left > 0 && read(cur) == (v, next) && next.err == NONE
    ensures UntilErrorSoFar(read, c, n, vs + [v], next, left - 1)
  {
    var rest := ReadUntilError(read, next, left - 1).0;
    assert vs + ([v] + rest) == (vs + [v]) + rest;
  }

  lemma UntilErrorStops(read: IntReader, c: Cursor, n: nat, vs: seq<int32>, cur: Cursor, left: nat,
                        v: int32, next: Cursor)
    requires UntilErrorSoFar(read, c, n, vs, cur, left) && left > 0 && read(cur) == (v, next) && next.err != NONE
    ensures ReadUntilError(read, c, n) == (vs + [v], next)
  {
  }

  lemma UntilErrorEnd(read: IntReader, c: Cursor, n: nat, vs: seq<int32>, cur: Cursor)
    requires UntilErrorSoFar(read, c, n, vs, cur, 0)
    ensures ReadUntilError(read, c, n) == (vs, cur)
  {
    assert vs + [] == vs;
  }

  method GetInts(u: Unpacker, n: nat) returns (vs: seq<int32>)
    requires u.Valid()
    modifies u`pos, u`err
    ensures u.Valid() && u.pos >= old(u.pos) && (vs, u.At()) == ReadInts(old(u.At()), n)
  {
    vs := [];
    ghost var c := u.At();
    IntsStart(c, n);
    for i := 0 to n
      invariant u.Valid() && u.pos >= old(u.pos) && IntsSoFar(c, n, vs, u.At(), n - i)
    {
      IntsNext(c, n, vs, u.At(), n - i);
      var v := u.GetInt();
      vs := vs + [v];
    }
    IntsEnd(c, n, vs, u.At());
  }

  /** Only proofs that name `IntStep` look into it. */
  ghost predicate ReadsInts(read: IntReader) {
    forall c {:trigger IntStep(c)} :: read(c) == IntStep(c)
  }

  method GetNext(ghost read: IntReader, u: Unpacker) returns (v: int32)
    requires ReadsInts(read) && u.Valid()
    modifies u`pos, u`err
    ensures u.Valid() && u.pos >= old(u.pos) && (v, u.At()) == read(old(u.At()))
  {
    assert read(u.At()) == IntStep(u.At());
    v := u.GetInt();
  }

  /** The loop over the integers of an unknown item, whose values are not kept. */
  method SkipInts(ghost read: IntReader, u: Unpacker, size: int32)
    requires ReadsInts(read) && u.Valid()
    modifies u`pos, u`err
    ensures u.Valid() && u.pos >= old(u.pos) && u.At() == ReadUntilError(read, old(u.At()), Rounds(size)).1
  {
    ghost var n := Rounds(size);
    ghost var c, vs, left := u.At(), [], n;
    ghost var cur := c;
    UntilErrorStart(read, c, n);
    var i: int := 0;
    while i < size
      invariant i + left == n && u.Valid() && u.pos >= old(u.pos)
      invariant cur == u.At() && UntilErrorSoFar(read, c, n, vs, cur, left)
      decreases left
    {
      var v := GetNext(read, u);
      ghost var next := u.At();
      if u.err != NONE {
        UntilErrorStops(read, c, n, vs, cur, left, v, next);
        return;
      }
      UntilErrorGoesOn(read, c, n, vs, cur, left, v, next);
      i, vs, left, cur := i + 1, vs + [v], left - 1, next;
    }
    UntilErrorEnd(read, c, n, vs, cur);
  }

  /** The loop of `ddproto_unpack_int_array_as_str`. */
  method GetIntsUntilError(ghost read: IntReader, u: Unpacker, n: nat, ints: array<u32>)
    returns (ghost vs: seq<int32>)
    requires ReadsInts(read) && u.Valid() && n <= ints.Length && ints as object != u.data
    modifies u`pos, u`err, ints
    ensures u.Valid() && u.pos >= old(u.pos) && (vs, u.At()) == ReadUntilError(read, old(u.At()), n)
    ensures u.err == NONE ==> |vs| == n && ints[..n] == AllUnsigned(vs)
  {
    ghost var c, left := u.At(), n;
    ghost var cur := c;
    vs := [];
    UntilErrorStart(read, c, n);
    for i := 0 to n
      invariant i + left == n && |vs| == i && u.Valid() && u.pos >= old(u.pos)
      invariant cur == u.At() && UntilErrorSoFar(read, c, n, vs, cur, left)
      invariant forall k | 0 <= k < i :: ints[k] == Unsigned(vs[k])
    {
      var v := GetNext(read, u);
      ghost var next := u.At();
      ints[i] := Unsigned(v);
      if u.err != NONE {
        UntilErrorStops(read, c, n, vs, cur, left, v, next);
        vs := vs + [v];
        return;
      }
      UntilErrorGoesOn(read, c, n, vs, cur, left, v, next);
      vs, left, cur := vs + [v], left - 1, next;
    }
    UntilErrorEnd(read, c, n, vs, cur);
  }

  /** `ddproto_unpack_int_array_as_str`, which has room for six integers. */
  method UnpackIntArrayAsStr(u: Unpacker, n: nat, str: array<byte>, strLen: nat) returns (err: Error)
    requires u.Valid() && 1 <= n <= 6 && strLen <= str.Length && str != u.data
    modifies u`pos, u`err, str
    ensures u.Valid() && u.pos >= old(u.pos) && u.At() == ReadUntilError(IntStep, old(u.At()), n).1
    ensures u.err != NONE ==> err == u.err && str[..] == old(str[..])
    ensures u.err == NONE && strLen < 4 * n ==> err == OUTPUT_VAR_TOO_SMALL && str[..] == old(str[..])
    ensures u.err == NONE && strLen >= 4 * n ==> (
              var vs := ReadUntilError(IntStep, old(u.At()), n).0;
              err == NONE && str[..4 * n] == StringOf(AllUnsigned(vs)))
  {
    var ints := new u32[6](_ => 0);
    ghost var vs := GetIntsUntilError(IntStep, u, n, ints);
    if u.err != NONE {
      return u.err;
    }
    err := IntsToStr(ints, n, str, strLen);
  }

  /** One part of an item; the buffers for the strings have four characters for every integer. */
  method GetPart(u: Unpacker, p: Part) returns (v: Value, stop: bool)
    requires u.Valid() && (p.Text? ==> 1 <= p.n <= 6)
    modifies u`pos, u`err
    ensures u.Valid() && u.pos >= old(u.pos) && (v, u.At(), stop) == PartStep(old(u.At()), p)
  {
    match p
    case Ints(n) =>
      var vs := GetInts(u, n);
      return IntsValue(vs), false;
    case Flag =>
      var b := u.GetBool();
      return FlagValue(b), false;
    case Text(n) =>
      var str := new byte[4 * n];
      var err := UnpackIntArrayAsStr(u, n, str, 4 * n);
      if err != NONE {
        return TextValue([]), true;
      }
      return TextValue(str[..4 * n]), false;
  }

  // Reading the parts of an item, with what has been read and what is still to come.

  ghost predicate PartsSoFar(c: Cursor, parts: seq<Part>, vs: seq<Value>, cur: Cursor, rest: seq<Part>) {
    PartsStep(c, parts) == (vs + PartsStep(cur, rest).0, PartsStep(cur, rest).1)
  }

  lemma PartsStart(c: Cursor, parts: seq<Part>)
    ensures PartsSoFar(c, parts, [], c, parts)
  {
    var vs := PartsStep(c, parts).0;
    assert [] + vs == vs;
  }

  lemma PartsGoOn(c: Cursor, parts: seq<Part>, vs: seq<Value>, cur: Cursor, rest: seq<Part>, v: Value, next: Cursor)
    requires PartsSoFar(c, parts, vs, cur, rest) && rest != [] && PartStep(cur, rest[0]) == (v, next, false)
    ensures PartsSoFar(c, parts, vs + [v], next, rest[1..])
  {
    var tail := PartsStep(next, rest[1..]).0;
    assert vs + ([v] + tail) == (vs + [v]) + tail;
  }

  lemma PartsStop(c: Cursor, parts: seq<Part>, vs: seq<Value>, cur: Cursor, rest: seq<Part>, v: Value, next: Cursor)
    requires PartsSoFar(c, parts, vs, cur, rest) && rest != [] && PartStep(cur, rest[0]) == (v, next, true)
    ensures PartsStep(c, parts) == (vs + [v], next)
  {
  }

  lemma PartsEnd(c: Cursor, parts: seq<Part>, vs: seq<Value>, cur: Cursor)
    requires PartsSoFar(c, parts, vs, cur, [])
    ensures PartsStep(c, parts) == (vs, cur)
  {
    assert vs + [] == vs;
  }

  /** The strings of an item are no longer than the buffer of `ddproto_unpack_int_array_as_str`. */
  predicate ShortTexts(parts: seq<Part>) {
    forall i | 0 <= i < |parts| && parts[i].Text? :: 1 <= parts[i].n <= 6
  }

  lemma LayoutsAreShort(typeId: int32)
    ensures Layout(typeId).Some? ==> ShortTexts(Layout(typeId).value)
  {
  }

  /** The fields of a known item, in order. */
  method GetParts(u: Unpacker, parts: seq<Part>) returns (vs: seq<Value>)
    requires u.Valid() && ShortTexts(parts)
    modifies u`pos, u`err
    ensures u.Valid() && u.pos >= old(u.pos) && (vs, u.At()) == PartsStep(old(u.At()), parts)
  {
    vs := [];
    ghost var c, rest := u.At(), parts;
    ghost var cur := c;
    PartsStart(c, parts);
    for i := 0 to |parts|
      invariant u.Valid() && u.pos >= old(u.pos) && cur == u.At() && rest == parts[i..]
      invariant PartsSoFar(c, parts, vs, cur, rest)
    {
      var v, stop := GetPart(u, parts[i]);
      ghost var next := u.At();
      if stop {
        PartsStop(c, parts, vs, cur, rest, v, next);
        vs := vs + [v];
        return;
      }
      PartsGoOn(c, parts, vs, cur, rest, v, next);
      vs, cur, rest := vs + [v], next, rest[1..];
    }
    PartsEnd(c, parts, vs, cur);
  }

  lemma UnknownIs(read: IntReader, c: Cursor, typeId: int32, id: int32, size: int32, c1: Cursor,
                  c2: Cursor, data: seq<byte>)
    requires read(c) == (size, c1) && ReadUntilError(read, c1, Rounds(size)).1 == c2 && data == Between(c1, c2)
    ensures UnknownStep(read, c, typeId, id)
         == (if c2.err != NONE then Broken(c2.err) else Got(UnknownItem(typeId, id, size, data, |c1.rest|)), c2)
  {
  }

  lemma FrontOfSlice(s: seq<byte>, from: nat, to: nat, end: nat)
    requires from <= to <= end <= |s|
    ensures s[from..end][..to - from] == s[from..to]
  {
  }

  /** The default branch of `ddproto_decode_snap_item`. */
  method DecodeUnknown(ghost read: IntReader, u: Unpacker, typeId: int32, id: int32) returns (r: Read<Item>)
    requires ReadsInts(read) && u.Valid()
    modifies u`pos, u`err
    ensures u.Valid() && u.pos >= old(u.pos) && (r, u.At()) == UnknownStep(read, old(u.At()), typeId, id)
  {
    ghost var c := u.At();
    var size := GetNext(read, u);
    var data := u.pos;
    ghost var c1 := u.At();
    SkipInts(read, u, size);
    FrontOfSlice(u.data[..], data, u.pos, u.end);
    UnknownIs(read, c, typeId, id, size, c1, u.At(), u.data[data..u.pos]);
    if u.err != NONE {
      return Broken(u.err);
    }
    return Got(UnknownItem(typeId, id, size, u.data[data..u.pos], u.end - data));
  }

  /** `ddproto_decode_snap_item`. */
  method DecodeItem(u: Unpacker) returns (r: Read<Item>)
    requires u.Valid()
    modifies u`pos, u`err
    ensures u.Valid() && u.pos >= old(u.pos) && (r, u.At()) == ItemStep(old(u.At()))
  {
    var typeId := u.GetInt();
    var id := u.GetInt();
    LayoutsAreShort(typeId);
    match Layout(typeId)
    case Some(parts) =>
      var values := GetParts(u, parts);
      if u.err != NONE {
        return Broken(u.err);
      }
      return Got(KnownItem(typeId, id, values));
    case None =>
      if typeId == 13 {
        var position := GetInts(u, 2);
        return Broken(UNKNOWN_SNAP_ITEM);
      }
      if 0 < typeId < 3000 {
        return Broken(UNKNOWN_SNAP_ITEM);
      }
      r := DecodeUnknown(IntStep, u, typeId, id);
  }

  ghost predicate ItemsSoFar(read: ItemReader, c: Cursor, n: nat, items: seq<Item>, cur: Cursor, left: nat) {
    var (rest, end) := ItemsStep(read, cur, left);
    ItemsStep(read, c, n) == (if rest.Got? then Got(items + rest.value) else rest, end)
  }

  lemma ItemsStart(read: ItemReader, c: Cursor, n: nat)
    ensures ItemsSoFar(read, c, n, [], c, n)
  {
    var items := ItemsStep(read, c, n).0;
    assert items.Got? ==> [] + items.value == items.value;
  }

  lemma ItemsGoOn(read: ItemReader, c: Cursor, n: nat, items: seq<Item>, cur: Cursor, left: nat, i: Item, next: Cursor)
    requires ItemsSoFar(read, c, n, items, cur, left) && left > 0 && read(cur) == (Got(i), next)
    ensures ItemsSoFar(read, c, n, items + [i], next, left - 1)
  {
    var rest := ItemsStep(read, next, left - 1).0;
    if rest.Got? {
      assert items + ([i] + rest.value) == (items + [i]) + rest.value;
    }
  }

  lemma ItemsStop(read: ItemReader, c: Cursor, n: nat, items: seq<Item>, cur: Cursor, left: nat, e: Error, next: Cursor)
    requires ItemsSoFar(read, c, n, items, cur, left) && left > 0 && read(cur) == (Broken(e), next)
    ensures ItemsStep(read, c, n) == (Broken(e), next)
  {
  }

  lemma ItemsEnd(read: ItemReader, c: Cursor, n: nat, items: seq<Item>, cur: Cursor)
    requires ItemsSoFar(read, c, n, items, cur, 0)
    ensures ItemsStep(read, c, n) == (Got(items), cur)
  {
    assert items + [] == items;
  }

  /** Only proofs that name `ItemStep` look into it. */
  ghost predicate ReadsItems(read: ItemReader) {
    forall c {:trigger ItemStep(c)} :: read(c) == ItemStep(c) && !read(c).0.NotCovered?
  }

  method GetItem(ghost read: ItemReader, u: Unpacker) returns (r: Read<Item>)
    requires ReadsItems(read) && u.Valid()
    modifies u`pos, u`err
    ensures u.Valid() && u.pos >= old(u.pos) && (r, u.At()) == read(old(u.At())) && !r.NotCovered?
  {
    assert read(u.At()) == ItemStep(u.At());
    r := DecodeItem(u);
  }

  /** The loop of `ddproto_decode_snapshot` over the items. */
  method DecodeItems(ghost read: ItemReader, u: Unpacker, n: nat) returns (r: Read<seq<Item>>)
    requires ReadsItems(read) && u.Valid()
    modifies u`pos, u`err
    ensures u.Valid() && u.pos >= old(u.pos) && (r, u.At()) == ItemsStep(read, old(u.At()), n) && !r.NotCovered?
  {
    ghost var c, left := u.At(), n;
    ghost var cur := c;
    var items := [];
    ItemsStart(read, c, n);
    for i := 0 to n
      invariant i + left == n && u.Valid() && u.pos >= old(u.pos) && cur == u.At()
      invariant ItemsSoFar(read, c, n, items, cur, left)
    {
      var item := GetItem(read, u);
      ghost var next := u.At();
      match item
      case Broken(e) =>
        ItemsStop(read, c, n, items, cur, left, e, next);
        return Broken(e);
      case NotCovered =>
        return NotCovered;
      case Got(it) =>
        ItemsGoOn(read, c, n, items, cur, left, it, next);
        items, cur, left := items + [it], next, left - 1;
    }
    ItemsEnd(read, c, n, items, cur);
    return Got(items);
  }

  /** `ddproto_decode_snapshot`. */
  method DecodeSnapshot(ghost read: ItemReader, u: Unpacker) returns (r: Read<Snapshot>)
    requires ReadsItems(read) && u.Valid()
    modifies u`pos, u`err
    ensures u.Valid() && u.pos >= old(u.pos) && (r, u.At()) == SnapshotStep(read, old(u.At()))
  {
    var removed, count := GetCounts(u);
    if u.err != NONE {
      return Broken(u.err);
    }
    if removed < 0 {
      return NotCovered;
    }
    var keys := GetInts(u, removed);
    if u.err != NONE {
      return Broken(u.err);
    }
    if count < 0 {
      return NotCovered;
    }
    var items := DecodeItems(read, u, count);
    match items
    case Got(all) => return Got(Snapshot(keys, all));
    case Broken(e) => return Broken(e);
    case NotCovered => return NotCovered;
  }

  method GetCounts(u: Unpacker) returns (removed: int32, count: int32)
    requires u.Valid()
    modifies u`pos, u`err
    ensures u.Valid() && u.pos >= old(u.pos) && (removed, count, u.At()) == CountsStep(old(u.At()))
  {
    removed := u.GetInt();
    count := u.GetInt();
    var unused := u.GetInt();
  }

  lemma CaseCovered(c: Cursor, typeId: int32, id: int32, layout: Option<seq<Part>>)
    ensures !CaseStep(c, typeId, id, layout).0.NotCovered?
  {
  }

  lemma ItemCovered(c: Cursor)
    ensures !ItemStep(c).0.NotCovered?
  {
    var (typeId, c1) := IntStep(c);
    var (id, c2) := IntStep(c1);
    CaseCovered(c2, typeId, id, Layout(typeId));
  }

  lemma ItemStepReads()
    ensures ReadsItems(ItemStep)
  {
    forall c: Cursor
      ensures !ItemStep(c).0.NotCovered?
    {
      ItemCovered(c);
    }
  }

  /** `ddproto_decode_snapshot` with the library's own items. */
  method ReadSnapshot(u: Unpacker) returns (r: Read<Snapshot>)
    requires u.Valid()
    modifies u`pos, u`err
    ensures u.Valid() && u.pos >= old(u.pos) && (r, u.At()) == SnapshotStep(ItemStep, old(u.At()))
  {
    ItemStepReads();
    r := DecodeSnapshot(ItemStep, u);
  }
}
