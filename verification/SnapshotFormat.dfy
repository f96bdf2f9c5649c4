/** The bytes of snapshots, written down independently of the functions that read them, and what is read from them. */
module SnapshotFormat {
  import opened Bits
  import opened Errors
  import opened Varint
  import opened Unpacker
  import opened IntString
  import opened S = Snapshot

  import Fields

  // ----- Integers

  function IntsBytes(vs: seq<int32>): (s: seq<byte>) {
    if vs == [] then [] else EncodeInt(vs[0]) + IntsBytes(vs[1..])
  }

  lemma IntFirst(v: int32, s: seq<byte>, rest: seq<byte>)
    ensures IntStep(Cursor(EncodeInt(v) + s + rest, NONE)) == (v, Cursor(s + rest, NONE))
  {
    Fields.ConcatAssoc(EncodeInt(v), s, rest);
    Fields.IntRoundTrip(v, s + rest);
  }

  lemma {:induction false} IntsRoundTrip(vs: seq<int32>, rest: seq<byte>)
    ensures ReadInts(Cursor(IntsBytes(vs) + rest, NONE), |vs|) == (vs, Cursor(rest, NONE))
  {
    if vs == [] {
      assert IntsBytes(vs) + rest == rest;
    } else {
      IntFirst(vs[0], IntsBytes(vs[1..]), rest);
      IntsRoundTrip(vs[1..], rest);
      assert vs == [vs[0]] + vs[1..];
    }
  }

  lemma UntilErrorCons(read: IntReader, c: Cursor, n: nat, v: int32, c1: Cursor, vs: seq<int32>, c2: Cursor)
    requires n > 0 && read(c) == (v, c1) && c1.err == NONE && ReadUntilError(read, c1, n - 1) == (vs, c2)
    ensures ReadUntilError(read, c, n) == ([v] + vs, c2)
  {
  }

  /** `read` gets the integer `v` back from its bytes with `s` behind them. */
  ghost predicate GetsInt(read: IntReader, v: int32, s: seq<byte>) {
    read(Cursor(EncodeInt(v) + s, NONE)) == (v, Cursor(s, NONE))
  }

  lemma FirstInt(read: IntReader, vs: seq<int32>, rest: seq<byte>, c: Cursor) returns (v: int32, c1: Cursor)
    requires vs != [] && c == Cursor(IntsBytes(vs) + rest, NONE)
    requires GetsInt(read, vs[0], IntsBytes(vs[1..]) + rest)
    ensures read(c) == (v, c1) && c1 == Cursor(IntsBytes(vs[1..]) + rest, NONE) && vs == [v] + vs[1..]
  {
    Fields.ConcatAssoc(EncodeInt(vs[0]), IntsBytes(vs[1..]), rest);
    v, c1 := vs[0], Cursor(IntsBytes(vs[1..]) + rest, NONE);
  }

  lemma {:induction false} UntilErrorFrom(read: IntReader, vs: seq<int32>, rest: seq<byte>, c: Cursor, n: nat)
    requires forall v, s :: GetsInt(read, v, s)
    requires c == Cursor(IntsBytes(vs) + rest, NONE) && n == |vs|
    ensures ReadUntilError(read, c, n) == (vs, Cursor(rest, NONE))
    decreases n
  {
    if n == 0 {
      assert IntsBytes(vs) + rest == rest;
    } else {
      assert GetsInt(read, vs[0], IntsBytes(vs[1..]) + rest);
      var v, c1 := FirstInt(read, vs, rest, c);
      UntilErrorFrom(read, vs[1..], rest, c1, n - 1);
      UntilErrorCons(read, c, n, v, c1, vs[1..], Cursor(rest, NONE));
    }
  }

  lemma UntilErrorRoundTrip(vs: seq<int32>, rest: seq<byte>)
    ensures ReadUntilError(IntStep, Cursor(IntsBytes(vs) + rest, NONE), |vs|) == (vs, Cursor(rest, NONE))
  {
    forall v, s
      ensures GetsInt(IntStep, v, s)
    {
      Fields.IntRoundTrip(v, s);
    }
    UntilErrorFrom(IntStep, vs, rest, Cursor(IntsBytes(vs) + rest, NONE), |vs|);
  }

  // ----- Items

  /** A part of an item as it is sent: numbers, a truth value, or the integers of a string. */
  datatype Sent = Numbers(ints: seq<int32>) | Truth(b: bool) | Chars(words: seq<int32>)

  function ShapeOf(x: Sent): (p: Part) {
    match x
    case Numbers(ints) => Ints(|ints|)
    case Truth(_) => Flag
    case Chars(words) => Text(|words|)
  }

  function Shapes(xs: seq<Sent>): (parts: seq<Part>)
    ensures |parts| == |xs|
  {
    seq(|xs|, i requires 0 <= i < |xs| => ShapeOf(xs[i]))
  }

  function SentBytes(x: Sent): (s: seq<byte>) {
    match x
    case Numbers(ints) => IntsBytes(ints)
    case Truth(b) => EncodeInt(if b then 1 else 0)
    case Chars(words) => IntsBytes(words)
  }

  function AllSentBytes(xs: seq<Sent>): (s: seq<byte>) {
    if xs == [] then [] else SentBytes(xs[0]) + AllSentBytes(xs[1..])
  }

  function ValueOf(x: Sent): (v: Value) {
    match x
    case Numbers(ints) => IntsValue(ints)
    case Truth(b) => FlagValue(b)
    case Chars(words) => TextValue(StringOf(AllUnsigned(words)))
  }

  function ValuesOf(xs: seq<Sent>): (vs: seq<Value>)
    ensures |vs| == |xs|
  {
    seq(|xs|, i requires 0 <= i < |xs| => ValueOf(xs[i]))
  }

  lemma PartRoundTrip(x: Sent, rest: seq<byte>)
    ensures PartStep(Cursor(SentBytes(x) + rest, NONE), ShapeOf(x)) == (ValueOf(x), Cursor(rest, NONE), false)
  {
    match x
    case Numbers(ints) => IntsRoundTrip(ints, rest);
    case Truth(b) => Fields.IntRoundTrip(if b then 1 else 0, rest);
    case Chars(words) => UntilErrorRoundTrip(words, rest);
  }

  lemma PartsCons(c: Cursor, parts: seq<Part>, v: Value, c1: Cursor, vs: seq<Value>, c2: Cursor)
    requires parts != [] && PartStep(c, parts[0]) == (v, c1, false) && PartsStep(c1, parts[1..]) == (vs, c2)
    ensures PartsStep(c, parts) == ([v] + vs, c2)
  {
  }

  lemma SentCons(xs: seq<Sent>)
    requires xs != []
    ensures Shapes(xs)[0] == ShapeOf(xs[0]) && Shapes(xs)[1..] == Shapes(xs[1..])
    ensures ValuesOf(xs) == [ValueOf(xs[0])] + ValuesOf(xs[1..])
  {
  }

  lemma {:induction false} PartsRoundTrip(xs: seq<Sent>, rest: seq<byte>)
    ensures PartsStep(Cursor(AllSentBytes(xs) + rest, NONE), Shapes(xs)) == (ValuesOf(xs), Cursor(rest, NONE))
  {
    if xs == [] {
      assert AllSentBytes(xs) + rest == rest && Shapes(xs) == [] && ValuesOf(xs) == [];
    } else {
      var after := AllSentBytes(xs[1..]) + rest;
      Fields.ConcatAssoc(SentBytes(xs[0]), AllSentBytes(xs[1..]), rest);
      PartRoundTrip(xs[0], after);
      PartsRoundTrip(xs[1..], rest);
      SentCons(xs);
      PartsCons(Cursor(AllSentBytes(xs) + rest, NONE), Shapes(xs), ValueOf(xs[0]), Cursor(after, NONE),
                ValuesOf(xs[1..]), Cursor(rest, NONE));
    }
  }

  /** An item behind its type and id: the fields of a known one, or a count and as many integers. */
  datatype WireItem =
    | Known(typeId: int32, id: int32, parts: seq<Sent>)
    | Other(typeId: int32, id: int32, ints: seq<int32>)

  function ItemBytes(w: WireItem): (s: seq<byte>) {
    EncodeInt(w.typeId) + (EncodeInt(w.id) + BodyBytes(w))
  }

  function BodyBytes(w: WireItem): (s: seq<byte>) {
    match w
    case Known(_, _, parts) => AllSentBytes(parts)
    case Other(_, _, ints) => if |ints| < 0x8000_0000 then EncodeInt(|ints|) + IntsBytes(ints) else []
  }

  /**
   The fields of each type of item: so many integers, for player info a truth value first, and for client info three
   strings in four, three and six integers. Every other type from 1 to 2999 is rejected.
   */
  ghost predicate Conforms(w: WireItem) {
    match w
    case Known(typeId, _, parts) =>
      var shapes := Shapes(parts);
      || (typeId == 2 && shapes == [Ints(6)])
      || (typeId == 3 && shapes == [Ints(5)])
      || (typeId == 4 && shapes == [Ints(4)])
      || (typeId == 5 && shapes == [Ints(3)])
      || (typeId == 6 && shapes == [Ints(8)])
      || (typeId == 7 && shapes == [Ints(4)])
      || (typeId == 9 && shapes == [Ints(22)])
      || (typeId == 10 && shapes == [Flag, Ints(4)])
      || (typeId == 11 && shapes == [Text(4), Text(3), Ints(1), Text(6), Flag, Ints(2)])
      || (typeId == 12 && shapes == [Ints(3)])
      || (typeId in {14, 15, 16} && shapes == [Ints(2)])
      || (typeId in {17, 18, 19, 20} && shapes == [Ints(2), Ints(1)])
    case Other(typeId, _, ints) => !(0 < typeId < 3000) && |ints| < 0x8000_0000
  }

  /** What is read of an item with `behind` bytes behind it. */
  function ReadItem(w: WireItem, behind: nat): (i: Item) {
    match w
    case Known(typeId, id, parts) => KnownItem(typeId, id, ValuesOf(parts))
    case Other(typeId, id, ints) =>
      var data := IntsBytes(ints);
      UnknownItem(typeId, id, if |ints| < 0x8000_0000 then |ints| else 0, data, |data| + behind)
  }

  lemma ItemHead(typeId: int32, id: int32, s: seq<byte>, rest: seq<byte>)
    ensures ItemStep(Cursor(EncodeInt(typeId) + (EncodeInt(id) + s) + rest, NONE))
         == CaseStep(Cursor(s + rest, NONE), typeId, id, Layout(typeId))
  {
    IntFirst(typeId, EncodeInt(id) + s, rest);
    IntFirst(id, s, rest);
  }

  lemma ConformingLayout(w: WireItem)
    requires Conforms(w)
    ensures Layout(w.typeId) == if w.Known? then Some(Shapes(w.parts)) else None
  {
  }

  lemma KnownRead(typeId: int32, id: int32, parts: seq<Sent>, rest: seq<byte>)
    ensures CaseStep(Cursor(AllSentBytes(parts) + rest, NONE), typeId, id, Some(Shapes(parts)))
         == (Got(KnownItem(typeId, id, ValuesOf(parts))), Cursor(rest, NONE))
  {
    PartsRoundTrip(parts, rest);
  }

  lemma Front(a: seq<byte>, rest: seq<byte>)
    ensures Between(Cursor(a + rest, NONE), Cursor(rest, NONE)) == a
  {
    assert (a + rest)[..|a|] == a;
  }

  lemma CaseUnknown(c: Cursor, typeId: int32, id: int32)
    requires !(0 < typeId < 3000)
    ensures CaseStep(c, typeId, id, None) == UnknownStep(IntStep, c, typeId, id)
  {
  }

  lemma CaseRejected(c: Cursor, typeId: int32, id: int32)
    requires 0 < typeId < 3000
    ensures CaseStep(c, typeId, id, None).0 == Broken(UNKNOWN_SNAP_ITEM)
  {
  }

  lemma UnknownRead(typeId: int32, id: int32, size: int32, ints: seq<int32>, rest: seq<byte>, c: Cursor, left: nat)
    requires size == |ints| && c == Cursor(EncodeInt(size) + IntsBytes(ints) + rest, NONE)
    requires left == |IntsBytes(ints) + rest|
    ensures UnknownStep(IntStep, c, typeId, id)
         == (Got(UnknownItem(typeId, id, size, IntsBytes(ints), left)), Cursor(rest, NONE))
  {
    var c1, c2 := Cursor(IntsBytes(ints) + rest, NONE), Cursor(rest, NONE);
    IntFirst(size, IntsBytes(ints), rest);
    UntilErrorRoundTrip(ints, rest);
    Front(IntsBytes(ints), rest);
    UnknownIs(IntStep, c, typeId, id, size, c1, c2, IntsBytes(ints));
  }

  lemma OtherRead(w: WireItem, rest: seq<byte>, c: Cursor)
    requires w.Other? && !(0 < w.typeId < 3000) && |w.ints| < 0x8000_0000 && c == Cursor(BodyBytes(w) + rest, NONE)
    ensures CaseStep(c, w.typeId, w.id, None) == (Got(ReadItem(w, |rest|)), Cursor(rest, NONE))
  {
    var data := IntsBytes(w.ints);
    CaseUnknown(c, w.typeId, w.id);
    UnknownRead(w.typeId, w.id, |w.ints|, w.ints, rest, c, |data| + |rest|);
  }

  /** Every item is read from its bytes, whatever follows them. */
  lemma ItemRoundTrip(w: WireItem, rest: seq<byte>)
    requires Conforms(w)
    ensures ItemStep(Cursor(ItemBytes(w) + rest, NONE)) == (Got(ReadItem(w, |rest|)), Cursor(rest, NONE))
  {
    ItemHead(w.typeId, w.id, BodyBytes(w), rest);
    ConformingLayout(w);
    if w.Known? {
      KnownRead(w.typeId, w.id, w.parts, rest);
    } else {
      OtherRead(w, rest, Cursor(BodyBytes(w) + rest, NONE));
    }
  }

  lemma NoLayout(typeId: int32)
    requires typeId in {1, 8, 13} || 21 <= typeId < 3000
    ensures Layout(typeId) == None
  {
  }

  /** The types that are rejected. */
  lemma RejectedTypes(typeId: int32, id: int32, s: seq<byte>, rest: seq<byte>)
    requires typeId in {1, 8, 13} || 21 <= typeId < 3000
    ensures ItemStep(Cursor(EncodeInt(typeId) + (EncodeInt(id) + s) + rest, NONE)).0 == Broken(UNKNOWN_SNAP_ITEM)
  {
    ItemHead(typeId, id, s, rest);
    NoLayout(typeId);
    CaseRejected(Cursor(s + rest, NONE), typeId, id);
  }

  // ----- Whole snapshots

  function ItemsBytes(ws: seq<WireItem>): (s: seq<byte>) {
    if ws == [] then [] else ItemBytes(ws[0]) + ItemsBytes(ws[1..])
  }

  function ReadItems(ws: seq<WireItem>, behind: nat): (items: seq<Item>) {
    if ws == [] then [] else [ReadItem(ws[0], |ItemsBytes(ws[1..])| + behind)] + ReadItems(ws[1..], behind)
  }

  ghost predicate AllConform(ws: seq<WireItem>) {
    forall i | 0 <= i < |ws| :: Conforms(ws[i])
  }

  lemma ItemsCons(read: ItemReader, c: Cursor, n: nat, i: Item, c1: Cursor, items: seq<Item>, c2: Cursor)
    requires n > 0 && read(c) == (Got(i), c1) && ItemsStep(read, c1, n - 1) == (Got(items), c2)
    ensures ItemsStep(read, c, n) == (Got([i] + items), c2)
  {
  }

  /** `read` gets the item `w` back from its bytes with `rest` behind them. */
  ghost predicate GetsBack(read: ItemReader, w: WireItem, rest: seq<byte>) {
    read(Cursor(ItemBytes(w) + rest, NONE)) == (Got(ReadItem(w, |rest|)), Cursor(rest, NONE))
  }

  lemma FirstItem(read: ItemReader, ws: seq<WireItem>, rest: seq<byte>, c: Cursor) returns (i: Item, c1: Cursor)
    requires ws != [] && c == Cursor(ItemsBytes(ws) + rest, NONE)
    requires GetsBack(read, ws[0], ItemsBytes(ws[1..]) + rest)
    ensures read(c) == (Got(i), c1) && c1 == Cursor(ItemsBytes(ws[1..]) + rest, NONE)
    ensures ReadItems(ws, |rest|) == [i] + ReadItems(ws[1..], |rest|)
  {
    var after := ItemsBytes(ws[1..]) + rest;
    Fields.ConcatAssoc(ItemBytes(ws[0]), ItemsBytes(ws[1..]), rest);
    i, c1 := ReadItem(ws[0], |after|), Cursor(after, NONE);
  }

  lemma {:induction false} ItemsRoundTrip(read: ItemReader, ws: seq<WireItem>, rest: seq<byte>, c: Cursor, n: nat)
    requires AllConform(ws) && forall w, after | Conforms(w) :: GetsBack(read, w, after)
    requires c == Cursor(ItemsBytes(ws) + rest, NONE) && n == |ws|
    ensures ItemsStep(read, c, n) == (Got(ReadItems(ws, |rest|)), Cursor(rest, NONE))
    decreases n
  {
    if n == 0 {
      assert ItemsBytes(ws) + rest == rest;
    } else {
      assert GetsBack(read, ws[0], ItemsBytes(ws[1..]) + rest);
      var i, c1 := FirstItem(read, ws, rest, c);
      ItemsRoundTrip(read, ws[1..], rest, c1, n - 1);
      ItemsCons(read, c, n, i, c1, ReadItems(ws[1..], |rest|), Cursor(rest, NONE));
    }
  }

  lemma ItemsGetBack()
    ensures forall w, after | Conforms(w) :: GetsBack(ItemStep, w, after)
  {
    forall w, after | Conforms(w)
      ensures GetsBack(ItemStep, w, after)
    {
      ItemRoundTrip(w, after);
    }
  }

  lemma CountsRead(removed: int32, count: int32, unused: int32, s: seq<byte>, rest: seq<byte>)
    ensures CountsStep(Cursor(EncodeInt(removed) + (EncodeInt(count) + (EncodeInt(unused) + s)) + rest, NONE))
         == (removed, count, Cursor(s + rest, NONE))
  {
    IntFirst(removed, EncodeInt(count) + (EncodeInt(unused) + s), rest);
    IntFirst(count, EncodeInt(unused) + s, rest);
    IntFirst(unused, s, rest);
  }

  /** The bytes of a snapshot: how many keys, how many items, an unused number, the keys, the items. */
  function SnapshotBytes(keys: seq<int32>, ws: seq<WireItem>, unused: int32): (s: seq<byte>)
    requires |keys| < 0x8000_0000 && |ws| < 0x8000_0000
  {
    EncodeInt(|keys|) + (EncodeInt(|ws|) + (EncodeInt(unused) + (IntsBytes(keys) + ItemsBytes(ws))))
  }

  /** A snapshot is read from its bytes as exactly its keys and items, and what follows is left over. */
  lemma SnapshotRoundTrip(keys: seq<int32>, ws: seq<WireItem>, unused: int32, rest: seq<byte>)
    requires |keys| < 0x8000_0000 && |ws| < 0x8000_0000 && AllConform(ws)
    ensures SnapshotStep(ItemStep, Cursor(SnapshotBytes(keys, ws, unused) + rest, NONE))
         == (Got(Snapshot(keys, ReadItems(ws, |rest|))), Cursor(rest, NONE))
  {
    CountsRead(|keys|, |ws|, unused, IntsBytes(keys) + ItemsBytes(ws), rest);
    Fields.ConcatAssoc(IntsBytes(keys), ItemsBytes(ws), rest);
    IntsRoundTrip(keys, ItemsBytes(ws) + rest);
    ItemsGetBack();
    ItemsRoundTrip(ItemStep, ws, rest, Cursor(ItemsBytes(ws) + rest, NONE), |ws|);
  }
}
