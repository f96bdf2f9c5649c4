/** Lists of message fields: written by the packer one by one, read back by the unpacker with the same types. */
module Fields {
  import opened Bits
  import opened Errors
  import opened Varint
  import opened Strings
  import opened Packer
  import opened Unpacker

  datatype Value = VInt(v: int32) | VBool(b: bool) | VString(s: seq<byte>) | VRaw(data: seq<byte>)

  datatype FieldType = TInt | TBool | TString | TRaw(len: nat)

  function TypeOf(v: Value): (t: FieldType) {
    match v
    case VInt(_) => TInt
    case VBool(_) => TBool
    case VString(_) => TString
    case VRaw(d) => TRaw(|d|)
  }

  function Types(vs: seq<Value>): (ts: seq<FieldType>)
    ensures |ts| == |vs|
  {
    seq(|vs|, i requires 0 <= i < |vs| => TypeOf(vs[i]))
  }

  /** A C string has no NUL inside. */
  ghost predicate Sendable(vs: seq<Value>) {
    forall i | 0 <= i < |vs| && vs[i].VString? :: NulFree(vs[i].s)
  }

  function FieldBytes(v: Value): (s: seq<byte>) {
    match v
    case VInt(x) => EncodeInt(x)
    case VBool(b) => EncodeInt(if b then 1 else 0)
    case VString(s) => s + [0]
    case VRaw(d) => d
  }

  function FieldsBytes(vs: seq<Value>): (s: seq<byte>) {
    if vs == [] then [] else FieldBytes(vs[0]) + FieldsBytes(vs[1..])
  }

  /** What arrives of a field: strings are sanitised on reading. */
  function Received(v: Value): (r: Value) {
    if v.VString? then VString(Sanitized(v.s)) else v
  }

  function AllReceived(vs: seq<Value>): (r: seq<Value>)
    ensures |r| == |vs|
  {
    seq(|vs|, i requires 0 <= i < |vs| => Received(vs[i]))
  }

  predicate CanReadField(c: Cursor, t: FieldType) {
    t.TString? ==> CanReadString(c)
  }

  function ReadField(c: Cursor, t: FieldType): (r: (Value, Cursor))
    requires CanReadField(c, t)
  {
    match t
    case TInt => var (x, c') := IntStep(c); (VInt(x), c')
    case TBool => var (b, c') := BoolStep(c); (VBool(b), c')
    case TString => var (s, c') := StringStep(c, DEFAULT_CLEANUP); (VString(s), c')
    case TRaw(n) => var (d, c') := RawStep(c, n); (VRaw(d), c')
  }

  /** No string of the schema would be looked for behind the end of the data. */
  predicate CanReadFields(c: Cursor, ts: seq<FieldType>)
    decreases |ts|
  {
    ts == [] || (CanReadField(c, ts[0]) && CanReadFields(ReadField(c, ts[0]).1, ts[1..]))
  }

  function ReadFields(c: Cursor, ts: seq<FieldType>): (r: (seq<Value>, Cursor))
    requires CanReadFields(c, ts)
    ensures |r.0| == |ts|
    decreases |ts|
  {
    if ts == [] then ([], c)
    else
      var (v, c1) := ReadField(c, ts[0]);
      var (vs, c2) := ReadFields(c1, ts[1..]);
      ([v] + vs, c2)
  }

  // ----- Reading undoes writing

  lemma {:induction false} FirstNulOfString(s: seq<byte>, rest: seq<byte>)
    requires NulFree(s)
    ensures FirstNul(s + [0] + rest) == |s|
  {
    if s == [] {
    } else {
      assert (s + [0] + rest)[1..] == s[1..] + [0] + rest;
      FirstNulOfString(s[1..], rest);
    }
  }

  lemma IntRoundTrip(x: int32, rest: seq<byte>)
    ensures IntStep(Cursor(EncodeInt(x) + rest, NONE)) == (x, Cursor(rest, NONE))
  {
    VarintRoundTrip(x, rest);
    assert (EncodeInt(x) + rest)[|EncodeInt(x)|..] == rest;
  }

  lemma StringRoundTrip(t: seq<byte>, rest: seq<byte>)
    requires NulFree(t)
    ensures StringStep(Cursor(t + [0] + rest, NONE), DEFAULT_CLEANUP) == (Sanitized(t), Cursor(rest, NONE))
  {
    var s := t + [0] + rest;
    FirstNulOfString(t, rest);
    assert s[..|t|] == t && s[|t| + 1..] == rest;
  }

  lemma RawRoundTrip(d: seq<byte>, rest: seq<byte>)
    ensures RawStep(Cursor(d + rest, NONE), |d|) == (d, Cursor(rest, NONE))
  {
    assert (d + rest)[..|d|] == d && (d + rest)[|d|..] == rest;
  }

  lemma FieldRoundTrip(v: Value, rest: seq<byte>)
    requires Sendable([v])
    ensures CanReadField(Cursor(FieldBytes(v) + rest, NONE), TypeOf(v))
    ensures ReadField(Cursor(FieldBytes(v) + rest, NONE), TypeOf(v)) == (Received(v), Cursor(rest, NONE))
  {
    match v
    case VInt(x) => IntRoundTrip(x, rest);
    case VBool(b) => IntRoundTrip(if b then 1 else 0, rest);
    case VString(t) =>
      assert NulFree([v][0].s);
      StringRoundTrip(t, rest);
    case VRaw(d) => RawRoundTrip(d, rest);
  }

  lemma ReadFieldsCons(c: Cursor, t: FieldType, ts: seq<FieldType>, v: Value, c1: Cursor, vs: seq<Value>, c2: Cursor)
    requires CanReadField(c, t) && ReadField(c, t) == (v, c1)
    requires CanReadFields(c1, ts) && ReadFields(c1, ts) == (vs, c2)
    ensures CanReadFields(c, [t] + ts) && ReadFields(c, [t] + ts) == ([v] + vs, c2)
  {
    assert ([t] + ts)[1..] == ts;
  }

  lemma ConcatAssoc(a: seq<byte>, b: seq<byte>, c: seq<byte>)
    ensures (a + b) + c == a + (b + c)
  {
  }

  lemma FieldsCons(vs: seq<Value>, rest: seq<byte>)
    requires vs != []
    ensures FieldsBytes(vs) + rest == FieldBytes(vs[0]) + (FieldsBytes(vs[1..]) + rest)
  {
    ConcatAssoc(FieldBytes(vs[0]), FieldsBytes(vs[1..]), rest);
  }

  lemma TypesCons(vs: seq<Value>)
    requires vs != []
    ensures Types(vs) == [TypeOf(vs[0])] + Types(vs[1..])
  {
  }

  lemma ReceivedCons(vs: seq<Value>)
    requires vs != []
    ensures AllReceived(vs) == [Received(vs[0])] + AllReceived(vs[1..])
  {
  }

  /**
   The fields of any list come back in order from the bytes that were written for them: strings sanitised, no
   error, and nothing of what follows them touched.
   */
  lemma {:induction false} FieldsRoundTrip(vs: seq<Value>, rest: seq<byte>)
    requires Sendable(vs)
    ensures CanReadFields(Cursor(FieldsBytes(vs) + rest, NONE), Types(vs))
    ensures ReadFields(Cursor(FieldsBytes(vs) + rest, NONE), Types(vs)) == (AllReceived(vs), Cursor(rest, NONE))
  {
    if vs == [] {
      assert FieldsBytes(vs) + rest == rest;
    } else {
      var v, tail := vs[0], FieldsBytes(vs[1..]) + rest;
      assert Sendable([v]);
      FieldRoundTrip(v, tail);
      FieldsRoundTrip(vs[1..], rest);
      FieldsCons(vs, rest);
      TypesCons(vs);
      ReceivedCons(vs);
      ReadFieldsCons(Cursor(FieldBytes(v) + tail, NONE), TypeOf(v), Types(vs[1..]), Received(v),
                     Cursor(tail, NONE), AllReceived(vs[1..]), Cursor(rest, NONE));
    }
  }

  // ----- Errors stay

  lemma ReadFieldKeepsError(c: Cursor, t: FieldType)
    requires CanReadField(c, t) && c.err != NONE
    ensures ReadField(c, t).1.err != NONE
  {
  }

  /** An error of the unpacker is never lost, whatever is read afterwards. */
  lemma {:induction false} ReadFieldsKeepError(c: Cursor, ts: seq<FieldType>)
    requires CanReadFields(c, ts) && c.err != NONE
    ensures ReadFields(c, ts).1.err != NONE
    decreases |ts|
  {
    if ts == [] {
    } else {
      ReadFieldKeepsError(c, ts[0]);
      ReadFieldsKeepError(ReadField(c, ts[0]).1, ts[1..]);
    }
  }

  // ----- The packer and the unpacker on a field list

  lemma {:induction false} FieldsBytesSnoc(vs: seq<Value>, v: Value)
    ensures FieldsBytes(vs + [v]) == FieldsBytes(vs) + FieldBytes(v)
  {
    if vs == [] {
      assert vs + [v] == [v] && [v][1..] == [];
      assert FieldsBytes([v]) == FieldBytes(v) + [];
    } else {
      assert (vs + [v])[1..] == vs[1..] + [v];
      FieldsBytesSnoc(vs[1..], v);
    }
  }

  /** The call of the packer for one field. */
  method AddField(p: Packer, v: Value) returns (e: Error)
    requires p.Valid() && Sendable([v])
    modifies p, p.buf
    ensures p.Valid() && p.Appended(FieldBytes(v), e)
  {
    assert v.VString? ==> NulFree([v][0].s);
    match v
    case VInt(x) => e := p.AddInt(x);
    case VBool(b) => e := p.AddInt(if b then 1 else 0);
    case VString(s) => e := p.AddString(s);
    case VRaw(d) => e := p.AddRaw(d);
  }

  /** What has become of a packer with the error `was`, the bytes `before` and `room` for more, asked to add `s`. */
  ghost predicate Packed(err: Error, contents: seq<byte>, was: Error, before: seq<byte>, room: nat, s: seq<byte>) {
    if |s| <= room then err == was && contents == before + s else err == BUFFER_FULL
  }

  lemma PackedMore(err: Error, contents: seq<byte>, was: Error, before: seq<byte>, room: nat, s: seq<byte>,
                   more: seq<byte>, err': Error, contents': seq<byte>)
    requires Packed(err, contents, was, before, room, s)
    requires if |contents| + |more| <= |before| + room then err' == err && contents' == contents + more
             else err' == BUFFER_FULL
    ensures Packed(err', contents', was, before, room, s + more)
  {
    ConcatAssoc(before, s, more);
  }

  /**
   Any list of fields is packed without an error exactly when its bytes fit in the buffer; an error, once set, is
   not lost by later calls that fit again.
   */
  method AddFields(p: Packer, vs: seq<Value>)
    requires p.Valid() && Sendable(vs)
    modifies p, p.buf
    ensures p.Valid()
    ensures if |FieldsBytes(vs)| <= old(p.Remaining())
            then p.err == old(p.err) && p.Contents() == old(p.Contents()) + FieldsBytes(vs)
            else p.err == BUFFER_FULL
  {
    ghost var room, before := p.Remaining(), p.Contents();
    assert before + [] == before;
    for i := 0 to |vs|
      invariant p.Valid()
      invariant Packed(p.err, p.Contents(), old(p.err), before, room, FieldsBytes(vs[..i]))
    {
      ghost var err, contents := p.err, p.Contents();
      var e := AddField(p, vs[i]);
      PackedMore(err, contents, old(p.err), before, room, FieldsBytes(vs[..i]), FieldBytes(vs[i]),
                 p.err, p.Contents());
      assert vs[..i + 1] == vs[..i] + [vs[i]];
      FieldsBytesSnoc(vs[..i], vs[i]);
    }
    assert vs[..|vs|] == vs;
  }

  /** The call of the unpacker for one field. */
  method GetField(u: Unpacker, t: FieldType) returns (v: Value)
    requires u.Valid() && CanReadField(u.At(), t)
    modifies u`pos, u`err, u.data
    ensures u.Valid() && u.pos >= old(u.pos) && (v, u.At()) == ReadField(old(u.At()), t)
    ensures forall i | 0 <= i < u.data.Length && !(old(u.pos) <= i < u.pos) :: u.data[i] == old(u.data[i])
  {
    match t
    case TInt => var x := u.GetInt(); v := VInt(x);
    case TBool => var b := u.GetBool(); v := VBool(b);
    case TString => var s := u.GetString(DEFAULT_CLEANUP); v := VString(s);
    case TRaw(n) => var d := u.GetRaw(n); v := VRaw(d);
  }

  /** Reading `ts` from `c` has got as far as `vs` and `cur`, with the types `rest` still to come. */
  ghost predicate ReadSoFar(c: Cursor, ts: seq<FieldType>, vs: seq<Value>, cur: Cursor, rest: seq<FieldType>) {
    && CanReadFields(c, ts) && CanReadFields(cur, rest)
    && ReadFields(c, ts) == (vs + ReadFields(cur, rest).0, ReadFields(cur, rest).1)
  }

  lemma ReadStart(c: Cursor, ts: seq<FieldType>)
    requires CanReadFields(c, ts)
    ensures ReadSoFar(c, ts, [], c, ts)
  {
    var r := ReadFields(c, ts);
    assert [] + r.0 == r.0;
  }

  lemma ReadNext(c: Cursor, ts: seq<FieldType>, vs: seq<Value>, cur: Cursor, rest: seq<FieldType>)
    requires ReadSoFar(c, ts, vs, cur, rest) && rest != []
    ensures CanReadField(cur, rest[0])
    ensures var (v, next) := ReadField(cur, rest[0]); ReadSoFar(c, ts, vs + [v], next, rest[1..])
  {
    var (v, next) := ReadField(cur, rest[0]);
    var tail := ReadFields(next, rest[1..]);
    assert vs + ([v] + tail.0) == (vs + [v]) + tail.0;
  }

  lemma ReadEnd(c: Cursor, ts: seq<FieldType>, vs: seq<Value>, cur: Cursor)
    requires ReadSoFar(c, ts, vs, cur, [])
    ensures ReadFields(c, ts) == (vs, cur)
  {
    assert vs + [] == vs;
  }

  /** Strings are cleaned up inside the buffer while it is read, but only behind the cursor. */
  method GetFields(u: Unpacker, ts: seq<FieldType>) returns (vs: seq<Value>)
    requires u.Valid() && CanReadFields(u.At(), ts)
    modifies u`pos, u`err, u.data
    ensures u.Valid() && u.pos >= old(u.pos) && (vs, u.At()) == ReadFields(old(u.At()), ts)
    ensures forall i | 0 <= i < u.data.Length && !(old(u.pos) <= i < u.pos) :: u.data[i] == old(u.data[i])
  {
    vs := [];
    ghost var c := u.At();
    ReadStart(c, ts);
    assert ts[0..] == ts;
    for i := 0 to |ts|
      invariant u.Valid() && u.pos >= old(u.pos)
      invariant ReadSoFar(c, ts, vs, u.At(), ts[i..])
      invariant forall k | 0 <= k < u.data.Length && !(old(u.pos) <= k < u.pos) :: u.data[k] == old(u.data[k])
    {
      ReadNext(c, ts, vs, u.At(), ts[i..]);
      assert ts[i..][1..] == ts[i + 1..];
      var v := GetField(u, ts[i]);
      vs := vs + [v];
    }
    ReadEnd(c, ts, vs, u.At());
  }
}
