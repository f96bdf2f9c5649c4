/** Reading from a received buffer, as functions on a cursor and as the object with its in-place string cleaning. */
module Unpacker {
  import opened Bits
  import opened Errors
  import opened Varint
  import opened Strings
  import opened Packer

  /** What is still to be read, and the error field. */
  datatype Cursor = Cursor(rest: seq<byte>, err: Error)

  /** `DDProtoStringSanitize`: which of the three clean-ups is asked for. */
  datatype Cleanup = Cleanup(sanitize: bool, sanitizeCc: bool, skipWhitespace: bool)

  const DEFAULT_CLEANUP: Cleanup := Cleanup(true, false, false)

  function Processed(s: seq<byte>, mode: Cleanup): (r: seq<byte>) {
    var t := if mode.sanitize then Sanitized(s) else if mode.sanitizeCc then SanitizedCc(s) else s;
    if mode.skipWhitespace then Cleaned(t) else t
  }

  /** The sanitising that is asked for first excludes the other one; the whitespace comes last. */
  lemma CleanupModes(s: seq<byte>, cc: bool)
    ensures Processed(s, DEFAULT_CLEANUP) == Processed(s, Cleanup(true, cc, false)) == Sanitized(s)
    ensures Processed(s, Cleanup(true, cc, true)) == Cleaned(Sanitized(s))
    ensures Processed(s, Cleanup(false, true, false)) == SanitizedCc(s)
    ensures Processed(s, Cleanup(false, true, true)) == Cleaned(SanitizedCc(s))
    ensures Processed(s, Cleanup(false, false, false)) == s && Processed(s, Cleanup(false, false, true)) == Cleaned(s)
  {
  }

  function FirstNul(s: seq<byte>): (n: nat)
    ensures n <= |s| && NulFree(s[..n]) && (n < |s| ==> s[n] == 0)
  {
    if s == [] || s[0] == 0 then 0
    else
      var n := 1 + FirstNul(s[1..]);
      assert s[..n] == [s[0]] + s[1..][..n - 1];
      n
  }

  /** `get_int` reads on even after an error; a cut-off number leaves the cursor on the last byte. */
  function IntStep(c: Cursor): (r: (int32, Cursor)) {
    match DecodeInt(c.rest)
    case Empty => (0, c.(err := EMPTY_BUFFER))
    case Truncated => (0, Cursor(c.rest[|c.rest| - 1..], END_OF_BUFFER))
    case Read(v, used) => (v, c.(rest := c.rest[used..]))
  }

  function BoolStep(c: Cursor): (r: (bool, Cursor)) {
    var (v, c') := IntStep(c);
    (v == 1, if v != 0 && v != 1 then c'.(err := INVALID_BOOL) else c')
  }

  function RawStep(c: Cursor, len: nat): (r: (seq<byte>, Cursor)) {
    if |c.rest| < len then ([], c.(err := END_OF_BUFFER)) else (c.rest[..len], c.(rest := c.rest[len..]))
  }

  /** `get_string` looks at one byte before it compares with the end, so there must be one. */
  predicate CanReadString(c: Cursor) {
    c.err != NONE || c.rest != []
  }

  function StringStep(c: Cursor, mode: Cleanup): (r: (seq<byte>, Cursor))
    requires CanReadString(c)
  {
    if c.err != NONE then ([], c)
    else
      var n := FirstNul(c.rest);
      if n == |c.rest| then ([], Cursor([], STR_UNEXPECTED_EOF))
      else (Processed(c.rest[..n], mode), Cursor(c.rest[n + 1..], NONE))
  }

  // ----- What a read finds

  lemma {:induction false} TailMissing(s: seq<byte>, left: nat)
    ensures ReadTail(s, left) == NoTail <==> |s| < left && forall i | 0 <= i < |s| :: s[i] >= 128
    decreases left
  {
    if left == 0 || s == [] || s[0] < 128 || left == 1 {
    } else {
      TailMissing(s[1..], left - 1);
      if forall i | 0 <= i < |s| - 1 :: s[1..][i] >= 128 {
        assert forall i | 0 < i < |s| :: s[i] == s[1..][i - 1];
      }
    }
  }

  /** An integer is missing in an empty buffer, or cut off when fewer than five bytes all say that another follows. */
  lemma IntErrors(c: Cursor)
    ensures c.rest == [] ==> IntStep(c) == (0, Cursor([], EMPTY_BUFFER))
    ensures 0 < |c.rest| < 5 && (forall i | 0 <= i < |c.rest| :: c.rest[i] >= 128) ==>
              IntStep(c) == (0, Cursor([c.rest[|c.rest| - 1]], END_OF_BUFFER))
    ensures |c.rest| >= 5 || (exists i | 0 <= i < |c.rest| :: c.rest[i] < 128) ==>
              IntStep(c).1.err == c.err && |IntStep(c).1.rest| < |c.rest|
  {
    if c.rest != [] && c.rest[0] >= 128 {
      var tail := c.rest[1..];
      TailMissing(tail, 4);
      assert forall i | 0 < i < |c.rest| :: c.rest[i] == tail[i - 1];
      assert forall i | 0 <= i < |tail| :: tail[i] == c.rest[i + 1];
      assert c.rest[|c.rest| - 1..] == [c.rest[|c.rest| - 1]];
    }
  }

  lemma {:induction false} FirstNulIs(s: seq<byte>, n: nat)
    requires n <= |s| && NulFree(s[..n]) && (n < |s| ==> s[n] == 0)
    ensures FirstNul(s) == n
  {
    if n == 0 {
    } else {
      assert s[..n][0] == s[0] && s[1..][..n - 1] == s[..n][1..];
      FirstNulIs(s[1..], n - 1);
    }
  }

  /** A string ends at its NUL; without one the rest of the buffer is lost. */
  lemma StringOrError(c: Cursor, mode: Cleanup, n: nat)
    requires c.err == NONE && c.rest != [] && n <= |c.rest|
    requires NulFree(c.rest[..n]) && (n < |c.rest| ==> c.rest[n] == 0)
    ensures StringStep(c, mode) == if n == |c.rest| then ([], Cursor([], STR_UNEXPECTED_EOF))
                                   else (Processed(c.rest[..n], mode), Cursor(c.rest[n + 1..], NONE))
  {
    FirstNulIs(c.rest, n);
  }

  // ----- The unrolled integer reader

  function Group(b: byte): (g: nat)
    ensures g < 128 && (b < 128 ==> g == b)
  {
    b % 128
  }

  /** The magnitude in the first `k` bytes, with the groups at bits 0, 6, 13, 20 and 27. */
  function Low(s: seq<byte>, k: nat): (m: nat)
    requires 1 <= k <= 5 && k <= |s|
  {
    (s[0] % 64)
    + (if k > 1 then 0x40 * Group(s[1]) else 0)
    + (if k > 2 then 0x2000 * Group(s[2]) else 0)
    + (if k > 3 then 0x10_0000 * Group(s[3]) else 0)
    + (if k > 4 then 0x800_0000 * (Group(s[4]) % 16) else 0)
  }

  lemma LowBound(s: seq<byte>, k: nat)
    requires 1 <= k <= 5 && k <= |s|
    ensures Low(s, k) < if k == 1 then 0x40 else if k == 2 then 0x2000 else if k == 3 then 0x10_0000
                        else if k == 4 then 0x800_0000 else 0x8000_0000
  {
  }

  /** Bytes before `k` say that another one follows. */
  ghost predicate Continues(s: seq<byte>, k: nat) {
    k <= |s| && forall i | 0 <= i < k :: s[i] >= 128
  }

  /** The tail of the general reader, from byte `i` on, when it ends at byte `k`. */
  function TailSum(s: seq<byte>, i: nat, k: nat): (v: nat)
    requires 1 <= i < k <= |s|
    decreases k - i
  {
    if i == k - 1 then Group(s[i]) else Group(s[i]) + 128 * TailSum(s, i + 1, k)
  }

  lemma {:induction false} ReadTailSum(s: seq<byte>, i: nat, k: nat)
    requires 1 <= i < k <= 5 && k <= |s|
    requires forall j | i <= j < k - 1 :: s[j] >= 128
    requires s[k - 1] < 128 || k == 5
    ensures ReadTail(s[i..], 5 - i) == Tail(TailSum(s, i, k), k - i)
    decreases k - i
  {
    assert s[i..][1..] == s[i + 1..] && s[i..][0] == s[i];
    if i == k - 1 {
    } else {
      ReadTailSum(s, i + 1, k);
    }
  }

  lemma {:induction false} ReadTailCut(s: seq<byte>, i: nat)
    requires 1 <= i <= |s| < 5 && forall j | i <= j < |s| :: s[j] >= 128
    ensures ReadTail(s[i..], 5 - i) == NoTail
    decreases |s| - i
  {
    if i == |s| {
    } else {
      assert s[i..][1..] == s[i + 1..] && s[i..][0] == s[i];
      ReadTailCut(s, i + 1);
    }
  }

  lemma FifthGroup(low: nat, g: nat)
    requires low < 0x800_0000
    ensures (low + 0x800_0000 * g) % 0x8000_0000 == low + 0x800_0000 * (g % 16)
  {
    var q, z := g / 16, g % 16;
    assert low + 0x800_0000 * g == q * 0x8000_0000 + (low + 0x800_0000 * z);
    DivModUnique(low + 0x800_0000 * g, 0x8000_0000, q, low + 0x800_0000 * z);
  }

  lemma SumIsLow(s: seq<byte>, k: nat)
    requires 2 <= k <= 5 && k <= |s|
    ensures (s[0] % 64 + 64 * TailSum(s, 1, k)) % 0x8000_0000 == Low(s, k)
  {
    LowBound(s, if k == 5 then 4 else k);
    if k == 2 {
    } else if k == 3 {
      assert TailSum(s, 1, 3) == Group(s[1]) + 128 * Group(s[2]);
    } else if k == 4 {
      assert TailSum(s, 2, 4) == Group(s[2]) + 128 * Group(s[3]);
      assert TailSum(s, 1, 4) == Group(s[1]) + 128 * TailSum(s, 2, 4);
    } else {
      assert TailSum(s, 3, 5) == Group(s[3]) + 128 * Group(s[4]);
      assert TailSum(s, 2, 5) == Group(s[2]) + 128 * TailSum(s, 3, 5);
      assert TailSum(s, 1, 5) == Group(s[1]) + 128 * TailSum(s, 2, 5);
      FifthGroup(Low(s, 4), Group(s[4]));
    }
  }

  /** A number that ends with byte `k`: the unrolled reader and the general one agree. */
  lemma NumberEnds(s: seq<byte>, k: nat)
    requires 1 <= k <= 5 && k <= |s| && Continues(s, k - 1) && (s[k - 1] < 128 || k == 5)
    ensures Low(s, k) < 0x8000_0000
    ensures DecodeInt(s) == Read(Signed(s[0] / 64 % 2 == 1, Low(s, k)), k)
  {
    LowBound(s, k);
    if k > 1 {
      ReadTailSum(s, 1, k);
      SumIsLow(s, k);
    }
  }

  lemma LowFourBits(x: byte)
    ensures (x as nat % 128) % 16 == x as nat % 16
  {
    var b: nat := x;
    if b >= 128 {
      var y := b - 128;
      DivModUnique(b, 128, 1, y);
      DivModUnique(b, 16, y / 16 + 8, y % 16);
    }
  }

  /** The number that the first `k` bytes stand for, by the weights of their bits. */
  lemma NumberWeights(s: seq<byte>, k: nat)
    requires 1 <= k <= 5 && k <= |s| && Continues(s, k - 1) && (s[k - 1] < 128 || k == 5)
    ensures var b0: nat := s[0];
            var m := b0 % 64 + (if k > 1 then 64 * (s[1] as nat % 128) else 0)
                   + (if k > 2 then 8192 * (s[2] as nat % 128) else 0)
                   + (if k > 3 then 1048576 * (s[3] as nat % 128) else 0)
                   + (if k > 4 then 134217728 * (s[4] as nat % 16) else 0);
            DecodeInt(s).Read? && DecodeInt(s).used == k
            && DecodeInt(s).value == if b0 / 64 % 2 == 1 then -1 - m else m
  {
    NumberEnds(s, k);
    if k > 4 {
      LowFourBits(s[4]);
    }
  }

  lemma NumberCut(s: seq<byte>)
    requires 1 <= |s| < 5 && Continues(s, |s|)
    ensures DecodeInt(s) == Truncated
  {
    ReadTailCut(s, 1);
  }

  /** Or-ing seven bits in above `k` bits. */
  lemma OrGroup(value: nat, group: nat, k: nat)
    requires value < Pow2(k) && group < 128 && k + 7 <= 32
    ensures BitOr(value, Shl32(group, k)) == value + group * Pow2(k)
  {
    assert group < Pow2(7) by { assert Pow2(7) == 128; }
    Shl32Fits(group, k, 7);
    BitOrDisjoint(value, group, k);
  }

  /** Or-ing in the group of byte `k`. */
  lemma GroupStep(s: seq<byte>, k: nat, shift: nat)
    requires 1 <= k <= 3 && k < |s|
    requires shift == if k == 1 then 6 else if k == 2 then 13 else 20
    ensures BitOr(Low(s, k), Shl32(Group(s[k]), shift)) == Low(s, k + 1) < 0x1_0000_0000
  {
    Pow2Values();
    LowBound(s, k);
    LowBound(s, k + 1);
    OrGroup(Low(s, k), Group(s[k]), shift);
  }

  lemma LastGroupStep(s: seq<byte>)
    requires |s| >= 5
    ensures BitOr(Low(s, 4), Shl32(Group(s[4]) % 16, 27)) == Low(s, 5) < 0x1_0000_0000
  {
    Pow2Values();
    LowBound(s, 4);
    LowBound(s, 5);
    Shl32Fits(Group(s[4]) % 16, 27, 4);
    BitOrDisjoint(Low(s, 4), Group(s[4]) % 16, 27);
  }

  lemma SliceKept(now: seq<byte>, was: seq<byte>, from: nat, to: nat)
    requires from <= to <= |was| == |now| && forall i | from <= i < to :: now[i] == was[i]
    ensures now[from..to] == was[from..to]
  {
  }

  /** There is no NUL in the first `k` bytes. */
  ghost predicate NulBehind(s: seq<byte>, k: nat) {
    k <= |s| && FirstNul(s) == k + FirstNul(s[k..])
  }

  lemma NulBehindStart(s: seq<byte>)
    ensures NulBehind(s, 0)
  {
    assert s[0..] == s;
  }

  lemma NulBehindNext(s: seq<byte>, k: nat)
    requires NulBehind(s, k) && k < |s| && s[k] != 0
    ensures NulBehind(s, k + 1)
  {
    assert s[k..][0] == s[k] && s[k..][1..] == s[k + 1..];
  }

  lemma NulFound(s: seq<byte>, k: nat)
    requires NulBehind(s, k) && (k == |s| || s[k] == 0)
    ensures FirstNul(s) == k
  {
    assert k < |s| ==> s[k..][0] == s[k];
  }

  class Unpacker {
    var err: Error
    const data: array<byte>
    const end: nat
    var pos: nat

    ghost predicate Valid()
      reads this
    {
      pos <= end <= data.Length
    }

    ghost function At(): (c: Cursor)
      requires Valid()
      reads this, data
    {
      Cursor(data[pos..end], err)
    }

    /** `ddproto_unpacker_init` on `len` bytes of a buffer. */
    constructor (buffer: array<byte>, start: nat, len: nat)
      requires start + len <= buffer.Length
      ensures Valid() && data == buffer && pos == start && end == start + len && err == NONE
    {
      err := NONE;
      data := buffer;
      pos := start;
      end := start + len;
    }

    function Remaining(): (n: nat)
      requires Valid()
      reads this
    {
      end - pos
    }

    /** The first `k` bytes of the number at `start` have been taken, all of them with the continuation bit. */
    ghost predicate Reading(s: seq<byte>, start: nat, k: nat, v: nat, space: nat)
      reads this, data
    {
      && Valid() && start <= end && s == data[start..end]
      && 1 <= k <= 4 && Continues(s, k) && v == Low(s, k)
      && pos == start + k - 1 && space == end - pos > 0
    }

    /** One stanza of `get_int`: the next byte, if there is one, and its seven (at the end four) bits. */
    method TakeGroup(v: u32, space: nat, last: bool, shift: nat, ghost s: seq<byte>, ghost start: nat, ghost k: nat)
      returns (v': u32, left: nat, cut: bool)
      requires Reading(s, start, k, v, space)
      requires shift == if k == 1 then 6 else if k == 2 then 13 else if k == 3 then 20 else 27
      requires last <==> k == 4
      modifies this`pos, this`err
      ensures Valid() && (cut <==> space == 1) && left == space - 1
      ensures cut ==> DecodeInt(s) == Truncated && err == END_OF_BUFFER && pos == end - 1
      ensures !cut ==> err == old(err) && pos == start + k < end && v' == Low(s, k + 1) && data[pos] == s[k]
    {
      left := space - 1;
      cut := left == 0;
      v' := v;
      if cut {
        NumberCut(s);
        err := END_OF_BUFFER;
        return;
      }
      assert data[start + k] == s[k] by { assert s[k] == data[start..end][k]; }
      pos := pos + 1;
      assert pos == start + k;
      if last {
        LastGroupStep(s);
        v' := BitOr(v, Shl32(Group(data[pos]) % 16, shift));
      } else {
        GroupStep(s, k, shift);
        v' := BitOr(v, Shl32(Group(data[pos]), shift));
      }
    }

    /** `ddproto_unpacker_get_int`: up to five bytes, without a loop. */
    method GetInt() returns (value: int32)
      requires Valid()
      modifies this`pos, this`err
      ensures Valid() && pos >= old(pos) && (value, At()) == IntStep(old(At()))
      ensures old(pos) == end ==> value == 0 && err == EMPTY_BUFFER && pos == end
    {
      var space := end - pos;
      if space == 0 {
        err := EMPTY_BUFFER;
        return 0;
      }
      var negative, v, cut := GetMagnitude(space);
      if cut {
        return 0;
      }
      pos := pos + 1;
      var magnitude: int := v;
      value := if negative then -1 - magnitude else magnitude;
    }

    /** The bytes of a number up to its last one, on which the cursor is left, or up to the end of the buffer. */
    method GetMagnitude(total: nat) returns (negative: bool, v: u32, cut: bool)
      requires Valid() && total == Remaining() > 0
      modifies this`pos, this`err
      ensures Valid() && pos >= old(pos)
      ensures cut ==> DecodeInt(old(At()).rest) == Truncated && err == END_OF_BUFFER && pos == end - 1
      ensures !cut ==> err == old(err) && pos < end && v < 0x8000_0000
      ensures !cut ==> DecodeInt(old(At()).rest) == Read(Signed(negative, v), pos + 1 - old(pos))
    {
      ghost var s, start := data[pos..end], pos;
      negative := data[pos] / 64 % 2 == 1;
      v := data[pos] % 64;
      cut := false;
      assert data[pos] == s[0];
      if data[pos] < 128 {
        NumberEnds(s, 1);
        return;
      }
      v, cut := GetGroups(v, total, s, start);
    }

    /** The bytes behind the first one. */
    method GetGroups(low: u32, total: nat, ghost s: seq<byte>, ghost start: nat) returns (v: u32, cut: bool)
      requires Reading(s, start, 1, low, total)
      modifies this`pos, this`err
      ensures Valid() && pos >= old(pos)
      ensures cut ==> DecodeInt(s) == Truncated && err == END_OF_BUFFER && pos == end - 1
      ensures !cut ==> err == old(err) && pos < end && v < 0x8000_0000
      ensures !cut ==> DecodeInt(s) == Read(Signed(s[0] / 64 % 2 == 1, v), pos + 1 - start)
    {
      var space;
      v, space, cut := TakeGroup(low, total, false, 6, s, start, 1);
      if cut {
        return;
      }
      if data[pos] < 128 {
        NumberEnds(s, 2);
        return;
      }
      v, space, cut := TakeGroup(v, space, false, 13, s, start, 2);
      if cut {
        return;
      }
      if data[pos] < 128 {
        NumberEnds(s, 3);
        return;
      }
      v, space, cut := TakeGroup(v, space, false, 20, s, start, 3);
      if cut {
        return;
      }
      if data[pos] < 128 {
        NumberEnds(s, 4);
        return;
      }
      v, space, cut := TakeGroup(v, space, true, 27, s, start, 4);
      if !cut {
        NumberEnds(s, 5);
      }
    }

    /** `ddproto_unpacker_get_bool` */
    method GetBool() returns (value: bool)
      requires Valid()
      modifies this`pos, this`err
      ensures Valid() && pos >= old(pos) && (value, At()) == BoolStep(old(At()))
      ensures value == (IntStep(old(At())).0 == 1)
      ensures IntStep(old(At())).0 in {0, 1} ==> At() == IntStep(old(At())).1
      ensures IntStep(old(At())).0 !in {0, 1} ==> err == INVALID_BOOL
    {
      var v := GetInt();
      if v != 0 && v != 1 {
        err := INVALID_BOOL;
      }
      return v == 1;
    }

    /** `ddproto_unpacker_get_raw`; the null pointer of the error case is the empty string here. */
    method GetRaw(len: nat) returns (raw: seq<byte>)
      requires Valid()
      modifies this`pos, this`err
      ensures Valid() && pos >= old(pos) && (raw, At()) == RawStep(old(At()), len)
      ensures old(pos) + len > end ==> raw == [] && err == END_OF_BUFFER && pos == old(pos)
      ensures old(pos) + len <= end ==>
                raw == old(data[pos..pos + len]) && err == old(err) && pos == old(pos) + len
    {
      if end - pos < len {
        err := END_OF_BUFFER;
        return [];
      }
      ghost var rest := data[pos..end];
      raw := data[pos..pos + len];
      pos := pos + len;
      assert raw == rest[..len] && data[pos..end] == rest[len..];
    }

    /** `skip the string`: to the NUL, or to the end of the buffer. */
    method FindNul() returns (found: bool)
      requires Valid() && pos < end
      modifies this`pos
      ensures Valid() && old(pos) <= pos && pos - old(pos) == FirstNul(data[old(pos)..end])
      ensures found <==> pos < end
    {
      ghost var s, start, k := data[pos..end], pos, 0;
      NulBehindStart(s);
      while data[pos] != 0
        invariant pos == start + k < end && NulBehind(s, k)
        decreases end - pos
      {
        assert s[k] == data[start + k];
        NulBehindNext(s, k);
        pos, k := pos + 1, k + 1;
        if pos == end {
          NulFound(s, k);
          return false;
        }
      }
      assert s[k] == data[start + k];
      NulFound(s, k);
      return true;
    }

    /**
     `ddproto_unpacker_get_string_sanitized`: the string is cleaned up inside the buffer. Nothing from the new
     cursor position on changes, and nothing before the old one.
     */
    method GetString(mode: Cleanup) returns (text: seq<byte>)
      requires Valid() && CanReadString(At())
      modifies this`pos, this`err, data
      ensures Valid() && pos >= old(pos) && (text, At()) == StringStep(old(At()), mode)
      ensures forall i | 0 <= i < data.Length && !(old(pos) <= i < pos) :: data[i] == old(data[i])
    {
      if err != NONE {
        return [];
      }
      var str := pos;
      ghost var rest := data[pos..end];
      var found := FindNul();
      if !found {
        err := STR_UNEXPECTED_EOF;
        assert data[pos..end] == [];
        return [];
      }
      ghost var n := pos - str;
      ghost var s := rest[..n];
      assert StringAt(data, str, s);
      pos := pos + 1;
      ghost var was := data[..];
      assert data[pos..end] == rest[n + 1..];
      text := CleanUp(str, mode, s);
      SliceKept(data[..], was, pos, end);
    }

    /** The clean-ups that `mode` asks for, in place. */
    method CleanUp(str: nat, mode: Cleanup, ghost s: seq<byte>) returns (text: seq<byte>)
      requires StringAt(data, str, s)
      modifies data
      ensures text == Processed(s, mode)
      ensures forall i | 0 <= i < data.Length && !(str <= i <= str + |s|) :: data[i] == old(data[i])
    {
      ghost var t := s;
      if mode.sanitize {
        Sanitize(data, str, s);
        t := Sanitized(s);
      } else if mode.sanitizeCc {
        SanitizeCc(data, str, s);
        t := SanitizedCc(s);
      }
      if mode.skipWhitespace {
        CleanWhitespaces(data, str, t);
        t := Cleaned(t);
      }
      text := CString(data, str, t);
    }
  }
}
