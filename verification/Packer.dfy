/**
 The packer: a write cursor over a 2048-byte buffer, and an error field that is set once something does not fit.
 */
module Packer {
  import opened Bits
  import opened Errors
  import opened Varint
  import opened Strings

  const PACKER_BUFFER_SIZE: nat := 2048

  lemma OrBit(value: nat, bit: nat, k: nat)
    requires value < Pow2(k) && bit == Pow2(k)
    ensures BitOr(value, bit) == value + bit && BitOr(bit, value) == value + bit
  {
    BitOrDisjoint(value, 1, k);
    BitOrComm(value, bit);
  }

  /**
   The state of `AddInt`: `code` is written up to `cur`, where the byte still lacks the bit for a following one, and
   `value` remains to be written.
   */
  ghost predicate Packing(b: seq<byte>, start: nat, cur: nat, value: nat, code: seq<byte>) {
    && start <= cur < |b| && b[cur] < 128
    && code == b[start..cur] + [b[cur] + More(value)] + Groups(value)
  }

  lemma PackingStart(b: seq<byte>, cur: nat, v: int32)
    requires cur < |b| && b[cur] == (if v < 0 then 64 else 0) + Magnitude(v) % 64
    ensures Packing(b, cur, cur, Magnitude(v) / 64, EncodeInt(v))
  {
    assert b[cur..cur] == [];
  }

  /** One round: the byte at `cur` gets its continuation bit, and the next one the next seven bits of `value`. */
  lemma PackingStep(b: seq<byte>, b': seq<byte>, start: nat, cur: nat, value: nat, code: seq<byte>)
    requires Packing(b, start, cur, value, code) && value > 0
    requires |b'| == |b| && cur + 1 < |b| && b'[cur] == b[cur] + 128 && b'[cur + 1] == value % 128
    requires forall i | start <= i < cur :: b'[i] == b[i]
    ensures Packing(b', start, cur + 1, value / 128, code)
  {
    assert b'[start..cur + 1] == b[start..cur] + [b[cur] + 128];
    assert Groups(value) == [value % 128 + More(value / 128)] + Groups(value / 128);
  }

  class Packer {
    var err: Error
    var current: nat
    const buf: array<byte>

    ghost predicate Valid()
      reads this
    {
      buf.Length == PACKER_BUFFER_SIZE && current <= buf.Length
    }

    /** The packed data: `ddproto_packer_data` up to `ddproto_packer_size`. */
    ghost function Contents(): (s: seq<byte>)
      requires Valid()
      reads this, buf
    {
      buf[..current]
    }

    constructor ()
      ensures Valid() && fresh(buf) && err == NONE && Contents() == []
    {
      err := NONE;
      current := 0;
      buf := new byte[PACKER_BUFFER_SIZE](_ => 0);
    }

    function Remaining(): (n: nat)
      requires Valid()
      reads this
      ensures n + |Contents()| == PACKER_BUFFER_SIZE
    {
      buf.Length - current
    }

    /** What every call of the packer does: append `s`, or set the error if there is no room for it. */
    twostate predicate Appended(s: seq<byte>, e: Error)
      requires old(Valid()) && Valid()
      reads this, buf
    {
      && (e == NONE <==> |s| <= old(Remaining()))
      && (e == NONE ==> err == old(err) && Contents() == old(Contents()) + s)
      && (e != NONE ==> e == BUFFER_FULL && err == BUFFER_FULL && old(Contents()) <= buf[..])
    }

    /** The loop of `AddInt`: seven bits a byte until nothing is left or the buffer is full. */
    method AddGroups(rest: nat, ghost start: nat, ghost code: seq<byte>) returns (full: bool)
      requires Valid() && Packing(buf[..], start, current, rest, code)
      modifies this`current, buf
      ensures Valid() && buf[..start] == old(buf[..start])
      ensures full <==> start + |code| > buf.Length
      ensures !full ==> current == start + |code| && buf[start..current] == code
    {
      var value := rest;
      var space := buf.Length - current - 1;
      while value != 0
        invariant current < buf.Length && space == buf.Length - current - 1
        invariant buf[..start] == old(buf[..start])
        invariant Packing(buf[..], start, current, value, code)
        decreases value
      {
        if space == 0 {
          return true;
        }
        ghost var b := buf[..];
        SetMore(buf[current]);
        buf[current] := BitOr(buf[current], 0x80);
        space := space - 1;
        current := current + 1;
        buf[current] := value % 128;
        PackingStep(b, buf[..], start, current - 1, value, code);
        value := value / 128;
      }
      current := current + 1;
      return false;
    }

    /** `ddproto_packer_add_int` */
    method AddInt(v: int32) returns (e: Error)
      requires Valid()
      modifies this, buf
      ensures Valid() && Appended(EncodeInt(v), e)
    {
      if buf.Length - current == 0 {
        err := BUFFER_FULL;
        return err;
      }
      ghost var start, before := current, buf[..current];
      var value := AddFirst(v);
      PackingStart(buf[..], current, v);
      var full := AddGroups(value, start, EncodeInt(v));
      if full {
        err := BUFFER_FULL;
        return err;
      }
      assert buf[..current] == before + EncodeInt(v);
      return NONE;
    }

    /** The first byte of an integer, still without the continuation bit; the rest of the value is returned. */
    method AddFirst(v: int32) returns (rest: nat)
      requires Valid() && current < buf.Length
      modifies buf
      ensures rest == Magnitude(v) / 64
      ensures buf[current] == (if v < 0 then 64 else 0) + Magnitude(v) % 64
      ensures buf[..current] == old(buf[..current])
    {
      buf[current] := 0;
      var value: int := v;
      if value < 0 {
        BitOrZero(0x40);
        buf[current] := BitOr(buf[current], 0x40);
        value := -1 - value;
      }
      FirstBits(v < 0, value);
      buf[current] := BitOr(buf[current], value % 64);
      return value / 64;
    }

    /** `ddproto_packer_add_string` */
    method AddString(s: seq<byte>) returns (e: Error)
      requires Valid() && NulFree(s)
      modifies this, buf
      ensures Valid() && Appended(s + [0], e)
    {
      var len := |s| + 1;
      if buf.Length - current < len {
        err := BUFFER_FULL;
        return err;
      }
      ghost var before := buf[..current];
      forall i | 0 <= i < len { buf[current + i] := (s + [0])[i]; }
      current := current + len;
      assert buf[..current] == before + (s + [0]);
      return NONE;
    }

    /** `ddproto_packer_add_raw` */
    method AddRaw(data: seq<byte>) returns (e: Error)
      requires Valid()
      modifies this, buf
      ensures Valid() && Appended(data, e)
    {
      if buf.Length - current < |data| {
        err := BUFFER_FULL;
        return err;
      }
      ghost var before := buf[..current];
      forall i | 0 <= i < |data| { buf[current + i] := data[i]; }
      current := current + |data|;
      assert buf[..current] == before + data;
      return NONE;
    }
  }

  lemma FirstBits(negative: bool, m: nat)
    ensures BitOr(if negative then 0x40 else 0, m % 64) == (if negative then 64 else 0) + m % 64
  {
    assert Pow2(6) == 64;
    if negative { OrBit(m % 64, 64, 6); } else { BitOrZero(m % 64); }
  }

  lemma SetMore(b: nat)
    requires b < 128
    ensures BitOr(b, 0x80) == b + 128
  {
    assert Pow2(7) == 128;
    OrBit(b, 128, 7);
  }
}
