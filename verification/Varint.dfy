/**
 The variable-length integers of the protocol: a sign bit and six bits in the first byte, seven in each further
 byte, the top bit of a byte saying that another one follows.
 */
module Varint {
  import opened Bits

  type int32 = x: int | -0x8000_0000 <= x < 0x8000_0000

  /** The bits that are transmitted: a negative number is sent as its complement. */
  function Magnitude(v: int32): (m: nat)
    ensures m < 0x8000_0000
  {
    if v < 0 then -1 - v else v
  }

  /** The number with sign bit `negative` and magnitude `m`. */
  function Signed(negative: bool, m: nat): (v: int32)
    requires m < 0x8000_0000
    ensures Magnitude(v) == m && (v < 0 <==> negative)
  {
    if negative then -1 - m else m
  }

  function More(rest: nat): (bit: nat) {
    if rest > 0 then 128 else 0
  }

  /** The bytes after the first: seven bits each, none if nothing is left. */
  function Groups(x: nat): (s: seq<byte>) {
    if x == 0 then [] else [x % 128 + More(x / 128)] + Groups(x / 128)
  }

  function EncodeInt(v: int32): (s: seq<byte>)
    ensures |s| >= 1
  {
    var m := Magnitude(v);
    [(if v < 0 then 64 else 0) + m % 64 + More(m / 64)] + Groups(m / 64)
  }

  datatype TailRead = NoTail | Tail(value: nat, used: nat)

  /** Groups of seven bits until a byte without the top bit, or until `left` bytes have been taken. */
  function ReadTail(s: seq<byte>, left: nat): (t: TailRead)
    ensures t.Tail? ==> t.used <= |s| && t.used <= left
  {
    if left == 0 then Tail(0, 0)
    else if s == [] then NoTail
    else if s[0] < 128 || left == 1 then Tail(s[0] % 128, 1)
    else
      match ReadTail(s[1..], left - 1)
      case NoTail => NoTail
      case Tail(v, u) => Tail(s[0] % 128 + 128 * v, u + 1)
  }

  datatype IntRead = Empty | Truncated | Read(value: int32, used: nat)

  /** The general reading loop with at most five bytes; the magnitude is cut to 31 bits. */
  function DecodeInt(s: seq<byte>): (r: IntRead)
    ensures r.Read? ==> 1 <= r.used <= |s| && r.used <= 5
    ensures r.Empty? <==> s == []
  {
    if s == [] then Empty
    else
      var negative := s[0] / 64 % 2 == 1;
      if s[0] < 128 then Read(Signed(negative, s[0] % 64), 1)
      else
        match ReadTail(s[1..], 4)
        case NoTail => Truncated
        case Tail(v, u) => Read(Signed(negative, (s[0] % 64 + 64 * v) % 0x8000_0000), u + 1)
  }

  /** The largest value of `left` groups. */
  function Limit(left: nat): (n: nat)
    ensures n >= 1
  {
    if left == 0 then 1 else 128 * Limit(left - 1)
  }

  lemma {:induction false} ReadGroups(x: nat, left: nat, rest: seq<byte>)
    requires 0 < x < Limit(left)
    ensures ReadTail(Groups(x) + rest, left) == Tail(x, |Groups(x)|)
    decreases left
  {
    var s := Groups(x) + rest;
    assert s[0] == x % 128 + More(x / 128);
    assert s[1..] == Groups(x / 128) + rest;
    if x / 128 == 0 {
    } else {
      ReadGroups(x / 128, left - 1, rest);
    }
  }

  /** The fields of a first byte can be told apart. */
  lemma FirstByte(negative: bool, m: nat)
    ensures var b := (if negative then 64 else 0) + m % 64 + More(m / 64);
            && (b / 64 % 2 == 1 <==> negative) && b % 64 == m % 64 && (b < 128 <==> m < 64)
  {
    var low, sign := m % 64, if negative then 1 else 0;
    var more := if m >= 64 then 1 else 0;
    assert More(m / 64) == 128 * more;
    var b := 64 * sign + low + 128 * more;
    assert b / 64 == sign + 2 * more;
  }

  lemma LimitFour()
    ensures Limit(4) == 0x1000_0000
  {
    assert Limit(2) == 0x4000;
    assert Limit(3) == 0x20_0000;
  }

  lemma ShortRoundTrip(v: int32, rest: seq<byte>)
    requires Magnitude(v) < 64
    ensures DecodeInt(EncodeInt(v) + rest) == Read(v, 1) && |EncodeInt(v)| == 1
  {
    FirstByte(v < 0, Magnitude(v));
  }

  /** What a first byte with the continuation bit and the groups behind it are read as. */
  lemma DecodeLong(s: seq<byte>, negative: bool, low: nat, high: nat, used: nat)
    requires s != [] && s[0] >= 128 && (s[0] / 64 % 2 == 1 <==> negative) && s[0] % 64 == low
    requires ReadTail(s[1..], 4) == Tail(high, used) && low + 64 * high < 0x8000_0000
    ensures DecodeInt(s) == Read(Signed(negative, low + 64 * high), used + 1)
  {
  }

  lemma LongRoundTrip(v: int32, rest: seq<byte>)
    requires Magnitude(v) >= 64
    ensures DecodeInt(EncodeInt(v) + rest) == Read(v, |EncodeInt(v)|) && |EncodeInt(v)| <= 5
  {
    var m := Magnitude(v);
    var high := m / 64;
    FirstByte(v < 0, m);
    LimitFour();
    ReadGroups(high, 4, rest);
    var s := EncodeInt(v) + rest;
    assert s[0] == EncodeInt(v)[0] && s[1..] == Groups(high) + rest;
    DecodeLong(s, v < 0, m % 64, high, |Groups(high)|);
  }

  /** Reading back a written integer gives the integer and uses exactly the written bytes. */
  lemma VarintRoundTrip(v: int32, rest: seq<byte>)
    ensures DecodeInt(EncodeInt(v) + rest) == Read(v, |EncodeInt(v)|)
    ensures |EncodeInt(v)| <= 5
  {
    if Magnitude(v) < 64 { ShortRoundTrip(v, rest); } else { LongRoundTrip(v, rest); }
  }

  // ----- No shorter encoding exists

  lemma {:induction false} GroupsShortest(x: nat, s: seq<byte>, left: nat)
    requires ReadTail(s, left).Tail? && ReadTail(s, left).value == x
    ensures |Groups(x)| <= ReadTail(s, left).used
    decreases left
  {
    if left == 0 || s[0] < 128 || left == 1 {
    } else {
      GroupsShortest(x / 128, s[1..], left - 1);
    }
  }

  lemma {:induction false} GroupsMonotone(x: nat, y: nat)
    requires x <= y
    ensures |Groups(x)| <= |Groups(y)|
    decreases y
  {
    if x == 0 {
    } else {
      GroupsMonotone(x / 128, y / 128);
    }
  }

  /** No byte string that reads as `v` uses fewer bytes than the one the packer writes. */
  lemma EncodingIsShortest(s: seq<byte>)
    requires DecodeInt(s).Read?
    ensures |EncodeInt(DecodeInt(s).value)| <= DecodeInt(s).used
  {
    if s[0] >= 128 {
      var t := ReadTail(s[1..], 4);
      GroupsShortest(t.value, s[1..], 4);
      var m := (s[0] % 64 + 64 * t.value) % 0x8000_0000;
      assert m / 64 <= t.value;
      GroupsMonotone(m / 64, t.value);
    }
  }

  /** Two integers with the same encoding are equal, and no encoding is the beginning of another one. */
  lemma EncodingsAreDistinct(v: int32, w: int32)
    requires EncodeInt(v) <= EncodeInt(w)
    ensures v == w
  {
    var rest := EncodeInt(w)[|EncodeInt(v)|..];
    assert EncodeInt(w) == EncodeInt(v) + rest;
    VarintRoundTrip(v, rest);
    VarintRoundTrip(w, []);
    assert EncodeInt(w) + [] == EncodeInt(w);
  }
}
