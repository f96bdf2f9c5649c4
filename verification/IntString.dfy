/**
 Strings that travel as 32-bit integers in snapshots: four characters an integer, each shifted by 128, the last byte
 of the last integer unused. A `char` is taken to be a signed byte; characters are given here by their bit patterns.
 */
module IntString {
  import opened Bits
  import opened Errors
  import opened Strings

  /** A character after adding or subtracting 128, which is the same on eight bits. */
  function Shifted(b: byte): (r: byte)
    ensures (r + 128) % 256 == b
  {
    (b + 128) % 256
  }

  function Word(b0: byte, b1: byte, b2: byte, b3: byte): (w: u32) {
    b0 * 0x100_0000 + b1 * 0x1_0000 + b2 * 0x100 + b3
  }

  /** Byte `j` of a word, the most significant first. */
  function ByteOf(w: u32, j: nat): (b: byte)
    requires j < 4
  {
    var x: nat := w;
    if j == 0 then x / 0x100_0000 else if j == 1 then x / 0x1_0000 % 256 else if j == 2 then x / 0x100 % 256
    else x % 256
  }

  lemma WordBytes(b0: byte, b1: byte, b2: byte, b3: byte)
    ensures var w := Word(b0, b1, b2, b3);
            ByteOf(w, 0) == b0 && ByteOf(w, 1) == b1 && ByteOf(w, 2) == b2 && ByteOf(w, 3) == b3
  {
    var w: nat := Word(b0, b1, b2, b3);
    assert w / 0x1_0000 == b0 * 0x100 + b1;
    assert w / 0x100 == b0 * 0x1_0000 + b1 * 0x100 + b2;
  }

  /** Character `k` of a string, shifted; zero padding behind its end. */
  function ShiftedAt(s: seq<byte>, k: nat): (b: byte) {
    Shifted(if k < |s| then s[k] else 0)
  }

  /** `w & 0xffffff00`. */
  function Cleared(w: u32): (r: u32) {
    var x: nat := w;
    x / 256 * 256
  }

  /** The integer for the characters from `4 * i` on. */
  function FullInt(s: seq<byte>, i: nat): (w: u32) {
    Word(ShiftedAt(s, 4 * i), ShiftedAt(s, 4 * i + 1), ShiftedAt(s, 4 * i + 2), ShiftedAt(s, 4 * i + 3))
  }

  /** Integer `i` of `n` for the string `s`; the last byte of the last one is cleared. */
  function IntAt(s: seq<byte>, n: nat, i: nat): (w: u32) {
    if i == n - 1 then Cleared(FullInt(s, i)) else FullInt(s, i)
  }

  function IntsOf(s: seq<byte>, n: nat): (ints: seq<u32>)
    ensures |ints| == n
  {
    seq(n, i requires 0 <= i < n => IntAt(s, n, i))
  }

  /** Character `k` of the string in the integers, whose last one is replaced by the terminating NUL. */
  function CharAt(ints: seq<u32>, k: nat): (b: byte)
    requires k < 4 * |ints|
  {
    if k == 4 * |ints| - 1 then 0 else Shifted(ByteOf(ints[k / 4], k % 4))
  }

  function StringOf(ints: seq<u32>): (s: seq<byte>)
    ensures |s| == 4 * |ints|
  {
    seq(4 * |ints|, k requires 0 <= k < 4 * |ints| => CharAt(ints, k))
  }

  lemma ClearedBytes(w: u32, j: nat)
    requires j < 4
    ensures ByteOf(Cleared(w), j) == if j == 3 then 0 else ByteOf(w, j)
  {
    var x: nat := w;
    var q := x / 256;
    assert x / 0x1_0000 == q / 256 && x / 0x100_0000 == q / 0x1_0000;
    assert (q * 256) / 0x1_0000 == q / 256 && (q * 256) / 0x100_0000 == q / 0x1_0000;
  }

  lemma FullIntBytes(s: seq<byte>, i: nat, j: nat)
    requires j < 4
    ensures ByteOf(FullInt(s, i), j) == ShiftedAt(s, 4 * i + j)
  {
    WordBytes(ShiftedAt(s, 4 * i), ShiftedAt(s, 4 * i + 1), ShiftedAt(s, 4 * i + 2), ShiftedAt(s, 4 * i + 3));
  }

  lemma CharRoundTrip(s: seq<byte>, n: nat, k: nat)
    requires k < 4 * n
    ensures StringOf(IntsOf(s, n))[k] == if k < 4 * n - 1 && k < |s| then s[k] else 0
  {
    var i, j := k / 4, k % 4;
    assert k == 4 * i + j;
    FullIntBytes(s, i, j);
    ClearedBytes(FullInt(s, i), j);
    if k < 4 * n - 1 {
      assert ByteOf(IntAt(s, n, i), j) == ShiftedAt(s, k);
    }
  }

  /** The integer for four characters of a string: each shifted by 128, the first with the greatest weight. */
  lemma FourCharacters(s: seq<byte>, n: nat, i: nat)
    requires i < n && 4 * i + 4 <= |s|
    ensures var c0: nat, c1: nat, c2: nat, c3: nat := s[4 * i], s[4 * i + 1], s[4 * i + 2], s[4 * i + 3];
            IntsOf(s, n)[i] == (c0 + 128) % 256 * 16777216 + (c1 + 128) % 256 * 65536 + (c2 + 128) % 256 * 256
                             + if i == n - 1 then 0 else (c3 + 128) % 256
  {
    var high, low: nat := ShiftedAt(s, 4 * i) * 65536 + ShiftedAt(s, 4 * i + 1) * 256 + ShiftedAt(s, 4 * i + 2),
                          ShiftedAt(s, 4 * i + 3);
    assert FullInt(s, i) == high * 256 + low;
    DivModUnique(high * 256 + low, 256, high, low);
  }

  /**
   Reading the integers back gives the string with zeros behind it, except that a string that fills the integers
   completely loses its last character. So a C string survives exactly when it leaves room for its NUL.
   */
  lemma IntStringRoundTrip(s: seq<byte>, n: nat)
    requires n >= 1 && |s| <= 4 * n && NulFree(s)
    ensures var r := StringOf(IntsOf(s, n));
            && |r| == 4 * n
            && r[..if |s| < 4 * n then |s| else |s| - 1] == s[..if |s| < 4 * n then |s| else |s| - 1]
            && (forall k | |s| <= k < 4 * n :: r[k] == 0) && r[4 * n - 1] == 0
            && (s <= r <==> |s| < 4 * n)
  {
    var r := StringOf(IntsOf(s, n));
    forall k: nat | k < 4 * n
      ensures r[k] == if k < 4 * n - 1 && k < |s| then s[k] else 0
    {
      CharRoundTrip(s, n, k);
    }
    if |s| == 4 * n {
      assert s[4 * n - 1] != r[4 * n - 1];
    }
  }

  // ----- The library functions

  /** `ddproto_str_length`. */
  method StrLength(str: array<byte>, ghost s: seq<byte>) returns (len: nat)
    requires StringAt(str, 0, s)
    ensures len == |s|
  {
    len := 0;
    while str[len] != 0
      invariant len <= |s|
      decreases |s| - len
    {
      len := len + 1;
    }
  }

  /** One integer of `ddproto_str_to_ints`, through a temporary buffer of four zeros. */
  method LoadInt(str: array<byte>, i: nat, len: nat, ghost s: seq<byte>) returns (w: u32)
    requires StringAt(str, 0, s) && len == |s|
    ensures w == FullInt(s, i)
  {
    var buf := new byte[4](_ => 0);
    for j := 0 to 4
      invariant forall k | 0 <= k < 4 :: buf[k] == if k < j && 4 * i + k < len then s[4 * i + k] else 0
    {
      if 4 * i + j < len {
        buf[j] := str[4 * i + j];
      }
    }
    w := Word(Shifted(buf[0]), Shifted(buf[1]), Shifted(buf[2]), Shifted(buf[3]));
  }

  /** `ddproto_str_to_ints` on a C string; there must be an integer whose last byte can be cleared. */
  method StrToInts(ints: array<u32>, n: nat, str: array<byte>, ghost s: seq<byte>) returns (err: Error)
    requires 1 <= n <= ints.Length && StringAt(str, 0, s)
    modifies ints
    ensures |s| > 4 * n ==> err == OUTPUT_VAR_TOO_SMALL && ints[..] == old(ints[..])
    ensures |s| <= 4 * n ==> err == NONE && ints[..n] == IntsOf(s, n)
    ensures forall i | n <= i < ints.Length :: ints[i] == old(ints[i])
  {
    var len := StrLength(str, s);
    if len > 4 * n {
      return OUTPUT_VAR_TOO_SMALL;
    }
    for i := 0 to n
      invariant forall k | 0 <= k < i :: ints[k] == FullInt(s, k)
      invariant forall k | n <= k < ints.Length :: ints[k] == old(ints[k])
    {
      ints[i] := LoadInt(str, i, len, s);
    }
    ints[n - 1] := Cleared(ints[n - 1]);
    return NONE;
  }

  /** Four characters of `ddproto_ints_to_str`. */
  method StoreChars(w: u32, str: array<byte>, index: nat)
    requires index + 4 <= str.Length
    modifies str
    ensures forall j | 0 <= j < 4 :: str[index + j] == Shifted(ByteOf(w, j))
    ensures forall k | 0 <= k < str.Length && !(index <= k < index + 4) :: str[k] == old(str[k])
  {
    str[index] := Shifted(ByteOf(w, 0));
    str[index + 1] := Shifted(ByteOf(w, 1));
    str[index + 2] := Shifted(ByteOf(w, 2));
    str[index + 3] := Shifted(ByteOf(w, 3));
  }

  /** The characters before `index`, as they come from the integers. */
  ghost predicate Stored(str: seq<byte>, ints: seq<u32>, index: nat) {
    index <= |str| && index <= 4 * |ints| && forall k | 0 <= k < index :: str[k] == Shifted(ByteOf(ints[k / 4], k % 4))
  }

  lemma StoredNext(was: seq<byte>, now: seq<byte>, ints: seq<u32>, i: nat)
    requires Stored(was, ints, 4 * i) && i < |ints| && |was| == |now| >= 4 * i + 4
    requires forall k | 0 <= k < 4 * i :: now[k] == was[k]
    requires forall j | 0 <= j < 4 :: now[4 * i + j] == Shifted(ByteOf(ints[i], j))
    ensures Stored(now, ints, 4 * i + 4)
  {
    forall k | 4 * i <= k < 4 * i + 4
      ensures now[k] == Shifted(ByteOf(ints[k / 4], k % 4))
    {
      var j := k - 4 * i;
      assert k / 4 == i && k % 4 == j && now[4 * i + j] == now[k];
    }
  }

  lemma Terminated(was: seq<byte>, now: seq<byte>, ints: seq<u32>)
    requires ints != [] && Stored(was, ints, 4 * |ints|) && now == was[4 * |ints| - 1 := 0]
    ensures now[..4 * |ints|] == StringOf(ints)
  {
  }

  /** `ddproto_ints_to_str`; the NUL at the end is written into the last of at least four characters. */
  method IntsToStr(ints: array<u32>, n: nat, str: array<byte>, strLen: nat) returns (err: Error)
    requires 1 <= n <= ints.Length && strLen <= str.Length
    modifies str
    ensures strLen < 4 * n ==> err == OUTPUT_VAR_TOO_SMALL && str[..] == old(str[..])
    ensures strLen >= 4 * n ==> err == NONE && str[..4 * n] == StringOf(ints[..n])
    ensures forall k | 4 * n <= k < str.Length :: str[k] == old(str[k])
  {
    if strLen < 4 * n {
      return OUTPUT_VAR_TOO_SMALL;
    }
    var index := 0;
    ghost var source := ints[..n];
    for i := 0 to n
      invariant index == 4 * i && Stored(str[..], source, index)
      invariant forall k | 4 * n <= k < str.Length :: str[k] == old(str[k])
    {
      ghost var was := str[..];
      StoreChars(ints[i], str, index);
      StoredNext(was, str[..], source, i);
      index := index + 4;
    }
    ghost var was := str[..];
    str[index - 1] := 0;
    Terminated(was, str[..], source);
    return NONE;
  }
}
