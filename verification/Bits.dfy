/**
 Machine words as natural numbers and as bit sequences, least significant bit first.

 A word is a `nat` below a power of two. The shifts and the bitwise or of the C code are written out on
 naturals, and `Val` reads a bit sequence as a number. The number of a sequence followed by zeros is the
 number of the sequence, so a natural number also stands for an input stream extended with zero bits.
 */
module Bits {

  type byte = x: int | 0 <= x < 256
  type u32 = x: int | 0 <= x < 0x1_0000_0000

  function Pow2(n: nat): (p: nat)
    ensures p >= 1
  {
    if n == 0 then 1 else 2 * Pow2(n - 1)
  }

  lemma {:induction false} Pow2Add(a: nat, b: nat)
    ensures Pow2(a + b) == Pow2(a) * Pow2(b)
  {
    if a == 0 {
    } else {
      Pow2Add(a - 1, b);
      MulAssoc(2, Pow2(a - 1), Pow2(b));
    }
  }

  lemma {:induction false} Pow2Monotone(a: nat, b: nat)
    requires a <= b
    ensures Pow2(a) <= Pow2(b)
    ensures a < b ==> Pow2(a) < Pow2(b)
    decreases b
  {
    if a == b {
    } else {
      Pow2Monotone(a, b - 1);
    }
  }

  lemma Pow2Values()
    ensures Pow2(4) == 16 && Pow2(6) == 64 && Pow2(7) == 128 && Pow2(8) == 256 && Pow2(10) == 1024
    ensures Pow2(13) == 8192 && Pow2(16) == 65536 && Pow2(20) == 0x10_0000 && Pow2(27) == 0x800_0000
    ensures Pow2(32) == 0x1_0000_0000
  {
    assert Pow2(8) == 256;
    assert Pow2(10) == 1024;
    Pow2Add(8, 8);
    Pow2Add(16, 16);
    Pow2Add(10, 10);
    Pow2Add(8, 5);
    Pow2Add(20, 7);
    assert Pow2(7) == 128 && Pow2(5) == 32;
  }

  // ----- Division and remainder facts, isolated from everything else

  lemma DivModUnique(x: nat, d: nat, q: nat, r: nat)
    requires d > 0 && r < d && x == q * d + r
    ensures x / d == q && x % d == r
  {
    var q', r' := x / d, x % d;
    assert q' * d + r' == x;
    if q' < q {
      MulStep(q', q, d);
    } else if q < q' {
      MulStep(q, q', d);
    }
  }

  lemma MulPlus(u: nat, v: nat, a: nat)
    ensures (u + v) * a == u * a + v * a >= v * a
  {
  }

  lemma MulStep(a: nat, b: nat, d: nat)
    requires a < b
    ensures a * d + d <= b * d
  {
    var more := b - a - 1;
    MulPlus(a, more + 1, d);
    MulPlus(more, 1, d);
  }

  lemma DivAdd(a: nat, q: nat, d: nat)
    requires d > 0
    ensures (a + q * d) / d == a / d + q
    ensures (a + q * d) % d == a % d
  {
    assert a == (a / d) * d + a % d;
    assert (a / d + q) * d == (a / d) * d + q * d;
    DivModUnique(a + q * d, d, a / d + q, a % d);
  }

  lemma MulSwap(a: nat, b: nat)
    ensures a * b == b * a
  {
  }

  lemma TwoDigits(q: nat, b: nat, r: nat, a: nat)
    ensures (q * b + r) * a == q * (a * b) + r * a
  {
    MulPlus(q * b, r, a);
    MulAssoc(q, b, a);
    MulSwap(a, b);
  }

  lemma TwoDigitsBound(r: nat, b: nat, a: nat, s: nat)
    requires r < b && s < a
    ensures r * a + s < a * b
  {
    MulStep(r, b, a);
    MulSwap(a, b);
  }

  lemma TwoDivisions(x: nat, a: nat, b: nat, q: nat, s: nat, q': nat, r: nat)
    requires s < a && r < b && x == q * a + s && q == q' * b + r
    ensures a * b > 0 && x / (a * b) == q'
  {
    var ab, low := a * b, r * a + s;
    TwoDigits(q', b, r, a);
    TwoDigitsBound(r, b, a, s);
    DivModUnique(x, ab, q', low);
  }

  lemma DivDiv(x: nat, a: nat, b: nat)
    requires a > 0 && b > 0
    ensures a * b > 0 && (x / a) / b == x / (a * b)
  {
    TwoDivisions(x, a, b, x / a, x % a, (x / a) / b, (x / a) % b);
  }

  // ----- Bitwise or and shifts of unsigned words

  function BitOr(a: nat, b: nat): (r: nat)
    decreases a + b
  {
    if a == 0 && b == 0 then 0
    else (if a % 2 == 1 || b % 2 == 1 then 1 else 0) + 2 * BitOr(a / 2, b / 2)
  }

  lemma {:induction false} BitOrComm(a: nat, b: nat)
    ensures BitOr(a, b) == BitOr(b, a)
    decreases a + b
  {
    if a == 0 && b == 0 {
    } else {
      BitOrComm(a / 2, b / 2);
    }
  }

  lemma {:induction false} BitOrZero(b: nat)
    ensures BitOr(0, b) == b
  {
    if b == 0 {
    } else {
      BitOrZero(b / 2);
    }
  }

  /** An or of disjoint bit ranges is a sum. */
  lemma DoubledFactor(b: nat, p: nat)
    ensures b * (2 * p) == 2 * (b * p)
  {
  }

  lemma BitOrHalves(a: nat, half: nat)
    ensures BitOr(a, 2 * half) == a % 2 + 2 * BitOr(a / 2, half)
  {
    assert (2 * half) / 2 == half && (2 * half) % 2 == 0;
  }

  lemma {:induction false} BitOrDisjoint(a: nat, b: nat, k: nat)
    requires a < Pow2(k)
    ensures BitOr(a, b * Pow2(k)) == a + b * Pow2(k)
  {
    if k == 0 {
      BitOrZero(b);
    } else {
      var half := b * Pow2(k - 1);
      DoubledFactor(b, Pow2(k - 1));
      BitOrDisjoint(a / 2, b, k - 1);
      BitOrHalves(a, half);
      assert 2 * (a / 2 + half) + a % 2 == a + 2 * half;
    }
  }

  /** `x << k` on an unsigned 32-bit word; C leaves a shift by 32 or more undefined. */
  function Shl32(x: u32, k: nat): (r: u32)
    requires k < 32
  {
    (x * Pow2(k)) % 0x1_0000_0000
  }

  lemma ModSmall(x: nat, m: nat)
    requires x < m
    ensures x % m == x
  {
  }

  lemma BelowProduct(x: nat, a: nat, b: nat, c: nat)
    requires x < a && b >= 1 && a * b == c
    ensures 0 <= x * b < c
  {
    MulStep(x, a, b);
  }

  lemma ShiftBound(x: nat, k: nat, n: nat)
    requires k + n <= 32 && x < Pow2(n)
    ensures 0 <= x * Pow2(k) < 0x1_0000_0000
  {
    Pow2Add(n, k);
    Pow2Monotone(n + k, 32);
    Pow2Values();
    BelowProduct(x, Pow2(n), Pow2(k), Pow2(n + k));
  }

  /** A shift that keeps every bit of an `n`-bit value is a multiplication. */
  lemma Shl32Fits(x: u32, k: nat, n: nat)
    requires k + n <= 32 && k < 32 && x < Pow2(n)
    ensures Shl32(x, k) == x * Pow2(k) < 0x1_0000_0000
  {
    ShiftBound(x, k, n);
    ModSmall(x * Pow2(k), 0x1_0000_0000);
  }

  /** `x >> k` on an unsigned 32-bit word. */
  function Shr32(x: u32, k: nat): (r: u32)
    requires k < 32
  {
    DivNotLarger(x, Pow2(k));
    x / Pow2(k)
  }

  lemma DivNotLarger(x: nat, d: nat)
    requires d >= 1
    ensures 0 <= x / d <= x
  {
    var q := x / d;
    if q > x {
      MulStep(x, q, d);
      assert x * d >= x by { MulAtLeast(x, d); }
    }
  }

  lemma MulAtLeast(x: nat, d: nat)
    requires d >= 1
    ensures x * d >= x
  {
    if d > 1 {
      MulAtLeast(x, d - 1);
      assert x * d == x * (d - 1) + x;
    }
  }

  // ----- Bit sequences as numbers

  function Val(s: seq<bool>): (v: nat)
  {
    if s == [] then 0 else (if s[0] then 1 else 0) + 2 * Val(s[1..])
  }

  lemma {:induction false} ValBound(s: seq<bool>)
    ensures Val(s) < Pow2(|s|)
  {
    if s == [] {
    } else {
      ValBound(s[1..]);
    }
  }

  lemma {:induction false} ValConcat(a: seq<bool>, b: seq<bool>)
    ensures Val(a + b) == Val(a) + Pow2(|a|) * Val(b)
  {
    if a == [] {
      assert a + b == b;
    } else {
      assert (a + b)[1..] == a[1..] + b;
      ValConcat(a[1..], b);
      MulAssoc(2, Pow2(|a| - 1), Val(b));
    }
  }

  lemma MulAssoc(a: nat, b: nat, c: nat)
    ensures (a * b) * c == a * (b * c)
  {
  }

  /** Or-ing a code in above the pending bits appends it, as long as nothing is shifted out. */
  lemma OrAppends(pending: seq<bool>, code: seq<bool>)
    requires |pending| < 32 && |pending| + |code| <= 32
    ensures Val(pending) < 0x1_0000_0000 && Val(code) < 0x1_0000_0000
    ensures BitOr(Val(pending), Shl32(Val(code), |pending|)) == Val(pending + code) < 0x1_0000_0000
  {
    ValBound(pending);
    ValBound(code);
    ValConcat(pending, code);
    assert Val(pending) < 0x1_0000_0000 && Val(code) < 0x1_0000_0000 && Val(pending + code) < 0x1_0000_0000 by {
      ValBound(pending + code);
      Pow2Monotone(|pending + code|, 32);
      Pow2Monotone(|pending|, 32);
      Pow2Monotone(|code|, 32);
      Pow2Values();
    }
    Shl32Fits(Val(code), |pending|, |code|);
    BitOrDisjoint(Val(pending), Val(code), |pending|);
    assert Val(code) * Pow2(|pending|) == Pow2(|pending|) * Val(code);
  }

  /** Reading off a prefix is a remainder, dropping it is a division. */
  lemma ValSplit(a: seq<bool>, b: seq<bool>)
    ensures Val(a + b) % Pow2(|a|) == Val(a)
    ensures Val(a + b) / Pow2(|a|) == Val(b)
  {
    ValConcat(a, b);
    ValBound(a);
    assert Pow2(|a|) * Val(b) == Val(b) * Pow2(|a|);
    DivModUnique(Val(a + b), Pow2(|a|), Val(b), Val(a));
  }

  /** A stream without its first `d` bits. */
  function DropBits(r: nat, d: nat): (q: nat)
    decreases d
  {
    if d == 0 then r else DropBits(r / 2, d - 1)
  }

  lemma {:induction false} DropBitsIsDivision(r: nat, d: nat)
    ensures DropBits(r, d) == r / Pow2(d)
    decreases d
  {
    if d == 0 {
    } else {
      DropBitsIsDivision(r / 2, d - 1);
      DivDiv(r, 2, Pow2(d - 1));
    }
  }

  lemma {:induction false} DropBitsAdd(r: nat, a: nat, b: nat)
    ensures DropBits(r, a + b) == DropBits(DropBits(r, a), b)
    decreases a
  {
    if a == 0 {
    } else {
      DropBitsAdd(r / 2, a - 1, b);
    }
  }

  lemma DropBitsVal(a: seq<bool>, b: seq<bool>)
    ensures DropBits(Val(a + b), |a|) == Val(b)
  {
    ValSplit(a, b);
    DropBitsIsDivision(Val(a + b), |a|);
  }

  /** The low `n` bits of `x`, least significant first. */
  function BitsOf(x: nat, n: nat): (s: seq<bool>)
    ensures |s| == n
  {
    if n == 0 then [] else [x % 2 == 1] + BitsOf(x / 2, n - 1)
  }

  lemma {:induction false} ValBitsOf(x: nat, n: nat)
    requires x < Pow2(n)
    ensures Val(BitsOf(x, n)) == x
  {
    if n == 0 {
    } else {
      ValBitsOf(x / 2, n - 1);
      assert BitsOf(x, n)[1..] == BitsOf(x / 2, n - 1);
    }
  }

  lemma {:induction false} BitsOfVal(s: seq<bool>)
    ensures BitsOf(Val(s), |s|) == s
  {
    if s == [] {
    } else {
      BitsOfVal(s[1..]);
      assert s == [s[0]] + s[1..];
    }
  }

  /** The bits of a byte string in stream order. */
  function StreamBits(b: seq<byte>): (s: seq<bool>)
    ensures |s| == 8 * |b|
  {
    if b == [] then [] else BitsOf(b[0], 8) + StreamBits(b[1..])
  }

  lemma {:induction false} StreamBitsConcat(a: seq<byte>, b: seq<byte>)
    ensures StreamBits(a + b) == StreamBits(a) + StreamBits(b)
  {
    if a == [] {
      assert a + b == b;
    } else {
      assert (a + b)[1..] == a[1..] + b;
      StreamBitsConcat(a[1..], b);
    }
  }

  /** One more byte at the end of a stream. */
  lemma StreamBitsSnoc(a: seq<byte>, x: byte)
    ensures StreamBits(a + [x]) == StreamBits(a) + BitsOf(x, 8)
  {
    StreamBitsConcat(a, [x]);
    assert [x][1..] == [];
    assert StreamBits([x]) == BitsOf(x, 8);
  }
}
