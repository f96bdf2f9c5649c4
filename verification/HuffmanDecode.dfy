/**
 Decoding as functions. An input stream is the natural number whose binary digits are its bits, first bit lowest,
 so it is followed by zeros for ever. `WalkDecode` is the reference: a bit-by-bit walk from the root for every
 symbol. `FastDecode` is what the library computes: the same symbols, but with the count of bits it believes to
 have left, which decides about errors and which can wrap around.
 */
module HuffmanDecode {
  import opened Bits
  import opened Errors
  import opened HuffmanTree
  import opened HuffmanHeight
  import opened HuffmanOptimal
  import opened HuffmanNodes
  import opened HuffmanCompress

  /** The leaf that the digits of `r` lead to. */
  function LeafAt(t: Tree, r: nat): (leaf: nat) {
    if t.Leaf? then t.id else LeafAt(t.Child(r % 2 == 1), r / 2)
  }

  /** How many digits the walk to that leaf takes. */
  function DepthAt(t: Tree, r: nat): (d: nat) {
    if t.Leaf? then 0 else 1 + DepthAt(t.Child(r % 2 == 1), r / 2)
  }

  datatype Walked = Unfinished | Finished(bytes: seq<byte>, used: nat)

  /** The reference: symbols up to the end-of-stream leaf and the number of bits used, or too many symbols. */
  function WalkDecode(t: Tree, r: nat, room: nat): (w: Walked)
    decreases room
  {
    var leaf, d := LeafAt(t, r), DepthAt(t, r);
    if leaf == EOF_SYMBOL then Finished([], d)
    else if room == 0 then Unfinished
    else
      match WalkDecode(t, DropBits(r, d), room - 1)
      case Unfinished => Unfinished
      case Finished(x, used) => Finished([leaf % 256] + x, used + d)
  }

  datatype Counted = Left(n: nat) | Short(error: Error)

  /**
   The bits left of `n` after a symbol of depth `d`. A symbol deeper than the lookup table that starts with
   exactly ten bits left takes the 32-bit counter below zero.
   */
  function CountDown(n: nat, d: nat): (c: Counted) {
    if d <= LUT_BITS then
      if n < d then Short(HUFFMAN_NODE_LOOKUP_INSUFFICIENT_BITS) else Left(n - d)
    else if n < LUT_BITS then Short(HUFFMAN_TABLE_LOOKUP_INSUFFICIENT_BITS)
    else if n == LUT_BITS then (if d < 0x1_0000_0000 then Left(0x1_0000_0000 - (d - LUT_BITS)) else Left(0))
    else if n < d then Short(END_OF_BUFFER)
    else Left(n - d)
  }

  datatype Result = Ok(bytes: seq<byte>) | Error(error: Errors.Error)

  /** The library's decoder on stream `r` with `n` bits left in the count and `room` bytes of output. */
  function FastDecode(t: Tree, r: nat, n: nat, room: nat): (res: Result)
    decreases room
  {
    var leaf, d := LeafAt(t, r), DepthAt(t, r);
    match CountDown(n, d)
    case Short(e) => Result.Error(e)
    case Left(n') =>
      if leaf == EOF_SYMBOL then Ok([])
      else if room == 0 then Result.Error(BUFFER_FULL)
      else
        match FastDecode(t, DropBits(r, d), n', room - 1)
        case Error(e) => Result.Error(e)
        case Ok(x) => Ok([leaf % 256] + x)
  }

  function Stream(input: seq<byte>): (r: nat) {
    Val(StreamBits(input))
  }

  /** `ddproto_huffman_decompress` on a whole input. */
  function Decompressed(t: Tree, input: seq<byte>, room: nat): (res: Result) {
    FastDecode(t, Stream(input), 8 * |input|, room)
  }

  // ----- The fast decoder against the walk

  /** Whenever the fast decoder succeeds, the walk on the zero-extended stream gives the same bytes. */
  lemma {:induction false} FastRefinesWalk(t: Tree, r: nat, n: nat, room: nat)
    requires FastDecode(t, r, n, room).Ok?
    ensures WalkDecode(t, r, room).Finished?
    ensures WalkDecode(t, r, room).bytes == FastDecode(t, r, n, room).bytes
    decreases room
  {
    var d := DepthAt(t, r);
    if LeafAt(t, r) == EOF_SYMBOL {
    } else {
      FastRefinesWalk(t, DropBits(r, d), CountDown(n, d).n, room - 1);
    }
  }

  /** A stream that ends within the counted bits is always decoded; the end is then never reached by a wrap. */
  lemma {:induction false} CompleteStreamDecodes(t: Tree, r: nat, n: nat, room: nat)
    requires WalkDecode(t, r, room).Finished? && WalkDecode(t, r, room).used <= n
    ensures FastDecode(t, r, n, room) == Ok(WalkDecode(t, r, room).bytes)
    decreases room
  {
    var d := DepthAt(t, r);
    if LeafAt(t, r) == EOF_SYMBOL {
    } else {
      CompleteStreamDecodes(t, DropBits(r, d), n - d, room - 1);
    }
  }

  ghost predicate EndsWithinInput(t: Tree, r: nat, n: nat, room: nat) {
    WalkDecode(t, r, room).Finished? && WalkDecode(t, r, room).used <= n
  }

  // ----- When a wrapped counter can fake the end of a stream

  ghost predicate ZerosFrom(s: seq<bool>, k: nat) {
    forall i | k <= i < |s| :: !s[i]
  }

  /**
   No symbol whose code is longer than the table index and all zeros beyond it is the end-of-stream symbol, or
   comes before an endless run of zeros that means end of stream.
   */
  ghost predicate NoFalseEnd(t: Tree) {
    forall s | s in t.Symbols() && |t.Code(s)| > LUT_BITS && ZerosFrom(t.Code(s), LUT_BITS) ::
      s != EOF_SYMBOL && LeafAt(t, 0) != EOF_SYMBOL
  }

  /** The walk follows the code of the leaf it ends at. */
  lemma {:induction false} WalkSpellsCode(t: Tree, r: nat)
    requires t.Distinct()
    ensures LeafAt(t, r) in t.Symbols()
    ensures t.Code(LeafAt(t, r)) == BitsOf(r, DepthAt(t, r))
  {
    if t.Leaf? {
    } else {
      WalkSpellsCode(t.Child(r % 2 == 1), r / 2);
    }
  }

  lemma {:induction false} HighBitsZero(r: nat, k: nat, n: nat)
    requires r < Pow2(k)
    ensures ZerosFrom(BitsOf(r, n), k)
    decreases n
  {
    if n == 0 {
    } else if k == 0 {
      HighBitsZero(0, 0, n - 1);
    } else {
      HighBitsZero(r / 2, k - 1, n - 1);
    }
  }

  lemma {:induction false} DropBitsZero(d: nat)
    ensures DropBits(0, d) == 0
  {
    if d == 0 {
    } else {
      DropBitsZero(d - 1);
    }
  }

  lemma {:induction false} DropBitsBound(r: nat, n: nat, d: nat)
    requires r < Pow2(n)
    ensures d <= n ==> DropBits(r, d) < Pow2(n - d)
    ensures d >= n ==> DropBits(r, d) == 0
    decreases d
  {
    if n == 0 {
      DropBitsZero(d);
    } else if d > 0 {
      DropBitsBound(r / 2, n - 1, d - 1);
    }
  }

  /** Endless zeros that do not mean end of stream are never decoded successfully. */
  lemma {:induction false} ZerosNeverEnd(t: Tree, n: nat, room: nat)
    requires LeafAt(t, 0) != EOF_SYMBOL
    ensures !FastDecode(t, 0, n, room).Ok?
    decreases room
  {
    var d := DepthAt(t, 0);
    DropBitsZero(d);
    if room == 0 || CountDown(n, d).Short? {
    } else {
      ZerosNeverEnd(t, CountDown(n, d).n, room - 1);
    }
  }

  /** A symbol that wraps the counter leaves nothing but zeros. */
  lemma WrapNeverEnds(t: Tree, r: nat, room: nat)
    requires t.Distinct() && NoFalseEnd(t) && r < Pow2(LUT_BITS) && DepthAt(t, r) > LUT_BITS
    ensures !FastDecode(t, r, LUT_BITS, room).Ok?
  {
    var d := DepthAt(t, r);
    WalkSpellsCode(t, r);
    HighBitsZero(r, LUT_BITS, d);
    DropBitsBound(r, LUT_BITS, d);
    if room > 0 {
      ZerosNeverEnd(t, CountDown(LUT_BITS, d).n, room - 1);
    }
  }

  lemma {:induction false} SuccessUsesOwnBits(t: Tree, r: nat, n: nat, room: nat)
    requires t.Distinct() && NoFalseEnd(t) && r < Pow2(n) && FastDecode(t, r, n, room).Ok?
    ensures EndsWithinInput(t, r, n, room)
    decreases room
  {
    var d := DepthAt(t, r);
    if d > n {
      WrapNeverEnds(t, r, room);
    } else if LeafAt(t, r) != EOF_SYMBOL {
      DropBitsBound(r, n, d);
      SuccessUsesOwnBits(t, DropBits(r, d), n - d, room - 1);
    }
  }

  lemma {:induction false} DepthWithinHeight(t: Tree, r: nat)
    ensures DepthAt(t, r) <= t.Height()
  {
    if t.Leaf? {
    } else {
      DepthWithinHeight(t.Child(r % 2 == 1), r / 2);
    }
  }

  lemma CutOffValue(c: seq<bool>, k: nat)
    requires k <= |c| && ZerosFrom(c, k)
    ensures Val(c[..k]) == Val(c) < Pow2(k)
  {
    ValBound(c[..k]);
    assert c == c[..k] + c[k..];
    ZerosAreZero(c[k..]);
    ValConcat(c[..k], c[k..]);
  }

  lemma WholeCode(t: Tree, s: nat)
    requires s in t.Symbols()
    ensures var r := Val(t.Code(s)); LeafAt(t, r) == s && DepthAt(t, r) == |t.Code(s)| && DropBits(r, |t.Code(s)|) == 0
  {
    WalkCode(t, s, []);
    DropBitsVal(t.Code(s), []);
    assert t.Code(s) + [] == t.Code(s);
  }

  /** A symbol that breaks `NoFalseEnd` is accepted with ten bits left although its code is cut off. */
  lemma CutOffStreamAccepted(t: Tree, s: nat)
    requires t.Height() <= MAX_CODE && s in t.Symbols()
    requires |t.Code(s)| > LUT_BITS && ZerosFrom(t.Code(s), LUT_BITS)
    requires s == EOF_SYMBOL || LeafAt(t, 0) == EOF_SYMBOL
    ensures var r := Val(t.Code(s)[..LUT_BITS]);
            r < Pow2(LUT_BITS) && FastDecode(t, r, LUT_BITS, 1).Ok? && !EndsWithinInput(t, r, LUT_BITS, 1)
  {
    var r := Val(t.Code(s));
    CutOffValue(t.Code(s), LUT_BITS);
    WholeCode(t, s);
    CodeWithinHeight(t, s);
    DepthWithinHeight(t, 0);
    if s != EOF_SYMBOL {
      assert FastDecode(t, 0, CountDown(LUT_BITS, |t.Code(s)|).n, 0) == Ok([]);
    }
  }

  lemma {:induction false} ZerosAreZero(s: seq<bool>)
    requires ZerosFrom(s, 0)
    ensures Val(s) == 0
  {
    if s == [] {
    } else {
      assert forall i | 0 <= i < |s[1..]| :: !s[1..][i];
      ZerosAreZero(s[1..]);
    }
  }

  /**
   On every stream of `n` bits the decoder succeeds exactly when the end-of-stream code lies within these bits,
   provided no false end is possible; and if one is possible, a cut-off stream is accepted.
   */
  lemma SuccessFromAnyState(t: Tree)
    requires CodecTree(t)
    ensures NoFalseEnd(t) <==>
            forall r: nat, n: nat, room: nat | r < Pow2(n) ::
              FastDecode(t, r, n, room).Ok? <==> EndsWithinInput(t, r, n, room)
  {
    if NoFalseEnd(t) {
      forall r: nat, n: nat, room: nat | r < Pow2(n)
        ensures FastDecode(t, r, n, room).Ok? <==> EndsWithinInput(t, r, n, room)
      {
        SuccessFromState(t, r, n, room);
      }
    } else {
      var s := FalseEnd(t);
      CutOffStreamAccepted(t, s);
      var r := Val(t.Code(s)[..LUT_BITS]);
      assert FastDecode(t, r, LUT_BITS, 1).Ok? && !EndsWithinInput(t, r, LUT_BITS, 1);
    }
  }

  lemma SuccessFromState(t: Tree, r: nat, n: nat, room: nat)
    requires t.Distinct() && NoFalseEnd(t) && r < Pow2(n)
    ensures FastDecode(t, r, n, room).Ok? <==> EndsWithinInput(t, r, n, room)
  {
    if FastDecode(t, r, n, room).Ok? {
      SuccessUsesOwnBits(t, r, n, room);
    }
    if EndsWithinInput(t, r, n, room) {
      CompleteStreamDecodes(t, r, n, room);
    }
  }

  lemma FalseEnd(t: Tree) returns (s: nat)
    requires !NoFalseEnd(t)
    ensures s in t.Symbols() && |t.Code(s)| > LUT_BITS && ZerosFrom(t.Code(s), LUT_BITS)
    ensures s == EOF_SYMBOL || LeafAt(t, 0) == EOF_SYMBOL
  {
    s :| s in t.Symbols() && |t.Code(s)| > LUT_BITS && ZerosFrom(t.Code(s), LUT_BITS)
      && !(s != EOF_SYMBOL && LeafAt(t, 0) != EOF_SYMBOL);
  }

  // ----- The same on inputs

  /** `r` behind `k` one-bits. */
  function BehindOnes(k: nat, r: nat): (q: nat) {
    if k == 0 then r else 2 * BehindOnes(k - 1, r) + 1
  }

  /** A leading one-bit that is a symbol of its own changes nothing for what is behind it. */
  lemma SkipOne(t: Tree, r: nat, n: nat, room: nat)
    requires t.Node? && t.one.Leaf? && t.one.id != EOF_SYMBOL
    ensures FastDecode(t, 2 * r + 1, n + 1, room + 1).Ok? <==> FastDecode(t, r, n, room).Ok?
    ensures EndsWithinInput(t, 2 * r + 1, n + 1, room + 1) <==> EndsWithinInput(t, r, n, room)
  {
    var q := 2 * r + 1;
    assert q % 2 == 1 && q / 2 == r;
    assert LeafAt(t, q) == t.one.id && DepthAt(t, q) == 1;
    assert DropBits(q, 1) == DropBits(r, 0) == r;
  }

  lemma {:induction false} SkipOnes(t: Tree, k: nat, r: nat, n: nat, room: nat)
    requires t.Node? && t.one.Leaf? && t.one.id != EOF_SYMBOL
    ensures FastDecode(t, BehindOnes(k, r), n + k, room + k).Ok? <==> FastDecode(t, r, n, room).Ok?
    ensures EndsWithinInput(t, BehindOnes(k, r), n + k, room + k) <==> EndsWithinInput(t, r, n, room)
  {
    if k == 0 {
    } else {
      SkipOnes(t, k - 1, r, n, room);
      SkipOne(t, BehindOnes(k - 1, r), n + k - 1, room + k - 1);
    }
  }

  lemma TwoByteBits(a: byte, b: byte)
    ensures StreamBits([a, b]) == BitsOf(a, 8) + BitsOf(b, 8)
  {
    StreamBitsSnoc([a], b);
    StreamBitsSnoc([], a);
    assert [a] + [b] == [a, b] && [] + [a] == [a];
    assert StreamBits([]) + BitsOf(a, 8) == BitsOf(a, 8);
  }

  lemma TwoByteStream(r: nat) returns (input: seq<byte>)
    requires r < 0x1_0000
    ensures |input| == 2 && Stream(input) == r
  {
    var a: byte, b: byte := r % 256, r / 256;
    input := [a, b];
    TwoByteBits(a, b);
    TwoByteValue(a, b);
    assert a + 256 * b == r;
  }

  lemma TwoByteValue(a: byte, b: byte)
    ensures Val(BitsOf(a, 8) + BitsOf(b, 8)) == a + 256 * b
  {
    Pow2Values();
    ValConcat(BitsOf(a, 8), BitsOf(b, 8));
    ValBitsOf(a, 8);
    ValBitsOf(b, 8);
  }

  lemma SixOnes(r: nat)
    requires r < 1024
    ensures BehindOnes(6, r) < 0x1_0000
  {
    assert BehindOnes(1, r) == 2 * r + 1;
    assert BehindOnes(3, r) == 4 * BehindOnes(1, r) + 3;
    assert BehindOnes(5, r) == 4 * BehindOnes(3, r) + 3;
  }

  /** Where symbol 0 has the code 1, a symbol that breaks `NoFalseEnd` gives two bytes that are accepted but cut off. */
  lemma CutOffInput(t: Tree, s: nat) returns (input: seq<byte>)
    requires t.Height() <= MAX_CODE && t.Node? && t.one.Leaf? && t.one.id != EOF_SYMBOL
    requires s in t.Symbols() && |t.Code(s)| > LUT_BITS && ZerosFrom(t.Code(s), LUT_BITS)
    requires s == EOF_SYMBOL || LeafAt(t, 0) == EOF_SYMBOL
    ensures |input| == 2 && Decompressed(t, input, 7).Ok? && !EndsWithinInput(t, Stream(input), 16, 7)
  {
    var r := Val(t.Code(s)[..LUT_BITS]);
    Pow2Values();
    CutOffStreamAccepted(t, s);
    SixOnes(r);
    SkipOnes(t, 6, r, LUT_BITS, 1);
    input := TwoByteStream(BehindOnes(6, r));
  }

  lemma StreamBound(input: seq<byte>)
    ensures Stream(input) < Pow2(8 * |input|)
  {
    ValBound(StreamBits(input));
  }

  /** Decompression accepts an input exactly when the end-of-stream code lies within it. */
  ghost predicate AcceptsComplete(t: Tree, input: seq<byte>, room: nat) {
    Decompressed(t, input, room).Ok? <==> EndsWithinInput(t, Stream(input), 8 * |input|, room)
  }

  /**
   For every table that the codec can work with: decompression accepts exactly the inputs that contain the
   end-of-stream code, if and only if no false end is possible. If one is, some two bytes are accepted although they
   are cut off.
   */
  lemma SuccessExactly(freq: seq<nat>)
    requires |freq| == SYMBOLS && ShortTable(freq)
    ensures NoFalseEnd(TreeOf(freq)) <==> forall input, room :: AcceptsComplete(TreeOf(freq), input, room)
  {
    var t := TreeOf(freq);
    TableTree(freq);
    CodesAreShort(freq);
    if NoFalseEnd(t) {
      forall input, room
        ensures AcceptsComplete(t, input, room)
      {
        StreamBound(input);
        SuccessFromState(t, Stream(input), 8 * |input|, room);
      }
    } else {
      var s := FalseEnd(t);
      var input := CutOffInput(t, s);
      assert !AcceptsComplete(t, input, 7);
    }
  }

  // ----- Round trip

  /** A walk on a code followed by anything ends at the leaf of the code. */
  lemma {:induction false} WalkCode(t: Tree, symbol: nat, rest: seq<bool>)
    requires symbol in t.Symbols()
    ensures LeafAt(t, Val(t.Code(symbol) + rest)) == symbol
    ensures DepthAt(t, Val(t.Code(symbol) + rest)) == |t.Code(symbol)|
  {
    match t
    case Leaf(_, _) =>
    case Node(_, l, r) =>
      var bit := symbol !in l.Symbols();
      var s := t.Code(symbol) + rest;
      assert s[0] == bit && s[1..] == t.Child(bit).Code(symbol) + rest;
      WalkCode(t.Child(bit), symbol, rest);
  }

  lemma CodeBitsSnoc(t: Tree, x: seq<byte>, c: byte)
    ensures CodeBits(t, x + [c]) == CodeBits(t, x) + t.Code(c)
  {
    assert (x + [c])[..|x|] == x;
  }

  lemma ConcatAssoc(a: seq<bool>, b: seq<bool>, c: seq<bool>)
    ensures (a + b) + c == a + (b + c)
  {
  }

  lemma FrontAndLast(x: seq<byte>)
    requires |x| >= 2
    ensures var n := |x| - 1; x == x[..n] + [x[n]] && x[1..] == x[..n][1..] + [x[n]]
  {
  }

  lemma CodeBitsHeadSnoc(t: Tree, front: seq<byte>, c: byte)
    requires front != [] && CodeBits(t, front) == t.Code(front[0]) + CodeBits(t, front[1..])
    ensures CodeBits(t, front + [c]) == t.Code(front[0]) + CodeBits(t, front[1..] + [c])
  {
    CodeBitsSnoc(t, front, c);
    CodeBitsSnoc(t, front[1..], c);
    ConcatAssoc(t.Code(front[0]), CodeBits(t, front[1..]), t.Code(c));
  }

  lemma {:induction false} CodeBitsHead(t: Tree, x: seq<byte>)
    requires x != []
    ensures CodeBits(t, x) == t.Code(x[0]) + CodeBits(t, x[1..])
  {
    var n := |x| - 1;
    if n == 0 {
      assert x[..0] == [] && x[1..] == [];
    } else {
      var front, c := x[..n], x[n];
      FrontAndLast(x);
      CodeBitsHead(t, front);
      CodeBitsHeadSnoc(t, front, c);
    }
  }

  lemma CodeStreamHead(t: Tree, x: seq<byte>, rest: seq<bool>)
    requires x != []
    ensures CodeStream(t, x) + rest == t.Code(x[0]) + (CodeStream(t, x[1..]) + rest)
    ensures |CodeStream(t, x)| == |t.Code(x[0])| + |CodeStream(t, x[1..])|
  {
    CodeBitsHead(t, x);
    var c, b, e := t.Code(x[0]), CodeBits(t, x[1..]), t.Code(EOF_SYMBOL);
    assert CodeStream(t, x) == (c + b) + e && CodeStream(t, x[1..]) == b + e;
    Regroup(c, b, e, rest);
  }

  lemma Regroup(a: seq<bool>, b: seq<bool>, c: seq<bool>, d: seq<bool>)
    ensures ((a + b) + c) + d == a + ((b + c) + d)
  {
  }

  /** The first symbol of a code stream, and the stream behind it. */
  lemma FirstSymbol(t: Tree, x: seq<byte>, rest: seq<bool>)
    requires AllSymbols(t) && x != []
    ensures var r := Val(CodeStream(t, x) + rest);
            && LeafAt(t, r) == x[0] && DepthAt(t, r) == |t.Code(x[0])|
            && DropBits(r, DepthAt(t, r)) == Val(CodeStream(t, x[1..]) + rest)
  {
    var tail := CodeStream(t, x[1..]) + rest;
    CodeStreamHead(t, x, rest);
    WalkCode(t, x[0], tail);
    DropBitsVal(t.Code(x[0]), tail);
  }

  lemma WalkStep(t: Tree, r: nat, room: nat, x: seq<byte>, used: nat)
    requires LeafAt(t, r) < EOF_SYMBOL && room > 0
    requires WalkDecode(t, DropBits(r, DepthAt(t, r)), room - 1) == Finished(x, used)
    ensures WalkDecode(t, r, room) == Finished([LeafAt(t, r)] + x, DepthAt(t, r) + used)
  {
  }

  lemma FirstAndRest(x: seq<byte>)
    requires x != []
    ensures x == [x[0]] + x[1..]
  {
  }

  lemma {:induction false} WalkFrom(t: Tree, x: seq<byte>, rest: seq<bool>, room: nat, r: nat)
    requires AllSymbols(t) && |x| <= room && r == Val(CodeStream(t, x) + rest)
    ensures WalkDecode(t, r, room) == Finished(x, |CodeStream(t, x)|)
    decreases |x|
  {
    if x == [] {
      assert CodeStream(t, x) == t.Code(EOF_SYMBOL);
      WalkCode(t, EOF_SYMBOL, rest);
    } else {
      FirstSymbol(t, x, rest);
      CodeStreamHead(t, x, rest);
      WalkFrom(t, x[1..], rest, room - 1, DropBits(r, DepthAt(t, r)));
      WalkStep(t, r, room, x[1..], |CodeStream(t, x[1..])|);
      FirstAndRest(x);
    }
  }

  /** The walk on a code stream followed by anything gives the coded bytes and uses exactly the code stream. */
  lemma WalkCodeStream(t: Tree, x: seq<byte>, rest: seq<bool>, room: nat)
    requires AllSymbols(t) && |x| <= room
    ensures WalkDecode(t, Val(CodeStream(t, x) + rest), room) == Finished(x, |CodeStream(t, x)|)
  {
    WalkFrom(t, x, rest, room, Val(CodeStream(t, x) + rest));
  }

  lemma {:induction false} FullBuffer(t: Tree, x: seq<byte>, rest: seq<bool>, n: nat, room: nat)
    requires AllSymbols(t) && room < |x| && |CodeStream(t, x)| <= n
    ensures FastDecode(t, Val(CodeStream(t, x) + rest), n, room) == Result.Error(BUFFER_FULL)
    decreases room
  {
    FirstSymbol(t, x, rest);
    CodeStreamHead(t, x, rest);
    if room == 0 {
    } else {
      FullBuffer(t, x[1..], rest, n - |t.Code(x[0])|, room - 1);
    }
  }

  lemma PackedStream(packed: seq<byte>, extra: seq<byte>, s: seq<bool>) returns (rest: seq<bool>)
    requires Packs(packed, s)
    ensures StreamBits(packed + extra) == s + rest
  {
    StreamBitsConcat(packed, extra);
    rest := Zeros(8 * |packed| - |s|) + StreamBits(extra);
  }

  /**
   Decompression undoes compression: from the packed code stream of `x`, followed by any further bytes, it gives
   exactly `x`, unless the output is too short for `x`, which is reported.
   */
  lemma RoundTrip(t: Tree, x: seq<byte>, packed: seq<byte>, extra: seq<byte>, room: nat)
    requires CodecTree(t) && Packs(packed, CodeStream(t, x))
    ensures Decompressed(t, packed + extra, room) ==
            if |x| <= room then Ok(x) else Result.Error(BUFFER_FULL)
  {
    var rest := PackedStream(packed, extra, CodeStream(t, x));
    if |x| <= room {
      WalkCodeStream(t, x, rest, room);
      CompleteStreamDecodes(t, Stream(packed + extra), 8 * |packed + extra|, room);
    } else {
      FullBuffer(t, x, rest, 8 * |packed + extra|, room);
    }
  }

  // ----- Errors

  /** The first code of a stream that has fewer bits left than the code is long: its length decides on the error. */
  lemma CutOffError(t: Tree, r: nat, n: nat, room: nat, e: Errors.Error)
    requires t.Distinct() && n < |t.Code(LeafAt(t, r))| && n != 10
    requires e == if |t.Code(LeafAt(t, r))| <= 10 then HUFFMAN_NODE_LOOKUP_INSUFFICIENT_BITS
                  else if n < 10 then HUFFMAN_TABLE_LOOKUP_INSUFFICIENT_BITS
                  else END_OF_BUFFER
    ensures FastDecode(t, r, n, room) == Result.Error(e)
  {
    WalkSpellsCode(t, r);
  }

  lemma FirstOfCodes(t: Tree, x: seq<byte>, rest: seq<bool>, r: nat) returns (length: nat, r': nat)
    requires AllSymbols(t) && x != [] && r == Val(CodeBits(t, x) + rest)
    ensures LeafAt(t, r) == x[0] && DepthAt(t, r) == length
    ensures r' == DropBits(r, length) == Val(CodeBits(t, x[1..]) + rest)
    ensures |CodeBits(t, x)| == length + |CodeBits(t, x[1..])|
  {
    var c, tail := t.Code(x[0]), CodeBits(t, x[1..]) + rest;
    CodeBitsHead(t, x);
    ConcatAssoc(c, CodeBits(t, x[1..]), rest);
    WalkCode(t, x[0], tail);
    DropBitsVal(c, tail);
    length, r' := |c|, Val(tail);
  }

  /** The result of decoding, with `x` decoded before. */
  function After(x: seq<byte>, d: Result): (r: Result) {
    match d
    case Error(_) => d
    case Ok(y) => Ok(x + y)
  }

  lemma DecodeStep(t: Tree, r: nat, n: nat, room: nat, d: nat, c: byte)
    requires LeafAt(t, r) == c && DepthAt(t, r) == d <= n && room > 0
    ensures FastDecode(t, r, n, room) == After([c], FastDecode(t, DropBits(r, d), n - d, room - 1))
  {
  }

  lemma AfterBoth(x: seq<byte>, d: Result)
    requires x != []
    ensures After([x[0]], After(x[1..], d)) == After(x, d)
  {
    assert d.Ok? ==> [x[0]] + (x[1..] + d.bytes) == x + d.bytes;
  }

  lemma AfterNone(d: Result)
    ensures After([], d) == d
  {
    assert d.Ok? ==> [] + d.bytes == d.bytes;
  }

  /** Behind the whole codes of `x` the decoder goes on with what is left. */
  lemma {:induction false} DecodeBehind(t: Tree, x: seq<byte>, rest: seq<bool>, r: nat, total: nat, space: nat,
                                        n: nat, room: nat)
    requires AllSymbols(t) && r == Val(CodeBits(t, x) + rest)
    requires total == |CodeBits(t, x)| + n && space == |x| + room
    ensures FastDecode(t, r, total, space) == After(x, FastDecode(t, Val(rest), n, room))
    decreases |x|
  {
    var d := FastDecode(t, Val(rest), n, room);
    if x == [] {
      assert CodeBits(t, x) + rest == rest;
      AfterNone(d);
    } else {
      var length, r' := FirstOfCodes(t, x, rest, r);
      DecodeBehind(t, x[1..], rest, r', total - length, space - 1, n, room);
      DecodeStep(t, r, total, space, length, x[0]);
      AfterBoth(x, d);
    }
  }

  lemma ErrorBehind(t: Tree, x: seq<byte>, rest: seq<bool>, r: nat, total: nat, space: nat, n: nat, room: nat,
                    e: Errors.Error)
    requires AllSymbols(t) && r == Val(CodeBits(t, x) + rest)
    requires total == |CodeBits(t, x)| + n && space == |x| + room
    requires FastDecode(t, Val(rest), n, room) == Result.Error(e)
    ensures FastDecode(t, r, total, space) == Result.Error(e)
  {
    DecodeBehind(t, x, rest, r, total, space, n, room);
  }

  /**
   An input that holds the codes of `x` and then `rest`, which ends within the code that it begins: the error tells
   how long that code is, unless exactly ten bits are left, when the counter may wrap.
   */
  lemma CutOffInputError(t: Tree, input: seq<byte>, x: seq<byte>, rest: seq<bool>, room: nat, e: Errors.Error)
    requires CodecTree(t) && StreamBits(input) == CodeBits(t, x) + rest && |x| <= room
    requires |rest| < |t.Code(LeafAt(t, Val(rest)))| && |rest| != 10
    requires e == if |t.Code(LeafAt(t, Val(rest)))| <= 10 then HUFFMAN_NODE_LOOKUP_INSUFFICIENT_BITS
                  else if |rest| < 10 then HUFFMAN_TABLE_LOOKUP_INSUFFICIENT_BITS
                  else END_OF_BUFFER
    ensures Decompressed(t, input, room) == Result.Error(e)
  {
    var r, total := Stream(input), 8 * |input|;
    assert r == Val(CodeBits(t, x) + rest) && total == |CodeBits(t, x)| + |rest|;
    CutOffError(t, Val(rest), |rest|, room - |x|, e);
    ErrorBehind(t, x, rest, r, total, room, |rest|, room - |x|, e);
  }
}
