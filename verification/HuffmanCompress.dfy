/** Compression: codes are collected in a 32-bit accumulator and leave it byte by byte. */
module HuffmanCompress {
  import opened Bits
  import opened Errors
  import opened HuffmanTree
  import opened HuffmanOptimal
  import opened HuffmanNodes

  /** The codes of the bytes of `x`, one after the other. */
  function CodeBits(t: Tree, x: seq<byte>): (s: seq<bool>) {
    if x == [] then [] else CodeBits(t, x[..|x| - 1]) + t.Code(x[|x| - 1])
  }

  /** What compression writes: the codes of the input and the end-of-stream code. */
  function CodeStream(t: Tree, x: seq<byte>): (s: seq<bool>) {
    CodeBits(t, x) + t.Code(EOF_SYMBOL)
  }

  function Zeros(n: nat): (z: seq<bool>)
    ensures |z| == n && Val(z) == 0
  {
    if n == 0 then [] else
      var z := [false] + Zeros(n - 1);
      assert z[1..] == Zeros(n - 1);
      z
  }

  function BytesFor(bits: nat): (n: nat) {
    (bits + 7) / 8
  }

  /** `b` is `s` in bytes, the last one filled up with zero bits. */
  ghost predicate Packs(b: seq<byte>, s: seq<bool>) {
    && |b| == BytesFor(|s|)
    && StreamBits(b) == s + Zeros(8 * |b| - |s|)
  }

  lemma {:induction false} StreamBitsInjective(a: seq<byte>, b: seq<byte>)
    requires StreamBits(a) == StreamBits(b)
    ensures a == b
  {
    assert |a| == |b|;
    if a == [] {
    } else {
      assert StreamBits(a)[..8] == BitsOf(a[0], 8) && StreamBits(b)[..8] == BitsOf(b[0], 8);
      assert StreamBits(a)[8..] == StreamBits(a[1..]) && StreamBits(b)[8..] == StreamBits(b[1..]);
      ValBitsOf(a[0], 8);
      ValBitsOf(b[0], 8);
      StreamBitsInjective(a[1..], b[1..]);
      assert a == [a[0]] + a[1..] && b == [b[0]] + b[1..];
    }
  }

  /** The packed form of a bit stream is unique. */
  lemma PacksUnique(a: seq<byte>, b: seq<byte>, s: seq<bool>)
    requires Packs(a, s) && Packs(b, s)
    ensures a == b
  {
    StreamBitsInjective(a, b);
  }

  /**
   The encoder has produced the stream `s` so far: `written` are its first bytes, and the accumulator holds the
   remaining `bitcount` bits as the number `bits`.
   */
  ghost predicate Emitted(written: seq<byte>, bits: u32, bitcount: u32, s: seq<bool>) {
    && 8 * |written| + bitcount == |s| && bitcount <= 32
    && StreamBits(written) == s[..8 * |written|]
    && bits == Val(s[8 * |written|..])
  }

  /** The part of the tables that compression uses: the code of every symbol. */
  ghost predicate Coded(nodes: seq<NodeRecord>, t: Tree) {
    && |nodes| == MAX_NODES
    && forall symbol | 0 <= symbol < SYMBOLS ::
         && nodes[symbol].numBits == |t.Code(symbol)| <= MAX_CODE
         && nodes[symbol].bits == Val(t.Code(symbol))
  }

  lemma TablesAreCoded(nodes: seq<NodeRecord>, lut: seq<NodePointer>, t: Tree)
    requires TablesOf(nodes, lut, t) && CodecTree(t)
    ensures Coded(nodes, t)
  {
    forall symbol | 0 <= symbol < SYMBOLS
      ensures nodes[symbol].numBits == |t.Code(symbol)| <= MAX_CODE
      ensures nodes[symbol].bits == Val(t.Code(symbol))
    {
      LabelledCode(nodes, t, [], symbol);
      assert [] + t.Code(symbol) == t.Code(symbol);
      CodeWithinHeight(t, symbol);
    }
  }

  lemma LoadStep(written: seq<byte>, bits: u32, bitcount: u32, s: seq<bool>, code: seq<bool>)
    requires Emitted(written, bits, bitcount, s) && bitcount < 8 && |code| <= MAX_CODE
    ensures Val(code) < 0x1_0000_0000 && BitOr(bits, Shl32(Val(code), bitcount)) < 0x1_0000_0000
    ensures Emitted(written, BitOr(bits, Shl32(Val(code), bitcount)), bitcount + |code|, s + code)
  {
    var n := 8 * |written|;
    OrAppends(s[n..], code);
    SplitAppended(s, code, n);
  }

  lemma SplitAppended(s: seq<bool>, code: seq<bool>, n: nat)
    requires n <= |s|
    ensures (s + code)[n..] == s[n..] + code && (s + code)[..n] == s[..n]
  {
  }

  /** `HUFFMAN_MACRO_LOADSYMBOL`: no bit of the code is shifted out of the accumulator. */
  method LoadSymbol(nodes: array<NodeRecord>, symbol: nat, bits: u32, bitcount: u32,
                    ghost t: Tree, ghost written: seq<byte>, ghost s: seq<bool>)
    returns (bits': u32, bitcount': u32)
    requires Coded(nodes[..], t) && symbol < SYMBOLS && Emitted(written, bits, bitcount, s) && bitcount < 8
    ensures Emitted(written, bits', bitcount', s + t.Code(symbol))
  {
    var node := nodes[symbol];
    ghost var code := t.Code(symbol);
    assert node.numBits == |code| && node.bits == Val(code) by { assert node == nodes[..][symbol]; }
    LoadStep(written, bits, bitcount, s, code);
    bits' := BitOr(bits, Shl32(node.bits, bitcount));
    ModSmall(bitcount + node.numBits, 0x1_0000_0000);
    bitcount' := (bitcount + node.numBits) % 0x1_0000_0000;
  }

  /** The low byte of a number and the rest are its first eight bits and the rest. */
  lemma LowByte(pending: seq<bool>)
    requires |pending| >= 8
    ensures BitsOf(Val(pending) % 256, 8) == pending[..8] && Val(pending) / 256 == Val(pending[8..])
  {
    assert pending == pending[..8] + pending[8..];
    ValSplit(pending[..8], pending[8..]);
    assert Pow2(8) == 256;
    BitsOfVal(pending[..8]);
  }

  lemma NextByte(s: seq<bool>, n: nat)
    requires n + 8 <= |s|
    ensures s[..n + 8] == s[..n] + s[n..][..8] && s[n + 8..] == s[n..][8..]
  {
  }

  /** Writing the low byte moves eight pending bits to the output. */
  lemma WriteStep(written: seq<byte>, bits: u32, bitcount: u32, s: seq<bool>)
    requires Emitted(written, bits, bitcount, s) && bitcount >= 8
    ensures Emitted(written + [bits % 256], bits / 256, bitcount - 8, s)
  {
    var n := 8 * |written|;
    LowByte(s[n..]);
    NextByte(s, n);
    StreamBitsSnoc(written, bits % 256);
  }

  /** `HUFFMAN_MACRO_WRITE`: whole bytes leave the accumulator until fewer than eight bits are left. */
  method WriteBytes(output: array<byte>, start: nat, bits: u32, bitcount: u32, ghost s: seq<bool>)
    returns (dst: nat, bits': u32, bitcount': u32, full: bool)
    requires start <= output.Length && Emitted(output[..start], bits, bitcount, s)
    modifies output
    ensures full <==> |s| >= 8 * output.Length + 8
    ensures !full ==> start <= dst <= output.Length && bitcount' < 8
    ensures !full ==> Emitted(output[..dst], bits', bitcount', s)
    ensures !full ==> forall i | dst <= i < output.Length :: output[i] == old(output[i])
  {
    dst, bits', bitcount', full := start, bits, bitcount, false;
    while bitcount' >= 8
      invariant start <= dst <= output.Length
      invariant Emitted(output[..dst], bits', bitcount', s)
      invariant forall i | dst <= i < output.Length :: output[i] == old(output[i])
    {
      if dst == output.Length {
        full := true;
        return;
      }
      ghost var written := output[..dst];
      WriteStep(written, bits', bitcount', s);
      output[dst] := bits' % 256;
      dst := dst + 1;
      assert output[..dst] == written + [bits' % 256];
      bits' := bits' / 256;
      bitcount' := bitcount' - 8;
    }
  }

  /** One symbol: load its code, then write the whole bytes. */
  method EmitSymbol(nodes: array<NodeRecord>, symbol: nat, output: array<byte>, start: nat, bits: u32, bitcount: u32,
                    ghost t: Tree, ghost s: seq<bool>)
    returns (dst: nat, bits': u32, bitcount': u32, full: bool)
    requires Coded(nodes[..], t) && symbol < SYMBOLS && start <= output.Length && bitcount < 8
    requires Emitted(output[..start], bits, bitcount, s)
    modifies output
    ensures full <==> |s + t.Code(symbol)| >= 8 * output.Length + 8
    ensures !full ==> start <= dst <= output.Length && bitcount' < 8
    ensures !full ==> Emitted(output[..dst], bits', bitcount', s + t.Code(symbol))
    ensures !full ==> forall i | dst <= i < output.Length :: output[i] == old(output[i])
  {
    bits', bitcount' := LoadSymbol(nodes, symbol, bits, bitcount, t, output[..start], s);
    dst, bits', bitcount', full := WriteBytes(output, start, bits', bitcount', s + t.Code(symbol));
  }

  lemma {:induction false} CodeBitsPrefix(t: Tree, x: seq<byte>, k: nat)
    requires k <= |x|
    ensures |CodeBits(t, x[..k])| <= |CodeBits(t, x)|
  {
    if k == |x| {
      assert x[..k] == x;
    } else {
      CodeBitsPrefix(t, x[..|x| - 1], k);
      assert x[..|x| - 1][..k] == x[..k];
    }
  }

  lemma CodeBitsNext(t: Tree, x: seq<byte>, k: nat)
    requires k < |x|
    ensures CodeBits(t, x[..k + 1]) == CodeBits(t, x[..k]) + t.Code(x[k])
  {
    assert x[..k + 1][..k] == x[..k];
  }

  /** The last, partly filled byte. */
  lemma LastByte(pending: seq<bool>, bits: nat)
    requires |pending| < 8 && bits == Val(pending)
    ensures bits < 256 && BitsOf(bits, 8) == pending + Zeros(8 - |pending|)
  {
    var z := Zeros(8 - |pending|);
    ValBound(pending);
    Pow2Monotone(|pending|, 8);
    assert Pow2(8) == 256;
    ValConcat(pending, z);
    assert Val(pending + z) == bits;
    BitsOfVal(pending + z);
  }

  lemma PackedExact(written: seq<byte>, bits: u32, s: seq<bool>)
    requires Emitted(written, bits, 0, s)
    ensures Packs(written, s)
  {
    assert s[..8 * |written|] == s;
    assert s + Zeros(0) == s;
  }

  lemma PackedPending(written: seq<byte>, bits: u32, bitcount: u32, s: seq<bool>)
    requires Emitted(written, bits, bitcount, s) && 0 < bitcount < 8
    ensures bits < 256 && Packs(written + [bits], s) && BytesFor(|s|) == |written| + 1
  {
    var n := 8 * |written|;
    LastByte(s[n..], bits);
    FilledUp(written, bits, s, 8 - bitcount);
  }

  lemma FilledUp(written: seq<byte>, last: byte, s: seq<bool>, k: nat)
    requires 8 * |written| + 8 == |s| + k && k < 8 && StreamBits(written) == s[..8 * |written|]
    requires BitsOf(last, 8) == s[8 * |written|..] + Zeros(k)
    ensures Packs(written + [last], s) && BytesFor(|s|) == |written| + 1
  {
    StreamBitsSnoc(written, last);
    PadBehind(s, 8 * |written|, Zeros(k));
    assert 8 * |written + [last]| - |s| == k;
  }

  lemma PadBehind(s: seq<bool>, n: nat, z: seq<bool>)
    requires n <= |s|
    ensures s + z == s[..n] + (s[n..] + z)
  {
  }

  /** The symbol at place `k` of the input, behind the `k` before it. */
  method EmitAt(nodes: array<NodeRecord>, symbol: nat, output: array<byte>, start: nat, bits: u32, bitcount: u32,
                ghost t: Tree, ghost input: seq<byte>, ghost k: nat, ghost s: seq<bool>)
    returns (dst: nat, bits': u32, bitcount': u32, full: bool, ghost s': seq<bool>)
    requires Coded(nodes[..], t) && k < |input| && symbol == input[k] && start <= output.Length && bitcount < 8
    requires s == CodeBits(t, input[..k]) && Emitted(output[..start], bits, bitcount, s)
    modifies output
    ensures full ==> |CodeBits(t, input)| >= 8 * output.Length + 8
    ensures !full ==> start <= dst <= output.Length && bitcount' < 8 && s' == CodeBits(t, input[..k + 1])
    ensures !full ==> Emitted(output[..dst], bits', bitcount', s')
    ensures !full ==> forall i | dst <= i < output.Length :: output[i] == old(output[i])
  {
    CodeBitsNext(t, input, k);
    CodeBitsPrefix(t, input, k + 1);
    s' := s + t.Code(symbol);
    dst, bits', bitcount', full := EmitSymbol(nodes, symbol, output, start, bits, bitcount, t, s);
  }

  /** All symbols but the end-of-stream symbol; each next symbol is fetched before the current one is written. */
  method EmitAll(nodes: array<NodeRecord>, input: seq<byte>, output: array<byte>, ghost t: Tree)
    returns (dst: nat, bits: u32, bitcount: u32, full: bool)
    requires Coded(nodes[..], t)
    modifies output
    ensures full ==> |CodeBits(t, input)| >= 8 * output.Length + 8
    ensures !full ==> dst <= output.Length && bitcount < 8
    ensures !full ==> Emitted(output[..dst], bits, bitcount, CodeBits(t, input))
    ensures !full ==> forall i | dst <= i < output.Length :: output[i] == old(output[i])
  {
    dst, bits, bitcount, full := 0, 0, 0, false;
    ghost var s := [];
    if |input| != 0 {
      var src := 0;
      var symbol := input[src];
      src := src + 1;
      ghost var k := 0;
      while src != |input|
        invariant 1 <= src <= |input| && k == src - 1 && symbol == input[k] && dst <= output.Length && bitcount < 8
        invariant s == CodeBits(t, input[..k]) && Emitted(output[..dst], bits, bitcount, s)
        invariant forall i | dst <= i < output.Length :: output[i] == old(output[i])
      {
        var current := symbol;
        symbol := input[src];
        src := src + 1;
        dst, bits, bitcount, full, s := EmitAt(nodes, current, output, dst, bits, bitcount, t, input, k, s);
        k := k + 1;
        if full {
          return;
        }
      }
      dst, bits, bitcount, full, s := EmitAt(nodes, symbol, output, dst, bits, bitcount, t, input, k, s);
      assert input[..|input|] == input;
    }
  }

  /** The end-of-stream symbol and the last, partly filled byte. */
  method EmitEnd(nodes: array<NodeRecord>, output: array<byte>, start: nat, bits: u32, bitcount: u32,
                 ghost t: Tree, ghost s: seq<bool>)
    returns (dst: nat, full: bool)
    requires Coded(nodes[..], t) && start <= output.Length && bitcount < 8
    requires Emitted(output[..start], bits, bitcount, s)
    modifies output
    ensures full <==> BytesFor(|s + t.Code(EOF_SYMBOL)|) > output.Length
    ensures !full ==> dst <= output.Length && Packs(output[..dst], s + t.Code(EOF_SYMBOL))
    ensures !full ==> forall i | dst <= i < output.Length :: output[i] == old(output[i])
  {
    var bits', bitcount';
    dst, bits', bitcount', full := EmitSymbol(nodes, EOF_SYMBOL, output, start, bits, bitcount, t, s);
    if full {
      return;
    }
    ghost var written, stream := output[..dst], s + t.Code(EOF_SYMBOL);
    if bitcount' != 0 {
      PackedPending(written, bits', bitcount', stream);
      if dst == output.Length {
        full := true;
        return;
      }
      output[dst] := bits' % 256;
      dst := dst + 1;
      assert output[..dst] == written + [bits'];
    } else {
      PackedExact(written, bits', stream);
    }
  }

  /**
   `ddproto_huffman_compress`: the output is the code stream of the input in bytes, and the buffer counts as full
   exactly when it is shorter than that.
   */
  method Compress(codec: Codec, input: seq<byte>, output: array<byte>) returns (size: nat, err: Error)
    requires codec.Valid()
    modifies codec, codec.nodes, codec.lut, output
    ensures codec.Ready()
    ensures var s := CodeStream(TreeOf(codec.freq), input);
            if BytesFor(|s|) <= output.Length
            then err == NONE && size == BytesFor(|s|) && Packs(output[..size], s)
            else err == BUFFER_FULL && size == 0
    ensures err == NONE ==> forall i | size <= i < output.Length :: output[i] == old(output[i])
  {
    codec.Init();
    ghost var t := TreeOf(codec.freq);
    TablesAreCoded(codec.nodes[..], codec.lut[..], t);
    var dst, bits, bitcount, full := EmitAll(codec.nodes, input, output, t);
    if full {
      return 0, BUFFER_FULL;
    }
    dst, full := EmitEnd(codec.nodes, output, dst, bits, bitcount, t, CodeBits(t, input));
    if full {
      return 0, BUFFER_FULL;
    }
    return dst, NONE;
  }
}
