/** Decompression: a 32-bit window over the input, a table lookup for ten bits, and a walk for longer codes. */
module HuffmanDecompress {
  import opened Bits
  import opened Errors
  import opened HuffmanTree
  import opened HuffmanNodes
  import opened HuffmanDecode

  /**
   The window holds the next `bitcount` bits of the stream `r`, the rest of which is still in `input` from `src`
   on; `n` is the number of bits the decoder counts as left. Once the input is used up the window is all there is
   of the stream, whatever `bitcount` claims.
   */
  ghost predicate Window(bits: u32, bitcount: u32, input: seq<byte>, src: nat, r: nat, n: nat) {
    && src <= |input| && n == bitcount + 8 * (|input| - src)
    && bits < Pow2(bitcount)
    && r == bits + Pow2(bitcount) * Stream(input[src..])
  }

  lemma RefillStep(bits: u32, bitcount: u32, input: seq<byte>, src: nat, r: nat, n: nat)
    requires Window(bits, bitcount, input, src, r, n) && src < |input| && bitcount < 24
    ensures BitOr(bits, Shl32(input[src], bitcount)) < 0x1_0000_0000
    ensures Window(BitOr(bits, Shl32(input[src], bitcount)), bitcount + 8, input, src + 1, r, n)
  {
    var b := input[src];
    assert b < Pow2(8) by { assert Pow2(8) == 256; }
    Shl32Fits(b, bitcount, 8);
    BitOrDisjoint(bits, b, bitcount);
    var v := Stream(input[src + 1..]);
    assert Stream(input[src..]) == b + 256 * v by {
      assert input[src..][1..] == input[src + 1..];
      ValConcat(BitsOf(b, 8), StreamBits(input[src + 1..]));
      ValBitsOf(b, 8);
    }
    RefillArithmetic(bits, b, bitcount, v);
    Pow2Monotone(bitcount + 8, 32);
    Pow2Values();
  }

  lemma RefillArithmetic(bits: nat, b: nat, bitcount: nat, v: nat)
    requires bits < Pow2(bitcount) && b < 256
    ensures bits + Pow2(bitcount) * (b + 256 * v) == (bits + b * Pow2(bitcount)) + Pow2(bitcount + 8) * v
    ensures bits + b * Pow2(bitcount) < Pow2(bitcount + 8)
  {
    var p := Pow2(bitcount);
    Pow2Add(bitcount, 8);
    assert Pow2(8) == 256;
    assert Pow2(bitcount + 8) == p * 256;
    assert p * (b + 256 * v) == b * p + (p * 256) * v;
    MulStep(b, 256, p);
  }

  /** The low ten bits of the window are those of the stream if the window is long enough or all there is. */
  lemma PeekIsStream(bits: u32, bitcount: u32, input: seq<byte>, src: nat, r: nat, n: nat)
    requires Window(bits, bitcount, input, src, r, n) && (bitcount >= LUT_BITS || src == |input|)
    ensures bits % LUT_SIZE == r % LUT_SIZE
  {
    var v := Stream(input[src..]);
    if src == |input| {
      assert v == 0;
    } else {
      Pow2Add(LUT_BITS, bitcount - LUT_BITS);
      Pow2Values();
      var q := Pow2(bitcount - LUT_BITS) * v;
      assert Pow2(bitcount) * v == q * LUT_SIZE by {
        MulAssoc(1024, Pow2(bitcount - LUT_BITS), v);
      }
      DivAdd(bits, q, LUT_SIZE);
    }
  }

  lemma DropArithmetic(bits: nat, p: nat, q: nat, pq: nat, v: nat)
    requires p > 0 && bits < pq && pq == p * q
    ensures (bits + pq * v) / p == bits / p + q * v && bits / p < q
  {
    assert (p * q) * v == (q * v) * p;
    DivAdd(bits, q * v, p);
    DivBound(bits, p, q);
  }

  /** Removing bits that are in the window. */
  lemma DropStep(bits: u32, bitcount: u32, input: seq<byte>, src: nat, r: nat, n: nat, k: nat)
    requires Window(bits, bitcount, input, src, r, n) && k <= bitcount && k < 32
    ensures Window(Shr32(bits, k), bitcount - k, input, src, DropBits(r, k), n - k)
  {
    Pow2Add(k, bitcount - k);
    DropBitsIsDivision(r, k);
    DropArithmetic(bits, Pow2(k), Pow2(bitcount - k), Pow2(bitcount), Stream(input[src..]));
  }

  lemma DivBound(x: nat, p: nat, q: nat)
    requires p > 0 && x < p * q
    ensures x / p < q
  {
    var k := x / p;
    assert k * p <= x < q * p by {
      assert x == k * p + x % p;
      assert q * p == p * q;
    }
    if k > q {
      MulStep(q, k, p);
    }
  }

  /** Removing a bit that is not there: the counter wraps, and the stream is and stays zero. */
  lemma WrapStep(bits: u32, input: seq<byte>, r: nat)
    requires Window(bits, 0, input, |input|, r, 0)
    ensures bits == 0 && Window(0, 0xffff_ffff, input, |input|, DropBits(r, 1), 0xffff_ffff)
  {
    assert bits == 0 && r == 0;
    assert DropBits(0, 1) == DropBits(0, 0) == 0;
  }

  /** {B}: fill the window to at least 24 bits, as far as there is input. */
  method Refill(input: seq<byte>, src: nat, bits: u32, bitcount: u32, ghost r: nat, ghost n: nat)
    returns (src': nat, bits': u32, bitcount': u32)
    requires Window(bits, bitcount, input, src, r, n)
    ensures Window(bits', bitcount', input, src', r, n)
    ensures src' < |input| ==> 24 <= bitcount'
  {
    src', bits', bitcount' := src, bits, bitcount;
    while bitcount' < 24 && src' != |input|
      invariant Window(bits', bitcount', input, src', r, n)
      decreases |input| - src'
    {
      RefillStep(bits', bitcount', input, src', r, n);
      bits' := BitOr(bits', Shl32(input[src'], bitcount'));
      bitcount' := bitcount' + 8;
      src' := src' + 1;
    }
  }

  // ----- What the lookup finds

  /** The table index is the low bits only: what lies above them does not matter. */
  lemma {:induction false} DescendLow(t: Tree, z: nat, q: nat, k: nat)
    ensures Descend(t, z + q * Pow2(k), k) == Descend(t, z, k)
    decreases k
  {
    if k == 0 || t.Leaf? {
    } else {
      var w := q * Pow2(k - 1);
      assert q * Pow2(k) == 2 * w;
      assert (z + 2 * w) % 2 == z % 2 && (z + 2 * w) / 2 == z / 2 + w;
      DescendLow(t.Child(z % 2 == 1), z / 2, q, k - 1);
    }
  }

  /** The walk from the root goes through the node that the table gives for its first bits. */
  lemma {:induction false} DescendOnWalk(t: Tree, r: nat, k: nat)
    ensures var s := Descend(t, r, k);
            if s.Leaf? then LeafAt(t, r) == s.id && DepthAt(t, r) <= k
            else LeafAt(t, r) == LeafAt(s, DropBits(r, k)) && DepthAt(t, r) == k + DepthAt(s, DropBits(r, k))
    decreases k
  {
    if k == 0 || t.Leaf? {
    } else {
      DescendOnWalk(t.Child(r % 2 == 1), r / 2, k - 1);
    }
  }

  lemma {:induction false} DescendLabelled(nodes: seq<NodeRecord>, t: Tree, path: seq<bool>, r: nat, k: nat)
    returns (path': seq<bool>)
    requires Linked(nodes, t) && Labelled(nodes, t, path)
    ensures var s := Descend(t, r, k);
            && Linked(nodes, s) && Labelled(nodes, s, path')
            && (s.Leaf? ==> |path'| == |path| + DepthAt(t, r))
            && s.Height() <= t.Height()
    decreases k
  {
    if k > 0 && t.Node? {
      var bit := r % 2 == 1;
      path' := DescendLabelled(nodes, t.Child(bit), path + [bit], r / 2, k - 1);
    } else {
      path' := path;
    }
  }

  lemma TableLookup(nodes: seq<NodeRecord>, lut: seq<NodePointer>, t: Tree, bits: nat, r: nat)
    returns (s: Tree, path: seq<bool>)
    requires TablesOf(nodes, lut, t) && bits % LUT_SIZE == r % LUT_SIZE
    ensures lut[bits % LUT_SIZE] == At(s.id) && s == Descend(t, r, LUT_BITS) && s.Height() <= t.Height()
    ensures Linked(nodes, s) && Labelled(nodes, s, path)
    ensures s.Leaf? ==> LeafAt(t, r) == s.id && |path| == DepthAt(t, r) <= LUT_BITS
    ensures s.Node? ==> LeafAt(t, r) == LeafAt(s, DropBits(r, LUT_BITS))
    ensures s.Node? ==> DepthAt(t, r) == LUT_BITS + DepthAt(s, DropBits(r, LUT_BITS))
  {
    s := Descend(t, r, LUT_BITS);
    path := DescendLabelled(nodes, t, [], r, LUT_BITS);
    DescendOnWalk(t, r, LUT_BITS);
    SameEntry(t, bits, r);
  }

  /** Only the low ten bits count for a table entry. */
  lemma SameEntry(t: Tree, bits: nat, r: nat)
    requires bits % LUT_SIZE == r % LUT_SIZE
    ensures Descend(t, bits % LUT_SIZE, LUT_BITS) == Descend(t, r, LUT_BITS)
  {
    Pow2Values();
    DescendLow(t, r % LUT_SIZE, r / LUT_SIZE, LUT_BITS);
  }

  // ----- The tail walk

  /** The count after `j` further steps of a walk that began with `c` bits; only a walk from 0 wraps. */
  function WalkCount(c: nat, j: nat): (n: int) {
    if c == 0 && j > 0 then 0x1_0000_0000 - j else c - j
  }

  /** One step below the table: take a branch, remove a bit. */
  lemma WalkStepWindow(bits: u32, bitcount: u32, input: seq<byte>, src: nat, r: nat, n: nat)
    requires Window(bits, bitcount, input, src, r, n)
    requires bitcount == 0 ==> src == |input|
    ensures bits % 2 == r % 2
    ensures (bitcount - 1) % 0x1_0000_0000 == if bitcount > 0 then bitcount - 1 else 0xffff_ffff
    ensures if bitcount > 0 then Window(bits / 2, bitcount - 1, input, src, DropBits(r, 1), n - 1)
            else n == 0 && Window(bits / 2, 0xffff_ffff, input, src, DropBits(r, 1), 0xffff_ffff)
  {
    if bitcount > 0 {
      DropStep(bits, bitcount, input, src, r, n, 1);
      assert Pow2(1) == 2 * Pow2(0) == 2;
      var w := Pow2(bitcount - 1) * Stream(input[src..]);
      assert r == bits + 2 * w by {
        MulAssoc(2, Pow2(bitcount - 1), Stream(input[src..]));
      }
    } else {
      WrapStep(bits, input, r);
    }
  }

  /**
   The state of the walk from `s` on stream `r` after `j` steps: it stands on the inner node `sub` before the stream
   `rest`, and the count has come down from `n` to `count` without reaching zero on the way.
   */
  ghost predicate Walking(s: Tree, r: nat, n: nat, sub: Tree, rest: nat, count: nat, j: nat) {
    && LeafAt(s, r) == LeafAt(sub, rest) && DepthAt(s, r) == j + DepthAt(sub, rest) <= MAX_CODE
    && count == WalkCount(n, j) && rest == DropBits(r, j) && (j > 0 ==> count > 0)
  }

  lemma WalkingStep(s: Tree, r: nat, n: nat, sub: Tree, rest: nat, count: nat, j: nat)
    requires Walking(s, r, n, sub, rest, count, j) && sub.Node?
    ensures WalkCount(n, j + 1) == if count > 0 then count - 1 else 0xffff_ffff
    ensures DropBits(r, j + 1) == DropBits(rest, 1)
    ensures var sub' := sub.Child(rest % 2 == 1);
            && LeafAt(s, r) == LeafAt(sub', DropBits(rest, 1))
            && DepthAt(s, r) == j + 1 + DepthAt(sub', DropBits(rest, 1))
  {
    DropBitsAdd(r, j, 1);
  }

  /** One branch is taken and one bit removed. */
  method WalkBit(nodes: array<NodeRecord>, node: nat, bits: u32, bitcount: u32,
                 ghost sub: Tree, ghost path: seq<bool>,
                 ghost input: seq<byte>, ghost src: nat, ghost r: nat, ghost n: nat)
    returns (node': nat, bits': u32, bitcount': u32)
    requires Linked(nodes[..], sub) && Labelled(nodes[..], sub, path) && sub.Node? && node == sub.id
    requires Window(bits, bitcount, input, src, r, n) && (bitcount == 0 ==> src == |input|)
    ensures var bit := r % 2 == 1;
            && node' == sub.Child(bit).id && Linked(nodes[..], sub.Child(bit))
            && Labelled(nodes[..], sub.Child(bit), path + [bit])
    ensures bitcount' == if bitcount > 0 then bitcount - 1 else 0xffff_ffff
    ensures bitcount > 0 ==> n > 0 && Window(bits', bitcount', input, src, DropBits(r, 1), n - 1)
    ensures bitcount == 0 ==> n == 0 && Window(bits', bitcount', input, src, DropBits(r, 1), 0xffff_ffff)
  {
    WalkStepWindow(bits, bitcount, input, src, r, n);
    node' := if bits % 2 == 1 then nodes[node].leaf1 else nodes[node].leaf0;
    bitcount' := (bitcount - 1) % 0x1_0000_0000;
    bits' := bits / 2;
  }

  /**
   The walk below the table, bit by bit: it ends at the leaf of the stream, or with an error at an inner node when
   the counter is zero, as `CountDown` says.
   */
  method WalkTail(nodes: array<NodeRecord>, start: nat, bits: u32, bitcount: u32,
                  ghost s: Tree, ghost path: seq<bool>,
                  ghost input: seq<byte>, ghost src: nat, ghost r: nat, ghost n: nat)
    returns (node: nat, bits': u32, bitcount': u32, err: Error)
    requires Linked(nodes[..], s) && Labelled(nodes[..], s, path) && s.Node? && start == s.id
    requires s.Height() <= MAX_CODE && Window(bits, bitcount, input, src, r, n)
    requires src < |input| ==> bitcount >= DepthAt(s, r)
    ensures err == if 0 < n < DepthAt(s, r) then END_OF_BUFFER else NONE
    ensures err == NONE ==> (
      && node == LeafAt(s, r) && node < nodes.Length && nodes[node].symbol == node % 256
      && WalkCount(n, DepthAt(s, r)) >= 0
      && Window(bits', bitcount', input, src, DropBits(r, DepthAt(s, r)), WalkCount(n, DepthAt(s, r))))
  {
    node, bits', bitcount' := start, bits, bitcount;
    ghost var sub, p, rest, j := s, path, r, 0;
    ghost var count: nat := n;
    DepthWithinHeight(s, r);
    while true
      invariant Linked(nodes[..], sub) && Labelled(nodes[..], sub, p) && sub.Node? && node == sub.id
      invariant Window(bits', bitcount', input, src, rest, count)
      invariant src < |input| ==> bitcount' >= DepthAt(sub, rest)
      invariant Walking(s, r, n, sub, rest, count, j)
      decreases sub
    {
      WalkingStep(s, r, n, sub, rest, count, j);
      node, bits', bitcount' := WalkBit(nodes, node, bits', bitcount', sub, p, input, src, rest, count);
      sub, p := sub.Child(rest % 2 == 1), p + [rest % 2 == 1];
      rest, j := DropBits(rest, 1), j + 1;
      count := WalkCount(n, j);
      if nodes[node].numBits != 0 {
        return node, bits', bitcount', NONE;
      }
      if bitcount' == 0 {
        return node, bits', bitcount', END_OF_BUFFER;
      }
    }
  }

  // ----- One symbol, and the whole input

  /** What the table says about stream `r`: node `s`, reached over `path`, which is the leaf if it is one. */
  ghost predicate OnWalk(nodes: seq<NodeRecord>, t: Tree, r: nat, s: Tree, path: seq<bool>) {
    && Linked(nodes, s) && Labelled(nodes, s, path) && s.Height() <= MAX_CODE
    && DepthAt(t, r) <= MAX_CODE
    && (s.Leaf? ==> LeafAt(t, r) == s.id && |path| == DepthAt(t, r) <= LUT_BITS && path != [])
    && (s.Node? ==> LeafAt(t, r) == LeafAt(s, DropBits(r, LUT_BITS)))
    && (s.Node? ==> DepthAt(t, r) == LUT_BITS + DepthAt(s, DropBits(r, LUT_BITS)) > LUT_BITS)
  }

  /** {A} to {C}: peek if ten bits are there, refill, and peek if that has not happened yet. */
  method Lookup(ghost nodes: seq<NodeRecord>, lut: array<NodePointer>, input: seq<byte>,
                src: nat, bits: u32, bitcount: u32, ghost t: Tree, ghost r: nat, ghost n: nat)
    returns (pointer: NodePointer, src': nat, bits': u32, bitcount': u32, ghost s: Tree, ghost path: seq<bool>)
    requires TablesOf(nodes, lut[..], t) && t.Node? && t.Height() <= MAX_CODE
    requires Window(bits, bitcount, input, src, r, n)
    ensures pointer == At(s.id) && OnWalk(nodes, t, r, s, path)
    ensures Window(bits', bitcount', input, src', r, n) && (src' < |input| ==> bitcount' >= 24)
  {
    pointer := Null;
    if bitcount >= LUT_BITS {
      PeekIsStream(bits, bitcount, input, src, r, n);
      s, path := TableLookup(nodes, lut[..], t, bits, r);
      assert lut[..][bits % LUT_SIZE] == lut[bits % LUT_SIZE];
      pointer := lut[bits % LUT_SIZE];
    }
    src', bits', bitcount' := Refill(input, src, bits, bitcount, r, n);
    if pointer == Null {
      PeekIsStream(bits', bitcount', input, src', r, n);
      s, path := TableLookup(nodes, lut[..], t, bits', r);
      assert lut[..][bits' % LUT_SIZE] == lut[bits' % LUT_SIZE];
      pointer := lut[bits' % LUT_SIZE];
    }
    DepthWithinHeight(t, r);
    assert DepthAt(t, r) >= 1;
  }

  /** {D}: take the bits of a leaf, or skip the ten bits of an inner node and walk on. */
  method TakeSymbol(nodes: array<NodeRecord>, start: nat, bits: u32, bitcount: u32,
                    ghost input: seq<byte>, ghost src: nat, ghost t: Tree, ghost r: nat, ghost n: nat,
                    ghost s: Tree, ghost path: seq<bool>)
    returns (node: nat, bits': u32, bitcount': u32, err: Error)
    requires OnWalk(nodes[..], t, r, s, path) && start == s.id
    requires Window(bits, bitcount, input, src, r, n) && (src < |input| ==> bitcount >= 24)
    ensures err == NONE <==> CountDown(n, DepthAt(t, r)).Left?
    ensures err != NONE ==> CountDown(n, DepthAt(t, r)) == Short(err)
    ensures err == NONE ==> (
      && node == LeafAt(t, r) && node < nodes.Length && nodes[node].symbol == node % 256
      && Window(bits', bitcount', input, src, DropBits(r, DepthAt(t, r)), CountDown(n, DepthAt(t, r)).n))
  {
    if nodes[start].numBits != 0 {
      node := start;
      bits', bitcount', err := TakeLeaf(nodes, start, bits, bitcount, input, src, t, r, n, s, path);
    } else {
      node, bits', bitcount', err := TakeDeep(nodes, start, bits, bitcount, input, src, t, r, n, s, path);
    }
  }

  /** The branch of a symbol that the table knows. */
  method TakeLeaf(nodes: array<NodeRecord>, node: nat, bits: u32, bitcount: u32,
                  ghost input: seq<byte>, ghost src: nat, ghost t: Tree, ghost r: nat, ghost n: nat,
                  ghost s: Tree, ghost path: seq<bool>)
    returns (bits': u32, bitcount': u32, err: Error)
    requires OnWalk(nodes[..], t, r, s, path) && node == s.id && s.Leaf?
    requires Window(bits, bitcount, input, src, r, n) && (src < |input| ==> bitcount >= 24)
    ensures err == NONE <==> CountDown(n, DepthAt(t, r)).Left?
    ensures err != NONE ==> CountDown(n, DepthAt(t, r)) == Short(err)
    ensures err == NONE ==>
              Window(bits', bitcount', input, src, DropBits(r, DepthAt(t, r)), CountDown(n, DepthAt(t, r)).n)
  {
    if bitcount < nodes[node].numBits {
      return bits, bitcount, HUFFMAN_NODE_LOOKUP_INSUFFICIENT_BITS;
    }
    DropStep(bits, bitcount, input, src, r, n, DepthAt(t, r));
    return Shr32(bits, nodes[node].numBits), bitcount - nodes[node].numBits, NONE;
  }

  /** The branch of a symbol whose code is longer than the table's ten bits. */
  method TakeDeep(nodes: array<NodeRecord>, start: nat, bits: u32, bitcount: u32,
                  ghost input: seq<byte>, ghost src: nat, ghost t: Tree, ghost r: nat, ghost n: nat,
                  ghost s: Tree, ghost path: seq<bool>)
    returns (node: nat, bits': u32, bitcount': u32, err: Error)
    requires OnWalk(nodes[..], t, r, s, path) && start == s.id && s.Node?
    requires Window(bits, bitcount, input, src, r, n) && (src < |input| ==> bitcount >= 24)
    ensures err == NONE <==> CountDown(n, DepthAt(t, r)).Left?
    ensures err != NONE ==> CountDown(n, DepthAt(t, r)) == Short(err)
    ensures err == NONE ==> (
      && node == LeafAt(t, r) && node < nodes.Length && nodes[node].symbol == node % 256
      && Window(bits', bitcount', input, src, DropBits(r, DepthAt(t, r)), CountDown(n, DepthAt(t, r)).n))
  {
    if bitcount < LUT_BITS {
      return start, bits, bitcount, HUFFMAN_TABLE_LOOKUP_INSUFFICIENT_BITS;
    }
    DropStep(bits, bitcount, input, src, r, n, LUT_BITS);
    DropBitsAdd(r, LUT_BITS, DepthAt(t, r) - LUT_BITS);
    node, bits', bitcount', err :=
      WalkTail(nodes, start, Shr32(bits, LUT_BITS), bitcount - LUT_BITS, s, path, input, src,
               DropBits(r, LUT_BITS), n - LUT_BITS);
  }

  /** A result with `done` in front. */
  function Behind(done: seq<byte>, res: Result): (r: Result) {
    match res
    case Ok(x) => Ok(done + x)
    case Error(e) => res
  }

  /** One more decoded symbol moves from the rest of the stream to the output. */
  lemma FastStep(t: Tree, r: nat, n: nat, room: nat, done: seq<byte>)
    requires CountDown(n, DepthAt(t, r)).Left? && LeafAt(t, r) != EOF_SYMBOL && room > 0
    ensures Behind(done, FastDecode(t, r, n, room))
         == Behind(done + [LeafAt(t, r) % 256],
                   FastDecode(t, DropBits(r, DepthAt(t, r)), CountDown(n, DepthAt(t, r)).n, room - 1))
  {
    var b: byte := LeafAt(t, r) % 256;
    match FastDecode(t, DropBits(r, DepthAt(t, r)), CountDown(n, DepthAt(t, r)).n, room - 1)
    case Ok(x) => assert done + ([b] + x) == (done + [b]) + x;
    case Error(_) =>
  }

  /** The decoding loop: symbols go to the output until the end-of-stream leaf, an error or a full buffer. */
  method DecodeAll(nodes: array<NodeRecord>, lut: array<NodePointer>, input: seq<byte>, output: array<byte>,
                   ghost t: Tree)
    returns (dst: nat, err: Error)
    requires TablesOf(nodes[..], lut[..], t) && t.Node? && t.Height() <= MAX_CODE
    modifies output
    ensures Decompressed(t, input, output.Length).Ok? <==> err == NONE
    ensures err == NONE ==> dst <= output.Length && Decompressed(t, input, output.Length) == Ok(output[..dst])
    ensures err != NONE ==> Decompressed(t, input, output.Length) == Result.Error(err) && err != HUFFMAN_NODE_NULL
    ensures err == NONE ==> forall i | dst <= i < output.Length :: output[i] == old(output[i])
  {
    dst := 0;
    var src, bits, bitcount := 0, 0, 0;
    ghost var r: nat, n: nat := Stream(input), 8 * |input|;
    ghost var goal := Decompressed(t, input, output.Length);
    assert input[0..] == input && Pow2(0) == 1;
    assert goal == Behind(output[..0], FastDecode(t, r, n, output.Length));
    while true
      invariant TablesOf(nodes[..], lut[..], t) && dst <= output.Length
      invariant Window(bits, bitcount, input, src, r, n)
      invariant goal == Behind(output[..dst], FastDecode(t, r, n, output.Length - dst))
      invariant forall i | dst <= i < output.Length :: output[i] == old(output[i])
      decreases output.Length - dst
    {
      var node;
      node, src, bits, bitcount, err := NextSymbol(nodes, lut, input, src, bits, bitcount, t, r, n);
      if err != NONE {
        return 0, err;
      }
      if node == EOF_SYMBOL {
        assert output[..dst] + [] == output[..dst];
        return dst, NONE;
      }
      if dst == output.Length {
        return 0, BUFFER_FULL;
      }
      ghost var done := output[..dst];
      FastStep(t, r, n, output.Length - dst, done);
      output[dst] := nodes[node].symbol;
      dst := dst + 1;
      assert output[..dst] == done + [node % 256];
      r, n := DropBits(r, DepthAt(t, r)), CountDown(n, DepthAt(t, r)).n;
    }
  }

  /** {A} to {D}: the node of the next symbol, or an error. */
  method NextSymbol(nodes: array<NodeRecord>, lut: array<NodePointer>, input: seq<byte>, src: nat, bits: u32,
                    bitcount: u32, ghost t: Tree, ghost r: nat, ghost n: nat)
    returns (node: nat, src': nat, bits': u32, bitcount': u32, err: Error)
    requires TablesOf(nodes[..], lut[..], t) && t.Node? && t.Height() <= MAX_CODE
    requires Window(bits, bitcount, input, src, r, n)
    ensures err == NONE <==> CountDown(n, DepthAt(t, r)).Left?
    ensures err != NONE ==> CountDown(n, DepthAt(t, r)) == Short(err)
    ensures err == NONE ==> (
      && node == LeafAt(t, r) && node < nodes.Length && nodes[node].symbol == node % 256
      && Window(bits', bitcount', input, src', DropBits(r, DepthAt(t, r)), CountDown(n, DepthAt(t, r)).n))
  {
    node := 0;
    var pointer;
    ghost var s, path;
    pointer, src', bits', bitcount', s, path := Lookup(nodes[..], lut, input, src, bits, bitcount, t, r, n);
    if pointer == Null {
      err := HUFFMAN_NODE_NULL;
      return;
    }
    node, bits', bitcount', err := TakeSymbol(nodes, pointer.id, bits', bitcount', input, src', t, r, n, s, path);
  }

  /**
   `ddproto_huffman_decompress` computes `Decompressed`: the same bytes on success and the same error otherwise.
   It terminates on every input, and the missing table entry it checks for never occurs.
   */
  method Decompress(codec: Codec, input: seq<byte>, output: array<byte>) returns (size: nat, err: Error)
    requires codec.Valid()
    modifies codec, codec.nodes, codec.lut, output
    ensures codec.Ready() && err != HUFFMAN_NODE_NULL
    ensures match Decompressed(TreeOf(codec.freq), input, output.Length)
            case Ok(x) => err == NONE && size == |x| <= output.Length && output[..size] == x
            case Error(e) => err == e && size == 0
    ensures err == NONE ==> forall i | size <= i < output.Length :: output[i] == old(output[i])
  {
    codec.Init();
    size, err := DecodeAll(codec.nodes, codec.lut, input, output, TreeOf(codec.freq));
    if err != NONE {
      size := 0;
    }
  }
}
