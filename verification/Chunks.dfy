/** Chunk headers, and the loop that cuts a payload into chunks. */
module Chunks {
  import opened Bits
  import opened Errors
  import opened Messages

  const MAX_SEQUENCE: nat := 1024
  const FLAG_VITAL: nat := 64

  type u16 = x: int | 0 <= x < 0x1_0000

  datatype ChunkHeader = ChunkHeader(flags: byte, size: u16, sequence: u16)

  datatype Chunk = Chunk(header: ChunkHeader, message: Message)

  predicate IsVital(h: ChunkHeader) {
    h.flags / 64 % 2 == 1
  }

  function HeaderLength(h: ChunkHeader): (n: nat) {
    if IsVital(h) then 3 else 2
  }

  /** `ddproto_encode_chunk_header`: six and four bits of size, and for vital chunks four and eight of sequence. */
  function ChunkHeaderBytes(h: ChunkHeader): (s: seq<byte>)
    ensures |s| == HeaderLength(h)
  {
    var first: byte := h.flags / 64 * 64 + h.size / 16 % 64;
    if IsVital(h) then [first, h.size % 16 + h.sequence / 64 % 16 * 16, h.sequence % 256]
    else [first, h.size % 16]
  }

  /** `ddproto_decode_chunk_header`; bits 6 and 7 of the sequence are in two bytes and are or-ed together. */
  function DecodeChunkHeader(s: seq<byte>): (h: ChunkHeader)
    requires |s| >= 3
    ensures h.flags % 64 == 0 && h.size < 1024 && h.sequence < 1024
  {
    var b0: nat, b1: nat, b2: nat := s[0], s[1], s[2];
    var flags := b0 / 64 * 64;
    SequenceBound(b1, b2);
    ChunkHeader(flags, b0 % 64 * 16 + b1 % 16, if flags / 64 % 2 == 1 then BitOr(b1 / 16 * 64, b2) else 0)
  }

  lemma {:induction false} BitOrBound(a: nat, b: nat, k: nat)
    requires a < Pow2(k) && b < Pow2(k)
    ensures BitOr(a, b) < Pow2(k)
  {
    if k == 0 || (a == 0 && b == 0) {
    } else {
      BitOrBound(a / 2, b / 2, k - 1);
    }
  }

  lemma SequenceBound(b1: nat, b2: nat)
    requires b1 < 256 && b2 < 256
    ensures BitOr(b1 / 16 * 64, b2) < 1024
  {
    Pow2Values();
    BitOrBound(b1 / 16 * 64, b2, 10);
  }

  lemma BitOrDouble(a: nat, b: nat, c: nat)
    requires c < 2
    ensures BitOr(2 * a, 2 * b + c) == 2 * BitOr(a, b) + c
  {
    assert (2 * a) / 2 == a && (2 * b + c) / 2 == b && (2 * a) % 2 == 0 && (2 * b + c) % 2 == c;
  }

  lemma BitOrThree(a: nat, b: nat, c2: nat, c1: nat, c0: nat)
    requires c2 < 2 && c1 < 2 && c0 < 2
    ensures BitOr(8 * a, 8 * b + (4 * c2 + 2 * c1 + c0)) == 8 * BitOr(a, b) + (4 * c2 + 2 * c1 + c0)
  {
    BitOrDouble(a, b, c2);
    BitOrDouble(2 * a, 2 * b + c2, c1);
    BitOrDouble(4 * a, 4 * b + 2 * c2 + c1, c0);
  }

  /** An or on the bits from 6 on leaves the bits below alone. */
  lemma BitOrAbove(a: nat, b: nat, c5: nat, c4: nat, c3: nat, c2: nat, c1: nat, c0: nat)
    requires c5 < 2 && c4 < 2 && c3 < 2 && c2 < 2 && c1 < 2 && c0 < 2
    ensures var low := 32 * c5 + 16 * c4 + 8 * c3 + 4 * c2 + 2 * c1 + c0;
            BitOr(64 * a, 64 * b + low) == 64 * BitOr(a, b) + low
  {
    BitOrThree(a, b, c5, c4, c3);
    BitOrThree(8 * a, 8 * b + (4 * c5 + 2 * c4 + c3), c2, c1, c0);
  }

  lemma SixBits(low: nat) returns (c5: nat, c4: nat, c3: nat, c2: nat, c1: nat, c0: nat)
    requires low < 64
    ensures c5 < 2 && c4 < 2 && c3 < 2 && c2 < 2 && c1 < 2 && c0 < 2
    ensures low == 32 * c5 + 16 * c4 + 8 * c3 + 4 * c2 + 2 * c1 + c0
  {
    var h1 := low / 2;
    var h2 := h1 / 2;
    var h3 := h2 / 2;
    var h4 := h3 / 2;
    c0, c1, c2, c3, c4, c5 := low % 2, h1 % 2, h2 % 2, h3 % 2, h4 % 2, h4 / 2;
  }

  lemma OrOwnLowBits(h: nat)
    requires h < 16
    ensures BitOr(h, h % 4) == h
  {
    assert forall x: nat | x < 2 :: BitOr(x, x) == x && BitOr(x, 0) == x;
    assert BitOr(h / 4, 0) == h / 4 by { BitOrComm(h / 4, 0); BitOrZero(h / 4); }
    assert BitOr(h / 2, h % 4 / 2) == h / 2;
  }

  lemma TenBits(x: nat) returns (high: nat, low: nat)
    ensures high == x / 64 % 16 && low < 64
    ensures x % 256 == 64 * (high % 4) + low && x % 1024 == 64 * high + low
  {
    var q := x / 64;
    low, high := x % 64, q % 16;
    var r, h := q / 16, high / 4;
    DivModUnique(x, 256, 4 * r + h, 64 * (high % 4) + low);
    DivModUnique(x, 1024, r, 64 * high + low);
  }

  /** The wire carries the low ten bits of a sequence number. */
  lemma SequenceOnWire(sequence: u16)
    ensures BitOr((sequence / 64 % 16) * 64, sequence % 256) == sequence % MAX_SEQUENCE
  {
    var high, low := TenBits(sequence);
    var c5, c4, c3, c2, c1, c0 := SixBits(low);
    BitOrAbove(high, high % 4, c5, c4, c3, c2, c1, c0);
    OrOwnLowBits(high);
  }

  /** What arrives of a chunk header: the upper two flags, ten bits of size, ten bits of a vital sequence. */
  function ReceivedHeader(h: ChunkHeader): (r: ChunkHeader) {
    ChunkHeader(h.flags / 64 * 64, h.size % 1024, if IsVital(h) then h.sequence % MAX_SEQUENCE else 0)
  }

  lemma SizeOnWire(size: nat, flags: byte)
    ensures (flags / 64 * 64 + size / 16 % 64) % 64 * 16 + size % 16 == size % 1024
    ensures (flags / 64 * 64 + size / 16 % 64) / 64 == flags / 64
  {
    var q, f: nat := size / 16, flags / 64;
    DivModUnique(f * 64 + q % 64, 64, f, q % 64);
    DivModUnique(size, 1024, q / 64, 16 * (q % 64) + size % 16);
  }

  lemma ChunkHeaderOnWire(h: ChunkHeader, rest: seq<byte>)
    requires |ChunkHeaderBytes(h) + rest| >= 3
    ensures DecodeChunkHeader(ChunkHeaderBytes(h) + rest) == ReceivedHeader(h)
    ensures HeaderLength(ReceivedHeader(h)) == HeaderLength(h)
  {
    var s := ChunkHeaderBytes(h) + rest;
    var first: nat, second: nat := s[0], s[1];
    SizeOnWire(h.size, h.flags);
    assert first == h.flags / 64 * 64 + h.size / 16 % 64;
    assert second % 16 == h.size % 16;
    if IsVital(h) {
      SequenceOnWire(h.sequence);
      assert second / 16 == h.sequence / 64 % 16;
    }
  }

  lemma SmallOrNot(x: nat)
    ensures x % 1024 == x <==> x < 1024
  {
  }

  lemma MultipleOf64(f: nat)
    ensures f / 64 * 64 == f <==> f % 64 == 0
  {
  }

  /** A header comes back unchanged exactly when the wire format has room for what it says. */
  lemma ChunkHeaderRoundTrip(h: ChunkHeader, rest: seq<byte>)
    requires |ChunkHeaderBytes(h) + rest| >= 3
    ensures DecodeChunkHeader(ChunkHeaderBytes(h) + rest) == h
       <==> h.flags % 64 == 0 && h.size < 1024 && h.sequence < if IsVital(h) then MAX_SEQUENCE else 1
  {
    ChunkHeaderOnWire(h, rest);
    MultipleOf64(h.flags);
    SmallOrNot(h.size);
    SmallOrNot(h.sequence);
  }

  /**
   The bytes of a header that the wire has room for: two flags and the upper six bits of the size, then the lower four
   bits of the size, and behind the vital flag four upper bits of the sequence with them and eight lower bits of it.
   */
  lemma ChunkHeaderFormat(h: ChunkHeader)
    requires h.flags in {0, 64, 128, 192} && h.size < 1024 && h.sequence < 1024
    ensures ChunkHeaderBytes(h) ==
            [h.flags + h.size / 16]
            + if h.flags in {64, 192} then [h.size % 16 + 16 * (h.sequence / 64), h.sequence % 256] else [h.size % 16]
  {
    TwoFlags(h.flags);
    UpperBits(h.size, 16);
    UpperBits(h.sequence, 64);
  }

  lemma TwoFlags(flags: byte)
    requires flags in {0, 64, 128, 192}
    ensures flags / 64 * 64 == flags && (flags / 64 % 2 == 1 <==> flags in {64, 192})
  {
  }

  lemma UpperBits(x: nat, d: nat)
    requires x < 1024 && (d == 16 || d == 64)
    ensures d == 16 ==> x / 16 % 64 == x / 16
    ensures d == 64 ==> x / 64 % 16 == x / 64
  {
  }

  // ----- Fetching chunks

  /** How a payload is decoded; everything about framing holds whatever messages there are. */
  type Decoder = seq<byte> -> Decoded

  datatype Fetched = Done(chunks: seq<Chunk>, used: nat) | Failed(error: Error) | Outside

  /** What one round of the framing loop finds: a chunk of `size` bytes, an error, or nothing this model covers. */
  datatype Piece = Good(chunk: Chunk, size: nat) | Bad(error: Error) | NotCovered

  function FetchOne(decode: Decoder, payload: seq<byte>): (p: Piece)
    ensures p.Good? ==> p.size <= |payload|
  {
    if |payload| < 4 then Bad(END_OF_BUFFER)
    else
      var h := DecodeChunkHeader(payload);
      var start := HeaderLength(h);
      if |payload| - start < h.size then Bad(END_OF_BUFFER)
      else
        match decode(payload[start..start + h.size])
        case Outside => NotCovered
        case Decoded(m, e) =>
          // an unknown message id is not an error here
          if e != NONE && e != UNKNOWN_MESSAGE then Bad(e) else Good(Chunk(h, m), start + h.size)
  }

  /**
   What one round finds, from the bytes: nothing in fewer than four, nothing where the size says more than there is,
   and otherwise what the message decoder says, for which an unknown id is not an error.
   */
  lemma FetchFromBytes(decode: Decoder, s: seq<byte>)
    ensures |s| < 4 ==> FetchOne(decode, s) == Bad(END_OF_BUFFER)
    ensures |s| >= 4 ==>
              var b0: nat, b1: nat := s[0], s[1];
              var start, size := if b0 / 64 % 2 == 1 then 3 else 2, b0 % 64 * 16 + b1 % 16;
              if start + size > |s| then FetchOne(decode, s) == Bad(END_OF_BUFFER)
              else
                match decode(s[start..start + size])
                case Outside => FetchOne(decode, s) == NotCovered
                case Decoded(m, e) =>
                  FetchOne(decode, s) == if e in {NONE, UNKNOWN_MESSAGE}
                                         then Good(Chunk(DecodeChunkHeader(s), m), start + size) else Bad(e)
  {
    if |s| >= 4 {
      var f: nat := s[0] / 64;
      DivModUnique(f * 64, 64, f, 0);
      var h := DecodeChunkHeader(s);
      assert h.flags / 64 == f && h.size == s[0] as nat % 64 * 16 + s[1] as nat % 16;
    }
  }

  function Prepend(chunks: seq<Chunk>, used: nat, f: Fetched): (r: Fetched) {
    match f
    case Done(rest, u) => Done(chunks + rest, used + u)
    case _ => f
  }

  /** `ddproto_fetch_chunks` for `n` more chunks. */
  function Fetch(decode: Decoder, payload: seq<byte>, n: nat): (f: Fetched)
    decreases n
  {
    if n == 0 then Done([], 0)
    else
      match FetchOne(decode, payload)
      case NotCovered => Fetched.Outside
      case Bad(e) => Failed(e)
      case Good(c, size) => Prepend([c], size, Fetch(decode, payload[size..], n - 1))
  }

  /** `decode` reads the bytes `s` as `m`; that the id of a message is unknown is not an error here. */
  ghost predicate ReadsAs(decode: Decoder, s: seq<byte>, m: Message) {
    decode(s) == Decoded(m, NONE) || decode(s) == Decoded(m, UNKNOWN_MESSAGE)
  }

  /** `c` is the chunk that fills the payload from `start` to `end`. */
  ghost predicate ChunkFills(decode: Decoder, payload: seq<byte>, start: nat, end: nat, c: Chunk) {
    && start + 4 <= |payload| && end <= |payload|
    && c.header == DecodeChunkHeader(payload[start..])
    && start + HeaderLength(c.header) + c.header.size == end
    && ReadsAs(decode, payload[start + HeaderLength(c.header)..end], c.message)
  }

  /** The chunks tile the payload from `from` on: each fills the gap between two neighbouring cuts. */
  ghost predicate Tiles(decode: Decoder, payload: seq<byte>, from: nat, cuts: seq<nat>, chunks: seq<Chunk>) {
    && |cuts| == |chunks| + 1 && cuts[0] == from
    && forall i | 0 <= i < |chunks| :: ChunkFills(decode, payload, cuts[i], cuts[i + 1], chunks[i])
  }

  lemma SubSlice(s: seq<byte>, o: nat, a: nat, b: nat)
    requires a <= b && o + b <= |s|
    ensures s[o..][a..b] == s[o + a..o + b]
  {
  }

  lemma SubDrop(s: seq<byte>, o: nat, a: nat)
    requires o + a <= |s|
    ensures s[o..][a..] == s[o + a..]
  {
  }

  lemma ShiftedChunk(decode: Decoder, payload: seq<byte>, offset: nat, end: nat, c: Chunk)
    requires offset <= |payload| && ChunkFills(decode, payload[offset..], 0, end, c)
    ensures ChunkFills(decode, payload, offset, offset + end, c)
  {
    SubDrop(payload, offset, 0);
    SubSlice(payload, offset, HeaderLength(c.header), end);
  }

  lemma GoodChunkFills(decode: Decoder, payload: seq<byte>)
    requires FetchOne(decode, payload).Good?
    ensures var p := FetchOne(decode, payload); ChunkFills(decode, payload, 0, p.size, p.chunk)
  {
    assert payload[0..] == payload;
  }

  /** `f` is a successful fetch of `n` chunks, and the chunks tile the payload between `from` and what it used. */
  ghost predicate TiledBy(decode: Decoder, payload: seq<byte>, from: nat, cuts: seq<nat>, f: Fetched, n: nat) {
    && f.Done? && |f.chunks| == n
    && Tiles(decode, payload, from, cuts, f.chunks)
    && cuts[n] == from + f.used <= |payload|
  }

  lemma TiledCons(decode: Decoder, payload: seq<byte>, from: nat, next: nat, c: Chunk, cuts: seq<nat>,
                  f: Fetched, n: nat, whole: Fetched)
    returns (cuts': seq<nat>)
    requires from <= next && n > 0 && ChunkFills(decode, payload, from, next, c)
    requires TiledBy(decode, payload, next, cuts, f, n - 1) && whole == Prepend([c], next - from, f)
    ensures TiledBy(decode, payload, from, cuts', whole, n)
  {
    cuts' := [from] + cuts;
    var chunks := [c] + f.chunks;
    forall i | 0 <= i < n
      ensures ChunkFills(decode, payload, cuts'[i], cuts'[i + 1], chunks[i])
    {
      if i > 0 {
        assert ChunkFills(decode, payload, cuts[i - 1], cuts[i], f.chunks[i - 1]);
      }
    }
  }

  lemma FetchStep(decode: Decoder, payload: seq<byte>, from: nat, n: nat, f: Fetched)
    returns (c: Chunk, next: nat, g: Fetched)
    requires n > 0 && from <= |payload| && f == Fetch(decode, payload[from..], n) && f.Done?
    ensures from <= next <= |payload| && g == Fetch(decode, payload[next..], n - 1) && g.Done?
    ensures f == Prepend([c], next - from, g) && ChunkFills(decode, payload, from, next, c)
  {
    var piece := FetchOne(decode, payload[from..]);
    c := piece.chunk;
    GoodChunkFills(decode, payload[from..]);
    ShiftedChunk(decode, payload, from, piece.size, c);
    SubDrop(payload, from, piece.size);
    next := from + piece.size;
    g := Fetch(decode, payload[next..], n - 1);
  }

  lemma TiledNone(decode: Decoder, payload: seq<byte>, from: nat, f: Fetched)
    requires from <= |payload| && f == Fetch(decode, payload[from..], 0)
    ensures TiledBy(decode, payload, from, [from], f, 0)
  {
  }

  ghost predicate Tiled(decode: Decoder, payload: seq<byte>, from: nat, f: Fetched, n: nat) {
    exists cuts :: TiledBy(decode, payload, from, cuts, f, n)
  }

  lemma TiledStep(decode: Decoder, payload: seq<byte>, from: nat, n: nat, f: Fetched) returns (next: nat, g: Fetched)
    requires n > 0 && from <= |payload| && f == Fetch(decode, payload[from..], n) && f.Done?
    ensures next <= |payload| && g == Fetch(decode, payload[next..], n - 1) && g.Done?
    ensures Tiled(decode, payload, next, g, n - 1) ==> Tiled(decode, payload, from, f, n)
  {
    var c;
    c, next, g := FetchStep(decode, payload, from, n, f);
    if Tiled(decode, payload, next, g, n - 1) {
      var rest :| TiledBy(decode, payload, next, rest, g, n - 1);
      var cuts := TiledCons(decode, payload, from, next, c, rest, g, n, f);
    }
  }

  lemma {:induction false} FetchTilesFrom(decode: Decoder, payload: seq<byte>, from: nat, n: nat, f: Fetched)
    requires from <= |payload| && f == Fetch(decode, payload[from..], n) && f.Done?
    ensures Tiled(decode, payload, from, f, n)
    decreases n
  {
    if n == 0 {
      TiledNone(decode, payload, from, f);
    } else {
      var next, g := TiledStep(decode, payload, from, n, f);
      FetchTilesFrom(decode, payload, next, n - 1, g);
    }
  }

  /**
   When fetching succeeds it has seen exactly `n` chunks, which tile a prefix of the payload without gap or
   overlap; the number of bytes reported is the length of that prefix.
   */
  lemma FetchTiles(decode: Decoder, payload: seq<byte>, n: nat) returns (cuts: seq<nat>)
    requires Fetch(decode, payload, n).Done?
    ensures TiledBy(decode, payload, 0, cuts, Fetch(decode, payload, n), n)
  {
    assert payload[0..] == payload;
    var f := Fetch(decode, payload, n);
    FetchTilesFrom(decode, payload, 0, n, f);
    cuts :| TiledBy(decode, payload, 0, cuts, f, n);
  }

  /** What has been fetched, followed by a fetch of what is left, is the fetch of the whole. */
  ghost predicate FetchedSoFar(decode: Decoder, payload: seq<byte>, n: nat, chunks: seq<Chunk>, pos: nat, left: nat) {
    && pos <= |payload|
    && Fetch(decode, payload, n) == Prepend(chunks, pos, Fetch(decode, payload[pos..], left))
  }

  lemma FetchStarts(decode: Decoder, payload: seq<byte>, n: nat)
    ensures FetchedSoFar(decode, payload, n, [], 0, n)
  {
    var f := Fetch(decode, payload, n);
    assert payload[0..] == payload;
    assert f.Done? ==> [] + f.chunks == f.chunks;
  }

  lemma PrependTwice(chunks: seq<Chunk>, pos: nat, c: Chunk, size: nat, f: Fetched)
    ensures Prepend(chunks, pos, Prepend([c], size, f)) == Prepend(chunks + [c], pos + size, f)
  {
    if f.Done? {
      assert chunks + ([c] + f.chunks) == (chunks + [c]) + f.chunks;
    }
  }

  lemma FetchGoesOn(decode: Decoder, payload: seq<byte>, n: nat, chunks: seq<Chunk>, pos: nat, left: nat,
                    c: Chunk, size: nat, chunks': seq<Chunk>, pos': nat)
    returns (left': nat)
    requires FetchedSoFar(decode, payload, n, chunks, pos, left) && left > 0
    requires FetchOne(decode, payload[pos..]) == Good(c, size)
    requires chunks' == chunks + [c] && pos' == pos + size
    ensures left' + 1 == left && FetchedSoFar(decode, payload, n, chunks', pos', left')
  {
    left' := left - 1;
    SubDrop(payload, pos, size);
    PrependTwice(chunks, pos, c, size, Fetch(decode, payload[pos'..], left'));
  }

  lemma FetchStops(decode: Decoder, payload: seq<byte>, n: nat, chunks: seq<Chunk>, pos: nat, left: nat)
    requires FetchedSoFar(decode, payload, n, chunks, pos, left) && left > 0
    ensures var piece := FetchOne(decode, payload[pos..]);
            && (piece.Bad? ==> Fetch(decode, payload, n) == Failed(piece.error))
            && (piece.NotCovered? ==> Fetch(decode, payload, n) == Fetched.Outside)
  {
  }

  lemma FetchEnds(decode: Decoder, payload: seq<byte>, n: nat, chunks: seq<Chunk>, pos: nat)
    requires FetchedSoFar(decode, payload, n, chunks, pos, 0)
    ensures Fetch(decode, payload, n) == Done(chunks, pos)
  {
    assert chunks + [] == chunks;
  }

  /** The decoder is `DecodeMessage`; only proofs that name that function look into it. */
  ghost predicate DecodesMessages(decode: Decoder) {
    forall s {:trigger DecodeMessage(s)} :: decode(s) == DecodeMessage(s)
  }

  method ReadPart(ghost decode: Decoder, buf: array<byte>, start: nat, size: nat) returns (m: Message, err: Error)
    requires DecodesMessages(decode) && start + size <= buf.Length && decode(buf[start..start + size]).Decoded?
    modifies buf
    ensures decode(old(buf[start..start + size])) == Decoded(m, err)
    ensures forall i | 0 <= i < buf.Length && !(start <= i < start + size) :: buf[i] == old(buf[i])
  {
    assert decode(buf[start..start + size]) == DecodeMessage(buf[start..start + size]);
    m, err := ReadMessage(buf, start, size);
  }

  lemma SliceOfSlice(s: seq<byte>, pos: nat, len: nat, a: nat, b: nat)
    requires a <= b && pos + b <= len <= |s|
    ensures s[pos..len][a..b] == s[pos + a..pos + b]
  {
    var x, y := s[pos..len][a..b], s[pos + a..pos + b];
    assert |x| == |y| && forall i | 0 <= i < |x| :: x[i] == y[i];
  }

  /** One round of the loop of `ddproto_fetch_chunks`. */
  method FetchChunk(ghost decode: Decoder, buf: array<byte>, pos: nat, len: nat)
    returns (chunk: Chunk, size: nat, err: Error)
    requires DecodesMessages(decode)
    requires pos <= len <= buf.Length && !FetchOne(decode, buf[pos..len]).NotCovered?
    modifies buf
    ensures FetchOne(decode, old(buf[pos..len])) == if err == NONE then Good(chunk, size) else Bad(err)
    ensures err == NONE ==> forall i | 0 <= i < buf.Length && !(pos <= i < pos + size) :: buf[i] == old(buf[i])
  {
    chunk, size := Chunk(ChunkHeader(0, 0, 0), Unknown([])), 0;
    if len - pos < 4 {
      return chunk, size, END_OF_BUFFER;
    }
    var header := DecodeChunkHeader(buf[pos..len]);
    var start := HeaderLength(header);
    if len - pos - start < header.size {
      return chunk, size, END_OF_BUFFER;
    }
    size := start + header.size;
    SliceOfSlice(buf[..], pos, len, start, size);
    var m, e := ReadPart(decode, buf, pos + start, header.size);
    chunk := Chunk(header, m);
    err := if e != NONE && e != UNKNOWN_MESSAGE then e else NONE;
  }

  /** The part of the buffer that has not been fetched is as it was received. */
  lemma UnreadPart(now: seq<byte>, was: seq<byte>, used: nat, len: nat)
    requires used <= len <= |was| == |now| && forall i | used <= i < |was| :: now[i] == was[i]
    ensures now[used..len] == was[..len][used..]
  {
  }

  /**
   `ddproto_fetch_chunks` on a payload buffer. The strings of a fetched message are cleaned up inside the buffer;
   what has not been fetched stays as it was received.
   */
  method FetchChunks(ghost decode: Decoder, buf: array<byte>, len: nat, numChunks: byte)
    returns (chunks: seq<Chunk>, used: nat, err: Error)
    requires DecodesMessages(decode)
    requires len <= buf.Length && Fetch(decode, buf[..len], numChunks) != Fetched.Outside
    modifies buf
    ensures err == NONE ==> Fetch(decode, old(buf[..len]), numChunks) == Done(chunks, used) && used <= len
    ensures err == NONE ==> forall i | used <= i < buf.Length :: buf[i] == old(buf[i])
    ensures err != NONE ==> Fetch(decode, old(buf[..len]), numChunks) == Failed(err) && used == 0
  {
    ghost var was := buf[..];
    ghost var payload, left: nat := was[..len], numChunks;
    var n: nat, count: nat := numChunks, 0;
    chunks, used, err := [], 0, NONE;
    FetchStarts(decode, payload, n);
    while count != n
      invariant err == NONE && count + left == n && used <= len && |was| == buf.Length
      invariant FetchedSoFar(decode, payload, n, chunks, used, left)
      invariant forall i | used <= i < buf.Length :: buf[i] == was[i]
      decreases left
    {
      UnreadPart(buf[..], was, used, len);
      chunks, used, err, left := FetchNext(decode, buf, len, chunks, used, payload, n, left);
      if err != NONE {
        return chunks, 0, err;
      }
      count := count + 1;
    }
    FetchEnds(decode, payload, n, chunks, used);
  }

  /** One more chunk behind those fetched so far; `left` of the `n` chunks of the payload are still to come. */
  method FetchNext(ghost decode: Decoder, buf: array<byte>, len: nat, chunks: seq<Chunk>, used: nat,
                   ghost payload: seq<byte>, ghost n: nat, ghost left: nat)
    returns (chunks': seq<Chunk>, used': nat, err: Error, ghost left': nat)
    requires DecodesMessages(decode) && left > 0 && used <= len <= buf.Length && |payload| == len
    requires Fetch(decode, payload, n) != Fetched.Outside && FetchedSoFar(decode, payload, n, chunks, used, left)
    requires buf[used..len] == payload[used..]
    modifies buf
    ensures err != NONE ==> Fetch(decode, payload, n) == Failed(err)
    ensures err == NONE ==> used <= used' <= len && left' + 1 == left
    ensures err == NONE ==> FetchedSoFar(decode, payload, n, chunks', used', left')
    ensures err == NONE ==> forall i | used' <= i < buf.Length :: buf[i] == old(buf[i])
  {
    FetchStops(decode, payload, n, chunks, used, left);
    var chunk, size;
    chunk, size, err := FetchChunk(decode, buf, used, len);
    chunks', used', left' := chunks + [chunk], used + size, left;
    if err == NONE {
      left' := FetchGoesOn(decode, payload, n, chunks, used, left, chunk, size, chunks', used');
    }
  }

  // ----- Filling in a header

  /** `ddproto_is_vital_msg`: of the modelled kinds only player input may be lost. */
  predicate IsVitalMessage(m: Message) {
    !m.Input?
  }

  /** A header as `ddproto_fill_chunk_header` makes it for a message that can be encoded. */
  predicate HeaderFits(h: ChunkHeader, m: Message) {
    h.size == |MessageBytes(m)| && h.flags == if IsVitalMessage(m) then FLAG_VITAL else 0
  }

  const MAX_PACKET_SIZE: nat := 1400

  /**
   `ddproto_fill_chunk_header`: the message is encoded into a buffer of its own to learn its size. When that fails
   the header keeps what it held.
   */
  method FillChunkHeader(m: Message, h: ChunkHeader) returns (filled: ChunkHeader, err: Error)
    requires WellFormed(m) && (Encodable(m) ==> |MessageBytes(m)| <= MAX_PACKET_SIZE)
    ensures Encodable(m) ==> err == NONE && HeaderFits(filled, m) && filled.sequence == h.sequence
    ensures Encodable(m) ==> filled.flags == (if m.Input? then 0 else 64) && (IsVital(filled) <==> !m.Input?)
    ensures !Encodable(m) ==> err == BUFFER_FULL && filled == h
  {
    var buf := new byte[MAX_PACKET_SIZE];
    var size;
    size, err := EncodeMessage(m, buf, 0);
    if err != NONE {
      return h, err;
    }
    filled := ChunkHeader(if IsVitalMessage(m) then FLAG_VITAL else 0, size, h.sequence);
  }
}
