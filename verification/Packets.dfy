/** Packets: a header of three bytes, the chunks, and the security token behind them; possibly compressed. */
module Packets {
  import opened Bits
  import opened Errors
  import opened Messages
  import opened Chunks

  import HuffmanTree
  import HuffmanCompress
  import HuffmanDecode
  import HuffmanDecompress
  import HuffmanNodes

  const PACKET_HEADER_SIZE: nat := 3
  const TOKEN_SIZE: nat := 4

  datatype PacketHeader = PacketHeader(flags: u16, ack: u16, numChunks: byte)

  datatype Packet = Packet(header: PacketHeader, chunks: seq<Chunk>, token: u32)

  predicate IsControl(h: PacketHeader) {
    h.flags / 4 % 2 == 1
  }

  predicate IsCompressed(h: PacketHeader) {
    h.flags / 32 % 2 == 1
  }

  function HeaderBytes(h: PacketHeader): (s: seq<byte>)
    ensures |s| == PACKET_HEADER_SIZE
  {
    [h.flags % 64 * 4 + h.ack / 256 % 4, h.ack % 256, h.numChunks]
  }

  function DecodeHeader(s: seq<byte>): (h: PacketHeader)
    requires |s| >= PACKET_HEADER_SIZE
    ensures h.flags < 64 && h.ack < MAX_SEQUENCE
  {
    var b0: nat, b1: nat := s[0], s[1];
    PacketHeader(b0 / 4, b0 % 4 * 256 + b1, s[2])
  }

  lemma HeaderRoundTrip(h: PacketHeader, rest: seq<byte>)
    ensures DecodeHeader(HeaderBytes(h) + rest) == PacketHeader(h.flags % 64, h.ack % 1024, h.numChunks)
  {
    var s := HeaderBytes(h) + rest;
    var ack: nat := h.ack;
    var q := ack / 256;
    DivModUnique(h.flags % 64 * 4 + q % 4, 4, h.flags % 64, q % 4);
    DivModUnique(ack, 1024, q / 4, 256 * (q % 4) + ack % 256);
    assert s[0] == h.flags % 64 * 4 + q % 4 && s[1] == ack % 256 && s[2] == h.numChunks;
  }

  function TokenBytes(t: u32): (s: seq<byte>)
    ensures |s| == TOKEN_SIZE
  {
    [t / 0x100_0000, t / 0x1_0000 % 256, t / 0x100 % 256, t % 256]
  }

  function ReadToken(s: seq<byte>): (t: u32)
    requires |s| >= TOKEN_SIZE
  {
    var b0: nat, b1: nat, b2: nat, b3: nat := s[0], s[1], s[2], s[3];
    b0 * 0x100_0000 + b1 * 0x1_0000 + b2 * 0x100 + b3
  }

  /** The token comes back from its four bytes, the most significant first. */
  lemma TokenRoundTrip(t: u32)
    ensures ReadToken(TokenBytes(t)) == t
    ensures var b0: nat, b1: nat, b2: nat, b3: nat :=
              TokenBytes(t)[0], TokenBytes(t)[1], TokenBytes(t)[2], TokenBytes(t)[3];
            t == 0x100_0000 * b0 + 0x1_0000 * b1 + 0x100 * b2 + b3
  {
    var x: nat := t;
    var q := x / 0x100;
    var p := q / 0x100;
    assert x / 0x1_0000 == p && x / 0x100_0000 == p / 0x100;
  }

  // ----- What a packet looks like

  /** A message that does not fit in the packer's buffer contributes nothing. */
  function BodyBytes(m: Message): (s: seq<byte>) {
    if Encodable(m) then MessageBytes(m) else []
  }

  /** A chunk header with the bytes behind it. */
  datatype Frame = Frame(header: ChunkHeader, body: seq<byte>)

  function FrameBytes(f: Frame): (s: seq<byte>) {
    ChunkHeaderBytes(f.header) + f.body
  }

  function FramesBytes(frames: seq<Frame>): (s: seq<byte>) {
    if frames == [] then [] else FrameBytes(frames[0]) + FramesBytes(frames[1..])
  }

  function FrameOf(c: Chunk): (f: Frame) {
    Frame(c.header, BodyBytes(c.message))
  }

  function FramesOf(chunks: seq<Chunk>): (frames: seq<Frame>)
    ensures |frames| == |chunks|
  {
    seq(|chunks|, i requires 0 <= i < |chunks| => FrameOf(chunks[i]))
  }

  function ChunkBytes(c: Chunk): (s: seq<byte>) {
    FrameBytes(FrameOf(c))
  }

  function ChunksBytes(chunks: seq<Chunk>): (s: seq<byte>) {
    FramesBytes(FramesOf(chunks))
  }

  function PayloadBytes(p: Packet): (s: seq<byte>) {
    ChunksBytes(p.chunks) + TokenBytes(p.token)
  }

  function PacketBytes(p: Packet): (s: seq<byte>) {
    HeaderBytes(p.header) + PayloadBytes(p)
  }

  // ----- Decoding

  /** `ControlPacket` and `NotCovered` are cases that this model leaves out. */
  datatype Outcome = Normal(packet: Packet) | Failure(error: Error) | ControlPacket | NotCovered

  /** The part of `ddproto_decode_packet` for the payload of a normal packet. */
  function DecodePayload(decode: Decoder, h: PacketHeader, payload: seq<byte>): (o: Outcome) {
    match Fetch(decode, payload, h.numChunks)
    case Outside => Outcome.NotCovered
    case Failed(e) => Failure(e)
    case Done(chunks, used) =>
      if |payload| < used + TOKEN_SIZE then Failure(MISSING_DDNET_SECURITY_TOKEN)
      else if |payload| > used + TOKEN_SIZE then Failure(REMAINING_BYTES_IN_BUFFER)
      else Normal(Packet(h, chunks, ReadToken(payload[used..])))
  }

  /** `ddproto_get_packet_payload`. */
  function Payload(t: HuffmanTree.Tree, h: PacketHeader, data: seq<byte>): (r: HuffmanDecode.Result) {
    if IsCompressed(h) then HuffmanDecode.Decompressed(t, data, MAX_PACKET_SIZE) else HuffmanDecode.Ok(data)
  }

  function DecodeBehindHeader(decode: Decoder, h: PacketHeader, payload: HuffmanDecode.Result): (o: Outcome) {
    match payload
    case Error(e) => Failure(e)
    case Ok(x) => if IsControl(h) then ControlPacket else DecodePayload(decode, h, x)
  }

  /** `ddproto_decode_packet`. */
  function Decode(decode: Decoder, t: HuffmanTree.Tree, data: seq<byte>): (o: Outcome) {
    if |data| < PACKET_HEADER_SIZE || |data| > MAX_PACKET_SIZE then Failure(INVALID_PACKET)
    else
      var h := DecodeHeader(data);
      DecodeBehindHeader(decode, h, Payload(t, h, data[PACKET_HEADER_SIZE..]))
  }

  lemma DecodeIs(decode: Decoder, t: HuffmanTree.Tree, data: seq<byte>, h: PacketHeader, rest: seq<byte>)
    requires PACKET_HEADER_SIZE <= |data| <= MAX_PACKET_SIZE
    requires DecodeHeader(data) == h && data[PACKET_HEADER_SIZE..] == rest
    ensures Decode(decode, t, data) == DecodeBehindHeader(decode, h, Payload(t, h, rest))
  {
  }

  /** The header is in six, ten and eight bits; two of the six say control and compression. */
  lemma HeaderBits(s: seq<byte>)
    requires |s| >= 3
    ensures var b0: nat, b1: nat := s[0], s[1];
            && DecodeHeader(s) == PacketHeader(b0 / 4, b0 % 4 * 256 + b1, s[2])
            && (IsControl(DecodeHeader(s)) <==> b0 / 16 % 2 == 1)
            && (IsCompressed(DecodeHeader(s)) <==> b0 >= 128)
  {
    var b0: nat := s[0];
    var flags := b0 / 4;
    assert flags / 4 == b0 / 16 && flags / 32 == b0 / 128;
  }

  /**
   What becomes of received bytes, bit by bit: the top bit of the first byte asks for decompression, its bit 4 makes a
   control packet of it, and the header is in six, ten and eight bits.
   */
  lemma ReceivedOutcome(decode: Decoder, t: HuffmanTree.Tree, data: seq<byte>)
    ensures |data| < 3 || |data| > 1400 ==> Decode(decode, t, data) == Failure(INVALID_PACKET)
    ensures 3 <= |data| <= 1400 ==>
              var b0: nat, b1: nat := data[0], data[1];
              var payload := if b0 >= 128 then HuffmanDecode.Decompressed(t, data[3..], 1400)
                             else HuffmanDecode.Ok(data[3..]);
              Decode(decode, t, data) ==
              match payload
              case Error(e) => Failure(e)
              case Ok(x) =>
                if b0 / 16 % 2 == 1 then ControlPacket
                else DecodePayload(decode, PacketHeader(b0 / 4, b0 % 4 * 256 + b1, data[2]), x)
  {
    if 3 <= |data| <= 1400 {
      HeaderBits(data);
      DecodeIs(decode, t, data, DecodeHeader(data), data[3..]);
    }
  }

  /** A packet that is accepted consists of its chunks and its token, with nothing between or behind them. */
  lemma AcceptedIsTiled(decode: Decoder, h: PacketHeader, payload: seq<byte>) returns (cuts: seq<nat>)
    requires DecodePayload(decode, h, payload).Normal?
    ensures var p := DecodePayload(decode, h, payload).packet;
            && |p.chunks| == h.numChunks && Tiles(decode, payload, 0, cuts, p.chunks)
            && |payload| == cuts[h.numChunks] + TOKEN_SIZE && p.token == ReadToken(payload[cuts[h.numChunks]..])
  {
    cuts := FetchTiles(decode, payload, h.numChunks);
  }

  // ----- Decoding undoes encoding

  function ReceivedChunk(c: Chunk): (r: Chunk) {
    Chunk(ReceivedHeader(c.header), ReceivedMessage(c.message))
  }

  function ReceivedChunks(chunks: seq<Chunk>): (r: seq<Chunk>)
    ensures |r| == |chunks|
  {
    seq(|chunks|, i requires 0 <= i < |chunks| => ReceivedChunk(chunks[i]))
  }

  /** A chunk whose header gives the size of its message. */
  ghost predicate Framed(c: Chunk) {
    && Encodable(c.message) && c.header.size == |MessageBytes(c.message)| < 1024
    && WellFormed(c.message) && (c.message.Unknown? ==> TrulyUnknown(c.message.raw))
  }

  ghost predicate AllFramed(chunks: seq<Chunk>) {
    forall i | 0 <= i < |chunks| :: Framed(chunks[i])
  }

  /** `decode` reads the frame as the chunk `c`. */
  ghost predicate Fetchable(decode: Decoder, f: Frame, c: Chunk) {
    f.header.size == |f.body| < 1024 && c.header == ReceivedHeader(f.header) && ReadsAs(decode, f.body, c.message)
  }

  ghost predicate AllFetchable(decode: Decoder, frames: seq<Frame>, chunks: seq<Chunk>) {
    |frames| == |chunks| && forall i | 0 <= i < |frames| :: Fetchable(decode, frames[i], chunks[i])
  }

  lemma FramedIsFetchable(c: Chunk)
    requires Framed(c)
    ensures Fetchable(DecodeMessage, FrameOf(c), ReceivedChunk(c))
  {
    MessageRoundTrip(c.message);
  }

  lemma FramedAreFetchable(chunks: seq<Chunk>)
    requires AllFramed(chunks)
    ensures AllFetchable(DecodeMessage, FramesOf(chunks), ReceivedChunks(chunks))
  {
    forall i | 0 <= i < |chunks|
      ensures Fetchable(DecodeMessage, FramesOf(chunks)[i], ReceivedChunks(chunks)[i])
    {
      FramedIsFetchable(chunks[i]);
    }
  }

  lemma ThreeParts(a: seq<byte>, b: seq<byte>, c: seq<byte>)
    ensures a + b + c == a + (b + c)
    ensures (a + b + c)[|a|..|a| + |b|] == b && (a + b + c)[|a| + |b|..] == c
  {
  }

  lemma FetchFramed(decode: Decoder, s: seq<byte>, h: ChunkHeader, m: Message)
    requires |s| >= 4 && DecodeChunkHeader(s) == h && HeaderLength(h) + h.size <= |s|
    requires ReadsAs(decode, s[HeaderLength(h)..HeaderLength(h) + h.size], m)
    ensures FetchOne(decode, s) == Good(Chunk(h, m), HeaderLength(h) + h.size)
  {
  }

  /** One chunk, whose header is read as `h`, and at least a token behind it. */
  lemma FetchEncoded(decode: Decoder, head: seq<byte>, h: ChunkHeader, body: seq<byte>, m: Message, rest: seq<byte>)
    requires |head + (body + rest)| >= 4 && DecodeChunkHeader(head + (body + rest)) == h
    requires HeaderLength(h) == |head| && h.size == |body| && ReadsAs(decode, body, m)
    ensures FetchOne(decode, head + body + rest) == Good(Chunk(h, m), |head| + |body|)
    ensures (head + body + rest)[|head| + |body|..] == rest
  {
    ThreeParts(head, body, rest);
    FetchFramed(decode, head + body + rest, h, m);
  }

  lemma ReceivedSize(h: ChunkHeader)
    requires h.size < 1024
    ensures ReceivedHeader(h).size == h.size
  {
  }

  lemma FetchCons(decode: Decoder, s: seq<byte>, n: nat, c: Chunk, size: nat, chunks: seq<Chunk>, used: nat)
    requires n > 0 && FetchOne(decode, s) == Good(c, size) && Fetch(decode, s[size..], n - 1) == Done(chunks, used)
    ensures Fetch(decode, s, n) == Done([c] + chunks, size + used)
  {
  }

  lemma FetchFails(decode: Decoder, s: seq<byte>, n: nat, c: Chunk, size: nat, e: Error)
    requires n > 0 && FetchOne(decode, s) == Good(c, size) && Fetch(decode, s[size..], n - 1) == Failed(e)
    ensures Fetch(decode, s, n) == Failed(e)
  {
  }

  lemma FetchTooShort(decode: Decoder, s: seq<byte>, n: nat)
    requires |s| < 4 && n > 0
    ensures Fetch(decode, s, n) == Failed(END_OF_BUFFER)
  {
  }

  lemma FramesBytesCons(frames: seq<Frame>, tail: seq<byte>)
    requires frames != []
    ensures FramesBytes(frames) + tail == FrameBytes(frames[0]) + (FramesBytes(frames[1..]) + tail)
    ensures |FramesBytes(frames)| == |FrameBytes(frames[0])| + |FramesBytes(frames[1..])|
  {
    ThreeParts(FrameBytes(frames[0]), FramesBytes(frames[1..]), tail);
  }

  lemma FetchFrame(decode: Decoder, f: Frame, c: Chunk, after: seq<byte>)
    requires Fetchable(decode, f, c) && |FrameBytes(f)| + |after| >= 4
    ensures FetchOne(decode, FrameBytes(f) + after) == Good(c, |FrameBytes(f)|)
    ensures (FrameBytes(f) + after)[|FrameBytes(f)|..] == after
  {
    ChunkHeaderOnWire(f.header, f.body + after);
    ReceivedSize(f.header);
    FetchEncoded(decode, ChunkHeaderBytes(f.header), c.header, f.body, c.message, after);
  }

  /** The last frame and what follows it have the four bytes that the framing loop looks for. */
  predicate LastFits(frames: seq<Frame>, tail: seq<byte>) {
    frames == [] || |FrameBytes(frames[|frames| - 1])| + |tail| >= 4
  }

  lemma RoomForFirst(frames: seq<Frame>, tail: seq<byte>)
    requires frames != [] && (|frames| > 1 || LastFits(frames, tail))
    ensures |FrameBytes(frames[0])| + |FramesBytes(frames[1..]) + tail| >= 4
    ensures |frames| > 1 ==> (LastFits(frames[1..], tail) <==> LastFits(frames, tail))
  {
    if |frames| > 1 {
      FramesBytesCons(frames[1..], tail);
    }
  }

  lemma FetchFirst(decode: Decoder, frames: seq<Frame>, chunks: seq<Chunk>, tail: seq<byte>, s: seq<byte>)
    returns (c: Chunk, size: nat, rest: seq<byte>)
    requires AllFetchable(decode, frames, chunks) && frames != [] && s == FramesBytes(frames) + tail
    requires |frames| > 1 || LastFits(frames, tail)
    ensures FetchOne(decode, s) == Good(c, size) && size <= |s| && s[size..] == rest && c == chunks[0]
    ensures rest == FramesBytes(frames[1..]) + tail && |FramesBytes(frames)| == size + |FramesBytes(frames[1..])|
  {
    c, size, rest := chunks[0], |FrameBytes(frames[0])|, FramesBytes(frames[1..]) + tail;
    RoomForFirst(frames, tail);
    FramesBytesCons(frames, tail);
    FetchFrame(decode, frames[0], c, rest);
  }

  lemma FirstAndRest(chunks: seq<Chunk>)
    requires chunks != []
    ensures chunks == [chunks[0]] + chunks[1..]
  {
  }

  lemma {:induction false} FetchFrames(decode: Decoder, frames: seq<Frame>, chunks: seq<Chunk>, tail: seq<byte>,
                                       s: seq<byte>, n: nat)
    requires AllFetchable(decode, frames, chunks) && LastFits(frames, tail)
    requires s == FramesBytes(frames) + tail && n == |frames|
    ensures Fetch(decode, s, n) == Done(chunks, |FramesBytes(frames)|)
    decreases n
  {
    if n == 0 {
    } else {
      var c, size, rest := FetchFirst(decode, frames, chunks, tail, s);
      RoomForFirst(frames, tail);
      FetchFrames(decode, frames[1..], chunks[1..], tail, rest, n - 1);
      FetchCons(decode, s, n, c, size, chunks[1..], |FramesBytes(frames[1..])|);
      FirstAndRest(chunks);
    }
  }

  /** With fewer than four bytes left for the last frame, the loop gives up in front of it. */
  lemma {:induction false} FetchCutOff(decode: Decoder, frames: seq<Frame>, chunks: seq<Chunk>, tail: seq<byte>,
                                       s: seq<byte>, n: nat)
    requires AllFetchable(decode, frames, chunks) && !LastFits(frames, tail)
    requires s == FramesBytes(frames) + tail && n == |frames|
    ensures Fetch(decode, s, n) == Failed(END_OF_BUFFER)
    decreases n
  {
    if n == 1 {
      FramesBytesCons(frames, tail);
      FetchTooShort(decode, s, n);
    } else {
      var c, size, rest := FetchFirst(decode, frames, chunks, tail, s);
      RoomForFirst(frames, tail);
      FetchCutOff(decode, frames[1..], chunks[1..], tail, rest, n - 1);
      FetchFails(decode, s, n, c, size, END_OF_BUFFER);
    }
  }

  /** What the source promises a packet for: chunks counted and framed, and a header the wire has room for. */
  ghost predicate Deliverable(p: Packet) {
    && |p.chunks| == p.header.numChunks && AllFramed(p.chunks)
    && p.header.flags < 64 && p.header.ack < MAX_SEQUENCE && !IsControl(p.header)
  }

  /** What arrives of a packet; the header and the token are unchanged. */
  function ReceivedPacket(p: Packet): (r: Packet) {
    p.(chunks := ReceivedChunks(p.chunks))
  }

  lemma DecodeFetched(decode: Decoder, h: PacketHeader, payload: seq<byte>, chunks: seq<Chunk>, used: nat)
    requires Fetch(decode, payload, h.numChunks) == Done(chunks, used) && |payload| == used + TOKEN_SIZE
    ensures DecodePayload(decode, h, payload) == Normal(Packet(h, chunks, ReadToken(payload[used..])))
  {
  }

  /** What a payload is decoded to when `tail` stands behind its chunks; `last` is the length of the last one. */
  function TailOutcome(h: PacketHeader, chunks: seq<Chunk>, last: nat, tail: seq<byte>): (o: Outcome) {
    if |tail| > 4 then Failure(REMAINING_BYTES_IN_BUFFER)
    else if |tail| == 4 then Normal(Packet(h, chunks, ReadToken(tail)))
    else if chunks != [] && last + |tail| < 4 then Failure(END_OF_BUFFER)
    else Failure(MISSING_DDNET_SECURITY_TOKEN)
  }

  lemma DecodeDone(decode: Decoder, h: PacketHeader, payload: seq<byte>, chunks: seq<Chunk>, used: nat, last: nat,
                   tail: seq<byte>)
    requires Fetch(decode, payload, h.numChunks) == Done(chunks, used)
    requires used <= |payload| && payload[used..] == tail && (chunks == [] || last + |tail| >= 4)
    ensures DecodePayload(decode, h, payload) == TailOutcome(h, chunks, last, tail)
  {
    assert |payload| == used + |tail|;
  }

  lemma DecodeFailed(decode: Decoder, h: PacketHeader, payload: seq<byte>, e: Error)
    requires Fetch(decode, payload, h.numChunks) == Failed(e)
    ensures DecodePayload(decode, h, payload) == Failure(e)
  {
  }

  lemma FramesThenTail(decode: Decoder, h: PacketHeader, frames: seq<Frame>, chunks: seq<Chunk>, tail: seq<byte>,
                       last: nat)
    requires |frames| == h.numChunks && AllFetchable(decode, frames, chunks)
    requires last == if frames == [] then 0 else |FrameBytes(frames[|frames| - 1])|
    ensures DecodePayload(decode, h, FramesBytes(frames) + tail) == TailOutcome(h, chunks, last, tail)
  {
    var payload, used := FramesBytes(frames) + tail, |FramesBytes(frames)|;
    assert payload[used..] == tail;
    if LastFits(frames, tail) {
      FetchFrames(decode, frames, chunks, tail, payload, |frames|);
      DecodeDone(decode, h, payload, chunks, used, last, tail);
    } else {
      FetchCutOff(decode, frames, chunks, tail, payload, |frames|);
      DecodeFailed(decode, h, payload, END_OF_BUFFER);
    }
  }

  function LastLength(chunks: seq<Chunk>): (n: nat) {
    if chunks == [] then 0 else |ChunkBytes(chunks[|chunks| - 1])|
  }

  lemma ChunksThenTail(decode: Decoder, h: PacketHeader, chunks: seq<Chunk>, read: seq<Chunk>, tail: seq<byte>)
    requires |chunks| == h.numChunks && AllFetchable(decode, FramesOf(chunks), read)
    ensures DecodePayload(decode, h, ChunksBytes(chunks) + tail) == TailOutcome(h, read, LastLength(chunks), tail)
  {
    FramesThenTail(decode, h, FramesOf(chunks), read, tail, LastLength(chunks));
  }

  /** Whatever stands behind framed chunks: only exactly four bytes are a token. */
  lemma PayloadTail(h: PacketHeader, chunks: seq<Chunk>, tail: seq<byte>)
    requires |chunks| == h.numChunks && AllFramed(chunks)
    ensures DecodePayload(DecodeMessage, h, ChunksBytes(chunks) + tail)
         == TailOutcome(h, ReceivedChunks(chunks), LastLength(chunks), tail)
  {
    FramedAreFetchable(chunks);
    ChunksThenTail(DecodeMessage, h, chunks, ReceivedChunks(chunks), tail);
  }

  lemma TokenMoved(chunks: seq<byte>, token: seq<byte>, extra: seq<byte>, cut: nat)
    requires cut <= |token|
    ensures chunks + token + extra == chunks + (token + extra)
    ensures (chunks + token)[..|chunks + token| - cut] == chunks + token[..|token| - cut]
  {
  }

  lemma TailErrors(decode: Decoder, p: Packet, read: seq<Chunk>, extra: seq<byte>, cut: nat)
    requires |p.chunks| == p.header.numChunks && AllFetchable(decode, FramesOf(p.chunks), read)
    requires extra != [] && 1 <= cut <= 4
    ensures DecodePayload(decode, p.header, PayloadBytes(p) + extra) == Failure(REMAINING_BYTES_IN_BUFFER)
    ensures DecodePayload(decode, p.header, PayloadBytes(p)[..|PayloadBytes(p)| - cut]) ==
            Failure(if p.chunks != [] && LastLength(p.chunks) < cut then END_OF_BUFFER
                    else MISSING_DDNET_SECURITY_TOKEN)
  {
    var token := TokenBytes(p.token);
    TokenMoved(ChunksBytes(p.chunks), token, extra, cut);
    ChunksThenTail(decode, p.header, p.chunks, read, token + extra);
    ChunksThenTail(decode, p.header, p.chunks, read, token[..4 - cut]);
  }

  /** Bytes behind the token, and a token that is cut off. */
  lemma TokenErrors(p: Packet, extra: seq<byte>, cut: nat)
    requires |p.chunks| == p.header.numChunks && AllFramed(p.chunks) && extra != [] && 1 <= cut <= 4
    ensures DecodePayload(DecodeMessage, p.header, PayloadBytes(p) + extra) == Failure(REMAINING_BYTES_IN_BUFFER)
    ensures DecodePayload(DecodeMessage, p.header, PayloadBytes(p)[..|PayloadBytes(p)| - cut]) ==
            Failure(if p.chunks != [] && LastLength(p.chunks) < cut then END_OF_BUFFER
                    else MISSING_DDNET_SECURITY_TOKEN)
  {
    FramedAreFetchable(p.chunks);
    TailErrors(DecodeMessage, p, ReceivedChunks(p.chunks), extra, cut);
  }

  lemma PayloadRoundTrip(p: Packet)
    requires |p.chunks| == p.header.numChunks && AllFramed(p.chunks)
    ensures DecodePayload(DecodeMessage, p.header, PayloadBytes(p)) == Normal(ReceivedPacket(p))
  {
    TokenRoundTrip(p.token);
    PayloadTail(p.header, p.chunks, TokenBytes(p.token));
  }

  lemma DecodeSplit(decode: Decoder, t: HuffmanTree.Tree, h: PacketHeader, data: seq<byte>)
    requires h.flags < 64 && h.ack < MAX_SEQUENCE && PACKET_HEADER_SIZE + |data| <= MAX_PACKET_SIZE
    ensures Decode(decode, t, HeaderBytes(h) + data) == DecodeBehindHeader(decode, h, Payload(t, h, data))
  {
    HeaderRoundTrip(h, data);
    ThreeParts([], HeaderBytes(h), data);
    DecodeIs(decode, t, HeaderBytes(h) + data, h, data);
  }

  lemma DecodeUncompressed(decode: Decoder, t: HuffmanTree.Tree, h: PacketHeader, payload: seq<byte>)
    requires h.flags < 64 && h.ack < MAX_SEQUENCE && !IsControl(h) && !IsCompressed(h)
    requires PACKET_HEADER_SIZE + |payload| <= MAX_PACKET_SIZE
    ensures Decode(decode, t, HeaderBytes(h) + payload) == DecodePayload(decode, h, payload)
  {
    DecodeSplit(decode, t, h, payload);
  }

  /**
   The packet round trip: header, token, chunk list and messages come back, with the strings sanitised and the
   sequence of a chunk that is not vital read as zero.
   */
  lemma PacketRoundTrip(p: Packet, t: HuffmanTree.Tree)
    requires Deliverable(p) && !IsCompressed(p.header) && |PacketBytes(p)| <= MAX_PACKET_SIZE
    ensures Decode(DecodeMessage, t, PacketBytes(p)) == Normal(ReceivedPacket(p))
  {
    PayloadRoundTrip(p);
    DecodeUncompressed(DecodeMessage, t, p.header, PayloadBytes(p));
  }

  /** Compression is invisible to what is in the packet, unless the payload is too long once it is decompressed. */
  lemma DecodeCompressed(decode: Decoder, t: HuffmanTree.Tree, h: PacketHeader, payload: seq<byte>,
                         packed: seq<byte>, extra: seq<byte>)
    requires HuffmanNodes.CodecTree(t) && HuffmanCompress.Packs(packed, HuffmanCompress.CodeStream(t, payload))
    requires h.flags < 64 && h.ack < MAX_SEQUENCE && !IsControl(h) && IsCompressed(h)
    requires PACKET_HEADER_SIZE + |packed| + |extra| <= MAX_PACKET_SIZE
    ensures Decode(decode, t, HeaderBytes(h) + (packed + extra)) ==
            if |payload| <= MAX_PACKET_SIZE then DecodePayload(decode, h, payload) else Failure(BUFFER_FULL)
  {
    DecodeSplit(decode, t, h, packed + extra);
    HuffmanDecode.RoundTrip(t, payload, packed, extra, MAX_PACKET_SIZE);
  }

  /** A packet whose payload was compressed arrives like one that was not. */
  lemma CompressedPacketRoundTrip(p: Packet, t: HuffmanTree.Tree, packed: seq<byte>, extra: seq<byte>)
    requires Deliverable(p) && IsCompressed(p.header)
    requires HuffmanNodes.CodecTree(t)
    requires HuffmanCompress.Packs(packed, HuffmanCompress.CodeStream(t, PayloadBytes(p)))
    requires |PayloadBytes(p)| <= MAX_PACKET_SIZE && PACKET_HEADER_SIZE + |packed| + |extra| <= MAX_PACKET_SIZE
    ensures Decode(DecodeMessage, t, HeaderBytes(p.header) + (packed + extra)) == Normal(ReceivedPacket(p))
  {
    PayloadRoundTrip(p);
    DecodeCompressed(DecodeMessage, t, p.header, PayloadBytes(p), packed, extra);
  }

  // ----- Writing a packet

  /** `x` was written behind the bytes `s` that start at `from`. */
  lemma WrittenBehind(was: seq<byte>, now: seq<byte>, from: nat, pos: nat, s: seq<byte>, x: seq<byte>)
    requires from <= pos && pos + |x| <= |was| == |now|
    requires was[from..pos] == s && now[pos..pos + |x|] == x && forall i | 0 <= i < pos :: now[i] == was[i]
    ensures now[from..pos + |x|] == s + x
  {
    var all := now[from..pos + |x|];
    var s', x' := was[from..pos], now[pos..pos + |x|];
    assert all == now[from..pos] + x' && now[from..pos] == s';
  }

  method WriteChunkHeader(h: ChunkHeader, buf: array<byte>, at: nat) returns (size: nat)
    requires at + HeaderLength(h) <= buf.Length
    modifies buf
    ensures size == HeaderLength(h) && buf[at..at + size] == ChunkHeaderBytes(h)
    ensures forall i | 0 <= i < buf.Length && !(at <= i < at + size) :: buf[i] == old(buf[i])
  {
    buf[at] := h.flags / 64 * 64 + h.size / 16 % 64;
    buf[at + 1] := h.size % 16;
    if IsVital(h) {
      var low: int := h.size % 16;
      buf[at + 1] := low + h.sequence / 64 % 16 * 16;
      buf[at + 2] := h.sequence % 256;
      return 3;
    }
    return 2;
  }

  method WriteToken(t: u32, buf: array<byte>, at: nat)
    requires at + TOKEN_SIZE <= buf.Length
    modifies buf
    ensures buf[at..at + TOKEN_SIZE] == TokenBytes(t)
    ensures forall i | 0 <= i < buf.Length && !(at <= i < at + TOKEN_SIZE) :: buf[i] == old(buf[i])
  {
    buf[at] := t / 0x100_0000;
    buf[at + 1] := t / 0x1_0000 % 256;
    buf[at + 2] := t / 0x100 % 256;
    buf[at + 3] := t % 256;
  }

  /** `ddproto_encode_packet_header` writes nothing when the acknowledged sequence is out of bounds. */
  method WriteHeader(h: PacketHeader, buf: array<byte>) returns (err: Error)
    requires buf.Length >= PACKET_HEADER_SIZE
    modifies buf
    ensures err == if h.ack < MAX_SEQUENCE then NONE else ACK_OUT_OF_BOUNDS
    ensures buf[..PACKET_HEADER_SIZE] == if err == NONE then HeaderBytes(h) else old(buf[..PACKET_HEADER_SIZE])
    ensures forall i | PACKET_HEADER_SIZE <= i < buf.Length :: buf[i] == old(buf[i])
  {
    if h.ack >= MAX_SEQUENCE {
      return ACK_OUT_OF_BOUNDS;
    }
    buf[0] := h.flags % 64 * 4 + h.ack / 256 % 4;
    buf[1] := h.ack % 256;
    buf[2] := h.numChunks;
    return NONE;
  }

  method EncodeChunk(c: Chunk, buf: array<byte>, at: nat) returns (size: nat, err: Error)
    requires WellFormed(c.message) && at + |ChunkBytes(c)| <= buf.Length
    modifies buf
    ensures err == if Encodable(c.message) then NONE else BUFFER_FULL
    ensures size == |ChunkBytes(c)| && buf[at..at + size] == ChunkBytes(c)
    ensures forall i | 0 <= i < buf.Length && !(at <= i < at + size) :: buf[i] == old(buf[i])
  {
    var start := WriteChunkHeader(c.header, buf, at);
    ghost var headed := buf[..];
    var bodySize;
    bodySize, err := EncodeMessage(c.message, buf, at + start);
    WrittenBehind(headed, buf[..], at, at + start, ChunkHeaderBytes(c.header), BodyBytes(c.message));
    size := start + bodySize;
  }

  ghost predicate AllWellFormed(chunks: seq<Chunk>) {
    forall i | 0 <= i < |chunks| :: WellFormed(chunks[i].message)
  }

  predicate AllEncodable(chunks: seq<Chunk>) {
    forall i | 0 <= i < |chunks| :: Encodable(chunks[i].message)
  }

  lemma {:induction false} FramesBytesSnoc(frames: seq<Frame>, f: Frame)
    ensures FramesBytes(frames + [f]) == FramesBytes(frames) + FrameBytes(f)
  {
    if frames == [] {
      assert frames + [f] == [f] && [f][1..] == [];
      assert FramesBytes([f]) == FrameBytes(f) + [];
    } else {
      assert (frames + [f])[1..] == frames[1..] + [f];
      FramesBytesSnoc(frames[1..], f);
      ThreeParts(FrameBytes(frames[0]), FramesBytes(frames[1..]), FrameBytes(f));
    }
  }

  lemma ChunksBytesSnoc(chunks: seq<Chunk>, c: Chunk)
    ensures ChunksBytes(chunks + [c]) == ChunksBytes(chunks) + ChunkBytes(c)
  {
    assert FramesOf(chunks + [c]) == FramesOf(chunks) + [FrameOf(c)];
    FramesBytesSnoc(FramesOf(chunks), FrameOf(c));
  }

  lemma OneMore(chunks: seq<Chunk>, k: nat)
    requires k < |chunks|
    ensures chunks[..k + 1] == chunks[..k] + [chunks[k]]
  {
  }

  lemma {:induction false} ChunksBytesPrefix(chunks: seq<Chunk>, n: nat)
    requires n <= |chunks|
    ensures |ChunksBytes(chunks[..n])| <= |ChunksBytes(chunks)|
    decreases |chunks| - n
  {
    if n == |chunks| {
      assert chunks[..n] == chunks;
    } else {
      OneMore(chunks, n);
      ChunksBytesSnoc(chunks[..n], chunks[n]);
      ChunksBytesPrefix(chunks, n + 1);
    }
  }

  lemma AllEncodableSnoc(chunks: seq<Chunk>, c: Chunk)
    ensures AllEncodable(chunks + [c]) <==> AllEncodable(chunks) && Encodable(c.message)
  {
    var all := chunks + [c];
    assert all[|chunks|] == c && forall i | 0 <= i < |chunks| :: all[i] == chunks[i];
  }

  /** The first `k` chunks have been written from `at` to `pos`. */
  ghost predicate ChunksWritten(buf: seq<byte>, at: nat, pos: nat, chunks: seq<Chunk>, k: nat) {
    k <= |chunks| && at <= pos <= |buf| && buf[at..pos] == ChunksBytes(chunks[..k])
  }

  /** The error after the first `k` chunks. */
  ghost predicate ErrorSoFar(chunks: seq<Chunk>, k: nat, err: Error) {
    k <= |chunks| && err == if AllEncodable(chunks[..k]) then NONE else BUFFER_FULL
  }

  lemma WrittenLength(buf: seq<byte>, at: nat, pos: nat, chunks: seq<Chunk>, k: nat)
    requires ChunksWritten(buf, at, pos, chunks, k)
    ensures pos == at + |ChunksBytes(chunks[..k])|
  {
    assert |buf[at..pos]| == pos - at;
  }

  lemma RoomForNext(at: nat, chunks: seq<Chunk>, k: nat, room: nat)
    requires k < |chunks| && at + |ChunksBytes(chunks)| <= room
    ensures at + |ChunksBytes(chunks[..k])| + |ChunkBytes(chunks[k])| <= room
  {
    OneMore(chunks, k);
    ChunksBytesSnoc(chunks[..k], chunks[k]);
    ChunksBytesPrefix(chunks, k + 1);
  }

  lemma NextBytes(was: seq<byte>, now: seq<byte>, at: nat, pos: nat, size: nat, chunks: seq<Chunk>, k: nat)
    requires k < |chunks| && at <= pos && pos + size <= |was| == |now|
    requires was[at..pos] == ChunksBytes(chunks[..k]) && now[pos..pos + size] == ChunkBytes(chunks[k])
    requires forall i | 0 <= i < pos :: now[i] == was[i]
    ensures now[at..pos + size] == ChunksBytes(chunks[..k + 1])
  {
    OneMore(chunks, k);
    ChunksBytesSnoc(chunks[..k], chunks[k]);
    assert |now[pos..pos + size]| == size;
    WrittenBehind(was, now, at, pos, ChunksBytes(chunks[..k]), ChunkBytes(chunks[k]));
  }

  lemma NextError(chunks: seq<Chunk>, k: nat, err: Error, e: Error, err': Error)
    requires k < |chunks| && ErrorSoFar(chunks, k, err)
    requires e == if Encodable(chunks[k].message) then NONE else BUFFER_FULL
    requires err' == if e != NONE then e else err
    ensures ErrorSoFar(chunks, k + 1, err')
  {
    OneMore(chunks, k);
    AllEncodableSnoc(chunks[..k], chunks[k]);
  }

  lemma AllWritten(buf: seq<byte>, at: nat, pos: nat, chunks: seq<Chunk>, err: Error)
    requires ChunksWritten(buf, at, pos, chunks, |chunks|) && ErrorSoFar(chunks, |chunks|, err)
    ensures err == if AllEncodable(chunks) then NONE else BUFFER_FULL
    ensures pos == at + |ChunksBytes(chunks)| && buf[at..pos] == ChunksBytes(chunks)
  {
    assert chunks[..|chunks|] == chunks;
    assert |buf[at..pos]| == pos - at;
  }

  method EncodeNext(chunks: seq<Chunk>, k: nat, buf: array<byte>, ghost at: nat, pos: nat)
    returns (pos': nat, e: Error)
    requires k < |chunks| && WellFormed(chunks[k].message) && at + |ChunksBytes(chunks)| <= buf.Length
    requires ChunksWritten(buf[..], at, pos, chunks, k)
    modifies buf
    ensures pos' >= pos && ChunksWritten(buf[..], at, pos', chunks, k + 1)
    ensures e == if Encodable(chunks[k].message) then NONE else BUFFER_FULL
    ensures forall i | 0 <= i < buf.Length && !(pos <= i < pos') :: buf[i] == old(buf[i])
  {
    ghost var was := buf[..];
    WrittenLength(was, at, pos, chunks, k);
    RoomForNext(at, chunks, k, buf.Length);
    var size;
    size, e := EncodeChunk(chunks[k], buf, pos);
    pos' := pos + size;
    NextBytes(was, buf[..], at, pos, size, chunks, k);
  }

  /** The loop of `ddproto_encode_packet` over the chunks; the error of a message is kept while the rest is written. */
  method EncodeChunks(chunks: seq<Chunk>, buf: array<byte>, at: nat) returns (pos: nat, err: Error)
    requires AllWellFormed(chunks) && at + |ChunksBytes(chunks)| <= buf.Length
    modifies buf
    ensures err == if AllEncodable(chunks) then NONE else BUFFER_FULL
    ensures pos == at + |ChunksBytes(chunks)| && buf[at..pos] == ChunksBytes(chunks)
    ensures forall i | 0 <= i < buf.Length && !(at <= i < pos) :: buf[i] == old(buf[i])
  {
    pos, err := at, NONE;
    ghost var now := buf[..];
    for k := 0 to |chunks|
      invariant now == buf[..] && ChunksWritten(now, at, pos, chunks, k) && ErrorSoFar(chunks, k, err)
      invariant forall i | 0 <= i < buf.Length && !(at <= i < pos) :: buf[i] == old(buf[i])
    {
      ghost var before := err;
      var e;
      pos, e := EncodeNext(chunks, k, buf, at, pos);
      if e != NONE {
        err := e;
      }
      NextError(chunks, k, before, e, err);
      now := buf[..];
    }
    AllWritten(now, at, pos, chunks, err);
  }

  /**
   `ddproto_encode_packet` for a normal packet, into a buffer with room for it behind the pointer. An acknowledged
   sequence that is out of bounds is not reported: the header is not written and the result looks like a success.
   */
  method EncodePacket(p: Packet, buf: array<byte>, len: nat) returns (size: nat, err: Error)
    requires len <= buf.Length && AllWellFormed(p.chunks)
    requires len >= PACKET_HEADER_SIZE ==> |PacketBytes(p)| <= buf.Length
    modifies buf
    ensures len < PACKET_HEADER_SIZE ==> size == 0 && err == BUFFER_FULL && buf[..] == old(buf[..])
    ensures len >= PACKET_HEADER_SIZE ==> size == |PacketBytes(p)| && buf[PACKET_HEADER_SIZE..size] == PayloadBytes(p)
    ensures len >= PACKET_HEADER_SIZE ==> err == if AllEncodable(p.chunks) then NONE else BUFFER_FULL
    ensures len >= PACKET_HEADER_SIZE ==>
              buf[..PACKET_HEADER_SIZE]
              == if p.header.ack < MAX_SEQUENCE then HeaderBytes(p.header) else old(buf[..PACKET_HEADER_SIZE])
    ensures forall i | size <= i < buf.Length :: buf[i] == old(buf[i])
  {
    if len < PACKET_HEADER_SIZE {
      return 0, BUFFER_FULL;
    }
    var ignored := WriteHeader(p.header, buf);
    ghost var head := buf[..PACKET_HEADER_SIZE];
    size, err := EncodePayload(p, buf);
    assert buf[..PACKET_HEADER_SIZE] == head;
  }

  /** The chunks and the token of a packet, behind its header. */
  method EncodePayload(p: Packet, buf: array<byte>) returns (size: nat, err: Error)
    requires AllWellFormed(p.chunks) && |PacketBytes(p)| <= buf.Length
    modifies buf
    ensures size == |PacketBytes(p)| && buf[PACKET_HEADER_SIZE..size] == PayloadBytes(p)
    ensures err == if AllEncodable(p.chunks) then NONE else BUFFER_FULL
    ensures forall i | 0 <= i < buf.Length && !(PACKET_HEADER_SIZE <= i < size) :: buf[i] == old(buf[i])
  {
    var pos;
    pos, err := EncodeChunks(p.chunks, buf, PACKET_HEADER_SIZE);
    ghost var was := buf[..];
    WriteToken(p.token, buf, pos);
    WrittenBehind(was, buf[..], PACKET_HEADER_SIZE, pos, ChunksBytes(p.chunks), TokenBytes(p.token));
    size := pos + TOKEN_SIZE;
  }

  // ----- Reading a packet

  /** `payload[..len]` with error `err` is what a decompression to `r` leaves. */
  ghost predicate Delivers(payload: seq<byte>, len: nat, err: Error, r: HuffmanDecode.Result) {
    match r
    case Ok(x) => err == NONE && len <= |payload| && payload[..len] == x
    case Error(e) => err == e && e != NONE
  }

  /** A decompression that fails has an error to report. */
  lemma {:induction false} FailureHasError(t: HuffmanTree.Tree, r: nat, n: nat, room: nat)
    ensures HuffmanDecode.FastDecode(t, r, n, room) != HuffmanDecode.Result.Error(NONE)
    decreases room
  {
    var d := HuffmanDecode.DepthAt(t, r);
    if room == 0 || HuffmanDecode.CountDown(n, d).Short? {
    } else {
      FailureHasError(t, DropBits(r, d), HuffmanDecode.CountDown(n, d).n, room - 1);
    }
  }

  /** `ddproto_get_packet_payload` into a buffer of its own. */
  method GetPayload(codec: HuffmanNodes.Codec, header: PacketHeader, rest: seq<byte>, payload: array<byte>)
    returns (len: nat, err: Error)
    requires codec.Valid() && payload.Length == MAX_PACKET_SIZE && |rest| <= MAX_PACKET_SIZE
    modifies codec, codec.nodes, codec.lut, payload
    ensures codec.Valid()
    ensures Delivers(payload[..], len, err, Payload(HuffmanTree.TreeOf(codec.freq), header, rest))
    ensures if header.flags / 32 % 2 == 1
            then Delivers(payload[..], len, err,
                          HuffmanDecode.Decompressed(HuffmanTree.TreeOf(codec.freq), rest, 1400))
            else err == NONE && len == |rest| && payload[..len] == rest
  {
    if IsCompressed(header) {
      FailureHasError(HuffmanTree.TreeOf(codec.freq), HuffmanDecode.Stream(rest), 8 * |rest|, MAX_PACKET_SIZE);
      len, err := HuffmanDecompress.Decompress(codec, rest, payload);
    } else {
      forall i | 0 <= i < |rest| { payload[i] := rest[i]; }
      assert payload[..|rest|] == rest;
      len, err := |rest|, NONE;
    }
  }

  /** The branch of `ddproto_decode_packet` for normal packets. */
  method DecodeNormal(ghost decode: Decoder, header: PacketHeader, payload: array<byte>, len: nat)
    returns (o: Outcome)
    requires DecodesMessages(decode) && len <= payload.Length
    requires DecodePayload(decode, header, payload[..len]) != Outcome.NotCovered
    modifies payload
    ensures o == DecodePayload(decode, header, old(payload[..len]))
  {
    ghost var was := payload[..];
    var chunks, used, err := FetchChunks(decode, payload, len, header.numChunks);
    if err != NONE {
      return Failure(err);
    }
    var space := len - used;
    if space < TOKEN_SIZE {
      return Failure(MISSING_DDNET_SECURITY_TOKEN);
    }
    if space > TOKEN_SIZE {
      return Failure(REMAINING_BYTES_IN_BUFFER);
    }
    UnreadPart(payload[..], was, used, len);
    return Normal(Packet(header, chunks, ReadToken(payload[used..len])));
  }

  /** `ddproto_decode_packet` behind the header. */
  method DecodeRest(ghost decode: Decoder, header: PacketHeader, payload: array<byte>, len: nat, err: Error,
                    ghost r: HuffmanDecode.Result) returns (o: Outcome)
    requires DecodesMessages(decode) && Delivers(payload[..], len, err, r)
    requires DecodeBehindHeader(decode, header, r) != Outcome.NotCovered
    modifies payload
    ensures o == DecodeBehindHeader(decode, header, r)
  {
    if err != NONE {
      return Failure(err);
    }
    if IsControl(header) {
      return ControlPacket;
    }
    o := DecodeNormal(decode, header, payload, len);
  }

  /** `ddproto_decode_packet`, with the Huffman codec for compressed payloads. */
  method DecodePacket(ghost decode: Decoder, codec: HuffmanNodes.Codec, data: seq<byte>) returns (o: Outcome)
    requires DecodesMessages(decode) && codec.Valid()
    requires Decode(decode, HuffmanTree.TreeOf(codec.freq), data) != Outcome.NotCovered
    modifies codec, codec.nodes, codec.lut
    ensures o == Decode(decode, HuffmanTree.TreeOf(codec.freq), data) && codec.Valid()
  {
    if |data| < PACKET_HEADER_SIZE || |data| > MAX_PACKET_SIZE {
      return Failure(INVALID_PACKET);
    }
    var header, rest := DecodeHeader(data), data[PACKET_HEADER_SIZE..];
    ghost var t := HuffmanTree.TreeOf(codec.freq);
    DecodeIs(decode, t, data, header, rest);
    var payload := new byte[MAX_PACKET_SIZE];
    var len, err := GetPayload(codec, header, rest, payload);
    o := DecodeRest(decode, header, payload, len, err, Payload(t, header, rest));
  }

  lemma MessageDecoder()
    ensures DecodesMessages(DecodeMessage)
  {
  }

  /** `ddproto_decode_packet` with the library's own messages. */
  method ReceivePacket(codec: HuffmanNodes.Codec, data: seq<byte>) returns (o: Outcome)
    requires codec.Valid()
    requires Decode(DecodeMessage, HuffmanTree.TreeOf(codec.freq), data) != Outcome.NotCovered
    modifies codec, codec.nodes, codec.lut
    ensures o == Decode(DecodeMessage, HuffmanTree.TreeOf(codec.freq), data) && codec.Valid()
  {
    MessageDecoder();
    o := DecodePacket(DecodeMessage, codec, data);
  }
}
