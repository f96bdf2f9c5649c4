/**
 When nothing is changed on the way: which packets arrive exactly as they were sent, and which packets, once decoded,
 can be encoded again without a change.
 */
module Reencode {
  import opened Bits
  import opened Errors
  import opened Varint
  import opened Strings
  import opened Unpacker
  import opened Fields
  import opened Messages
  import opened Chunks
  import opened Packets

  import HuffmanTree

  // ----- Strings, messages, chunks and packets that arrive unchanged

  /** No control characters but tab, newline and carriage return. */
  ghost predicate Clean(s: seq<byte>) {
    forall i | 0 <= i < |s| :: s[i] >= 32 || s[i] == 9 || s[i] == 10 || s[i] == 13
  }

  lemma SanitizedIsClean(s: seq<byte>)
    ensures Clean(Sanitized(s)) && (NulFree(s) ==> NulFree(Sanitized(s)))
    ensures Sanitized(s) == s <==> Clean(s)
  {
    if Sanitized(s) == s {
      forall i | 0 <= i < |s|
        ensures s[i] >= 32 || s[i] == 9 || s[i] == 10 || s[i] == 13
      {
        assert Sanitized(s)[i] == SanitizedChar(s[i]);
      }
    }
  }

  ghost predicate CleanField(v: Value) {
    v.VString? ==> Clean(v.s)
  }

  ghost predicate CleanFields(vs: seq<Value>) {
    forall i | 0 <= i < |vs| :: CleanField(vs[i])
  }

  lemma FieldUnchanged(v: Value)
    ensures Received(v) == v <==> CleanField(v)
  {
    if v.VString? {
      SanitizedIsClean(v.s);
    }
  }

  lemma FieldsUnchanged(vs: seq<Value>)
    ensures AllReceived(vs) == vs <==> CleanFields(vs)
  {
    forall i | 0 <= i < |vs|
      ensures AllReceived(vs)[i] == vs[i] <==> CleanField(vs[i])
    {
      FieldUnchanged(vs[i]);
    }
  }

  /** The strings of a message are clean already. */
  ghost predicate CleanMessage(m: Message) {
    CleanFields(PackerCalls(m))
  }

  lemma MessageUnchanged(m: Message)
    ensures ReceivedMessage(m) == m <==> CleanMessage(m)
  {
    if !m.Unknown? {
      ReceivedCalls(m);
      CallsMirror(m);
      CallsMirror(ReceivedMessage(m));
      FieldsUnchanged(PackerCalls(m));
    }
  }

  /** The wire has room for all that a header says. */
  predicate PlainHeader(h: ChunkHeader) {
    h.flags % 64 == 0 && h.size < 1024 && h.sequence < if IsVital(h) then MAX_SEQUENCE else 1
  }

  lemma HeaderUnchanged(h: ChunkHeader)
    ensures ReceivedHeader(h) == h <==> PlainHeader(h)
  {
    MultipleOf64(h.flags);
    SmallOrNot(h.size);
    SmallOrNot(h.sequence);
  }

  ghost predicate PlainChunks(chunks: seq<Chunk>) {
    forall i | 0 <= i < |chunks| :: PlainHeader(chunks[i].header) && CleanMessage(chunks[i].message)
  }

  lemma ChunksUnchanged(chunks: seq<Chunk>)
    ensures ReceivedChunks(chunks) == chunks <==> PlainChunks(chunks)
  {
    forall i | 0 <= i < |chunks|
      ensures ReceivedChunks(chunks)[i] == chunks[i] <==>
              PlainHeader(chunks[i].header) && CleanMessage(chunks[i].message)
    {
      HeaderUnchanged(chunks[i].header);
      MessageUnchanged(chunks[i].message);
    }
  }

  /**
   A packet arrives exactly as it was sent if and only if its strings are clean and its chunk headers say nothing that
   the wire has no room for.
   */
  lemma PacketUnchanged(p: Packet, t: HuffmanTree.Tree)
    requires Deliverable(p) && !IsCompressed(p.header) && |PacketBytes(p)| <= MAX_PACKET_SIZE
    ensures Decode(DecodeMessage, t, PacketBytes(p)) == Normal(p) <==> PlainChunks(p.chunks)
  {
    PacketRoundTrip(p, t);
    ChunksUnchanged(p.chunks);
  }

  // ----- What decoding gives

  /** What was read of a field can be written again in as many bytes at most, and comes back unchanged. */
  ghost predicate FieldReadBack(v: Value, t: FieldType, before: nat, behind: nat) {
    && TypeOf(v) == t && (v.VString? ==> NulFree(v.s)) && CleanField(v)
    && |FieldBytes(v)| + behind <= before
  }

  lemma IntReadBack(c: Cursor)
    requires c.err == NONE && IntStep(c).1.err == NONE
    ensures |EncodeInt(IntStep(c).0)| + |IntStep(c).1.rest| <= |c.rest|
  {
    EncodingIsShortest(c.rest);
  }

  lemma FieldRead(c: Cursor, t: FieldType)
    requires CanReadField(c, t) && c.err == NONE && ReadField(c, t).1.err == NONE
    ensures var (v, c') := ReadField(c, t); FieldReadBack(v, t, |c.rest|, |c'.rest|)
  {
    match t
    case TInt => IntReadBack(c);
    case TBool => IntReadBack(c);
    case TString => SanitizedIsClean(c.rest[..FirstNul(c.rest)]);
    case TRaw(n) =>
  }

  ghost predicate FieldsReadBack(vs: seq<Value>, ts: seq<FieldType>, before: nat, behind: nat) {
    Types(vs) == ts && Sendable(vs) && CleanFields(vs) && |FieldsBytes(vs)| + behind <= before
  }

  lemma CleanCons(v: Value, vs: seq<Value>)
    requires (v.VString? ==> NulFree(v.s)) && CleanField(v) && Sendable(vs) && CleanFields(vs)
    ensures Sendable([v] + vs) && CleanFields([v] + vs)
  {
  }

  lemma ReadBackCons(v: Value, t: FieldType, vs: seq<Value>, ts: seq<FieldType>, before: nat, between: nat, behind: nat)
    requires FieldReadBack(v, t, before, between) && FieldsReadBack(vs, ts, between, behind)
    ensures FieldsReadBack([v] + vs, [t] + ts, before, behind)
  {
    var all := [v] + vs;
    assert all[1..] == vs;
    TypesCons(all);
    CleanCons(v, vs);
  }

  lemma {:induction false} FieldListRead(c: Cursor, ts: seq<FieldType>)
    requires CanReadFields(c, ts) && c.err == NONE && ReadFields(c, ts).1.err == NONE
    ensures var (vs, c') := ReadFields(c, ts); FieldsReadBack(vs, ts, |c.rest|, |c'.rest|)
    decreases |ts|
  {
    if ts == [] {
      assert Types([]) == [];
    } else {
      var (v, c1) := ReadField(c, ts[0]);
      var (vs, c2) := ReadFields(c1, ts[1..]);
      if c1.err != NONE {
        ReadFieldsKeepError(c1, ts[1..]);
      }
      FieldRead(c, ts[0]);
      FieldListRead(c1, ts[1..]);
      ReadBackCons(v, ts[0], vs, ts[1..], |c.rest|, |c1.rest|, |c2.rest|);
      assert ts == [ts[0]] + ts[1..];
    }
  }

  lemma {:induction false} ReadingKnowsIds(c: Cursor, ts: seq<FieldType>)
    requires CanReadFields(c, ts) && c.err != UNKNOWN_MESSAGE
    ensures ReadFields(c, ts).1.err != UNKNOWN_MESSAGE
    decreases |ts|
  {
    if ts == [] {
    } else {
      ReadingKnowsIds(ReadField(c, ts[0]).1, ts[1..]);
    }
  }

  lemma KindHasId(system: bool, id: int, k: Kind)
    requires KindOf(system, id) == Known(k)
    ensures system == IsSystem(k) && id == Id(k)
  {
  }

  lemma KindHasTag(tag: int, k: Kind)
    requires KindOf(tag % 2 == 1, tag / 2) == Known(k)
    ensures tag == Tag(k)
  {
    KindHasId(tag % 2 == 1, tag / 2, k);
  }

  /** A message as it was read from `size` bytes: it can be sent again, comes back unchanged, and is no longer. */
  ghost predicate ReadBack(m: Message, size: nat) {
    && WellFormed(m) && CleanMessage(m) && (m.Unknown? ==> TrulyUnknown(m.raw))
    && |MessageBytes(m)| <= size
  }

  lemma TagRead(s: seq<byte>, k: Kind)
    requires var tag := IntStep(Cursor(s, NONE)).0; KindOf(tag % 2 == 1, tag / 2) == Known(k)
    ensures var (tag, c) := IntStep(Cursor(s, NONE));
            tag == Tag(k) && c.err == NONE && |EncodeInt(tag)| + |c.rest| <= |s|
  {
    var (tag, c) := IntStep(Cursor(s, NONE));
    KindHasTag(tag, k);
    IntReadBack(Cursor(s, NONE));
  }

  lemma FilledReadBack(k: Kind, vs: seq<Value>, before: nat, behind: nat, size: nat)
    requires FieldsReadBack(vs, UnpackerCalls(k), before, behind) && |EncodeInt(Tag(k))| + before <= size
    ensures ReadBack(Filled(k, vs), size)
  {
    CallsMirrorBack(k, vs);
  }

  lemma MessageRead(s: seq<byte>, m: Message)
    requires ReadsAs(DecodeMessage, s, m)
    ensures ReadBack(m, |s|)
  {
    var (tag, c) := IntStep(Cursor(s, NONE));
    match KindOf(tag % 2 == 1, tag / 2)
    case NoSuchId =>
    case Known(k) =>
      TagRead(s, k);
      ReadingKnowsIds(c, UnpackerCalls(k));
      FieldListRead(c, UnpackerCalls(k));
      var (vs, c') := ReadFields(c, UnpackerCalls(k));
      FilledReadBack(k, vs, |c.rest|, |c'.rest|, |s|);
  }

  /** Everything that `decode` accepts can be sent again. */
  ghost predicate ReadsBack(decode: Decoder) {
    forall s, m {:trigger ReadsAs(decode, s, m)} :: ReadsAs(decode, s, m) ==> ReadBack(m, |s|)
  }

  lemma MessagesReadBack()
    ensures ReadsBack(DecodeMessage)
  {
    forall s, m | ReadsAs(DecodeMessage, s, m)
      ensures ReadBack(m, |s|)
    {
      MessageRead(s, m);
    }
  }

  /** A chunk as it was fetched. */
  ghost predicate ChunkReadBack(c: Chunk) {
    PlainHeader(c.header) && ReadBack(c.message, c.header.size)
  }

  ghost predicate AllReadBack(chunks: seq<Chunk>) {
    forall i | 0 <= i < |chunks| :: ChunkReadBack(chunks[i])
  }

  /** The bytes that the headers of the chunks speak for. */
  function Span(chunks: seq<Chunk>): (n: nat) {
    if chunks == [] then 0 else HeaderLength(chunks[0].header) + chunks[0].header.size + Span(chunks[1..])
  }

  lemma TileRead(decode: Decoder, payload: seq<byte>, start: nat, end: nat, c: Chunk)
    requires ReadsBack(decode) && ChunkFills(decode, payload, start, end, c)
    ensures ChunkReadBack(c) && end == start + HeaderLength(c.header) + c.header.size
  {
  }

  lemma {:induction false} TilesSpan(decode: Decoder, payload: seq<byte>, from: nat, cuts: seq<nat>, chunks: seq<Chunk>)
    requires ReadsBack(decode) && Tiles(decode, payload, from, cuts, chunks)
    ensures cuts[|chunks|] == from + Span(chunks)
    decreases |chunks|
  {
    if chunks == [] {
    } else {
      assert ChunkFills(decode, payload, cuts[0], cuts[1], chunks[0]);
      forall i | 0 <= i < |chunks| - 1
        ensures ChunkFills(decode, payload, cuts[1..][i], cuts[1..][i + 1], chunks[1..][i])
      {
        assert ChunkFills(decode, payload, cuts[i + 1], cuts[i + 2], chunks[i + 1]);
      }
      TilesSpan(decode, payload, cuts[1], cuts[1..], chunks[1..]);
    }
  }

  lemma TilesRead(decode: Decoder, payload: seq<byte>, from: nat, cuts: seq<nat>, chunks: seq<Chunk>)
    requires ReadsBack(decode) && Tiles(decode, payload, from, cuts, chunks)
    ensures AllReadBack(chunks)
  {
    forall i | 0 <= i < |chunks|
      ensures ChunkReadBack(chunks[i])
    {
      TileRead(decode, payload, cuts[i], cuts[i + 1], chunks[i]);
    }
  }

  // ----- Encoding what was decoded

  /** Every chunk header gives the size that the message has when it is encoded. */
  ghost predicate SizesHold(chunks: seq<Chunk>) {
    forall i | 0 <= i < |chunks| :: chunks[i].header.size == |MessageBytes(chunks[i].message)|
  }

  lemma SizesHoldCons(chunks: seq<Chunk>)
    requires chunks != []
    ensures SizesHold(chunks) <==>
            chunks[0].header.size == |MessageBytes(chunks[0].message)| && SizesHold(chunks[1..])
  {
    if SizesHold(chunks[1..]) {
      forall i | 1 <= i < |chunks|
        ensures chunks[i].header.size == |MessageBytes(chunks[i].message)|
      {
        assert chunks[1..][i - 1] == chunks[i];
      }
    }
  }

  lemma FirstChunkBytes(chunks: seq<Chunk>)
    requires chunks != []
    ensures |ChunksBytes(chunks)| ==
            HeaderLength(chunks[0].header) + |BodyBytes(chunks[0].message)| + |ChunksBytes(chunks[1..])|
  {
    assert FramesOf(chunks)[1..] == FramesOf(chunks[1..]);
    FramesBytesCons(FramesOf(chunks), []);
  }

  /** The chunks never get longer when they are encoded, and keep their length only if every size still holds. */
  lemma {:induction false} EncodedSpan(chunks: seq<Chunk>)
    requires AllReadBack(chunks)
    ensures |ChunksBytes(chunks)| <= Span(chunks)
    ensures |ChunksBytes(chunks)| == Span(chunks) <==> SizesHold(chunks)
  {
    if chunks == [] {
    } else {
      EncodedSpan(chunks[1..]);
      SizesHoldCons(chunks);
      FirstChunkBytes(chunks);
      assert ChunkReadBack(chunks[0]);
      assert BodyBytes(chunks[0].message) == MessageBytes(chunks[0].message);
    }
  }

  lemma HoldingAreFramed(chunks: seq<Chunk>)
    requires AllReadBack(chunks)
    ensures PlainChunks(chunks) && (SizesHold(chunks) ==> AllFramed(chunks))
  {
    forall i | 0 <= i < |chunks|
      ensures PlainHeader(chunks[i].header) && CleanMessage(chunks[i].message)
      ensures SizesHold(chunks) ==> Framed(chunks[i])
    {
      assert ChunkReadBack(chunks[i]);
    }
  }

  lemma PayloadRead(h: PacketHeader, payload: seq<byte>)
    requires DecodePayload(DecodeMessage, h, payload).Normal?
    ensures var p := DecodePayload(DecodeMessage, h, payload).packet;
            && p.header == h && |p.chunks| == h.numChunks && AllReadBack(p.chunks)
            && |payload| == Span(p.chunks) + TOKEN_SIZE
  {
    MessagesReadBack();
    var cuts := AcceptedIsTiled(DecodeMessage, h, payload);
    var chunks := DecodePayload(DecodeMessage, h, payload).packet.chunks;
    TilesRead(DecodeMessage, payload, 0, cuts, chunks);
    TilesSpan(DecodeMessage, payload, 0, cuts, chunks);
  }

  /**
   A payload that was decoded and is encoded again never gets longer, and is decoded to the same packet if and only
   if every chunk header still gives the size of its message: if a number was written longer than necessary, or bytes
   followed the last field, the old size in the header misframes the new payload.
   */
  lemma PayloadReencoded(h: PacketHeader, payload: seq<byte>, p: Packet)
    requires DecodePayload(DecodeMessage, h, payload) == Normal(p)
    ensures |PayloadBytes(p)| <= |payload|
    ensures DecodePayload(DecodeMessage, h, PayloadBytes(p)) == Normal(p) <==> SizesHold(p.chunks)
  {
    PayloadRead(h, payload);
    EncodedSpan(p.chunks);
    HoldingAreFramed(p.chunks);
    if SizesHold(p.chunks) {
      PayloadRoundTrip(p);
      ChunksUnchanged(p.chunks);
    }
    if DecodePayload(DecodeMessage, h, PayloadBytes(p)) == Normal(p) {
      PayloadRead(h, PayloadBytes(p));
    }
  }

  lemma ReadyRead(s: seq<byte>)
    requires |s| == 2 && s[0] == Tag(READY)
    ensures DecodeMessage(s) == Decoded(Ready, NONE)
  {
    assert DecodeInt(s) == Read(29, 1);
  }

  lemma ReadySize()
    ensures |MessageBytes(Ready)| == 1
  {
  }

  lemma PaddedPayload() returns (h: PacketHeader, payload: seq<byte>, p: Packet)
    ensures DecodePayload(DecodeMessage, h, payload) == Normal(p)
    ensures p.chunks == [Chunk(ChunkHeader(0, 2, 0), Ready)]
  {
    h, payload := PacketHeader(0, 0, 1), [0, 2, 29, 0, 0, 0, 0, 0];
    var c := Chunk(ChunkHeader(0, 2, 0), Ready);
    assert DecodeChunkHeader(payload) == c.header;
    ReadyRead(payload[2..4]);
    assert FetchOne(DecodeMessage, payload) == Good(c, 4);
    FetchCons(DecodeMessage, payload, 1, c, 4, [], 0);
    DecodeFetched(DecodeMessage, h, payload, [c], 4);
    p := Packet(h, [c], ReadToken(payload[4..]));
  }

  /** One chunk with a READY message and a byte behind it, which the library accepts, does not survive. */
  lemma PaddedChunk() returns (h: PacketHeader, payload: seq<byte>, p: Packet)
    ensures DecodePayload(DecodeMessage, h, payload) == Normal(p)
    ensures DecodePayload(DecodeMessage, h, PayloadBytes(p)) != Normal(p)
  {
    h, payload, p := PaddedPayload();
    ReadySize();
    assert !SizesHold(p.chunks) by { assert p.chunks[0].header.size == 2; }
    PayloadReencoded(h, payload, p);
  }

  /** The same for whole packets that are not compressed. */
  lemma PacketReencoded(data: seq<byte>, p: Packet, t: HuffmanTree.Tree)
    requires Decode(DecodeMessage, t, data) == Normal(p) && !IsCompressed(p.header)
    ensures |PacketBytes(p)| <= |data|
    ensures Decode(DecodeMessage, t, PacketBytes(p)) == Normal(p) <==> SizesHold(p.chunks)
  {
    var payload := data[PACKET_HEADER_SIZE..];
    DecodeIs(DecodeMessage, t, data, DecodeHeader(data), payload);
    PayloadReencoded(p.header, payload, p);
    DecodeUncompressed(DecodeMessage, t, p.header, PayloadBytes(p));
  }
}
