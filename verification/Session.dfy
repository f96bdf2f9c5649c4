/** The session numbers of a connection, and the numbering of vital chunks when a packet is built. */
module Session {
  import opened Bits
  import opened Errors
  import opened Messages
  import opened Chunks
  import opened Packets

  import HuffmanTree

  // ----- Numbering

  /** The 16-bit counter after one more chunk. */
  function Next(now: u16, vital: bool): (c: u16) {
    var c: int := now;
    if vital then (c + 1) % 0x1_0000 else c
  }

  /** The counter after the chunks; it is never reduced to ten bits. */
  function CounterAfter(chunks: seq<Chunk>, counter: u16): (c: u16)
    decreases |chunks|
  {
    if chunks == [] then counter
    else Next(CounterAfter(chunks[..|chunks| - 1], counter), IsVital(chunks[|chunks| - 1].header))
  }

  /** Every chunk carries the counter; one that is not vital carries the number of the last vital one. */
  ghost predicate NumberedFrom(chunks: seq<Chunk>, counter: u16)
    decreases |chunks|
  {
    chunks == [] ||
    (NumberedFrom(chunks[..|chunks| - 1], counter)
     && chunks[|chunks| - 1].header.sequence == CounterAfter(chunks, counter))
  }

  function Vital(chunks: seq<Chunk>): (vital: seq<Chunk>)
    ensures |vital| <= |chunks| && forall c | c in vital :: IsVital(c.header)
    decreases |chunks|
  {
    if chunks == [] then []
    else
      var last := chunks[|chunks| - 1];
      Vital(chunks[..|chunks| - 1]) + if IsVital(last.header) then [last] else []
  }

  lemma WrapThenTenBits(x: nat)
    ensures (x % 0x1_0000) % MAX_SEQUENCE == x % MAX_SEQUENCE
  {
    var q := x / 0x1_0000;
    assert x == 1024 * (64 * q) + x % 0x1_0000;
    DivAdd(x % 0x1_0000, 64 * q, 1024);
  }

  lemma CounterStep(total: nat, counter: u16)
    requires counter == total % 0x1_0000
    ensures Next(counter, true) == (total + 1) % 0x1_0000
  {
  }

  /** The counter is the number of vital chunks built so far, wrapped to 16 bits. */
  lemma {:induction false} CounterCounts(chunks: seq<Chunk>, total: nat)
    ensures CounterAfter(chunks, total % 0x1_0000) == (total + |Vital(chunks)|) % 0x1_0000
    decreases |chunks|
  {
    if chunks == [] {
    } else {
      var init := chunks[..|chunks| - 1];
      CounterCounts(init, total);
      CounterStep(total + |Vital(init)|, CounterAfter(init, total % 0x1_0000));
    }
  }

  /** The chunks carry the numbers from `total + 1` on, modulo 1024, on the wire. */
  ghost predicate ConsecutiveOnWire(vital: seq<Chunk>, total: nat) {
    forall k | 0 <= k < |vital| :: ReceivedHeader(vital[k].header).sequence == (total + k + 1) % MAX_SEQUENCE
  }

  lemma ConsecutiveSnoc(vital: seq<Chunk>, total: nat, c: Chunk)
    requires ConsecutiveOnWire(vital, total) && IsVital(c.header)
    requires c.header.sequence == (total + |vital| + 1) % 0x1_0000
    ensures ConsecutiveOnWire(vital + [c], total)
  {
    WrapThenTenBits(total + |vital| + 1);
    assert ReceivedHeader(c.header).sequence == (total + |vital| + 1) % MAX_SEQUENCE;
  }

  /**
   When `total` vital chunks have been built before, the vital chunks of the next packet carry the numbers that
   follow, modulo 1024, on the wire; also when the 16-bit counter wraps around.
   */
  lemma {:induction false} VitalChunksAreNumbered(chunks: seq<Chunk>, total: nat)
    requires NumberedFrom(chunks, total % 0x1_0000)
    ensures ConsecutiveOnWire(Vital(chunks), total)
    decreases |chunks|
  {
    if chunks == [] {
    } else {
      var n := |chunks| - 1;
      VitalChunksAreNumbered(chunks[..n], total);
      if IsVital(chunks[n].header) {
        CounterCounts(chunks, total);
        ConsecutiveSnoc(Vital(chunks[..n]), total, chunks[n]);
      }
    }
  }

  // ----- Building a packet

  class Session {
    var ack: u16
    var sequence: u16
    var peerAck: u16
    var token: u32

    /** The initial session: nothing sent, nothing received, no token yet. */
    constructor ()
      ensures ack == 0 && sequence == 0 && peerAck == 0 && token == 0xffff_ffff
    {
      ack, sequence, peerAck, token := 0, 0, 0, 0xffff_ffff;
    }
  }

  /**
   What `ddproto_fill_chunk_header` needs: a message that the packer takes must also fit in the smaller buffer that
   it is copied into.
   */
  ghost predicate Buildable(m: Message) {
    WellFormed(m) && (Encodable(m) ==> |MessageBytes(m)| <= MAX_PACKET_SIZE)
  }

  /** The chunk for a message, as far as the message decides: its size and its vital flag. */
  ghost predicate ChunkFor(c: Chunk, m: Message) {
    c.message == m && Encodable(m) && HeaderFits(c.header, m)
  }

  ghost predicate AllFor(chunks: seq<Chunk>, messages: seq<Message>) {
    |chunks| <= |messages| && forall i | 0 <= i < |chunks| :: ChunkFor(chunks[i], messages[i])
  }

  /** The first `|chunks|` messages have been built, which took the counter from `counter` to `now`. */
  ghost predicate Built(messages: seq<Message>, counter: u16, chunks: seq<Chunk>, now: u16) {
    AllFor(chunks, messages) && NumberedFrom(chunks, counter) && now == CounterAfter(chunks, counter)
  }

  lemma CounterSnoc(chunks: seq<Chunk>, c: Chunk, counter: u16)
    ensures CounterAfter(chunks + [c], counter) == Next(CounterAfter(chunks, counter), IsVital(c.header))
  {
    assert (chunks + [c])[..|chunks|] == chunks;
  }

  lemma AllForSnoc(chunks: seq<Chunk>, messages: seq<Message>, c: Chunk)
    requires AllFor(chunks, messages) && |chunks| < |messages| && ChunkFor(c, messages[|chunks|])
    ensures AllFor(chunks + [c], messages)
  {
    forall i | 0 <= i <= |chunks|
      ensures ChunkFor((chunks + [c])[i], messages[i])
    {
      if i < |chunks| {
        assert ChunkFor(chunks[i], messages[i]);
      }
    }
  }

  lemma BuiltNext(messages: seq<Message>, counter: u16, chunks: seq<Chunk>, now: u16, c: Chunk)
    requires Built(messages, counter, chunks, now) && |chunks| < |messages| && ChunkFor(c, messages[|chunks|])
    requires c.header.sequence == Next(now, IsVital(c.header))
    ensures Built(messages, counter, chunks + [c], c.header.sequence)
  {
    AllForSnoc(chunks, messages, c);
    CounterSnoc(chunks, c, counter);
    NumberedSnoc(chunks, c, counter);
  }

  lemma NumberedSnoc(chunks: seq<Chunk>, c: Chunk, counter: u16)
    ensures NumberedFrom(chunks + [c], counter) <==>
            NumberedFrom(chunks, counter) && c.header.sequence == CounterAfter(chunks + [c], counter)
  {
    assert (chunks + [c])[..|chunks|] == chunks;
  }

  /** The body of the loop of `ddproto_build_packet`; `memory` is what the allocated header holds. */
  method BuildChunk(m: Message, session: Session, memory: ChunkHeader) returns (c: Chunk, err: Error)
    requires Buildable(m)
    modifies session`sequence
    ensures err == NONE ==> ChunkFor(c, m)
    ensures err != NONE ==> err == BUFFER_FULL && !Encodable(m) && c == Chunk(memory.(sequence := session.sequence), m)
    ensures session.sequence == Next(old(session.sequence), IsVital(c.header)) == c.header.sequence
  {
    var header;
    header, err := FillChunkHeader(m, memory);
    session.sequence := Next(session.sequence, IsVital(header));
    c := Chunk(header.(sequence := session.sequence), m);
  }

  /** One more round of the loop, for the message behind the chunks built so far. */
  method BuildNext(messages: seq<Message>, session: Session, memory: ChunkHeader, chunks: seq<Chunk>,
                   ghost counter: u16)
    returns (longer: seq<Chunk>, err: Error)
    requires |chunks| < |messages| && Buildable(messages[|chunks|])
    requires Built(messages, counter, chunks, session.sequence)
    modifies session`sequence
    ensures |longer| == |chunks| + 1 && longer[..|chunks|] == chunks
    ensures err == NONE ==> Built(messages, counter, longer, session.sequence)
    ensures err != NONE ==> err == BUFFER_FULL && !Encodable(messages[|chunks|])
    ensures err != NONE ==> longer[|chunks|].header.flags == memory.flags
    ensures err != NONE ==> session.sequence == CounterAfter(longer, counter)
  {
    ghost var now := session.sequence;
    var c;
    c, err := BuildChunk(messages[|chunks|], session, memory);
    longer := chunks + [c];
    assert longer[..|chunks|] == chunks;
    CounterSnoc(chunks, c, counter);
    if err == NONE {
      BuiltNext(messages, counter, chunks, now, c);
    }
  }

  /**
   `ddproto_build_packet`; `memory` is what the allocated chunk array holds. When a message cannot be encoded, the
   header of its chunk keeps that content, and the counter still moves if the vital bit happens to be set there; the
   chunks behind it are left as they are.
   */
  method BuildPacket(messages: seq<Message>, session: Session, memory: seq<Chunk>)
    returns (p: Packet, err: Error, ghost built: nat)
    requires |messages| == |memory| < 256 && forall i | 0 <= i < |messages| :: Buildable(messages[i])
    modifies session`sequence
    ensures p.header == PacketHeader(0, session.ack, |messages|) && p.token == session.token
    ensures |p.chunks| == |messages|
    ensures err == NONE ==> Built(messages, old(session.sequence), p.chunks, session.sequence)
    ensures err == NONE ==> NumberedOn(messages, old(session.sequence), p.chunks, session.sequence)
    ensures err != NONE ==> err == BUFFER_FULL && built < |messages| && !Encodable(messages[built])
    ensures err != NONE ==> (
              var done, counter := p.chunks[..built], old(session.sequence);
              && Built(messages, counter, done, CounterAfter(done, counter))
              && p.chunks[built].header.flags == memory[built].header.flags
              && session.sequence == CounterAfter(p.chunks[..built + 1], counter)
              && p.chunks[built + 1..] == memory[built + 1..])
  {
    var chunks := [];
    ghost var counter, now := session.sequence, session.sequence;
    for i := 0 to |messages|
      invariant |chunks| == i && now == session.sequence && Built(messages, counter, chunks, now)
    {
      ghost var done := chunks;
      chunks, err := BuildNext(messages, session, memory[i].header, chunks, counter);
      now := session.sequence;
      if err != NONE {
        var all := chunks + memory[i + 1..];
        assert all[..i + 1] == chunks && all[..i] == done && all[i + 1..] == memory[i + 1..];
        return Packet(PacketHeader(0, session.ack, |messages|), all, session.token), err, i;
      }
    }
    BuiltAreVital(messages, chunks);
    NumberedChunks(messages, counter, chunks, now);
    return Packet(PacketHeader(0, session.ack, |messages|), chunks, session.token), NONE, |messages|;
  }

  // ----- What was built, told from the messages

  /** How many of the messages may not be lost. */
  function Reliable(messages: seq<Message>): (n: nat)
    ensures n <= |messages|
  {
    if messages == [] then 0
    else Reliable(messages[..|messages| - 1]) + if messages[|messages| - 1].Input? then 0 else 1
  }

  lemma {:induction false} VitalAreReliable(messages: seq<Message>, chunks: seq<Chunk>)
    requires |chunks| == |messages|
    requires forall i | 0 <= i < |chunks| :: IsVital(chunks[i].header) <==> !messages[i].Input?
    ensures |Vital(chunks)| == Reliable(messages)
    decreases |chunks|
  {
    if chunks == [] {
    } else {
      var n := |chunks| - 1;
      VitalAreReliable(messages[..n], chunks[..n]);
    }
  }

  lemma VitalBit(h: ChunkHeader, input: bool)
    requires h.flags == if input then 0 else 64
    ensures IsVital(h) <==> !input
  {
  }

  /** Every message but player input becomes a vital chunk. */
  lemma BuiltAreVital(messages: seq<Message>, chunks: seq<Chunk>)
    requires AllFor(chunks, messages) && |chunks| == |messages|
    ensures |Vital(chunks)| == Reliable(messages)
  {
    forall i | 0 <= i < |chunks|
      ensures IsVital(chunks[i].header) <==> !messages[i].Input?
    {
      assert ChunkFor(chunks[i], messages[i]);
      VitalBit(chunks[i].header, messages[i].Input?);
    }
    VitalAreReliable(messages, chunks);
  }

  /** The number that a receiver reads in the header bytes of a chunk. */
  function NumberOnWire(c: Chunk): (n: nat) {
    DecodeChunkHeader(ChunkHeaderBytes(c.header) + [0]).sequence
  }

  ghost predicate WireNumbers(vital: seq<Chunk>, total: nat) {
    forall j | 0 <= j < |vital| :: NumberOnWire(vital[j]) == (total + j + 1) % 1024
  }

  /**
   The vital chunks of a built packet, told from the messages: as many as there are messages other than player input,
   numbered on from the counter, which has moved by as many.
   */
  ghost predicate NumberedOn(messages: seq<Message>, before: u16, chunks: seq<Chunk>, after: u16) {
    && |Vital(chunks)| == Reliable(messages) && after == (before as nat + Reliable(messages)) % 65536
    && WireNumbers(Vital(chunks), before)
  }

  lemma VitalOnWire(vital: seq<Chunk>, total: nat)
    requires ConsecutiveOnWire(vital, total) && forall c | c in vital :: IsVital(c.header)
    ensures WireNumbers(vital, total)
  {
    forall j | 0 <= j < |vital|
      ensures NumberOnWire(vital[j]) == (total + j + 1) % 1024
    {
      ChunkHeaderOnWire(vital[j].header, [0]);
    }
  }

  lemma NumberedChunks(messages: seq<Message>, counter: u16, chunks: seq<Chunk>, now: u16)
    requires NumberedFrom(chunks, counter) && now == CounterAfter(chunks, counter)
    requires |Vital(chunks)| == Reliable(messages)
    ensures NumberedOn(messages, counter, chunks, now)
  {
    var total: nat := counter;
    assert total % 0x1_0000 == counter;
    CounterCounts(chunks, total);
    VitalChunksAreNumbered(chunks, total);
    VitalOnWire(Vital(chunks), total);
  }

  lemma BuiltAreFramed(messages: seq<Message>, counter: u16, chunks: seq<Chunk>, now: u16)
    requires |chunks| == |messages| && Built(messages, counter, chunks, now)
    requires forall i | 0 <= i < |messages| :: WellFormed(messages[i]) && |MessageBytes(messages[i])| < 1024
    requires forall i | 0 <= i < |messages| && messages[i].Unknown? :: TrulyUnknown(messages[i].raw)
    ensures AllFramed(chunks)
  {
    forall i | 0 <= i < |chunks|
      ensures Framed(chunks[i])
    {
      assert ChunkFor(chunks[i], messages[i]);
    }
  }

  lemma BuiltAreDeliverable(p: Packet)
    requires p.header.flags == 0 && p.header.ack < MAX_SEQUENCE
    requires AllFramed(p.chunks) && |p.chunks| == p.header.numChunks
    ensures Deliverable(p) && !IsCompressed(p.header)
  {
  }

  lemma ReceivedMessages(messages: seq<Message>, counter: u16, chunks: seq<Chunk>, now: u16)
    requires |chunks| == |messages| && Built(messages, counter, chunks, now)
    ensures forall i | 0 <= i < |messages| :: ReceivedChunks(chunks)[i].message == ReceivedMessage(messages[i])
  {
    forall i | 0 <= i < |messages|
      ensures ReceivedChunks(chunks)[i].message == ReceivedMessage(messages[i])
    {
      assert ChunkFor(chunks[i], messages[i]);
    }
  }

  /**
   A packet that was built arrives as it was built, in the same order, when no message is longer than a chunk can say
   and the acknowledged sequence is in bounds.
   */
  lemma BuiltPacketArrives(messages: seq<Message>, counter: u16, p: Packet, now: u16, t: HuffmanTree.Tree)
    requires |messages| < 256 && p.header == PacketHeader(0, p.header.ack, |messages|)
    requires p.header.ack < MAX_SEQUENCE
    requires |p.chunks| == |messages| && Built(messages, counter, p.chunks, now)
    requires forall i | 0 <= i < |messages| :: WellFormed(messages[i]) && |MessageBytes(messages[i])| < 1024
    requires forall i | 0 <= i < |messages| && messages[i].Unknown? :: TrulyUnknown(messages[i].raw)
    requires |PacketBytes(p)| <= MAX_PACKET_SIZE
    ensures Decode(DecodeMessage, t, PacketBytes(p)) == Normal(ReceivedPacket(p))
    ensures forall i | 0 <= i < |messages| :: ReceivedPacket(p).chunks[i].message == ReceivedMessage(messages[i])
  {
    BuiltAreFramed(messages, counter, p.chunks, now);
    BuiltAreDeliverable(p);
    ReceivedMessages(messages, counter, p.chunks, now);
    PacketRoundTrip(p, t);
  }
}
