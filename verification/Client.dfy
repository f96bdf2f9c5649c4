/** What the client does with the sequence numbers of arriving chunks, and the window test behind it. */
module Client {
  import opened Bits
  import opened Errors
  import opened Chunks
  import opened Packets
  import opened Session

  const FLAG_RESEND: nat := 16

  /** `ddproto_seq_in_backroom`. */
  predicate InBackroom(sequence: u16, ack: u16) {
    var seqn: int, acked: int := sequence, ack;
    var bottom := acked - MAX_SEQUENCE / 2;
    if bottom < 0 then seqn <= acked || seqn >= bottom + MAX_SEQUENCE else seqn <= acked && seqn >= bottom
  }

  /** On ten-bit numbers the two branches are one test on the distance backwards. */
  lemma BackroomIsHalfWindow(sequence: u16, ack: u16)
    requires sequence < MAX_SEQUENCE && ack < MAX_SEQUENCE
    ensures InBackroom(sequence, ack) <==> (ack - sequence) % MAX_SEQUENCE <= 512
  {
    var d: int := ack - sequence;
    if d < 0 {
      assert d % 1024 == d + 1024;
    } else {
      assert d % 1024 == d;
    }
  }

  datatype Verdict = InSequence | Known | Gap

  function Successor(ack: u16): (r: u16) {
    var acked: int := ack;
    (acked + 1) % MAX_SEQUENCE
  }

  /** The tests at the top of `twclient_on_chunk` for a vital chunk. */
  function Classify(sequence: u16, ack: u16): (v: Verdict) {
    if sequence == Successor(ack) then InSequence else if InBackroom(sequence, ack) then Known else Gap
  }

  /** The receiving side of the session: the last number accepted, and whether a resend is to be asked for. */
  datatype Link = Link(ack: u16, resend: bool)

  /** The receive step; a chunk behind a gap asks for a resend and is still passed on. */
  function Receive(l: Link, h: ChunkHeader): (r: (Link, bool)) {
    if !IsVital(h) then (l, true)
    else
      match Classify(h.sequence, l.ack)
      case InSequence => (l.(ack := Successor(l.ack)), true)
      case Known => (l, false)
      case Gap => (l.(resend := true), true)
  }

  /** The receive step on ten-bit numbers: only a vital chunk at most 512 behind, modulo 1024, is dropped. */
  lemma ReceiveOnNumbers(l: Link, h: ChunkHeader)
    requires l.ack < 1024 && h.sequence < 1024
    ensures var ack: int, sequence: int := l.ack, h.sequence;
            Receive(l, h) ==
            if h.flags / 64 % 2 == 0 then (l, true)
            else if sequence == (ack + 1) % 1024 then (Link(h.sequence, l.resend), true)
            else if (ack - sequence) % 1024 <= 512 then (l, false)
            else (Link(l.ack, true), true)
  {
    BackroomIsHalfWindow(h.sequence, l.ack);
  }

  class Client {
    const session: Session
    var requestResend: bool

    constructor ()
      ensures fresh(session) && !requestResend && session.ack == 0 && session.sequence == 0
    {
      session := new Session();
      requestResend := false;
    }

    ghost function State(): (l: Link)
      reads this, session
    {
      Link(session.ack, requestResend)
    }

    /** The top of `twclient_on_chunk`; the result says whether the message goes on to its handler. */
    method OnChunk(h: ChunkHeader) returns (dispatched: bool)
      modifies `requestResend, session`ack
      ensures (State(), dispatched) == Receive(old(State()), h)
      ensures h.flags / 64 % 2 == 0 ==> dispatched && State() == old(State())
    {
      if IsVital(h) {
        var expected := Successor(session.ack);
        if h.sequence == expected {
          session.ack := expected;
        } else {
          var known := InBackroom(h.sequence, session.ack);
          if known {
            return false;
          }
          requestResend := true;
        }
      }
      return true;
    }

    /**
     `twclient_send_packet`: the resend flag is set once for a pending request, which is then forgotten, even when the
     packet cannot be encoded and is not sent.
     */
    method SendPacket(p: Packet, buf: array<byte>)
      returns (sent: Packet, size: nat, err: Error, transmitted: bool)
      requires buf.Length == MAX_PACKET_SIZE && AllWellFormed(p.chunks) && |PacketBytes(p)| <= MAX_PACKET_SIZE
      modifies `requestResend, buf
      ensures State() == old(State()).(resend := false)
      ensures sent.token == session.token && sent.chunks == p.chunks
      ensures sent.header.ack == p.header.ack && sent.header.numChunks == p.header.numChunks
      ensures sent.header.flags / 16 % 2 == 1 <==> p.header.flags / 16 % 2 == 1 || old(requestResend)
      ensures sent.header.flags / 32 == p.header.flags / 32 && sent.header.flags % 16 == p.header.flags % 16
      ensures size == |PacketBytes(sent)| && buf[PACKET_HEADER_SIZE..size] == PayloadBytes(sent)
      ensures sent.header.ack < MAX_SEQUENCE ==> buf[..PACKET_HEADER_SIZE] == HeaderBytes(sent.header)
      ensures err == if AllEncodable(p.chunks) then NONE else BUFFER_FULL
      ensures transmitted <==> AllEncodable(p.chunks)
    {
      sent := p.(token := session.token);
      if requestResend {
        var flags: int := p.header.flags;
        if flags / FLAG_RESEND % 2 == 0 {
          WithResend(flags);
          flags := flags + FLAG_RESEND;
        }
        sent := sent.(header := p.header.(flags := flags));
        requestResend := false;
      }
      size, err := EncodePacket(sent, buf, buf.Length);
      transmitted := err == NONE;
    }
  }

  lemma WithResend(flags: nat)
    requires flags < 0x1_0000 && flags / 16 % 2 == 0
    ensures (flags + 16) / 16 % 2 == 1 && (flags + 16) / 32 == flags / 32 && (flags + 16) % 16 == flags % 16
    ensures flags + 16 < 0x1_0000
  {
    var r, low := flags / 16 / 2, flags % 16;
    assert flags == 32 * r + low;
    DivModUnique(flags, 32, r, low);
    DivModUnique(flags + 16, 16, 2 * r + 1, low);
    DivModUnique(flags + 16, 32, r, 16 + low);
  }
}
