/**
 Whole runs of the reliability layer: a sender that numbers vital chunks with a 16-bit counter, a network that may
 lose, repeat and reorder what is sent and offer old chunks again, and a receiver that sees ten bits of the number.
 The index of a vital chunk, counted from 1 without a bound, exists only in the model.
 */
module Reliability {
  import opened Chunks
  import opened Session
  import opened Client

  // ----- When the receiver is right

  /** What ought to be said of the `k`-th vital chunk when the first `accepted` ones have been accepted. */
  function TrueVerdict(k: nat, accepted: nat): (v: Verdict) {
    if k == accepted + 1 then InSequence else if k <= accepted then Known else Gap
  }

  /** The window around what has been accepted, half of the sequence space. */
  predicate InWindow(k: nat, accepted: nat) {
    accepted - 512 <= k <= accepted + 511
  }

  /** The distance, modulo 1024, that the receiver sees is that of the true verdict. */
  predicate TellingDistance(k: nat, accepted: nat) {
    if k == accepted + 1 then true
    else if k <= accepted then (accepted - k) % MAX_SEQUENCE <= 512
    else 512 < (accepted - k) % MAX_SEQUENCE < 1023
  }

  lemma DistanceModulo(k: nat, accepted: nat)
    ensures (accepted % 1024 - k % 1024) % 1024 == (accepted - k) % 1024
    ensures k % 1024 == (accepted % 1024 + 1) % 1024 <==> (accepted - k) % 1024 == 1023
  {
    var a, b, p, q := accepted % 1024, k % 1024, accepted / 1024, k / 1024;
    var d := a - b;
    assert accepted - k == 1024 * (p - q) + d;
    if d < 0 {
      assert accepted - k == 1024 * (p - q - 1) + (d + 1024);
      assert (accepted - k) % 1024 == d + 1024;
    } else {
      assert (accepted - k) % 1024 == d;
    }
  }

  /** The verdict is right exactly when the distance, modulo 1024, says the same as the true distance. */
  lemma ClassifiedRightIff(k: nat, accepted: nat)
    ensures Classify(k % MAX_SEQUENCE, accepted % MAX_SEQUENCE) == TrueVerdict(k, accepted)
       <==> TellingDistance(k, accepted)
  {
    var d := (accepted - k) % 1024;
    DistanceModulo(k, accepted);
    BackroomIsHalfWindow(k % 1024, accepted % 1024);
    if k == accepted + 1 {
      assert d == 1023;
    } else if k <= accepted && d == 1023 {
      assert k != accepted + 1;
    }
  }

  /** Inside the window every chunk is judged rightly, and on both sides the next one is not. */
  lemma WindowIsRight(k: nat, accepted: nat)
    ensures InWindow(k, accepted) ==>
              && TellingDistance(k, accepted)
              && Classify(k % MAX_SEQUENCE, accepted % MAX_SEQUENCE) == TrueVerdict(k, accepted)
    ensures k == accepted + 512 || k == accepted - 513 ==>
              Classify(k % MAX_SEQUENCE, accepted % MAX_SEQUENCE) != TrueVerdict(k, accepted)
  {
    ClassifiedRightIff(k, accepted);
    var d := accepted - k;
    if 0 <= d <= 513 {
      assert d % 1024 == d;
    } else if -512 <= d < 0 {
      assert d % 1024 == d + 1024;
    }
  }

  /** A chunk that is 1024 too early is taken for the next one. */
  lemma FarAheadIsMistaken(accepted: nat)
    ensures Classify((accepted + 1025) % MAX_SEQUENCE, accepted % MAX_SEQUENCE) == InSequence
    ensures TrueVerdict(accepted + 1025, accepted) == Gap
  {
    DistanceModulo(accepted + 1025, accepted);
    assert (-1025) % 1024 == 1023;
  }

  // ----- Runs

  /** All vital chunks built so far, the sender's counter, the receiver, and the indices it took as in sequence. */
  datatype State = State(vital: seq<Chunk>, counter: u16, link: Link, log: seq<nat>)

  datatype Event =
    | Build(chunks: seq<Chunk>)    // a packet is built
    | Arrive(k: nat)               // the network delivers the k-th vital chunk, for the first time or again
    | ArriveOther(h: ChunkHeader)  // it delivers a chunk that is not vital
    | Send                         // the receiver sends a packet of its own

  const INITIAL: State := State([], 0, Link(0, false), [])

  ghost predicate Step(s: State, e: Event, s': State) {
    match e
    case Build(chunks) =>
      && NumberedFrom(chunks, s.counter)
      && s' == s.(vital := s.vital + Vital(chunks), counter := CounterAfter(chunks, s.counter))
    case Arrive(k) =>
      && 1 <= k <= |s.vital|
      && var h := ReceivedHeader(s.vital[k - 1].header);
         s' == s.(link := Receive(s.link, h).0,
                  log := s.log + if Classify(h.sequence, s.link.ack) == InSequence then [k] else [])
    case ArriveOther(h) =>
      !IsVital(h) && s' == s.(link := Receive(s.link, ReceivedHeader(h)).0)
    case Send =>
      s' == s.(link := s.link.(resend := false))
  }

  /** A run from the initial state. */
  ghost predicate AnyRun(states: seq<State>, events: seq<Event>) {
    && |states| == |events| + 1 && states[0] == INITIAL
    && (forall i | 0 <= i < |events| :: Step(states[i], events[i], states[i + 1]))
  }

  /** What arrives at step `i` has a telling distance to what has been accepted by then, for one in the window. */
  ghost predicate TellingAt(states: seq<State>, events: seq<Event>, i: nat)
    requires i < |events| && i < |states|
  {
    events[i].Arrive? ==> TellingDistance(events[i].k, |states[i].log|)
  }

  /** A run in which the distance of every arriving chunk is telling. */
  ghost predicate Run(states: seq<State>, events: seq<Event>) {
    AnyRun(states, events) && forall i | 0 <= i < |events| :: TellingAt(states, events, i)
  }

  /** A run in which every chunk that arrives is in the window is such a run. */
  lemma WindowedRun(states: seq<State>, events: seq<Event>)
    requires AnyRun(states, events)
    requires forall i | 0 <= i < |events| && events[i].Arrive? :: InWindow(events[i].k, |states[i].log|)
    ensures Run(states, events)
  {
    forall i | 0 <= i < |events|
      ensures TellingAt(states, events, i)
    {
      if events[i].Arrive? {
        WindowIsRight(events[i].k, |states[i].log|);
      }
    }
  }

  /** The in-sequence branch has fired for 1, 2, 3, ... and the receiver's ten bits are those of the last one. */
  ghost predicate Good(s: State) {
    && s.counter == |s.vital| % 0x1_0000
    && (forall c | c in s.vital :: IsVital(c.header)) && ConsecutiveOnWire(s.vital, 0)
    && |s.log| <= |s.vital| && (forall j | 0 <= j < |s.log| :: s.log[j] == j + 1)
    && s.link.ack == |s.log| % MAX_SEQUENCE
  }

  lemma BuildStep(s: State, chunks: seq<Chunk>, s': State)
    requires Good(s) && Step(s, Build(chunks), s')
    ensures Good(s')
  {
    VitalChunksAreNumbered(chunks, |s.vital|);
    CounterCounts(chunks, |s.vital|);
    forall k | |s.vital| <= k < |s'.vital|
      ensures ReceivedHeader(s'.vital[k].header).sequence == (k + 1) % MAX_SEQUENCE
    {
      assert s'.vital[k] == Vital(chunks)[k - |s.vital|];
    }
  }

  /** Whether the `k`-th vital chunk, arriving now, is passed on to its handler; otherwise it is dropped. */
  function Dispatched(s: State, k: nat): (d: bool)
    requires 1 <= k <= |s.vital|
  {
    Receive(s.link, ReceivedHeader(s.vital[k - 1].header)).1
  }

  /** What an arriving vital chunk does, in terms of its true index. */
  ghost predicate Handled(s: State, k: nat, s': State, dispatched: bool) {
    match TrueVerdict(k, |s.log|)
    case InSequence => dispatched && s' == s.(link := s.link.(ack := k % MAX_SEQUENCE), log := s.log + [k])
    case Known => !dispatched && s' == s
    case Gap => dispatched && s' == s.(link := s.link.(resend := true))
  }

  lemma SuccessorOfAccepted(n: nat)
    ensures Successor(n % MAX_SEQUENCE) == (n + 1) % MAX_SEQUENCE
  {
  }

  lemma ArriveStep(s: State, k: nat, s': State)
    requires Good(s) && Step(s, Arrive(k), s')
    ensures Handled(s, k, s', Dispatched(s, k)) <==> TellingDistance(k, |s.log|)
    ensures TellingDistance(k, |s.log|) ==> Good(s')
  {
    var c := s.vital[k - 1];
    var h := ReceivedHeader(c.header);
    assert c in s.vital && IsVital(h) && h.sequence == k % MAX_SEQUENCE;
    ClassifiedRightIff(k, |s.log|);
    SuccessorOfAccepted(|s.log|);
    assert s.log + [] == s.log;
  }

  lemma GoodStep(s: State, e: Event, s': State)
    requires Good(s) && Step(s, e, s') && (e.Arrive? ==> TellingDistance(e.k, |s.log|))
    ensures Good(s')
  {
    match e
    case Build(chunks) => BuildStep(s, chunks, s');
    case Arrive(k) => ArriveStep(s, k, s');
    case ArriveOther(h) =>
    case Send =>
  }

  /** The invariant holds at every point of every run. */
  lemma {:induction false} AlwaysGood(states: seq<State>, events: seq<Event>, i: nat)
    requires Run(states, events) && i < |states|
    ensures Good(states[i])
  {
    if i == 0 {
    } else {
      AlwaysGood(states, events, i - 1);
      assert TellingAt(states, events, i - 1);
      GoodStep(states[i - 1], events[i - 1], states[i]);
    }
  }

  /**
   Whole-run reliability: the vital chunks taken in sequence are the first ones built, each once and in order; the
   acknowledged number is theirs; a chunk is dropped, not passed on, exactly when it has been taken before, and a gap is
   noticed exactly when one is there.
   */
  lemma WholeRun(states: seq<State>, events: seq<Event>, i: nat)
    requires Run(states, events) && i < |events|
    ensures Good(states[i]) && Good(states[i + 1])
    ensures events[i].Arrive? ==> (
              var s, k := states[i], events[i].k;
              && 1 <= k <= |s.vital| && Handled(s, k, states[i + 1], Dispatched(s, k))
              && (!Dispatched(s, k) <==> k in s.log)
              && (k in s.log <==> k <= |s.log|))
  {
    AlwaysGood(states, events, i);
    AlwaysGood(states, events, i + 1);
    if events[i].Arrive? {
      var k := events[i].k;
      assert TellingAt(states, events, i);
      ArriveStep(states[i], k, states[i + 1]);
      if k <= |states[i].log| {
        assert states[i].log[k - 1] == k;
      }
    }
  }

  /** What arrives at step `i` is handled by its true index. */
  ghost predicate HandledAt(states: seq<State>, events: seq<Event>, i: nat)
    requires AnyRun(states, events) && i < |events|
  {
    events[i].Arrive? ==>
      && Step(states[i], events[i], states[i + 1])
      && Handled(states[i], events[i].k, states[i + 1], Dispatched(states[i], events[i].k))
  }

  lemma {:induction false} HandledTellsGood(states: seq<State>, events: seq<Event>, i: nat)
    requires AnyRun(states, events) && i < |states|
    requires forall j | 0 <= j < i :: HandledAt(states, events, j)
    ensures Good(states[i]) && forall j | 0 <= j < i :: TellingAt(states, events, j)
  {
    if i == 0 {
    } else {
      HandledTellsGood(states, events, i - 1);
      assert HandledAt(states, events, i - 1);
      var e := events[i - 1];
      if e.Arrive? {
        ArriveStep(states[i - 1], e.k, states[i]);
      }
      GoodStep(states[i - 1], e, states[i]);
    }
  }

  /** On any run, every chunk is handled by its true index if and only if every distance is telling. */
  lemma WholeRunExactly(states: seq<State>, events: seq<Event>)
    requires AnyRun(states, events)
    ensures (forall i | 0 <= i < |events| :: HandledAt(states, events, i)) <==> Run(states, events)
  {
    if Run(states, events) {
      forall i | 0 <= i < |events|
        ensures HandledAt(states, events, i)
      {
        WholeRun(states, events, i);
      }
    }
    if forall i | 0 <= i < |events| :: HandledAt(states, events, i) {
      HandledTellsGood(states, events, |events|);
    }
  }

  /** A chunk that is not vital is passed on, whatever has arrived before, and leaves everything as it was. */
  lemma OthersPassThrough(states: seq<State>, events: seq<Event>, i: nat)
    requires AnyRun(states, events) && i < |events| && events[i].ArriveOther?
    ensures Receive(states[i].link, ReceivedHeader(events[i].h)) == (states[i].link, true)
    ensures states[i + 1] == states[i]
  {
    assert Step(states[i], events[i], states[i + 1]);
  }

  /** Something arrives at step `i` and is not passed on to its handler. */
  ghost predicate DroppedAt(states: seq<State>, events: seq<Event>, i: nat)
    requires AnyRun(states, events) && i < |events|
  {
    match events[i]
    case Arrive(k) => Step(states[i], events[i], states[i + 1]) && !Dispatched(states[i], k)
    case ArriveOther(h) => !Receive(states[i].link, ReceivedHeader(h)).1
    case _ => false
  }

  /** Across a whole run nothing is dropped but vital chunks that have been taken already, and these always are. */
  lemma OnlyKnownDropped(states: seq<State>, events: seq<Event>, i: nat)
    requires Run(states, events) && i < |events|
    ensures DroppedAt(states, events, i) <==> events[i].Arrive? && events[i].k in states[i].log
  {
    assert Step(states[i], events[i], states[i + 1]);
    match events[i]
    case Arrive(k) => WholeRun(states, events, i);
    case ArriveOther(h) => OthersPassThrough(states, events, i);
    case _ =>
  }

  // ----- Requests for a resend

  /** The chunk that arrives at step `j` leaves a gap behind the accepted ones. */
  ghost predicate GapAt(states: seq<State>, events: seq<Event>, j: nat) {
    j < |events| < |states| && events[j].Arrive? && events[j].k > |states[j].log| + 1
  }

  ghost predicate NoSendBetween(events: seq<Event>, j: nat, i: nat) {
    i <= |events| && forall x | j < x < i :: !events[x].Send?
  }

  lemma NoSendExtends(events: seq<Event>, j: nat, i: nat)
    requires j + 1 < i <= |events| && !events[i - 1].Send?
    ensures NoSendBetween(events, j, i) <==> NoSendBetween(events, j, i - 1)
  {
  }

  ghost predicate GapSinceSend(states: seq<State>, events: seq<Event>, i: nat) {
    exists j: nat :: j < i && GapAt(states, events, j) && NoSendBetween(events, j, i)
  }

  lemma GapStays(states: seq<State>, events: seq<Event>, i: nat)
    requires 0 < i <= |events| && !events[i - 1].Send? && !GapAt(states, events, i - 1)
    ensures GapSinceSend(states, events, i) <==> GapSinceSend(states, events, i - 1)
  {
    if GapSinceSend(states, events, i) {
      var j: nat :| j < i && GapAt(states, events, j) && NoSendBetween(events, j, i);
      NoSendExtends(events, j, i);
    }
    if GapSinceSend(states, events, i - 1) {
      var j: nat :| j < i - 1 && GapAt(states, events, j) && NoSendBetween(events, j, i - 1);
      NoSendExtends(events, j, i);
    }
  }

  lemma SendForgets(states: seq<State>, events: seq<Event>, i: nat)
    requires 0 < i <= |events| && events[i - 1].Send?
    ensures !GapSinceSend(states, events, i)
  {
    forall j: nat | j < i
      ensures !(GapAt(states, events, j) && NoSendBetween(events, j, i))
    {
      assert j < i - 1 ==> !NoSendBetween(events, j, i);
    }
  }

  /** A resend is asked for exactly when there has been a gap since the last packet was sent. */
  lemma {:induction false} ResendIffGap(states: seq<State>, events: seq<Event>, i: nat)
    requires Run(states, events) && i < |states|
    ensures states[i].link.resend <==> GapSinceSend(states, events, i)
  {
    if i == 0 {
    } else {
      ResendIffGap(states, events, i - 1);
      WholeRun(states, events, i - 1);
      if events[i - 1].Send? {
        SendForgets(states, events, i);
      } else if GapAt(states, events, i - 1) {
        assert NoSendBetween(events, i - 1, i);
      } else {
        GapStays(states, events, i);
      }
    }
  }

  /** The chunks that were taken in sequence. */
  function Accepted(s: State): (chunks: seq<Chunk>)
    requires forall j | 0 <= j < |s.log| :: 1 <= s.log[j] <= |s.vital|
  {
    seq(|s.log|, j requires 0 <= j < |s.log| => s.vital[s.log[j] - 1])
  }

  /** Nothing is lost, repeated or reordered among the chunks taken in sequence: they are the first ones sent. */
  lemma AcceptedArePrefix(states: seq<State>, events: seq<Event>, i: nat)
    requires Run(states, events) && i < |states|
    ensures forall j | 0 <= j < |states[i].log| :: 1 <= states[i].log[j] <= |states[i].vital|
    ensures Accepted(states[i]) <= states[i].vital
  {
    AlwaysGood(states, events, i);
    assert Accepted(states[i]) == states[i].vital[..|states[i].log|];
  }
}
