/** The reference in-memory signaling channel `DebugSignal`: a bounded FIFO
    queue of pending offers, the offers of senders waiting for room in it,
    and a map from offer id to answer bytes.
    Each operation is one atomic step on an immutable state value. */
module Signal {
  import opened Types

  /** The three signaling errors the channel can report. */
  datatype SignalError = OfferNotReady | InvalidOfferID | AnswerNotReady

  /** An offer body tagged with the id the offering side keeps. */
  datatype PendingOffer = PendingOffer(id: uint64, body: Bytes)

  /** `queue` models the buffer of the Go channel of capacity `cap`;
      `parked` models the channel's waiting senders, in arrival order: the
      offers of `Offer` calls blocked on a full buffer; `answers` models the
      mutex-guarded answer map. */
  datatype DebugSignal = DebugSignal(queue: seq<PendingOffer>, cap: nat, answers: map<uint64, Bytes>, parked: seq<PendingOffer>)

  /** The buffer never holds more offers than its size, and senders wait
      only while the buffer is full. */
  predicate Valid(s: DebugSignal) {
    && |s.queue| <= s.cap
    && (|s.parked| > 0 ==> |s.queue| == s.cap)
  }

  /** The offers still to be delivered, in the order they will be. */
  function Pending(s: DebugSignal): seq<PendingOffer> {
    s.queue + s.parked
  }

  /** `make(chan offer, n)` panics for a negative `n`, hence the requires. */
  function NewDebugSignal(bufferSize: int): (s: DebugSignal)
    requires bufferSize >= 0
    ensures Valid(s)
    ensures s.cap == bufferSize && s.queue == [] && s.answers == map[] && s.parked == []
  {
    DebugSignal([], bufferSize, map[], [])
  }

  /** `Offer` completing at once, with the random id supplied by the caller:
      there is room in the buffer. */
  function Offer(s: DebugSignal, id: uint64, body: Bytes): (r: (DebugSignal, uint64))
    requires |s.queue| < s.cap
    ensures r.1 == id
    ensures r.0.queue == s.queue + [PendingOffer(id, body)]
    ensures Valid(s) ==> Pending(r.0) == Pending(s) + [PendingOffer(id, body)]
    ensures r.0.cap == s.cap && r.0.answers == s.answers && r.0.parked == s.parked
    ensures Valid(s) ==> Valid(r.0)
  {
    (s.(queue := s.queue + [PendingOffer(id, body)]), id)
  }

  /** `Offer` on a full buffer: the Go sender blocks, and its offer joins
      the waiting senders; the call completes when a later `ReadOffer` frees
      a slot. */
  function Park(s: DebugSignal, id: uint64, body: Bytes): (r: DebugSignal)
    requires |s.queue| >= s.cap
    ensures r.parked == s.parked + [PendingOffer(id, body)]
    ensures Pending(r) == Pending(s) + [PendingOffer(id, body)]
    ensures r.queue == s.queue && r.cap == s.cap && r.answers == s.answers
    ensures Valid(s) ==> Valid(r)
  {
    s.(parked := s.parked + [PendingOffer(id, body)])
  }

  /** Non-blocking: an empty buffer yields `OfferNotReady` (waiting senders
      are not looked at, since the length is checked first); otherwise the
      oldest buffered offer is removed and returned, and the receive moves
      the first waiting sender's offer, if any, into the freed slot. */
  function ReadOffer(s: DebugSignal): (r: (DebugSignal, Result<PendingOffer, SignalError>))
    ensures |s.queue| == 0 ==> r == (s, Failure(OfferNotReady))
    ensures |s.queue| > 0 ==>
      && r.1 == Success(s.queue[0])
      && [s.queue[0]] + Pending(r.0) == Pending(s)
      && |r.0.parked| == (if |s.parked| > 0 then |s.parked| - 1 else 0)
    ensures |s.queue| > 0 && |s.parked| > 0 ==> r.0.queue == s.queue[1..] + [s.parked[0]]
    ensures |s.queue| > 0 && |s.parked| == 0 ==> r.0.queue == s.queue[1..]
    ensures r.0.cap == s.cap && r.0.answers == s.answers
    ensures Valid(s) ==> Valid(r.0)
  {
    if |s.queue| == 0 then (s, Failure(OfferNotReady))
    else if |s.parked| == 0 then (s.(queue := s.queue[1..]), Success(s.queue[0]))
    else
      var r := s.(queue := s.queue[1..] + [s.parked[0]], parked := s.parked[1..]);
      assert s.parked == [s.parked[0]] + s.parked[1..];
      assert [s.queue[0]] + Pending(r) == Pending(s);
      (r, Success(s.queue[0]))
  }

  /** At-most-once write: an id that already holds an answer is refused. */
  function Answer(s: DebugSignal, id: uint64, body: Bytes): (r: (DebugSignal, Outcome<SignalError>))
    ensures id in s.answers ==> r == (s, Fail(InvalidOfferID))
    ensures id !in s.answers ==>
      && r.1 == Pass
      && r.0.answers.Keys == s.answers.Keys + {id}
      && r.0.answers[id] == body
      && (forall k :: k in s.answers ==> r.0.answers[k] == s.answers[k])
    ensures r.0.queue == s.queue && r.0.cap == s.cap && r.0.parked == s.parked
  {
    if id in s.answers then (s, Fail(InvalidOfferID))
    else (s.(answers := s.answers[id := body]), Pass)
  }

  /** One pass of the `ReadAnswer` wait loop: an absent id reports
      `AnswerNotReady` (the Go code sleeps and retries instead); a present id
      is returned and its entry deleted. */
  function PollAnswer(s: DebugSignal, id: uint64): (r: (DebugSignal, Result<Bytes, SignalError>))
    ensures id !in s.answers ==> r == (s, Failure(AnswerNotReady))
    ensures id in s.answers ==>
      && r.1 == Success(s.answers[id])
      && r.0.answers.Keys == s.answers.Keys - {id}
      && (forall k :: k in r.0.answers ==> r.0.answers[k] == s.answers[k])
    ensures r.0.queue == s.queue && r.0.cap == s.cap && r.0.parked == s.parked
  {
    if id !in s.answers then (s, Failure(AnswerNotReady))
    else (s.(answers := s.answers - {id}), Success(s.answers[id]))
  }

  /** The blocking `ReadAnswer` at the moment it returns: the answer is
      present, is handed back, and is consumed. */
  function ReadAnswer(s: DebugSignal, id: uint64): (r: (DebugSignal, Bytes))
    requires id in s.answers
    ensures r.1 == s.answers[id]
    ensures id !in r.0.answers
    ensures r.0.answers.Keys == s.answers.Keys - {id}
    ensures forall k :: k in r.0.answers ==> r.0.answers[k] == s.answers[k]
    ensures r.0.queue == s.queue && r.0.cap == s.cap && r.0.parked == s.parked
  {
    var (s', res) := PollAnswer(s, id);
    (s', res.value)
  }

  // ---------------------------------------------------------------------
  // Properties of single calls and short call sequences

  /** A second answer for the same id is refused and the first one is kept. */
  lemma AnswerTwiceKeepsFirst(s: DebugSignal, id: uint64, a: Bytes, b: Bytes)
    requires id !in s.answers
    ensures var (s1, r1) := Answer(s, id, a);
            var (s2, r2) := Answer(s1, id, b);
            r1 == Pass && r2 == Fail(InvalidOfferID) && s2 == s1 && s2.answers[id] == a
  {
  }

  /** Reading an answer consumes it: polling again finds nothing and the id
      may be answered afresh. */
  lemma ReadAnswerConsumes(s: DebugSignal, id: uint64, b: Bytes)
    requires id in s.answers
    ensures var (s1, _) := ReadAnswer(s, id);
            && PollAnswer(s1, id) == (s1, Failure(AnswerNotReady))
            && Answer(s1, id, b).1 == Pass
  {
  }

  /** The blocking read and the poll step agree: the poll reports
      `AnswerNotReady` exactly when the blocking read would keep waiting. */
  lemma PollAgreesWithReadAnswer(s: DebugSignal, id: uint64)
    ensures PollAnswer(s, id).1 == Failure(AnswerNotReady) <==> id !in s.answers
    ensures id in s.answers ==>
      PollAnswer(s, id) == (ReadAnswer(s, id).0, Success(ReadAnswer(s, id).1))
  {
  }

  /** Offer, ReadOffer, Answer, ReadAnswer hand back the exact answer bytes,
      and the offer's id travels unchanged from the offering to the
      answering side. */
  lemma RoundTrip(s: DebugSignal, id: uint64, offer: Bytes, answer: Bytes)
    requires Valid(s) && s.queue == [] && s.cap > 0
    requires id !in s.answers
    ensures var (s1, oid) := Offer(s, id, offer);
            var (s2, got) := ReadOffer(s1);
            && got == Success(PendingOffer(oid, offer))
            && var (s3, ok) := Answer(s2, got.value.id, answer);
               && ok == Pass
               && var (s4, back) := ReadAnswer(s3, oid);
                  back == answer && s4 == s
  {
    var (s1, oid) := Offer(s, id, offer);
    var (s2, got) := ReadOffer(s1);
    assert s2.queue == [];
    var (s3, ok) := Answer(s2, got.value.id, answer);
    var (s4, back) := ReadAnswer(s3, oid);
    assert s4.answers == s.answers;
  }

  /** Capacity two: two offers are accepted, come back in order, and a third
      read finds the queue empty. */
  lemma CapacityTwoScenario(a: Bytes, b: Bytes, ida: uint64, idb: uint64)
    ensures var s0 := NewDebugSignal(2);
            var (s1, _) := Offer(s0, ida, a);
            var (s2, _) := Offer(s1, idb, b);
            var (s3, r1) := ReadOffer(s2);
            var (s4, r2) := ReadOffer(s3);
            var (s5, r3) := ReadOffer(s4);
            && r1 == Success(PendingOffer(ida, a))
            && r2 == Success(PendingOffer(idb, b))
            && r3 == Failure(OfferNotReady)
  {
    var s0 := NewDebugSignal(2);
    var (s1, _) := Offer(s0, ida, a);
    var (s2, _) := Offer(s1, idb, b);
    assert s2.queue == [PendingOffer(ida, a), PendingOffer(idb, b)];
    var (s3, r1) := ReadOffer(s2);
    var (s4, r2) := ReadOffer(s3);
    assert s4.queue == [];
  }

  // ---------------------------------------------------------------------
  // Runs of many calls

  /** One call on the channel, with the random id of `Offer` as a parameter. */
  datatype Call =
    | OfferCall(id: uint64, body: Bytes)
    | ReadOfferCall
    | AnswerCall(id: uint64, body: Bytes)
    | ReadAnswerCall(id: uint64)

  /** What a call did. `Parked` is an `Offer` whose sender waits for room;
      its offer enters the buffer at a later `ReadOffer`. `Waiting` is one
      pass of the `ReadAnswer` loop that found no answer: the Go loop sleeps
      and polls again, which a run shows as a further `ReadAnswerCall`. */
  datatype Event =
    | Offered(offer: PendingOffer)
    | Parked(offer: PendingOffer)
    | Delivered(offer: PendingOffer)
    | NotReady
    | Answered(id: uint64)
    | Rejected(id: uint64)
    | AnswerRead(id: uint64, body: Bytes)
    | Waiting(id: uint64)

  function Step(s: DebugSignal, c: Call): (r: (DebugSignal, Event))
    ensures Valid(s) ==> Valid(r.0)
    ensures r.0.cap == s.cap
  {
    match c
    case OfferCall(id, body) =>
      if |s.queue| < s.cap then (Offer(s, id, body).0, Offered(PendingOffer(id, body)))
      else (Park(s, id, body), Parked(PendingOffer(id, body)))
    case ReadOfferCall =>
      var (s', res) := ReadOffer(s);
      (s', if res.Success? then Delivered(res.value) else NotReady)
    case AnswerCall(id, body) =>
      var (s', res) := Answer(s, id, body);
      (s', if res.Pass? then Answered(id) else Rejected(id))
    case ReadAnswerCall(id) =>
      var (s', res) := PollAnswer(s, id);
      (s', if res.Success? then AnswerRead(id, res.value) else Waiting(id))
  }

  /** Runs the calls in order, returning the final state and the event log. */
  function Run(s: DebugSignal, calls: seq<Call>): (r: (DebugSignal, seq<Event>))
    ensures |r.1| == |calls|
    ensures r.0.cap == s.cap
    decreases |calls|
  {
    if |calls| == 0 then (s, [])
    else
      var (s1, e) := Step(s, calls[0]);
      var (s2, log) := Run(s1, calls[1..]);
      (s2, [e] + log)
  }

  /** The offer an `Offer` call submitted, whether it completed at once or
      parked its sender. */
  function AcceptedBy(e: Event): seq<PendingOffer> {
    if e.Offered? || e.Parked? then [e.offer] else []
  }

  /** The offer an event shows as handed to the answering side, if any. */
  function DeliveredBy(e: Event): seq<PendingOffer> {
    if e.Delivered? then [e.offer] else []
  }

  /** The offers a log shows as submitted, in order. */
  function Submitted(log: seq<Event>): seq<PendingOffer> {
    if |log| == 0 then [] else AcceptedBy(log[0]) + Submitted(log[1..])
  }

  /** The offers a log shows as handed to the answering side, in order. */
  function DeliveredOffers(log: seq<Event>): seq<PendingOffer> {
    if |log| == 0 then [] else DeliveredBy(log[0]) + DeliveredOffers(log[1..])
  }

  /** A single step is FIFO: what it delivers, followed by the pending offers
      after it, is the pending offers before it followed by what it submits. */
  lemma StepIsFifo(s: DebugSignal, c: Call)
    requires Valid(s)
    ensures var (s', e) := Step(s, c);
            DeliveredBy(e) + Pending(s') == Pending(s) + AcceptedBy(e)
  {
  }

  /** Every run keeps the buffer within capacity, with senders waiting only
      on a full buffer. */
  lemma {:induction false} RunPreservesValid(s: DebugSignal, calls: seq<Call>)
    requires Valid(s)
    ensures Valid(Run(s, calls).0)
    decreases |calls|
  {
    if |calls| > 0 {
      var (s1, _) := Step(s, calls[0]);
      RunPreservesValid(s1, calls[1..]);
    }
  }

  /** FIFO conservation: the offers delivered, followed by those still
      buffered and those of still-waiting senders, are exactly the offers
      pending at the start followed by every offer submitted, parked or not.
      Hence offers leave in submission order, none is lost, none is
      duplicated and none is invented. */
  lemma {:induction false} RunIsFifo(s: DebugSignal, calls: seq<Call>)
    requires Valid(s)
    ensures var (s', log) := Run(s, calls);
            DeliveredOffers(log) + Pending(s') == Pending(s) + Submitted(log)
    decreases |calls|
  {
    if |calls| > 0 {
      var (s1, e) := Step(s, calls[0]);
      var (s2, log) := Run(s1, calls[1..]);
      StepIsFifo(s, calls[0]);
      RunIsFifo(s1, calls[1..]);
      assert Run(s, calls) == (s2, [e] + log);
      assert ([e] + log)[1..] == log;
      assert DeliveredOffers([e] + log) == DeliveredBy(e) + DeliveredOffers(log);
      assert Submitted([e] + log) == AcceptedBy(e) + Submitted(log);
      ChainConservation(DeliveredBy(e), DeliveredOffers(log), Pending(s2), Pending(s1),
                        Submitted(log), Pending(s), AcceptedBy(e));
    }
  }

  /** Composes two conservation equations: a step's and the rest of the
      run's. */
  lemma ChainConservation<T>(d: seq<T>, dl: seq<T>, p2: seq<T>, p1: seq<T>, sl: seq<T>, p0: seq<T>, a: seq<T>)
    requires dl + p2 == p1 + sl
    requires d + p1 == p0 + a
    ensures (d + dl) + p2 == p0 + (a + sl)
  {
    calc {
      (d + dl) + p2;
      d + (dl + p2);
      d + (p1 + sl);
      (d + p1) + sl;
      (p0 + a) + sl;
      p0 + (a + sl);
    }
  }

  /** Capacity one, the second `Offer` arriving on a full buffer: its sender
      parks, and the read that frees the slot moves its offer in, so the
      next read returns it. */
  lemma ParkedOfferIsDeliveredLater(a: Bytes, b: Bytes, ida: uint64, idb: uint64)
    ensures var oa := PendingOffer(ida, a);
            var ob := PendingOffer(idb, b);
            Run(NewDebugSignal(1), [OfferCall(ida, a), OfferCall(idb, b), ReadOfferCall, ReadOfferCall]).1
              == [Offered(oa), Parked(ob), Delivered(oa), Delivered(ob)]
  {
    var oa := PendingOffer(ida, a);
    var ob := PendingOffer(idb, b);
    var calls := [OfferCall(ida, a), OfferCall(idb, b), ReadOfferCall, ReadOfferCall];
    var s0 := NewDebugSignal(1);
    assert s0 == DebugSignal([], 1, map[], []);
    var s1 := DebugSignal([oa], 1, map[], []);
    var s2 := DebugSignal([oa], 1, map[], [ob]);
    var s3 := DebugSignal([ob], 1, map[], []);
    var s4 := DebugSignal([], 1, map[], []);
    assert Offer(s0, ida, a).0 == s1;
    assert calls[0] == OfferCall(ida, a);
    assert Step(s0, calls[0]) == (s1, Offered(oa));
    assert Park(s1, idb, b) == s2;
    assert calls[1] == OfferCall(idb, b);
    assert Step(s1, calls[1]) == (s2, Parked(ob));
    assert Step(s2, calls[2]) == (s3, Delivered(oa));
    assert Step(s3, calls[3]) == (s4, Delivered(ob));
    var log3 := [Delivered(ob)];
    var log2 := [Delivered(oa)] + log3;
    var log1 := [Parked(ob)] + log2;
    assert calls[3..][0] == calls[3] && calls[3..][1..] == [];
    assert Run(s4, calls[3..][1..]) == (s4, []);
    assert Step(s3, calls[3..][0]) == (s4, Delivered(ob));
    assert log3 == [Delivered(ob)] + [];
    assert Run(s3, calls[3..]) == (s4, log3);
    assert calls[2..][0] == calls[2] && calls[2..][1..] == calls[3..];
    assert Run(s2, calls[2..]) == (s4, log2);
    assert calls[1..][0] == calls[1] && calls[1..][1..] == calls[2..];
    assert Run(s1, calls[1..]) == (s4, log1);
    assert Run(s0, calls) == (s4, [Offered(oa)] + log1);
  }

  /** With a buffer size of zero the buffer stays empty and no offer is ever
      delivered, whatever waits. */
  lemma {:induction false} ZeroCapacityParksEveryOffer(s: DebugSignal, calls: seq<Call>)
    requires s.cap == 0 && s.queue == []
    ensures Run(s, calls).0.queue == []
    ensures DeliveredOffers(Run(s, calls).1) == []
    decreases |calls|
  {
    if |calls| > 0 {
      var (s1, e) := Step(s, calls[0]);
      var (s2, log) := Run(s1, calls[1..]);
      assert s1.queue == [] && !e.Delivered?;
      ZeroCapacityParksEveryOffer(s1, calls[1..]);
      assert Run(s, calls) == (s2, [e] + log);
      assert ([e] + log)[1..] == log;
    }
  }

  /** With a buffer size of zero no offer ever reaches the answering side:
      every `ReadOffer` finds the buffer empty, and every `Offer` ever made
      is still blocked at the end of the run. */
  lemma ZeroCapacityNeverDelivers(calls: seq<Call>)
    ensures var (s', log) := Run(NewDebugSignal(0), calls);
            DeliveredOffers(log) == [] && s'.queue == [] && s'.parked == Submitted(log)
  {
    var s := NewDebugSignal(0);
    var (s', log) := Run(s, calls);
    ZeroCapacityParksEveryOffer(s, calls);
    RunIsFifo(s, calls);
    assert Pending(s') == s'.parked;
  }
}
