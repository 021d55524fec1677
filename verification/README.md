# WebRTC data-channel transport: signaling channel and listener lifecycle

This project is a Dafny model of the two sequential pieces of the transport's
signaling and connection-lifecycle layer.

- **`Signal` (signal.dfy)** models the in-memory reference signaling channel
  `DebugSignal`. Offers wait in a bounded FIFO queue, each tagged with an id.
  An `Offer` that finds the queue full parks its sender, as a Go channel
  does; the receive that frees a slot moves the first parked offer into it.
  Answers go into a map from id to bytes, and each id can be written at most
  once. Reading an answer deletes it. The state is
  `DebugSignal(queue, cap, answers, parked)`, and there is one pure step
  function per operation. A whole run of calls is modelled by `Step`/`Run` with an event
  log.
- **`Listener` (listener.dfy)** models the listener's lifecycle. The state is
  one of NEW, RUNNING, SUSPENDED or STOPPED, stored as the `uint32` codes 0..3.
  `Start`, `Stop` and `Suspend` are compare-and-swap transitions. The model
  also covers:
  - the session registry: fresh-id allocation, insertion, clearing on `Stop`,
    and idempotent eviction by the connectivity observers;
  - the gating of the accept loop;
  - the registry effects of the per-offer negotiation task.

  Sessions are an opaque type parameter `S`. The listener record is
  `Listener(state, registry, manual, loops)`. `manual` records that the signal
  method is manual. `loops` counts the live accept-loop tasks.
- **`Types` (types.dfy)** holds `uint32`, `uint64`, `byte`, the opaque
  `Bytes` payload, and `Option`/`Result`/`Outcome`. These stand for Go's
  `(value, error)` and `error` returns.

Every operation is one atomic step on an immutable value. Where the source
blocks or draws a random number, the model does this instead:
- `rand.Uint64` becomes a caller-supplied id in `Signal.Offer`.
- In `Listener.NextPCID`, `rand.Uint64` becomes a nondeterministic choice of an
  unused id. A counting lemma proves that such an id exists.
- A full offer queue blocks `Offer`. `Signal.Offer` is the call that finds
  room; `Signal.Park` is the call that finds the queue full, whose sender
  waits in `parked` until a `ReadOffer` frees a slot. In a `Run` the latter
  shows up as a `Parked` event.
- The blocking `ReadAnswer` is modelled two ways. `Signal.PollAnswer` is one
  pass of its wait loop and reports `AnswerNotReady`, the non-blocking
  alternative the source names at signal.go:116. `Signal.ReadAnswer` is the
  moment the loop exits, and it requires the answer to be present.

## Model

| member | source | states |
|---|---|---|
| Signal.NewDebugSignal | signal.go:62-68 | a new channel is valid, has the given buffer size, an empty queue, no parked senders and no answers; a negative size is excluded (Go's `make` panics) |
| Signal.Offer | signal.go:70-80 | with room in the buffer: the body is appended unmodified at the tail of the queue, tagged with the id that is returned; no error; answers and parked senders untouched; in a valid state it is also the last pending offer |
| Signal.Park | signal.go:70-80 | with the buffer full: the sender waits, its offer goes after every other parked offer and is the last pending offer; the buffer and the answers are untouched |
| Signal.ReadOffer | signal.go:82-90 | empty buffer: `OfferNotReady` and nothing changes, even with parked senders; otherwise the head offer (id and body) is returned, the pending offers lose exactly that head, and the first parked offer, if any, moves to the tail of the buffer |
| Signal.Answer | signal.go:92-105 | an id that already holds an answer is refused with `InvalidOfferID` and nothing changes; a fresh id gets exactly the given bytes and every other entry is kept |
| Signal.PollAnswer | signal.go:109-120 | one pass of the wait loop: an absent id reports `AnswerNotReady` with nothing changed; a present id returns its bytes and deletes only that entry |
| Signal.ReadAnswer | signal.go:107-125 | on return, the stored bytes are handed back and only that entry is deleted |
| Signal.AnswerTwiceKeepsFirst | signal.go:98-104 | a second `Answer` for the same id returns `InvalidOfferID` and the first answer stays stored |
| Signal.ReadAnswerConsumes | signal.go:121-124 | after a read the id is absent, so a later poll finds nothing and a later `Answer` for it succeeds |
| Signal.PollAgreesWithReadAnswer | signal.go:113-120 | the poll reports not-ready exactly when the blocking read keeps waiting, and otherwise it has the same effect as the read |
| Signal.RoundTrip | signal.go:72-124 | Offer, ReadOffer, Answer with the read id, ReadAnswer: the offer comes back with its id, the answer comes back byte for byte, and the channel returns to its initial state |
| Signal.CapacityTwoScenario | signal.go:63-90 | capacity 2: two offers are accepted and read back in order, and a third read reports `OfferNotReady` |
| Signal.ParkedOfferIsDeliveredLater | signal.go:63-90 | capacity 1: a second `Offer` parks its sender, and two reads return the first offer and then the parked one |
| Signal.Step | signal.go:72-124 | any single call keeps the buffer within capacity, with senders parked only on a full buffer, and never changes the capacity |
| Signal.Run | signal.go:72-124 | a run logs one event per call and never changes the capacity |
| Signal.StepIsFifo | signal.go:72-90 | from a valid state, one call delivers only the head of the pending offers (buffer, then parked senders) and adds a submitted offer only at their tail |
| Signal.RunPreservesValid | signal.go:63-75 | over any run, the buffer never exceeds the size given at creation, and senders are parked only while it is full |
| Signal.RunIsFifo | signal.go:72-90 | over any run from a valid state, the offers delivered followed by those still buffered and those of still-parked senders equal the offers pending at the start followed by every offer submitted, parked or not; so offers leave in submission order, none lost, duplicated or invented |
| Signal.ZeroCapacityParksEveryOffer | signal.go:63-90 | with buffer size 0 and an empty buffer, the buffer stays empty and no offer is delivered over any run |
| Signal.ZeroCapacityNeverDelivers | signal.go:70-90 | with buffer size 0, `ReadOffer` never delivers, because it checks the length before receiving, and every submitted offer is still parked at the end of any run |
| Listener.Code | listener.go:16-23 | each state is encoded as a `uint32` code no greater than STOPPED's |
| Listener.StateOf | listener.go:16-23 | exactly the codes 0..3 stand for a state |
| Listener.StatusEncoding | listener.go:18-23 | the encoding is a bijection between the four states and the codes 0..3, in both directions |
| Listener.CasFollowsTable | listener.go:62-93 | the CAS chains of Start (three attempts), Stop (two) and Suspend (one) swap exactly on the allowed (from, request) pairs and store the target's code; every other value, including a code of no state, is left untouched |
| Listener.NewListener | listener.go:28-46 | a new listener is NEW with an empty registry and no accept loop |
| Listener.Start | listener.go:62-68 | from NEW, SUSPENDED or STOPPED, Start moves to RUNNING and succeeds; from RUNNING it fails with "already started" and nothing changes; the registry is untouched; at most one accept loop stays alive |
| Listener.StartAsWritten | listener.go:62-68 | as Start, but each successful call with automatic signaling adds one accept loop |
| Listener.Stop | listener.go:70-85 | from RUNNING or SUSPENDED, Stop moves to STOPPED, closes every registered session (their ids are returned) and leaves the registry empty; from NEW or STOPPED it fails with "already stopped" and nothing changes |
| Listener.Suspend | listener.go:87-93 | succeeds only from RUNNING, moving to SUSPENDED with registry and loop untouched; in any other state it fails with "not in running state" and nothing changes |
| Listener.TransitionsFollowTable | listener.go:62-93 | each request succeeds exactly on an allowed pair of the transition table and lands on the table's target; a failed request leaves the listener unchanged |
| Listener.LifecycleScenario | listener.go:62-93 | Start on NEW succeeds; a second Start fails; Suspend on NEW fails; Stop then Start succeeds |
| Listener.RestartAfterSuspendDuplicatesLoop | listener.go:96-124 | as written, Start, Suspend, Start leaves two accept loops alive |
| Listener.LifecycleGatesAcceptLoop | listener.go:62-124 | after any `Start`, successful or not, the loop fetches offers, and exactly one loop is alive under automatic signaling and none under manual signaling; a successful Suspend pauses the loop and keeps it alive; a successful Stop makes it exit and leaves none alive |
| Listener.Register | listener.go:134-138 | inserting under a fresh id adds exactly one entry, holding the session, and keeps all other entries |
| Listener.Evict | listener.go:144-147 | only the given id is removed and the remaining entries are unchanged; an absent id changes nothing |
| Listener.EvictUndoesRegister | listener.go:135-147 | registering and then evicting the same id restores the listener |
| Listener.EvictIdempotent | listener.go:142-158 | evicting twice is the same as evicting once |
| Listener.EvictAfterStopIsNoop | listener.go:74-82 | after a successful Stop, an eviction changes nothing |
| Listener.FreeIdExists | listener.go:243-248 | a registry with fewer than 2^64 entries leaves an unused id for the retry loop to find |
| Listener.NextPCID | listener.go:237-250 | the returned id is not a key of the registry, and the registry is not modified |
| Listener.AddSession | listener.go:134-138 | allocation followed by insertion: the new entry sits under an id not previously present, and all other entries are kept |
| Listener.OnConnectionStateChange | listener.go:140-149 | a Failed, Closed or Disconnected session state removes only that id; any other state changes nothing |
| Listener.OnIceConnectionStateChange | listener.go:151-159 | the same for the ICE Failed, Closed and Disconnected states |
| Listener.BothObserversEvictOnce | listener.go:140-159 | when both observers fire with terminal states, in either order, the result is a single eviction |
| Listener.ObserverAfterStopIsNoop | listener.go:140-149 | an observer firing after a successful Stop changes nothing |
| Listener.NegotiateAsWritten | listener.go:126-235 | the failure reported is the engine's; an engine-creation failure registers nothing; any later outcome, success or failure, leaves the session registered |
| Listener.FailedNegotiationOrphansSession | listener.go:186-190 | as written, an offer whose bytes do not decode is reported as failed yet its session remains in the registry |
| Listener.Negotiate | listener.go:126-235 | success exactly when no step fails, and then exactly one entry is added under the fresh id; a failure leaves the listener as it was (no orphan entry) |
| Listener.AcceptStep | listener.go:102-119 | one accept-loop turn, negotiating through the corrected `Negotiate`: it changes the registry only when RUNNING, with a live loop and a fetched offer; a manual listener, a failed fetch or a failed negotiation changes nothing |
| Listener.AcceptStepAsWritten | listener.go:102-119 | the same turn negotiating through `NegotiateAsWritten`: when RUNNING with a live loop and a fetched offer, any outcome other than an engine-creation failure leaves the session registered, failures included |
| Listener.AcceptStepDropsOnlyTheOrphan | listener.go:102-235 | the corrected and as-written accept turns agree on success, and after a failure differ only in the failed session's registry entry |

## Findings

| source | as written | input that shows it | evidently intended | confidence | as-written member | corrected member |
|---|---|---|---|---|---|---|
| listener.go:62-68 | every successful `Start` calls `startAcceptLoop`, which spawns a new accept-loop task without checking for a live one; a loop exits only after it reads STOPPED | `Start`, `Suspend`, `Start` on a listener with automatic signaling: the first loop only paused, so two loops now fetch offers. Each further Suspend/Start pair adds one more (lemma `RestartAfterSuspendDuplicatesLoop`) | one accept loop per listener, spawned only if none is running | medium, not executed | Listener.StartAsWritten | Listener.Start |
| listener.go:134-231 | the session is inserted into the registry before the fallible steps (decoding the offer, setting the remote description, creating the answer, the deadline, publishing); none of the failure returns removes it | an offer whose bytes do not decode: `nextPeerConnection` returns the error, and the session stays registered without ever connecting, so no observer evicts it (lemma `FailedNegotiationOrphansSession`) | cleanup on every negotiation failure path, so that no orphaned entry stays in the registry | medium, not executed | Listener.NegotiateAsWritten, Listener.AcceptStepAsWritten | Listener.Negotiate, Listener.AcceptStep |

The corrected `Start` keeps `Inv` (exactly one loop while RUNNING or
SUSPENDED with automatic signaling, none otherwise). `Negotiate` evicts the
session on every failure path. The rest of the model uses these two.

Other places where the behaviour is worth knowing:
- `Accept` waits on `abortAccept` and returns "listener stopped" from it
  (listener.go:57-58), so a stopped listener is evidently meant to unblock
  its waiting callers. Nothing in listener.go ever sends on `abortAccept`,
  so the code does not do this.
- `ErrAnswerNotReady` is declared but used only in a comment. The blocking
  `ReadAnswer` never returns it, and no path returns `ErrInvalidOfferID` from
  `ReadAnswer` either.
- With a buffer size of 0 the offer channel is unbuffered. `ReadOffer` tests
  `len` before receiving, so it never receives, and every `Offer` blocks for
  ever. In the model every `Offer` parks its sender and nothing leaves
  `parked`; `ZeroCapacityParksEveryOffer` and `ZeroCapacityNeverDelivers`
  state this.

## Left out

- dialer.go: it is engine calls and context races. Its one decision, retrying
  channel creation once, depends only on what the engine returns.
- `Accept` and the `conns`/`abortAccept` handoff (listener.go:52-60): these
  are channel synchronisation between goroutines.
- Concurrency: goroutines, the 1 s and 50 ms sleeps, and mutex discipline are
  left out. Each operation is one atomic step, and atomic CAS becomes a
  sequential compare-and-swap.
- The race in `nextPCID`: the lock is released before the insert
  (listener.go:136-138). Uniqueness of session ids is proved only under the
  assumption that allocation and insertion happen as one step (`AddSession`).
- A negotiation task still in flight when `Stop` runs can register a session
  after the registry was cleared. This is an interleaving, and the model has
  none.
- Listener.Stop: the model assumes every accept loop observes STOPPED before
  the next `Start`, so `loops` drops to 0 at once. In the source, a `Start`
  within the loop's 1 s sleep can leave the old loop running.
- Listener.Stop: closing the sessions is represented only by the set of ids
  whose sessions were closed. Engine teardown is outside the model.
- Listener.NextPCID: states only the postcondition of the retry loop. For a
  random source, termination of the loop is not modelled. The requires (fewer
  than 2^64 entries) excludes the full registry, on which the loop would spin
  for ever.
- Listener.AcceptStep: the `SignalMethod` type is not part of this model (its
  `GetOffer` is not in the signal interface shown). A fetch is reduced to
  whether an offer arrived. The offer bytes matter only to the engine, whose
  outcome is the `fault` parameter.
- Listener.NegotiateAsWritten: the engine (session creation, descriptions,
  candidate gathering, data channels) is an oracle `fault`. The
  `MaxAcceptTimeout` deadline is the `DeadlineExceeded` outcome. The answer is
  not shown being published through the signal method.
- JSON encoding of session descriptions: payloads are opaque `Bytes`.
- Payload aliasing: `Offer` and `Answer` store the caller's slice without
  copying it (signal.go:75-78, 103), so a caller that later reuses its
  buffer changes the stored bytes. The model treats payloads as immutable
  values, and the round-trip guarantee holds only for callers that do not
  mutate a slice after handing it over.
- Signal.Step: one `ReadAnswerCall` is one pass of the `ReadAnswer` wait
  loop. A reader still waiting is a further `ReadAnswerCall` for the same
  id, since the Go loop re-polls every 50 ms; the 50 ms sleep itself is not
  modelled.
- Listener.OnConnectionStateChange: the observers also call
  `peerConnection.Close()` (listener.go:145, 155); the engine teardown is not
  represented, and only the registry eviction is modelled. The same holds
  for `Listener.OnIceConnectionStateChange`.
- `Conn` and `readLoop`: the stream adapter is not part of this model.
- The `Signal` interface (signal.go:22-48) is modelled only through its
  `DebugSignal` implementation.
