/** The passive side of the transport: the listener's lifecycle state
    machine (kept as a `uint32` changed by compare-and-swap), its registry of
    in-flight sessions, and the gating of its accept loop. Sessions are an
    opaque type parameter `S`; every operation is one atomic sequential step. */
module Listener {
  import opened Types

  // ---------------------------------------------------------------------
  // Running status and its uint32 encoding

  datatype State = New | Running | Suspended | Stopped

  /** The `uint32` codes of the four states, in declaration order. */
  const StatusNew: uint32 := 0
  const StatusRunning: uint32 := 1
  const StatusSuspended: uint32 := 2
  const StatusStopped: uint32 := 3

  function Code(st: State): (c: uint32)
    ensures c <= StatusStopped
  {
    match st
    case New => StatusNew
    case Running => StatusRunning
    case Suspended => StatusSuspended
    case Stopped => StatusStopped
  }

  /** The state a code stands for; codes above `StatusStopped` stand for none. */
  function StateOf(c: uint32): (r: Option<State>)
    ensures r.Some? <==> c <= StatusStopped
  {
    if c == StatusNew then Some(New)
    else if c == StatusRunning then Some(Running)
    else if c == StatusSuspended then Some(Suspended)
    else if c == StatusStopped then Some(Stopped)
    else None
  }

  /** The encoding is a bijection between the four states and the codes 0..3. */
  lemma StatusEncoding(st: State, c: uint32)
    ensures StateOf(Code(st)) == Some(st)
    ensures StateOf(c) == Some(st) <==> c == Code(st)
  {
  }

  // ---------------------------------------------------------------------
  // Compare-and-swap transitions

  /** Result of a compare-and-swap: the value now stored and whether it swapped. */
  datatype Cas = Cas(value: uint32, swapped: bool)

  /** `atomic.CompareAndSwapUint32` as one sequential step. */
  function CompareAndSwap(cur: uint32, expected: uint32, desired: uint32): (r: Cas)
    ensures r.swapped <==> cur == expected
    ensures r.value == (if r.swapped then desired else cur)
  {
    if cur == expected then Cas(desired, true) else Cas(cur, false)
  }

  /** `Start`'s guard: three CAS attempts joined by a short-circuit `||`. */
  function StartCas(cur: uint32): Cas {
    var a := CompareAndSwap(cur, StatusNew, StatusRunning);
    if a.swapped then a else
    var b := CompareAndSwap(a.value, StatusSuspended, StatusRunning);
    if b.swapped then b else
    CompareAndSwap(b.value, StatusStopped, StatusRunning)
  }

  /** `Stop`'s guard: two CAS attempts joined by `||`. */
  function StopCas(cur: uint32): Cas {
    var a := CompareAndSwap(cur, StatusRunning, StatusStopped);
    if a.swapped then a else
    CompareAndSwap(a.value, StatusSuspended, StatusStopped)
  }

  /** `Suspend`'s guard: a single CAS. */
  function SuspendCas(cur: uint32): Cas {
    CompareAndSwap(cur, StatusRunning, StatusSuspended)
  }

  /** The three lifecycle requests. */
  datatype Request = StartRequest | StopRequest | SuspendRequest

  /** The documented transition table: the target of each allowed
      (from, request) pair, and `None` for every other pair. */
  function Target(from: State, req: Request): Option<State> {
    match (from, req)
    case (New, StartRequest) => Some(Running)
    case (Suspended, StartRequest) => Some(Running)
    case (Stopped, StartRequest) => Some(Running)
    case (Running, SuspendRequest) => Some(Suspended)
    case (Running, StopRequest) => Some(Stopped)
    case (Suspended, StopRequest) => Some(Stopped)
    case _ => None
  }

  function CasFor(req: Request, cur: uint32): Cas {
    match req
    case StartRequest => StartCas(cur)
    case StopRequest => StopCas(cur)
    case SuspendRequest => SuspendCas(cur)
  }

  /** The CAS chains implement the transition table on raw codes: they swap
      exactly on the allowed pairs, store the target's code, and leave every
      other value (including codes of no state) untouched. */
  lemma CasFollowsTable(req: Request, cur: uint32)
    ensures CasFor(req, cur).swapped <==> StateOf(cur).Some? && Target(StateOf(cur).value, req).Some?
    ensures CasFor(req, cur).swapped ==> CasFor(req, cur).value == Code(Target(StateOf(cur).value, req).value)
    ensures !CasFor(req, cur).swapped ==> CasFor(req, cur).value == cur
  {
  }

  // ---------------------------------------------------------------------
  // The listener record

  datatype ListenerError =
    | AlreadyStarted   // "listener already started"
    | AlreadyStopped   // "listener already stopped"
    | NotRunning       // "listener not in running state"

  /** `registry` is the map of sessions by id; `manual` says the signal method
      is manual (no accept loop is ever started); `loops` counts the accept
      loop tasks alive. */
  datatype Listener<S> = Listener(state: State, registry: map<uint64, S>, manual: bool, loops: nat)

  /** Exactly one accept loop is alive while the listener is running or
      suspended with automatic signaling, and none otherwise. */
  predicate Inv<S>(l: Listener<S>) {
    l.loops == (if !l.manual && (l.state == Running || l.state == Suspended) then 1 else 0)
  }

  function NewListener<S>(manual: bool): (l: Listener<S>)
    ensures l.state == New && l.registry == map[] && l.manual == manual
    ensures Inv(l)
  {
    Listener(New, map[], manual, 0)
  }

  /** The state a code swapped in by a CAS chain stands for. */
  function Decode(c: uint32): State
    requires c <= StatusStopped
  {
    StateOf(c).value
  }

  /** `Start`, with the accept loop spawned only when none is alive. */
  function Start<S>(l: Listener<S>): (r: (Listener<S>, Outcome<ListenerError>))
    ensures l.state != Running ==> r.1 == Pass && r.0.state == Running
    ensures l.state == Running ==> r == (l, Fail(AlreadyStarted))
    ensures r.0.registry == l.registry && r.0.manual == l.manual
    ensures Inv(l) ==> Inv(r.0)
  {
    var c := StartCas(Code(l.state));
    if c.swapped then
      (l.(state := Decode(c.value), loops := if l.manual || l.loops > 0 then l.loops else 1), Pass)
    else (l, Fail(AlreadyStarted))
  }

  /** `Start` as written: every successful call with automatic signaling
      starts one more accept loop, whether or not one is already alive. */
  function StartAsWritten<S>(l: Listener<S>): (r: (Listener<S>, Outcome<ListenerError>))
    ensures l.state != Running ==> r.1 == Pass && r.0.state == Running
    ensures l.state != Running && !l.manual ==> r.0.loops == l.loops + 1
    ensures l.state == Running ==> r == (l, Fail(AlreadyStarted))
    ensures r.0.registry == l.registry && r.0.manual == l.manual
  {
    var c := StartCas(Code(l.state));
    if c.swapped then
      (l.(state := Decode(c.value), loops := l.loops + if l.manual then 0 else 1), Pass)
    else (l, Fail(AlreadyStarted))
  }

  /** `Stop`: on success every registered session is closed (the third
      component lists their ids) and the registry is emptied; the accept
      loops observe STOPPED and exit. */
  function Stop<S>(l: Listener<S>): (r: (Listener<S>, Outcome<ListenerError>, set<uint64>))
    ensures (l.state == Running || l.state == Suspended) ==>
      && r.1 == Pass && r.0.state == Stopped
      && r.0.registry == map[] && r.2 == l.registry.Keys
      && r.0.loops == 0
    ensures (l.state == New || l.state == Stopped) ==> r == (l, Fail(AlreadyStopped), {})
    ensures r.0.manual == l.manual
    ensures Inv(l) ==> Inv(r.0)
  {
    var c := StopCas(Code(l.state));
    if c.swapped then
      (l.(state := Decode(c.value), registry := map[], loops := 0), Pass, l.registry.Keys)
    else (l, Fail(AlreadyStopped), {})
  }

  /** `Suspend`: sessions are kept and the accept loop stays alive. */
  function Suspend<S>(l: Listener<S>): (r: (Listener<S>, Outcome<ListenerError>))
    ensures l.state == Running ==> r.1 == Pass && r.0 == l.(state := Suspended)
    ensures l.state != Running ==> r == (l, Fail(NotRunning))
    ensures Inv(l) ==> Inv(r.0)
  {
    var c := SuspendCas(Code(l.state));
    if c.swapped then (l.(state := Decode(c.value)), Pass)
    else (l, Fail(NotRunning))
  }

  /** Dispatches a lifecycle request. */
  function Apply<S>(l: Listener<S>, req: Request): (Listener<S>, Outcome<ListenerError>) {
    match req
    case StartRequest => Start(l)
    case StopRequest => var (l', res, _) := Stop(l); (l', res)
    case SuspendRequest => Suspend(l)
  }

  /** Every request follows the transition table: it succeeds exactly on an
      allowed pair and moves to the table's target; otherwise it fails and
      leaves the listener unchanged. */
  lemma TransitionsFollowTable<S>(l: Listener<S>, req: Request)
    ensures Apply(l, req).1 == Pass <==> Target(l.state, req).Some?
    ensures Apply(l, req).1 == Pass ==> Apply(l, req).0.state == Target(l.state, req).value
    ensures Apply(l, req).1 != Pass ==> Apply(l, req).0 == l
  {
  }

  /** Start on a new listener succeeds; starting again fails; suspending a
      new listener fails; a stopped listener can be started again. */
  lemma LifecycleScenario(manual: bool)
    ensures var l0 := NewListener<int>(manual);
            var (l1, r1) := Start(l0);
            var (l2, r2) := Start(l1);
            var (_, r3) := Suspend(l0);
            var (l4, r4, _) := Stop(l2);
            var (l5, r5) := Start(l4);
            && r1 == Pass && r2 == Fail(AlreadyStarted) && r3 == Fail(NotRunning)
            && r4 == Pass && r5 == Pass && l5.state == Running
  {
  }

  /** The discrepancy in `Start` as written: start, suspend and start again
      leaves two accept loops alive, because the first loop never saw
      STOPPED and so never exited. */
  lemma RestartAfterSuspendDuplicatesLoop()
    ensures var l0 := NewListener<int>(false);
            var (l1, _) := StartAsWritten(l0);
            var (l2, _) := Suspend(l1);
            var (l3, r3) := StartAsWritten(l2);
            r3 == Pass && l3.loops == 2 && !Inv(l3)
  {
  }

  // ---------------------------------------------------------------------
  // Accept loop gating

  /** What an accept loop does next, given the status it reads. */
  datatype LoopAction = Exit | FetchOffer | Pause

  /** Outer loop: continue unless STOPPED. Inner loop: fetch offers only
      while RUNNING. Otherwise sleep and re-check. */
  function NextLoopAction(st: State): LoopAction {
    if st == Stopped then Exit
    else if st == Running then FetchOffer
    else Pause
  }

  /** The lifecycle drives the accept loop. Whatever `Start` returns, the
      listener ends up fetching offers, with exactly one loop doing so under
      automatic signaling and none under manual signaling; a successful
      Suspend pauses the loop without ending it; a successful Stop makes it
      exit and leaves no loop alive. */
  lemma LifecycleGatesAcceptLoop<S>(l: Listener<S>)
    requires Inv(l)
    ensures NextLoopAction(Start(l).0.state) == FetchOffer
    ensures Start(l).0.loops == (if l.manual then 0 else 1)
    ensures Suspend(l).1 == Pass ==>
      && NextLoopAction(Suspend(l).0.state) == Pause
      && Suspend(l).0.loops == (if l.manual then 0 else 1)
    ensures Stop(l).1 == Pass ==> NextLoopAction(Stop(l).0.state) == Exit && Stop(l).0.loops == 0
  {
  }

  // ---------------------------------------------------------------------
  // Session registry

  /** Inserting a session under a fresh id. */
  function Register<S>(l: Listener<S>, id: uint64, session: S): (r: Listener<S>)
    requires id !in l.registry
    ensures r.registry.Keys == l.registry.Keys + {id}
    ensures |r.registry| == |l.registry| + 1
    ensures r.registry[id] == session
    ensures forall k :: k in l.registry ==> r.registry[k] == l.registry[k]
    ensures r.state == l.state && r.manual == l.manual && r.loops == l.loops
  {
    l.(registry := l.registry[id := session])
  }

  /** Removing a session's entry; removing an absent id changes nothing. */
  function Evict<S>(l: Listener<S>, id: uint64): (r: Listener<S>)
    ensures r.registry.Keys == l.registry.Keys - {id}
    ensures forall k :: k in r.registry ==> r.registry[k] == l.registry[k]
    ensures id !in l.registry ==> r == l
    ensures r.state == l.state && r.manual == l.manual && r.loops == l.loops
  {
    var r := l.(registry := l.registry - {id});
    assert id !in l.registry ==> r.registry == l.registry;
    r
  }

  /** Registering and then evicting the same id restores the listener. */
  lemma EvictUndoesRegister<S>(l: Listener<S>, id: uint64, session: S)
    requires id !in l.registry
    ensures Evict(Register(l, id, session), id) == l
  {
    assert Evict(Register(l, id, session), id).registry == l.registry;
  }

  /** Eviction is idempotent. */
  lemma EvictIdempotent<S>(l: Listener<S>, id: uint64)
    ensures Evict(Evict(l, id), id) == Evict(l, id)
  {
  }

  /** A successful Stop leaves nothing to evict. */
  lemma EvictAfterStopIsNoop<S>(l: Listener<S>, id: uint64)
    requires Stop(l).1 == Pass
    ensures Evict(Stop(l).0, id) == Stop(l).0
  {
  }

  /** A registry of fewer than 2^64 entries leaves some id unused, so the
      retry-on-collision loop of `nextPCID` has something to find. */
  lemma FreeIdExists(keys: set<uint64>)
    requires |keys| < UINT64_COUNT
    ensures exists id: uint64 :: id !in keys
  {
    if forall id: uint64 :: id in keys {
      IdsBelowCount(UINT64_COUNT);
      assert IdsBelow(UINT64_COUNT) <= keys;
      SubsetCardinality(IdsBelow(UINT64_COUNT), keys);
    }
  }

  /** The ids below `n`. */
  ghost function IdsBelow(n: int): set<uint64>
    requires 0 <= n <= UINT64_COUNT
    decreases n
  {
    if n == 0 then {} else IdsBelow(n - 1) + {(n - 1) as uint64}
  }

  /** `IdsBelow(n)` holds exactly the ids below `n`, hence has `n` elements. */
  lemma {:induction false} IdsBelowCount(n: int)
    requires 0 <= n <= UINT64_COUNT
    ensures forall x: uint64 :: x in IdsBelow(n) <==> x as int < n
    ensures |IdsBelow(n)| == n
    decreases n
  {
    if n > 0 {
      IdsBelowCount(n - 1);
      assert (n - 1) as uint64 !in IdsBelow(n - 1);
    }
  }

  lemma SubsetCardinality<T>(a: set<T>, b: set<T>)
    requires a <= b
    ensures |a| <= |b|
  {
    assert b == a + (b - a);
  }

  /** `nextPCID`: a random id that is not a key of the registry. The random
      draw and its retry-on-collision loop are a nondeterministic choice of an
      unused id; the registry is not modified. */
  method NextPCID<S>(registry: map<uint64, S>) returns (id: uint64)
    requires |registry| < UINT64_COUNT
    ensures id !in registry
  {
    assert |registry.Keys| == |registry|;
    FreeIdExists(registry.Keys);
    id :| id !in registry.Keys;
  }

  /** Allocation followed by insertion, as one atomic step. */
  method AddSession<S>(l: Listener<S>, session: S) returns (r: Listener<S>, id: uint64)
    requires |l.registry| < UINT64_COUNT
    ensures id !in l.registry
    ensures r == Register(l, id, session)
  {
    id := NextPCID(l.registry);
    r := Register(l, id, session);
  }

  // ---------------------------------------------------------------------
  // Connectivity observers

  /** The engine's session connectivity states. */
  datatype PeerConnectionState =
    PeerUnknown | PeerNew | PeerConnecting | PeerConnected | PeerDisconnected | PeerFailed | PeerClosed

  /** The engine's ICE connectivity states. */
  datatype IceConnectionState =
    IceUnknown | IceNew | IceChecking | IceConnected | IceCompleted | IceDisconnected | IceFailed | IceClosed

  predicate PeerTerminal(s: PeerConnectionState) {
    s == PeerFailed || s == PeerClosed || s == PeerDisconnected
  }

  predicate IceTerminal(s: IceConnectionState) {
    s == IceFailed || s == IceClosed || s == IceDisconnected
  }

  /** The session observer: a terminal state evicts the session's entry. */
  function OnConnectionStateChange<S>(l: Listener<S>, id: uint64, s: PeerConnectionState): (r: Listener<S>)
    ensures PeerTerminal(s) ==> id !in r.registry && r.registry.Keys == l.registry.Keys - {id}
    ensures !PeerTerminal(s) ==> r == l
    ensures forall k :: k in r.registry ==> r.registry[k] == l.registry[k]
    ensures r.state == l.state && r.loops == l.loops
  {
    if PeerTerminal(s) then Evict(l, id) else l
  }

  /** The ICE observer: the same eviction for the ICE terminal states. */
  function OnIceConnectionStateChange<S>(l: Listener<S>, id: uint64, s: IceConnectionState): (r: Listener<S>)
    ensures IceTerminal(s) ==> id !in r.registry && r.registry.Keys == l.registry.Keys - {id}
    ensures !IceTerminal(s) ==> r == l
    ensures forall k :: k in r.registry ==> r.registry[k] == l.registry[k]
    ensures r.state == l.state && r.loops == l.loops
  {
    if IceTerminal(s) then Evict(l, id) else l
  }

  /** Both observers firing, in either order, evict once: the second is a
      no-op. */
  lemma BothObserversEvictOnce<S>(l: Listener<S>, id: uint64, p: PeerConnectionState, i: IceConnectionState)
    requires PeerTerminal(p) && IceTerminal(i)
    ensures OnIceConnectionStateChange(OnConnectionStateChange(l, id, p), id, i) == Evict(l, id)
    ensures OnConnectionStateChange(OnIceConnectionStateChange(l, id, i), id, p) == Evict(l, id)
  {
  }

  /** An observer firing after a successful Stop changes nothing. */
  lemma ObserverAfterStopIsNoop<S>(l: Listener<S>, id: uint64, p: PeerConnectionState)
    requires Stop(l).1 == Pass
    ensures OnConnectionStateChange(Stop(l).0, id, p) == Stop(l).0
  {
  }

  // ---------------------------------------------------------------------
  // Per-offer negotiation

  /** The fallible steps of `nextPeerConnection`, in order. */
  datatype NegotiationFault =
    | EngineFault             // creating the engine session failed
    | OfferDecodeFault        // the offer bytes did not decode
    | RemoteDescriptionFault  // the engine refused the offer
    | DeadlineExceeded        // the bounded context expired first
    | LocalAnswerFault        // creating or setting the local answer failed
    | AnswerEncodeFault       // the answer did not encode
    | PublishFault            // the signal method refused the answer

  /** `nextPeerConnection` as written, with the engine's behaviour given by
      `fault` and the freshly allocated id by `id`: the session is registered
      before the fallible steps and is not evicted when one of them fails. */
  function NegotiateAsWritten<S>(l: Listener<S>, id: uint64, session: S, fault: Option<NegotiationFault>)
    : (r: (Listener<S>, Outcome<NegotiationFault>))
    requires id !in l.registry
    ensures r.1 == (if fault.Some? then Fail(fault.value) else Pass)
    ensures fault == Some(EngineFault) ==> r.0 == l
    ensures fault != Some(EngineFault) ==> r.0 == Register(l, id, session)
  {
    if fault == Some(EngineFault) then (l, Fail(EngineFault))
    else
      var registered := Register(l, id, session);
      (registered, if fault.Some? then Fail(fault.value) else Pass)
  }

  /** The discrepancy: an offer that fails after registration (an offer whose
      bytes do not decode, for one) is reported as failed, yet its session
      stays in the registry, where no connectivity observer will remove it
      since the session never connects. */
  lemma FailedNegotiationOrphansSession<S>(l: Listener<S>, id: uint64, session: S)
    requires id !in l.registry
    ensures var (l', res) := NegotiateAsWritten(l, id, session, Some(OfferDecodeFault));
            res == Fail(OfferDecodeFault) && id in l'.registry && l'.registry != l.registry
  {
  }

  /** `nextPeerConnection` with clean-up on every failure path: a failed
      negotiation evicts the session it registered. */
  function Negotiate<S>(l: Listener<S>, id: uint64, session: S, fault: Option<NegotiationFault>)
    : (r: (Listener<S>, Outcome<NegotiationFault>))
    requires id !in l.registry
    ensures r.1 == Pass <==> fault.None?
    ensures r.1.Fail? ==> r.1.error == fault.value && r.0 == l
    ensures r.1 == Pass ==> r.0 == Register(l, id, session)
    ensures Inv(l) ==> Inv(r.0)
  {
    var (l', res) := NegotiateAsWritten(l, id, session, fault);
    if res.Fail? then
      EvictUndoesRegister(l, id, session);
      (Evict(l', id), res)
    else (l', res)
  }

  /** One turn of the accept loop: while RUNNING, an alive loop that fetched
      an offer negotiates it; in every other situation (paused, stopped, no
      loop, fetch failed) nothing changes. */
  function AcceptStep<S>(l: Listener<S>, offerFetched: bool, id: uint64, session: S, fault: Option<NegotiationFault>)
    : (r: Listener<S>)
    requires id !in l.registry
    ensures l.state != Running ==> r == l
    ensures !offerFetched ==> r == l
    ensures Inv(l) && l.manual ==> r == l
    ensures Inv(l) && !l.manual && l.state == Running && offerFetched && fault.None? ==>
      r == Register(l, id, session)
    ensures fault.Some? ==> r == l
    ensures Inv(l) ==> Inv(r)
  {
    if l.loops > 0 && NextLoopAction(l.state) == FetchOffer && offerFetched then
      Negotiate(l, id, session, fault).0
    else l
  }

  /** The accept loop as written, negotiating through `NegotiateAsWritten`:
      while RUNNING, a fetched offer whose negotiation fails after the engine
      session exists leaves its id in the registry. */
  function AcceptStepAsWritten<S>(l: Listener<S>, offerFetched: bool, id: uint64, session: S, fault: Option<NegotiationFault>)
    : (r: Listener<S>)
    requires id !in l.registry
    ensures l.state != Running ==> r == l
    ensures !offerFetched ==> r == l
    ensures Inv(l) && l.manual ==> r == l
    ensures Inv(l) && !l.manual && l.state == Running && offerFetched && fault != Some(EngineFault) ==>
      r == Register(l, id, session)
  {
    if l.loops > 0 && NextLoopAction(l.state) == FetchOffer && offerFetched then
      NegotiateAsWritten(l, id, session, fault).0
    else l
  }

  /** The corrected accept step differs from the one as written only in the
      orphaned entry: after a failure the registries agree once the failed
      session's id is removed, and on success they are equal. */
  lemma AcceptStepDropsOnlyTheOrphan<S>(l: Listener<S>, offerFetched: bool, id: uint64, session: S, fault: Option<NegotiationFault>)
    requires id !in l.registry
    ensures fault.None? ==>
      AcceptStep(l, offerFetched, id, session, fault) == AcceptStepAsWritten(l, offerFetched, id, session, fault)
    ensures fault.Some? ==>
      AcceptStep(l, offerFetched, id, session, fault)
        == AcceptStepAsWritten(l, offerFetched, id, session, fault).(registry := AcceptStepAsWritten(l, offerFetched, id, session, fault).registry - {id})
  {
  }
}
