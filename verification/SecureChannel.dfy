/**
 * The encrypted channel between two nodes: one exchange of handshake frames, and a queue for what
 * is written before it is done. Frames arrive in order, one at a time.
 */
module SecureChannel {
  import opened SymbolicCrypto
  import opened Text

  datatype Frame =
    | Init(kemKey: KeyPair, nonce: string)
    | Reply(encapsulated: Encapsulated, nonce: string)
    | Sealed(key: Key, payload: string)

  /** The fields of one end; payloads are their JSON text. */
  datatype End = End(
    isInitiator: bool, kem: KeyPair, myNonce: Option<string>, isReady: bool, sessionKey: Option<Key>,
    pendingQueue: seq<string>, emitted: seq<string>, destroyed: bool)

  /** What the environment decides about a frame: whether nonce, address and signature checks accept
      it, the randomness of an encapsulation, and what a `ready` listener writes at once. */
  datatype Verdict = Verdict(accepted: bool, seed: nat, readyWrites: seq<string>)

  function Sealing(key: Key, payloads: seq<string>): (frames: seq<Frame>)
    ensures |frames| == |payloads|
  {
    if payloads == [] then [] else [Sealed(key, payloads[0])] + Sealing(key, payloads[1..])
  }

  function Write(e: End, payload: string): (End, seq<Frame>) {
    if !e.isReady || e.sessionKey.None? then (e.(pendingQueue := e.pendingQueue + [payload]), [])
    else (e, [Sealed(e.sessionKey.value, payload)])
  }

  /** Becoming ready: first what the listener writes, then the queue. */
  function Ready(e: End, key: Key, readyWrites: seq<string>): (End, seq<Frame>) {
    (e.(isReady := true, sessionKey := Some(key), pendingQueue := []),
     Sealing(key, readyWrites) + Sealing(key, e.pendingQueue))
  }

  function Handle(e: End, frame: Frame, v: Verdict): (End, seq<Frame>) {
    match frame
    case Init(kemKey, nonce) =>
      if e.isInitiator || !v.accepted then (e.(destroyed := true), [])
      else
        var (secret, encapsulated) := Encapsulate(kemKey, v.seed);
        var (ready, frames) := Ready(e, Derived(secret, nonce), v.readyWrites);
        (ready, [Reply(encapsulated, nonce)] + frames)
    case Reply(encapsulated, nonce) =>
      if !e.isInitiator || e.myNonce != Some(nonce) || !v.accepted then (e.(destroyed := true), [])
      else
        (match Decapsulate(e.kem, encapsulated)
         case None => (e, [])
         case Some(secret) => Ready(e, Derived(secret, nonce), v.readyWrites))
    case Sealed(key, payload) =>
      if !e.isReady || e.sessionKey != Some(key) then (e, [])
      else (e.(emitted := e.emitted + [payload]), [])
  }

  /** A handshake frame of the wrong direction, of another exchange, or turned down by a check. */
  predicate Refuses(isInitiator: bool, myNonce: Option<string>, frame: Frame, v: Verdict) {
    match frame
    case Init(_, _) => isInitiator || !v.accepted
    case Reply(_, nonce) => !isInitiator || myNonce != Some(nonce) || !v.accepted
    case Sealed(_, _) => false
  }

  class SecureChannel {
    const isInitiator: bool
    const kem: KeyPair
    var myNonce: Option<string>
    var isReady: bool
    var sessionKey: Option<Key>
    var pendingQueue: seq<string>
    var emitted: seq<string>
    var destroyed: bool
    /** Everything written to the socket. */
    var socket: seq<Frame>

    function State(): End
      reads this
    {
      End(isInitiator, kem, myNonce, isReady, sessionKey, pendingQueue, emitted, destroyed)
    }

    constructor (isInitiator: bool, kem: KeyPair, nonce: string)
      ensures State() == Fresh(isInitiator, kem, nonce)
      ensures socket == if isInitiator then [Init(kem, nonce)] else []
    {
      this.isInitiator, this.kem := isInitiator, kem;
      isReady, sessionKey, pendingQueue, emitted, destroyed := false, None, [], [], false;
      if isInitiator {
        myNonce, socket := Some(nonce), [Init(kem, nonce)];
      } else {
        myNonce, socket := None, [];
      }
    }

    method WritePayload(payload: string)
      modifies this`pendingQueue, this`socket
      ensures State() == Write(old(State()), payload).0
      ensures socket == old(socket) + Write(old(State()), payload).1
    {
      if !isReady || sessionKey.None? {
        pendingQueue := pendingQueue + [payload];
        return;
      }
      socket := socket + [Sealed(sessionKey.value, payload)];
    }

    /** Both callers set the session key first; without it the loop would put back what it takes. */
    method MarkReady(readyWrites: seq<string>)
      requires sessionKey.Some?
      modifies this`isReady, this`pendingQueue, this`socket
      ensures State() == Ready(old(State()), sessionKey.value, readyWrites).0
      ensures socket == old(socket) + Ready(old(State()), sessionKey.value, readyWrites).1
    {
      isReady := true;
      WriteAll(readyWrites);
      ghost var key, pending, before := sessionKey.value, pendingQueue, socket;
      while pendingQueue != []
        invariant isReady && sessionKey == Some(key)
        invariant socket + Sealing(key, pendingQueue) == before + Sealing(key, pending)
        decreases |pendingQueue|
      {
        var payload := pendingQueue[0];
        pendingQueue := pendingQueue[1..];
        ghost var rest := Sealing(key, pendingQueue);
        assert socket + ([Sealed(key, payload)] + rest) == (socket + [Sealed(key, payload)]) + rest;
        WritePayload(payload);
      }
      assert socket + [] == socket;
      assert (old(socket) + Sealing(key, readyWrites)) + Sealing(key, pending)
          == old(socket) + (Sealing(key, readyWrites) + Sealing(key, pending));
    }

    /** The listener's writes. */
    method WriteAll(payloads: seq<string>)
      requires isReady && sessionKey.Some?
      modifies this`pendingQueue, this`socket
      ensures pendingQueue == old(pendingQueue)
      ensures socket == old(socket) + Sealing(sessionKey.value, payloads)
    {
      var i := 0;
      assert payloads[0..] == payloads;
      while i < |payloads|
        invariant i <= |payloads| && pendingQueue == old(pendingQueue)
        invariant socket + Sealing(sessionKey.value, payloads[i..]) == old(socket) + Sealing(sessionKey.value, payloads)
      {
        assert payloads[i..][1..] == payloads[i + 1..];
        WritePayload(payloads[i]);
        i := i + 1;
      }
    }

    method HandleFrame(frame: Frame, v: Verdict)
      modifies this
      ensures State() == Handle(old(State()), frame, v).0
      ensures socket == old(socket) + Handle(old(State()), frame, v).1
      ensures destroyed <==> old(destroyed) || Refuses(isInitiator, myNonce, frame, v)
      ensures Refuses(isInitiator, myNonce, frame, v) ==>
                socket == old(socket) && State() == old(State()).(destroyed := true)
      ensures emitted == old(emitted)
                + if frame.Sealed? && old(isReady) && old(sessionKey) == Some(frame.key) then [frame.payload] else []
      ensures frame.Sealed? ==> socket == old(socket) && State() == old(State()).(emitted := emitted)
      ensures frame.Init? && !Refuses(isInitiator, myNonce, frame, v) ==>
                && isReady && sessionKey == Some(Derived(Shared(frame.kemKey, v.seed), frame.nonce))
                && |socket| > |old(socket)| && socket[|old(socket)|] == Reply(Encapsulated(frame.kemKey, v.seed), frame.nonce)
      ensures frame.Reply? && !Refuses(isInitiator, myNonce, frame, v) && frame.encapsulated.keyPair == kem ==>
                isReady && sessionKey == Some(Derived(Shared(kem, frame.encapsulated.seed), frame.nonce))
      ensures frame.Reply? && frame.encapsulated.keyPair.kem != kem.kem ==>
                socket == old(socket) && isReady == old(isReady) && sessionKey == old(sessionKey)
    {
      match frame {
        case Init(kemKey, nonce) =>
          if isInitiator || !v.accepted {
            destroyed := true;
            return;
          }
          var (secret, encapsulated) := Encapsulate(kemKey, v.seed);
          sessionKey := Some(Derived(secret, nonce));
          socket := socket + [Reply(encapsulated, nonce)];
          MarkReady(v.readyWrites);
        case Reply(encapsulated, nonce) =>
          if !isInitiator || myNonce != Some(nonce) || !v.accepted {
            destroyed := true;
            return;
          }
          var secret := Decapsulate(kem, encapsulated);
          if secret.None? {
            return;
          }
          sessionKey := Some(Derived(secret.value, nonce));
          MarkReady(v.readyWrites);
        case Sealed(key, payload) =>
          if !isReady || sessionKey != Some(key) {
            return;
          }
          emitted := emitted + [payload];
      }
    }
  }

  function Fresh(isInitiator: bool, kem: KeyPair, nonce: string): End {
    End(isInitiator, kem, if isInitiator then Some(nonce) else None, false, None, [], [], false)
  }

  // ---------------------------------------------------------------- two ends and two wires

  /** What waited in the queue of an end when it became ready, and what its listener wrote then. */
  datatype Turn = Turn(queued: seq<string>, wrote: seq<string>)

  /** `given` is everything handed to an end for writing so far. */
  datatype Link = Link(
    a: End, b: End, toB: seq<Frame>, toA: seq<Frame>, givenA: seq<string>, givenB: seq<string>, turnA: Turn, turnB: Turn)

  datatype Event = WriteA(payload: string) | WriteB(payload: string) | DeliverA(v: Verdict) | DeliverB(v: Verdict)

  function Start(kemA: KeyPair, kemB: KeyPair, nonce: string): Link {
    Link(Fresh(true, kemA, nonce), Fresh(false, kemB, nonce), [Init(kemA, nonce)], [], [], [], NoTurn(), NoTurn())
  }

  function NoTurn(): Turn {
    Turn([], [])
  }

  /** A destroyed end gets no more frames. */
  predicate Enabled(l: Link, e: Event) {
    match e
    case WriteA(_) => true
    case WriteB(_) => true
    case DeliverA(v) => l.toA != [] && !l.a.destroyed
    case DeliverB(v) => l.toB != [] && !l.b.destroyed
  }

  predicate BecomesReady(e: End, frame: Frame, v: Verdict) {
    !frame.Sealed? && !Handle(e, frame, v).0.destroyed && Handle(e, frame, v).0.isReady
  }

  function Given(e: End, frame: Frame, v: Verdict): seq<string> {
    if BecomesReady(e, frame, v) then v.readyWrites else []
  }

  function Turned(e: End, frame: Frame, v: Verdict, turn: Turn): Turn {
    if BecomesReady(e, frame, v) then Turn(e.pendingQueue, v.readyWrites) else turn
  }

  function Step(l: Link, e: Event): Link
    requires Enabled(l, e)
  {
    match e
    case WriteA(payload) =>
      var (a, frames) := Write(l.a, payload);
      l.(a := a, toB := l.toB + frames, givenA := l.givenA + [payload])
    case WriteB(payload) =>
      var (b, frames) := Write(l.b, payload);
      l.(b := b, toA := l.toA + frames, givenB := l.givenB + [payload])
    case DeliverA(v) =>
      var (a, frames) := Handle(l.a, l.toA[0], v);
      l.(a := a, toA := l.toA[1..], toB := l.toB + frames,
         givenA := l.givenA + Given(l.a, l.toA[0], v), turnA := Turned(l.a, l.toA[0], v, l.turnA))
    case DeliverB(v) =>
      var (b, frames) := Handle(l.b, l.toB[0], v);
      l.(b := b, toB := l.toB[1..], toA := l.toA + frames,
         givenB := l.givenB + Given(l.b, l.toB[0], v), turnB := Turned(l.b, l.toB[0], v, l.turnB))
  }

  ghost predicate Runs(l: Link, events: seq<Event>)
    decreases |events|
  {
    events != [] ==> Enabled(l, events[0]) && Runs(Step(l, events[0]), events[1..])
  }

  ghost function After(l: Link, events: seq<Event>): Link
    requires Runs(l, events)
    decreases |events|
  {
    if events == [] then l else After(Step(l, events[0]), events[1..])
  }

  /** The payloads sealed in a wire. */
  function Payloads(frames: seq<Frame>): seq<string> {
    if frames == [] then []
    else (if frames[0].Sealed? then [frames[0].payload] else []) + Payloads(frames[1..])
  }

  predicate AllSealed(frames: seq<Frame>, key: Key) {
    forall f <- frames :: f.Sealed? && f.key == key
  }

  /** Emitted, in flight and pending together are what was given, each once and in order, except
      that what the listener wrote on becoming ready went ahead of what waited then. */
  predicate Flow(given: seq<string>, turn: Turn, emitted: seq<string>, wire: seq<Frame>, pending: seq<string>) {
    var n := |turn.queued| + |turn.wrote|;
    && n <= |given| && given[..n] == turn.queued + turn.wrote
    && emitted + Payloads(wire) + pending == turn.wrote + turn.queued + given[n..]
  }

  predicate Conserved(l: Link) {
    && Flow(l.givenA, l.turnA, l.b.emitted, l.toB, l.a.pendingQueue)
    && Flow(l.givenB, l.turnB, l.a.emitted, l.toA, l.b.pendingQueue)
  }

  lemma GivenGrows(given: seq<string>, turn: Turn, payload: string)
    requires |turn.queued| + |turn.wrote| <= |given|
    ensures var n := |turn.queued| + |turn.wrote|;
            (given + [payload])[..n] == given[..n] && (given + [payload])[n..] == given[n..] + [payload]
  {
  }

  lemma FlowQueues(
    given: seq<string>, turn: Turn, emitted: seq<string>, wire: seq<Frame>, pending: seq<string>, payload: string)
    requires Flow(given, turn, emitted, wire, pending)
    ensures Flow(given + [payload], turn, emitted, wire, pending + [payload])
  {
    GivenGrows(given, turn, payload);
    var ahead, sent, rest := turn.wrote + turn.queued, emitted + Payloads(wire), given[|turn.queued| + |turn.wrote|..];
    assert sent + (pending + [payload]) == (sent + pending) + [payload];
    assert ahead + (rest + [payload]) == (ahead + rest) + [payload];
  }

  lemma FlowSends(given: seq<string>, turn: Turn, emitted: seq<string>, wire: seq<Frame>, key: Key, payload: string)
    requires Flow(given, turn, emitted, wire, [])
    ensures Flow(given + [payload], turn, emitted, wire + [Sealed(key, payload)], [])
  {
    FlowQueues(given, turn, emitted, wire, [], payload);
    PayloadsConcat(wire, [Sealed(key, payload)]);
    assert emitted + (Payloads(wire) + [payload]) + [] == emitted + Payloads(wire) + ([] + [payload]);
  }

  lemma FlowArrives(given: seq<string>, turn: Turn, emitted: seq<string>, wire: seq<Frame>, pending: seq<string>)
    requires Flow(given, turn, emitted, wire, pending) && wire != [] && wire[0].Sealed?
    ensures Flow(given, turn, emitted + [wire[0].payload], wire[1..], pending)
  {
    assert (emitted + [wire[0].payload]) + Payloads(wire[1..]) == emitted + ([wire[0].payload] + Payloads(wire[1..]));
  }

  lemma FlowPasses(given: seq<string>, turn: Turn, emitted: seq<string>, wire: seq<Frame>, pending: seq<string>)
    requires Flow(given, turn, emitted, wire, pending) && wire != [] && !wire[0].Sealed?
    ensures Flow(given, turn, emitted, wire[1..], pending)
  {
    assert [] + Payloads(wire[1..]) == Payloads(wire[1..]);
  }

  /** Becoming ready moves the queue into the wire, behind whatever handshake frame was written. */
  lemma FlowDrains(given: seq<string>, e: End, key: Key, v: Verdict, handshake: seq<Frame>)
    requires Flow(given, NoTurn(), [], [], e.pendingQueue) && Payloads(handshake) == []
    ensures Flow(given + v.readyWrites, Turn(e.pendingQueue, v.readyWrites), [], handshake + Ready(e, key, v.readyWrites).1, [])
  {
    ReadyWrites(e, key, v);
    PayloadsConcat(handshake, Ready(e, key, v.readyWrites).1);
    var queue, wrote := e.pendingQueue, v.readyWrites;
    assert given == queue by {
      assert [] + [] + queue == queue && [] + given[0..] == given;
    }
    assert (queue + wrote)[..|queue| + |wrote|] == queue + wrote && (queue + wrote)[|queue| + |wrote|..] == [];
    assert [] + ([] + (wrote + queue)) + [] == wrote + queue + [];
  }

  predicate IsReady(e: End, key: Key) {
    e.isReady && e.sessionKey == Some(key) && e.pendingQueue == []
  }

  predicate NotReady(e: End) {
    !e.isReady && e.sessionKey == None && e.emitted == []
  }

  /** The stages of an exchange: requested, answered, done; or given up by one end. */
  ghost predicate Stage(l: Link) {
    && l.a.isInitiator && !l.b.isInitiator && l.a.myNonce.Some?
    && (|| Requested(l)
        || (exists seed :: Answered(l, seed))
        || (exists seed :: Done(l, seed)))
  }

  function SessionKey(l: Link, seed: nat): Key
    requires l.a.myNonce.Some?
  {
    Derived(Shared(l.a.kem, seed), l.a.myNonce.value)
  }

  predicate Requested(l: Link)
    requires l.a.myNonce.Some?
  {
    && NotReady(l.a) && NotReady(l.b) && l.turnA == NoTurn() && l.turnB == NoTurn() && !l.a.destroyed && l.toA == []
    && l.toB == (if l.b.destroyed then [] else [Init(l.a.kem, l.a.myNonce.value)])
  }

  predicate Answered(l: Link, seed: nat)
    requires l.a.myNonce.Some?
  {
    && NotReady(l.a) && l.turnA == NoTurn() && IsReady(l.b, SessionKey(l, seed)) && !l.b.destroyed && l.toB == [] && l.b.emitted == []
    && (!l.a.destroyed ==> l.toA != [] && l.toA[0] == Reply(Encapsulated(l.a.kem, seed), l.a.myNonce.value)
                           && AllSealed(l.toA[1..], SessionKey(l, seed)))
    && (l.a.destroyed ==> AllSealed(l.toA, SessionKey(l, seed)))
  }

  predicate Done(l: Link, seed: nat)
    requires l.a.myNonce.Some?
  {
    && IsReady(l.a, SessionKey(l, seed)) && IsReady(l.b, SessionKey(l, seed)) && !l.a.destroyed && !l.b.destroyed
    && AllSealed(l.toA, SessionKey(l, seed)) && AllSealed(l.toB, SessionKey(l, seed))
  }

  lemma {:induction false} PayloadsConcat(a: seq<Frame>, b: seq<Frame>)
    ensures Payloads(a + b) == Payloads(a) + Payloads(b)
  {
    if a == [] {
      assert a + b == b;
    } else {
      PayloadsConcat(a[1..], b);
      assert (a + b)[0] == a[0] && (a + b)[1..] == a[1..] + b;
      var head := if a[0].Sealed? then [a[0].payload] else [];
      var x, y := Payloads(a[1..]), Payloads(b);
      assert head + (x + y) == (head + x) + y;
    }
  }

  lemma {:induction false} SealingOpens(key: Key, payloads: seq<string>)
    ensures Payloads(Sealing(key, payloads)) == payloads && AllSealed(Sealing(key, payloads), key)
  {
    if payloads != [] {
      SealingOpens(key, payloads[1..]);
    }
  }

  predicate Settled(e: End) {
    e.isReady ==> e.sessionKey.Some? && e.pendingQueue == []
  }

  lemma StageSettled(l: Link)
    requires Stage(l)
    ensures Settled(l.a) && Settled(l.b)
  {
  }

  lemma WriteConserves(l: Link, e: Event)
    requires Settled(l.a) && Settled(l.b) && Conserved(l) && (e.WriteA? || e.WriteB?)
    ensures Conserved(Step(l, e))
  {
    hide Flow;
    if e.WriteA? {
      if l.a.isReady {
        FlowSends(l.givenA, l.turnA, l.b.emitted, l.toB, l.a.sessionKey.value, e.payload);
      } else {
        FlowQueues(l.givenA, l.turnA, l.b.emitted, l.toB, l.a.pendingQueue, e.payload);
      }
    } else {
      if l.b.isReady {
        FlowSends(l.givenB, l.turnB, l.a.emitted, l.toA, l.b.sessionKey.value, e.payload);
      } else {
        FlowQueues(l.givenB, l.turnB, l.a.emitted, l.toA, l.b.pendingQueue, e.payload);
      }
    }
    assert l.toB + [] == l.toB && l.toA + [] == l.toA;
  }

  lemma WriteStage(l: Link, e: Event)
    requires Stage(l) && (e.WriteA? || e.WriteB?)
    ensures Stage(Step(l, e))
  {
    var next := Step(l, e);
    if seed :| Done(l, seed) {
      assert Done(next, seed);
    } else if seed :| Answered(l, seed) {
      AnsweredWrites(l, e, seed);
    } else {
      assert l.toB + [] == l.toB && l.toA + [] == l.toA;
      assert Requested(next);
    }
  }

  lemma AnsweredWrites(l: Link, e: Event, seed: nat)
    requires l.a.myNonce.Some? && Answered(l, seed) && (e.WriteA? || e.WriteB?)
    ensures Step(l, e).a.myNonce == l.a.myNonce && Answered(Step(l, e), seed)
  {
    assert l.toB + [] == l.toB;
    if e.WriteB? && !l.a.destroyed {
      var frame := Sealed(SessionKey(l, seed), e.payload);
      assert (l.toA + [frame])[1..] == l.toA[1..] + [frame];
    }
  }

  /** What the listener writes goes ahead of the queue. */
  lemma ReadyWrites(e: End, key: Key, v: Verdict)
    ensures Payloads(Ready(e, key, v.readyWrites).1) == v.readyWrites + e.pendingQueue
    ensures AllSealed(Ready(e, key, v.readyWrites).1, key)
  {
    SealingOpens(key, v.readyWrites);
    SealingOpens(key, e.pendingQueue);
    PayloadsConcat(Sealing(key, v.readyWrites), Sealing(key, e.pendingQueue));
  }

  lemma AnswerKeeps(l: Link, v: Verdict)
    requires Stage(l) && Conserved(l) && Enabled(l, DeliverB(v)) && Requested(l)
    ensures Stage(Step(l, DeliverB(v))) && Conserved(Step(l, DeliverB(v)))
  {
    hide Flow;
    var next := Step(l, DeliverB(v));
    var key, reply := SessionKey(l, v.seed), Reply(Encapsulated(l.a.kem, v.seed), l.a.myNonce.value);
    FlowPasses(l.givenA, l.turnA, [], l.toB, l.a.pendingQueue);
    if v.accepted {
      FlowDrains(l.givenB, l.b, key, v, [reply]);
      ReadyWrites(l.b, key, v);
      assert next.toA == [reply] + Ready(l.b, key, v.readyWrites).1;
      assert Answered(next, v.seed);
    } else {
      assert next.toA == [] && next.givenB == l.givenB;
      assert Requested(next);
    }
  }

  lemma DoneBKeeps(l: Link, v: Verdict, seed: nat)
    requires Stage(l) && Conserved(l) && Enabled(l, DeliverB(v)) && Done(l, seed)
    ensures Stage(Step(l, DeliverB(v))) && Conserved(Step(l, DeliverB(v)))
  {
    hide Flow;
    var next := Step(l, DeliverB(v));
    assert l.toB[0] in l.toB;
    FlowArrives(l.givenA, l.turnA, l.b.emitted, l.toB, l.a.pendingQueue);
    assert next.toA == l.toA && next.givenB == l.givenB;
    assert Done(next, seed);
  }

  lemma DeliverBKeeps(l: Link, v: Verdict)
    requires Stage(l) && Conserved(l) && Enabled(l, DeliverB(v))
    ensures Stage(Step(l, DeliverB(v))) && Conserved(Step(l, DeliverB(v)))
  {
    hide Flow, Step, Conserved;
    if Requested(l) {
      AnswerKeeps(l, v);
    } else {
      var seed :| Done(l, seed);
      DoneBKeeps(l, v, seed);
    }
  }

  lemma CompleteKeeps(l: Link, v: Verdict, seed: nat)
    requires Stage(l) && Conserved(l) && Enabled(l, DeliverA(v)) && Answered(l, seed)
    ensures Stage(Step(l, DeliverA(v))) && Conserved(Step(l, DeliverA(v)))
  {
    hide Flow;
    var next := Step(l, DeliverA(v));
    var key := SessionKey(l, seed);
    FlowPasses(l.givenB, l.turnB, [], l.toA, l.b.pendingQueue);
    if v.accepted {
      FlowDrains(l.givenA, l.a, key, v, []);
      ReadyWrites(l.a, key, v);
      assert next.toB == [] + Ready(l.a, key, v.readyWrites).1;
      assert Done(next, seed);
    } else {
      assert next.toB == [] && next.givenA == l.givenA;
      assert Answered(next, seed);
    }
  }

  lemma DoneAKeeps(l: Link, v: Verdict, seed: nat)
    requires Stage(l) && Conserved(l) && Enabled(l, DeliverA(v)) && Done(l, seed)
    ensures Stage(Step(l, DeliverA(v))) && Conserved(Step(l, DeliverA(v)))
  {
    hide Flow;
    var next := Step(l, DeliverA(v));
    assert l.toA[0] in l.toA;
    FlowArrives(l.givenB, l.turnB, l.a.emitted, l.toA, l.b.pendingQueue);
    assert next.toB == l.toB && next.givenA == l.givenA;
    assert Done(next, seed);
  }

  lemma DeliverAKeeps(l: Link, v: Verdict)
    requires Stage(l) && Conserved(l) && Enabled(l, DeliverA(v))
    ensures Stage(Step(l, DeliverA(v))) && Conserved(Step(l, DeliverA(v)))
  {
    hide Flow, Step, Conserved;
    if seed :| Answered(l, seed) {
      CompleteKeeps(l, v, seed);
    } else {
      var seed :| Done(l, seed);
      DoneAKeeps(l, v, seed);
    }
  }

  lemma {:induction false} RunKeeps(l: Link, events: seq<Event>)
    requires Stage(l) && Conserved(l) && Runs(l, events)
    ensures Stage(After(l, events)) && Conserved(After(l, events))
    decreases |events|
  {
    if events != [] {
      hide Stage, Conserved, Enabled, Step;
      match events[0] {
        case DeliverA(v) => DeliverAKeeps(l, v);
        case DeliverB(v) => DeliverBKeeps(l, v);
        case _ =>
          StageSettled(l);
          WriteConserves(l, events[0]);
          WriteStage(l, events[0]);
      }
      RunKeeps(Step(l, events[0]), events[1..]);
    }
  }

  lemma StartSound(kemA: KeyPair, kemB: KeyPair, nonce: string)
    ensures Stage(Start(kemA, kemB, nonce)) && Conserved(Start(kemA, kemB, nonce))
  {
    var start := Start(kemA, kemB, nonce);
    assert Requested(start) && Payloads(start.toB) == [];
  }

  /** What the other end emits once nothing is in flight. */
  function Arriving(given: seq<string>, turn: Turn): seq<string>
    requires |turn.queued| + |turn.wrote| <= |given|
  {
    turn.wrote + turn.queued + given[|turn.queued| + |turn.wrote|..]
  }

  /** Done on both sides, with nothing in flight. */
  predicate Drained(l: Link) {
    l.a.isReady && l.toA == [] && l.toB == []
  }

  /** In every run: what one end was given is, each once, what the other end emitted, what is sealed
      in the wire and what still waits, in order but for the listener's writes; two ready ends hold
      the same key, and once the wires are empty everything given has been emitted. */
  lemma ChannelDelivers(kemA: KeyPair, kemB: KeyPair, nonce: string, events: seq<Event>)
    requires Runs(Start(kemA, kemB, nonce), events)
    ensures var l := After(Start(kemA, kemB, nonce), events);
            && Conserved(l)
            && (l.a.isReady && l.b.isReady ==> l.a.sessionKey.Some? && l.a.sessionKey == l.b.sessionKey)
            && (Drained(l) ==> l.b.emitted == Arriving(l.givenA, l.turnA) && l.a.emitted == Arriving(l.givenB, l.turnB))
            && (l.a.isReady ==> l.b.isReady)
  {
    StartSound(kemA, kemB, nonce);
    RunKeeps(Start(kemA, kemB, nonce), events);
    DrainedArrives(After(Start(kemA, kemB, nonce), events));
  }

  lemma DrainedArrives(l: Link)
    requires Stage(l) && Conserved(l)
    ensures Drained(l) ==> l.b.emitted == Arriving(l.givenA, l.turnA) && l.a.emitted == Arriving(l.givenB, l.turnB)
  {
    assert l.b.emitted + [] + [] == l.b.emitted && l.a.emitted + [] + [] == l.a.emitted;
  }

  // ---------------------------------------------------------------- order of delivery

  /** Nothing waits when the listener writes, or the listener writes nothing. */
  predicate Orderly(turn: Turn) {
    turn.queued == [] || turn.wrote == []
  }

  predicate OrderlyAt(l: Link, e: Event)
    requires Enabled(l, e)
  {
    match e
    case DeliverA(v) => BecomesReady(l.a, l.toA[0], v) ==> v.readyWrites == [] || l.a.pendingQueue == []
    case DeliverB(v) => BecomesReady(l.b, l.toB[0], v) ==> v.readyWrites == [] || l.b.pendingQueue == []
    case _ => true
  }

  ghost predicate OrderlyRun(l: Link, events: seq<Event>)
    requires Runs(l, events)
    decreases |events|
  {
    events != [] ==> OrderlyAt(l, events[0]) && OrderlyRun(Step(l, events[0]), events[1..])
  }

  /** An end takes its turn once. */
  lemma TurnStep(l: Link, e: Event)
    requires Stage(l) && Enabled(l, e)
    ensures var next := Step(l, e);
            Orderly(next.turnA) && Orderly(next.turnB) <==> Orderly(l.turnA) && Orderly(l.turnB) && OrderlyAt(l, e)
  {
    if e.DeliverA? {
      assert l.toA[0] in l.toA;
    } else if e.DeliverB? {
      assert l.toB[0] in l.toB;
    }
  }

  lemma StepKeeps(l: Link, e: Event)
    requires Stage(l) && Conserved(l) && Enabled(l, e)
    ensures Stage(Step(l, e)) && Conserved(Step(l, e))
  {
    assert Runs(Step(l, e), []) && [e][1..] == [];
    RunKeeps(l, [e]);
  }

  lemma {:induction false} RunTurns(l: Link, events: seq<Event>)
    requires Stage(l) && Conserved(l) && Runs(l, events)
    ensures var end := After(l, events);
            Orderly(end.turnA) && Orderly(end.turnB) <==> Orderly(l.turnA) && Orderly(l.turnB) && OrderlyRun(l, events)
    decreases |events|
  {
    hide Stage, Conserved, Enabled, Step, OrderlyAt, Orderly;
    if events != [] {
      TurnStep(l, events[0]);
      StepKeeps(l, events[0]);
      RunTurns(Step(l, events[0]), events[1..]);
    }
  }

  predicate Distinct(payloads: seq<string>) {
    forall i, j :: 0 <= i < j < |payloads| ==> payloads[i] != payloads[j]
  }

  lemma ArrivesInOrder(given: seq<string>, turn: Turn)
    requires |turn.queued| + |turn.wrote| <= |given|
    requires given[..|turn.queued| + |turn.wrote|] == turn.queued + turn.wrote && Distinct(given)
    ensures Arriving(given, turn) == given <==> Orderly(turn)
  {
    var n := |turn.queued| + |turn.wrote|;
    assert given == given[..n] + given[n..];
    if Orderly(turn) {
      assert turn.wrote + turn.queued == turn.queued + turn.wrote;
    } else {
      assert given[0] == given[..n][0] == turn.queued[0];
      assert given[|turn.queued|] == given[..n][|turn.queued|] == turn.wrote[0];
      assert Arriving(given, turn)[0] == turn.wrote[0];
    }
  }

  /** In every run with distinct payloads, once nothing is in flight both ends have emitted all that
      the other was given in the order given, exactly if no listener wrote while payloads waited. */
  lemma OrderExactly(kemA: KeyPair, kemB: KeyPair, nonce: string, events: seq<Event>)
    requires Runs(Start(kemA, kemB, nonce), events)
    requires var l := After(Start(kemA, kemB, nonce), events);
             Drained(l) && Distinct(l.givenA) && Distinct(l.givenB)
    ensures var l := After(Start(kemA, kemB, nonce), events);
            l.b.emitted == l.givenA && l.a.emitted == l.givenB <==> OrderlyRun(Start(kemA, kemB, nonce), events)
  {
    hide Runs, After, Stage, OrderlyRun, Distinct;
    var start := Start(kemA, kemB, nonce);
    var l := After(start, events);
    StartSound(kemA, kemB, nonce);
    ChannelDelivers(kemA, kemB, nonce, events);
    RunTurns(start, events);
    ArrivesInOrder(l.givenA, l.turnA);
    ArrivesInOrder(l.givenB, l.turnB);
  }
}
