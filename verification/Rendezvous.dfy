/**
 * Rendezvous: an edge node binds itself to a few relays and keeps the bindings alive; a relay holds
 * the tunnels of the edge nodes bound to it.
 */
module Rendezvous {
  import opened Text

  // ---------------------------------------------------------------- the edge side

  datatype Role = EdgeRole | TransitRole | RelayRole | CapRelayRole

  datatype Limits = Limits(maxRelays: nat, allowEdgeRouting: bool)

  /** `bound` and `relays` are kept side by side; `queue` holds the targets a maintenance run has yet to
      look at, `inflight` the one it is binding to; `handlers` the channels with a close handler and the
      relay address that handler captured. */
  datatype Edge = Edge(
    role: Role, bound: set<string>, relays: map<string, nat>,
    queue: Option<seq<string>>, inflight: Option<string>, handlers: map<nat, string>)

  function Start(role: Role): Edge {
    Edge(role, {}, map[], None, None, map[])
  }

  predicate IsRelay(role: Role) {
    role == RelayRole || role == CapRelayRole
  }

  function CheckedRole(role: Role, relays: nat, limits: Limits): Role {
    if IsRelay(role) then role
    else if limits.allowEdgeRouting && relays >= 2 then TransitRole
    else if role == TransitRole then EdgeRole
    else role
  }

  function CheckRole(e: Edge, limits: Limits): Edge {
    e.(role := CheckedRole(e.role, |e.relays|, limits))
  }

  function Unbind(e: Edge, address: string, limits: Limits): Edge {
    CheckRole(e.(bound := e.bound - {address}, relays := e.relays - {address}), limits)
  }

  /** The maintenance loop up to its next wait. */
  function Advance(e: Edge, limits: Limits): Edge
    requires e.queue.Some?
    decreases |e.queue.value|
  {
    var targets := e.queue.value;
    if targets == [] || |e.bound| >= limits.maxRelays then e.(queue := None, inflight := None)
    else if targets[0] in e.bound then Advance(e.(queue := Some(targets[1..])), limits)
    else e.(queue := Some(targets[1..]), inflight := Some(targets[0]))
  }

  datatype Event =
    | Maintain(targets: seq<string>)
    | BindDone(over: Option<nat>)
    | Closed(channel: nat)
    | Heartbeat(alive: set<string>)
    | AutoNat(relay: bool)

  predicate Enabled(e: Edge, ev: Event) {
    match ev
    case BindDone(_) => e.inflight.Some? && e.queue.Some?
    case Closed(channel) => channel in e.handlers
    case _ => true
  }

  function Bind(e: Edge, address: string, channel: nat, limits: Limits): Edge {
    var bound := CheckRole(e.(bound := e.bound + {address}, relays := e.relays[address := channel]), limits);
    if channel in e.handlers then bound else bound.(handlers := e.handlers[channel := address])
  }

  function Drop(e: Edge, gone: set<string>, limits: Limits): Edge {
    if gone == {} then e
    else CheckRole(e.(bound := e.bound - gone, relays := e.relays - gone), limits)
  }

  function Beat(e: Edge, alive: set<string>, limits: Limits): Edge {
    if IsRelay(e.role) then e else Drop(e, e.bound - alive, limits)
  }

  function Step(e: Edge, limits: Limits, ev: Event): Edge
    requires Enabled(e, ev)
  {
    match ev
    case Maintain(targets) =>
      if IsRelay(e.role) || e.queue.Some? then e else Advance(e.(queue := Some(targets)), limits)
    case BindDone(channel) =>
      Advance(if channel.Some? then Bind(e, e.inflight.value, channel.value, limits) else e, limits)
    case Closed(channel) =>
      Unbind(e, e.handlers[channel], limits).(handlers := e.handlers - {channel})
    case Heartbeat(alive) => Beat(e, alive, limits)
    case AutoNat(relay) => e.(role := if relay then RelayRole else EdgeRole)
  }

  /** Both collections hold the same relays, never more than allowed, a binding under way included;
      a transit node has at least two. */
  predicate Sound(e: Edge, limits: Limits) {
    && e.bound == e.relays.Keys
    && |e.bound| <= limits.maxRelays
    && (e.inflight.Some? ==> |e.bound| < limits.maxRelays && e.queue.Some?)
    && (e.role == TransitRole ==> limits.allowEdgeRouting && |e.relays| >= 2)
  }

  lemma CheckSound(e: Edge, limits: Limits)
    requires Sound(e.(role := EdgeRole), limits)
    ensures Sound(CheckRole(e, limits), limits)
  {
  }

  lemma {:induction false} AdvanceSound(e: Edge, limits: Limits)
    requires Sound(e.(inflight := None), limits) && e.queue.Some?
    ensures Sound(Advance(e, limits), limits)
    decreases |e.queue.value|
  {
    var targets := e.queue.value;
    if targets != [] && |e.bound| < limits.maxRelays && targets[0] in e.bound {
      AdvanceSound(e.(queue := Some(targets[1..])), limits);
    }
  }

  /** The loop goes on to the first target not bound yet, or ends: at the limit, or with none left. */
  lemma {:induction false} AdvanceExact(e: Edge, limits: Limits)
    requires e.queue.Some?
    ensures var targets, next := e.queue.value, Advance(e, limits);
            && next == e.(queue := next.queue, inflight := next.inflight)
            && (next.inflight.None? ==>
                  && next.queue.None?
                  && (|e.bound| >= limits.maxRelays || forall t <- targets :: t in e.bound))
            && (next.inflight.Some? ==>
                  && |e.bound| < limits.maxRelays
                  && exists i :: 0 <= i < |targets| && FirstOpen(targets, e.bound, i)
                                 && next.inflight == Some(targets[i]) && next.queue == Some(targets[i + 1..]))
    decreases |e.queue.value|
  {
    var targets := e.queue.value;
    if targets != [] && |e.bound| < limits.maxRelays {
      if targets[0] in e.bound {
        var rest := targets[1..];
        AdvanceExact(e.(queue := Some(rest)), limits);
        var next := Advance(e, limits);
        if next.inflight.Some? {
          var i :| 0 <= i < |rest| && FirstOpen(rest, e.bound, i)
                   && next.inflight == Some(rest[i]) && next.queue == Some(rest[i + 1..]);
          var k := i + 1;
          assert forall j :: 1 <= j < k ==> targets[j] == rest[j - 1];
          assert FirstOpen(targets, e.bound, k) && targets[k + 1..] == rest[i + 1..];
        } else {
          assert targets == [targets[0]] + rest;
        }
      } else {
        assert FirstOpen(targets, e.bound, 0);
      }
    }
  }

  predicate FirstOpen(targets: seq<string>, bound: set<string>, i: nat)
    requires i < |targets|
  {
    targets[i] !in bound && forall j :: 0 <= j < i ==> targets[j] in bound
  }

  /** Whenever a binding came or went, a node that is no relay is a transit node exactly with two or
      more. */
  predicate RoleFollows(e: Edge, limits: Limits) {
    !IsRelay(e.role) ==> (e.role == TransitRole <==> limits.allowEdgeRouting && |e.relays| >= 2)
  }

  /** Bindings never make or unmake a relay. */
  predicate RelayStays(e: Edge, next: Edge) {
    if IsRelay(e.role) then next.role == e.role else !IsRelay(next.role)
  }

  lemma CheckRoleEffect(e: Edge, limits: Limits)
    ensures var next := CheckRole(e, limits);
            next == e.(role := next.role) && RoleFollows(next, limits) && RelayStays(e, next)
  {
  }

  /** An answered binding is kept over the channel it came by. */
  lemma BindEffect(e: Edge, limits: Limits, channel: nat)
    requires Enabled(e, BindDone(Some(channel)))
    ensures var next := Step(e, limits, BindDone(Some(channel)));
            && next.relays == e.relays[e.inflight.value := channel] && next.bound == e.bound + {e.inflight.value}
            && next.handlers == (if channel in e.handlers then e.handlers else e.handlers[channel := e.inflight.value])
            && RoleFollows(next, limits) && RelayStays(e, next)
  {
    hide Advance, CheckRole;
    var a := e.inflight.value;
    CheckRoleEffect(e.(bound := e.bound + {a}, relays := e.relays[a := channel]), limits);
    BindQueue(e, channel, limits);
    AdvanceExact(Bind(e, e.inflight.value, channel, limits), limits);
  }

  /** A close removes the address its handler captured. */
  lemma CloseEffect(e: Edge, limits: Limits, channel: nat)
    requires Enabled(e, Closed(channel))
    ensures var next := Step(e, limits, Closed(channel));
            && next.relays == e.relays - {e.handlers[channel]} && next.handlers == e.handlers - {channel}
            && RoleFollows(next, limits) && RelayStays(e, next)
  {
    hide CheckRole;
    var a := e.handlers[channel];
    CheckRoleEffect(e.(bound := e.bound - {a}, relays := e.relays - {a}), limits);
  }

  /** A heartbeat keeps exactly the relays that still answer. */
  lemma HeartbeatEffect(e: Edge, limits: Limits, alive: set<string>)
    requires Sound(e, limits) && !IsRelay(e.role)
    ensures var next := Step(e, limits, Heartbeat(alive));
            && next.relays.Keys == e.relays.Keys * alive
            && (forall a <- next.relays :: next.relays[a] == e.relays[a])
            && (if next.relays == e.relays then next == e else RoleFollows(next, limits) && RelayStays(e, next))
  {
    hide CheckRole;
    var gone := e.bound - alive;
    CheckRoleEffect(e.(bound := e.bound - gone, relays := e.relays - gone), limits);
    assert e.relays.Keys - gone == e.relays.Keys * alive;
  }

  /** A relay sends no heartbeat and binds to nobody; a run of the maintenance loop keeps all others out until
      it ends, and an unanswered binding changes no binding and no role. */
  lemma OthersChangeNothing(e: Edge, limits: Limits, alive: set<string>, targets: seq<string>)
    ensures IsRelay(e.role) ==> Step(e, limits, Heartbeat(alive)) == e
    ensures Step(e, limits, Maintain(targets)) ==
            if IsRelay(e.role) || e.queue.Some? then e else Advance(e.(queue := Some(targets)), limits)
    ensures e.inflight.Some? && e.queue.Some? ==> Step(e, limits, BindDone(None)) == Advance(e, limits)
    ensures forall relay :: var next := Step(e, limits, AutoNat(relay));
              next == e.(role := next.role) && (IsRelay(next.role) <==> relay) && next.role != TransitRole
  {
  }

  lemma SubsetCount(a: set<string>, b: set<string>)
    requires a <= b
    ensures |a| <= |b|
  {
    assert b == a + (b - a);
  }

  lemma UnbindSound(e: Edge, address: string, limits: Limits)
    requires Sound(e, limits)
    ensures Sound(Unbind(e, address, limits), limits)
  {
    var next := e.(bound := e.bound - {address}, relays := e.relays - {address});
    SubsetCount(next.bound, e.bound);
    CheckSound(next, limits);
  }

  lemma BindSound(e: Edge, channel: nat, limits: Limits)
    requires Sound(e, limits) && e.inflight.Some?
    ensures Sound(Bind(e, e.inflight.value, channel, limits).(inflight := None), limits)
  {
    var a := e.inflight.value;
    var next := e.(bound := e.bound + {a}, relays := e.relays[a := channel], inflight := None);
    assert a in e.bound ==> next.bound == e.bound;
    assert a !in e.bound ==> |next.bound| == |e.bound| + 1;
    assert next.relays.Keys == e.relays.Keys + {a};
    hide CheckedRole;
    CheckSound(next, limits);
  }

  lemma BeatSound(e: Edge, alive: set<string>, limits: Limits)
    requires Sound(e, limits)
    ensures Sound(Beat(e, alive, limits), limits)
  {
    var gone := e.bound - alive;
    var next := e.(bound := e.bound - gone, relays := e.relays - gone);
    SubsetCount(next.bound, e.bound);
    hide CheckedRole;
    CheckSound(next, limits);
  }

  lemma StepSound(e: Edge, limits: Limits, ev: Event)
    requires Sound(e, limits) && Enabled(e, ev)
    ensures Sound(Step(e, limits, ev), limits)
  {
    hide Bind, Beat, Unbind, Advance;
    match ev {
      case Maintain(targets) =>
        if !IsRelay(e.role) && e.queue.None? {
          AdvanceSound(e.(queue := Some(targets)), limits);
        }
      case BindDone(channel) =>
        if channel.Some? {
          BindSound(e, channel.value, limits);
          BindQueue(e, channel.value, limits);
          AdvanceSound(Bind(e, e.inflight.value, channel.value, limits), limits);
        } else {
          AdvanceSound(e, limits);
        }
      case Closed(channel) =>
        UnbindSound(e, e.handlers[channel], limits);
      case Heartbeat(alive) =>
        BeatSound(e, alive, limits);
      case AutoNat(_) =>
    }
  }

  lemma BindQueue(e: Edge, channel: nat, limits: Limits)
    requires e.inflight.Some?
    ensures Bind(e, e.inflight.value, channel, limits).queue == e.queue
  {
  }

  ghost predicate Runs(e: Edge, limits: Limits, events: seq<Event>)
    decreases |events|
  {
    events != [] ==> Enabled(e, events[0]) && Runs(Step(e, limits, events[0]), limits, events[1..])
  }

  function After(e: Edge, limits: Limits, events: seq<Event>): Edge
    requires Runs(e, limits, events)
    decreases |events|
  {
    if events == [] then e else After(Step(e, limits, events[0]), limits, events[1..])
  }

  lemma {:induction false} RunSound(e: Edge, limits: Limits, events: seq<Event>)
    requires Sound(e, limits) && Runs(e, limits, events)
    ensures Sound(After(e, limits, events), limits)
    decreases |events|
  {
    hide Sound;
    if events != [] {
      StepSound(e, limits, events[0]);
      RunSound(Step(e, limits, events[0]), limits, events[1..]);
    }
  }

  lemma StartSound(role: Role, limits: Limits)
    ensures Sound(Start(role), limits) <==> role != TransitRole
  {
  }

  /** In every interleaving of maintenance, bindings, closes, heartbeats and role changes, from the
      start in any role but the one the node gives itself. */
  lemma AlwaysSound(role: Role, limits: Limits, events: seq<Event>)
    requires role != TransitRole && Runs(Start(role), limits, events)
    ensures Sound(After(Start(role), limits, events), limits)
  {
    StartSound(role, limits);
    RunSound(Start(role), limits, events);
  }

  /** On this side a close handler does not look at which channel is bound now: it leaves the bindings
      of other channels alone exactly when the address it captured is not bound through one. */
  lemma LateCloseExactly(e: Edge, limits: Limits, channel: nat)
    requires Enabled(e, Closed(channel))
    ensures (forall a <- e.relays :: e.relays[a] != channel ==>
               a in Step(e, limits, Closed(channel)).relays && Step(e, limits, Closed(channel)).relays[a] == e.relays[a])
       <==> (e.handlers[channel] in e.relays ==> e.relays[e.handlers[channel]] == channel)
  {
    var a := e.handlers[channel];
    var next := Step(e, limits, Closed(channel));
    assert next.relays == e.relays - {a};
    if a in e.relays && e.relays[a] != channel {
      assert a !in next.relays;
    }
  }

  lemma RunCons(e: Edge, limits: Limits, ev: Event, rest: seq<Event>)
    requires Enabled(e, ev) && Runs(Step(e, limits, ev), limits, rest)
    ensures Runs(e, limits, [ev] + rest)
    ensures After(e, limits, [ev] + rest) == After(Step(e, limits, ev), limits, rest)
  {
    assert ([ev] + rest)[1..] == rest;
  }

  function Idle(handlers: map<nat, string>): Edge {
    Edge(EdgeRole, {}, map[], None, None, handlers)
  }

  function BoundTo(relay: string, channel: nat, handlers: map<nat, string>): Edge {
    Edge(EdgeRole, {relay}, map[relay := channel], None, None, handlers)
  }

  lemma BindsOver(relay: string, channel: nat, handlers: map<nat, string>, limits: Limits, rest: seq<Event>)
    requires limits.maxRelays > 0 && channel !in handlers
    requires Runs(BoundTo(relay, channel, handlers[channel := relay]), limits, rest)
    ensures Runs(Idle(handlers), limits, [Maintain([relay])] + ([BindDone(Some(channel))] + rest))
    ensures After(Idle(handlers), limits, [Maintain([relay])] + ([BindDone(Some(channel))] + rest))
         == After(BoundTo(relay, channel, handlers[channel := relay]), limits, rest)
  {
    var waiting := Edge(EdgeRole, {}, map[], Some([]), Some(relay), handlers);
    assert [relay][1..] == [];
    assert Step(Idle(handlers), limits, Maintain([relay])) == waiting;
    assert |map[relay := channel]| == 1;
    assert Step(waiting, limits, BindDone(Some(channel))) == BoundTo(relay, channel, handlers[channel := relay]);
    hide Step, Runs, After;
    RunCons(waiting, limits, BindDone(Some(channel)), rest);
    RunCons(Idle(handlers), limits, Maintain([relay]), [BindDone(Some(channel))] + rest);
  }

  lemma FallsSilent(relay: string, channel: nat, handlers: map<nat, string>, limits: Limits)
    ensures Step(BoundTo(relay, channel, handlers), limits, Heartbeat({})) == Idle(handlers)
  {
    assert {relay} - {} == {relay} && map[relay := channel] - {relay} == map[] && relay in {relay};
  }

  /** A relay the heartbeat finds silent is dropped, and bound again over a new channel. */
  function Rebinding(relay: string): seq<Event> {
    [Maintain([relay])] + ([BindDone(Some(1))] + ([Heartbeat({})] + ([Maintain([relay])] + ([BindDone(Some(2))] + []))))
  }

  /** It happens: the close of the silent channel then takes the new binding away. */
  lemma LateCloseUnbinds(relay: string, limits: Limits)
    requires limits.maxRelays > 0
    ensures Runs(Idle(map[]), limits, Rebinding(relay))
    ensures var e := After(Idle(map[]), limits, Rebinding(relay));
            && relay in e.relays && e.relays[relay] == 2 && Enabled(e, Closed(1))
            && relay !in Step(e, limits, Closed(1)).relays
  {
    hide Step;
    var again := [Maintain([relay])] + ([BindDone(Some(2))] + []);
    BindsOver(relay, 2, map[1 := relay], limits, []);
    FallsSilent(relay, 1, map[1 := relay], limits);
    RunCons(BoundTo(relay, 1, map[1 := relay]), limits, Heartbeat({}), again);
    assert map[][1 := relay] == map[1 := relay];
    BindsOver(relay, 1, map[], limits, [Heartbeat({})] + again);
    LateCloseTakes(BoundTo(relay, 2, map[1 := relay][2 := relay]), limits, 1);
  }

  lemma LateCloseTakes(e: Edge, limits: Limits, channel: nat)
    requires Enabled(e, Closed(channel))
    ensures e.handlers[channel] !in Step(e, limits, Closed(channel)).relays
  {
  }

  // ---------------------------------------------------------------- the edge's loops

  class RendezvousManager {
    const limits: Limits
    var state: Edge

    constructor (limits: Limits, role: Role)
      requires role != TransitRole
      ensures this.limits == limits && state == Start(role) && Sound(state, limits)
    {
      this.limits, state := limits, Start(role);
    }

    /** maintainRendezvousTunnels up to its first wait; `targets` are the valid candidates in order. */
    method MaintainRendezvousTunnels(targets: seq<string>)
      requires Sound(state, limits)
      modifies this
      ensures state == Step(old(state), limits, Maintain(targets)) && Sound(state, limits)
    {
      StepSound(state, limits, Maintain(targets));
      hide Sound;
      if IsRelay(state.role) || state.queue.Some? {
        return;
      }
      state := state.(queue := Some(targets));
      Continue();
    }

    /** The loop from one wait to the next. */
    method Continue()
      requires state.queue.Some?
      modifies this
      ensures state == Advance(old(state), limits)
    {
      while state.queue.value != []
        invariant state.queue.Some? && Advance(state, limits) == Advance(old(state), limits)
        decreases |state.queue.value|
      {
        var relay := state.queue.value[0];
        var rest := Some(state.queue.value[1..]);
        if |state.bound| >= limits.maxRelays {
          break;
        }
        if relay !in state.bound {
          state := state.(queue := rest, inflight := Some(relay));
          return;
        }
        state := state.(queue := rest);
      }
      state := state.(queue := None, inflight := None);
    }

    /** What follows the wait: the relay answered `bound` over a channel, or did not. */
    method BindFinished(over: Option<nat>)
      requires Sound(state, limits) && Enabled(state, BindDone(over))
      modifies this
      ensures state == Step(old(state), limits, BindDone(over)) && Sound(state, limits)
    {
      StepSound(state, limits, BindDone(over));
      hide Sound, Advance;
      if over.Some? {
        var relay, channel := state.inflight.value, over.value;
        state := state.(bound := state.bound + {relay}, relays := state.relays[relay := channel]);
        state := CheckRole(state, limits);
        if channel !in state.handlers {
          state := state.(handlers := state.handlers[channel := relay]);
        }
      }
      Continue();
    }

    /** The loop over the bound relays; `alive` are those whose channel still answers. */
    method SendRendezvousHeartbeat(alive: set<string>)
      requires Sound(state, limits)
      modifies this
      ensures state == Step(old(state), limits, Heartbeat(alive)) && Sound(state, limits)
    {
      if IsRelay(state.role) {
        return;
      }
      var todo := state.bound;
      GoneNone(state.bound, alive);
      while todo != {}
        invariant Sound(state, limits) && todo <= old(state).bound
        invariant state == Drop(old(state), Gone(old(state).bound, alive, todo), limits)
        decreases todo
      {
        hide Sound, Drop, Unbind, Gone;
        var relay :| relay in todo;
        GoneGrows(old(state).bound, alive, todo, relay);
        if relay !in alive {
          UnbindSound(state, relay, limits);
          DropOne(old(state), Gone(old(state).bound, alive, todo), relay, limits);
          state := Unbind(state, relay, limits);
        }
        todo := todo - {relay};
      }
      GoneAll(old(state).bound, alive);
    }
  }

  /** Of the relays looked at, those found silent. */
  function Gone(bound: set<string>, alive: set<string>, todo: set<string>): set<string> {
    bound - alive - todo
  }

  lemma GoneNone(bound: set<string>, alive: set<string>)
    ensures Gone(bound, alive, bound) == {}
  {
  }

  lemma GoneAll(bound: set<string>, alive: set<string>)
    ensures Gone(bound, alive, {}) == bound - alive
  {
  }

  lemma GoneGrows(bound: set<string>, alive: set<string>, todo: set<string>, relay: string)
    requires relay in todo && todo <= bound
    ensures Gone(bound, alive, todo - {relay}) == Gone(bound, alive, todo) + if relay in alive then {} else {relay}
    ensures Gone(bound, alive, todo) + {} == Gone(bound, alive, todo)
  {
  }

  lemma MinusTwice(bound: set<string>, relays: map<string, nat>, gone: set<string>, relay: string)
    ensures bound - gone - {relay} == bound - (gone + {relay})
    ensures relays - gone - {relay} == relays - (gone + {relay})
    ensures gone + {relay} != {} && (gone == {} ==> gone + {relay} == {relay})
  {
    assert relay in gone + {relay};
  }

  lemma DropOne(e: Edge, gone: set<string>, relay: string, limits: Limits)
    requires !IsRelay(e.role)
    ensures Unbind(Drop(e, gone, limits), relay, limits) == Drop(e, gone + {relay}, limits)
  {
    MinusTwice(e.bound, e.relays, gone, relay);
  }

  // ---------------------------------------------------------------- the relay side

  datatype Tunnel = Tunnel(socket: nat, ip: string)

  /** `handlers` are the close handlers still to fire, `closed` the sockets that have closed. */
  datatype Relay = Relay(tunnels: map<string, Tunnel>, handlers: set<(nat, string)>, closed: set<nat>)

  datatype Capacity = Capacity(maxTunnels: nat, maxPerIp: nat)

  function FromIp(tunnels: map<string, Tunnel>, ip: string): set<string> {
    set node <- tunnels | tunnels[node].ip == ip
  }

  predicate Local(ip: string) {
    ip in {"", "127.0.0.1", "::1", "localhost"}
  }

  /** Whether the capacity checks admit the node, all earlier checks having passed. */
  predicate Admits(r: Relay, c: Capacity, node: string, ip: string) {
    node in r.tunnels || (|r.tunnels| < c.maxTunnels && (Local(ip) || |FromIp(r.tunnels, ip)| < c.maxPerIp))
  }

  function BindTunnel(r: Relay, c: Capacity, node: string, socket: nat, ip: string): Relay {
    if !Admits(r, c, node, ip) then r
    else r.(tunnels := r.tunnels[node := Tunnel(socket, ip)], handlers := r.handlers + {(socket, node)})
  }

  /** All handlers of the socket fire; each removes its node only if the tunnel is still this socket's. */
  function CloseSocket(r: Relay, socket: nat): Relay {
    Relay(map node | node in r.tunnels && !((socket, node) in r.handlers && r.tunnels[node].socket == socket) :: r.tunnels[node],
          (set h <- r.handlers | h.0 != socket),
          r.closed + {socket})
  }

  ghost predicate TunnelsSound(r: Relay, c: Capacity) {
    && |r.tunnels| <= c.maxTunnels
    && (forall node <- r.tunnels :: (r.tunnels[node].socket, node) in r.handlers && r.tunnels[node].socket !in r.closed)
  }

  /** Never more tunnels than allowed, and each on a socket that is open and will remove it. */
  lemma BindTunnelSound(r: Relay, c: Capacity, node: string, socket: nat, ip: string)
    requires TunnelsSound(r, c) && socket !in r.closed
    ensures TunnelsSound(BindTunnel(r, c, node, socket, ip), c)
  {
    assert node in r.tunnels ==> r.tunnels[node := Tunnel(socket, ip)].Keys == r.tunnels.Keys;
    assert node !in r.tunnels ==> r.tunnels[node := Tunnel(socket, ip)].Keys == r.tunnels.Keys + {node};
    var next := r.tunnels[node := Tunnel(socket, ip)];
    assert |next| == |next.Keys| && |r.tunnels| == |r.tunnels.Keys|;
  }

  /** A socket's close removes its own tunnels and no other: not one that superseded it. */
  lemma CloseSocketExact(r: Relay, c: Capacity, socket: nat)
    requires TunnelsSound(r, c)
    ensures var next := CloseSocket(r, socket);
            && TunnelsSound(next, c)
            && (forall node <- r.tunnels :: node in next.tunnels <==> r.tunnels[node].socket != socket)
            && (forall node <- next.tunnels :: node in r.tunnels && next.tunnels[node] == r.tunnels[node])
  {
    var next := CloseSocket(r, socket);
    SubsetCount(next.tunnels.Keys, r.tunnels.Keys);
    assert |next.tunnels| == |next.tunnels.Keys| && |r.tunnels| == |r.tunnels.Keys|;
  }

  /** The limit for one remote address is kept by a binding exactly unless the node was bound from
      elsewhere and comes to an address already at its limit: a node that moves is not counted. */
  lemma PerIpExactly(r: Relay, c: Capacity, node: string, socket: nat, ip: string)
    requires !Local(ip) && |FromIp(r.tunnels, ip)| <= c.maxPerIp
    ensures |FromIp(BindTunnel(r, c, node, socket, ip).tunnels, ip)| <= c.maxPerIp
       <==> !(node in r.tunnels && r.tunnels[node].ip != ip && |FromIp(r.tunnels, ip)| == c.maxPerIp)
  {
    if Admits(r, c, node, ip) {
      var next := r.tunnels[node := Tunnel(socket, ip)];
      assert FromIp(next, ip) == FromIp(r.tunnels, ip) + {node};
      if node in FromIp(r.tunnels, ip) {
        assert FromIp(next, ip) == FromIp(r.tunnels, ip);
      }
    }
  }

  class RendezvousRelay {
    const capacity: Capacity
    var state: Relay

    constructor (capacity: Capacity)
      ensures this.capacity == capacity && state == Relay(map[], {}, {}) && TunnelsSound(state, capacity)
    {
      this.capacity, state := capacity, Relay(map[], {}, {});
    }

    /** `accepted`: the checks of fields, identity, signature, time and nonce. */
    method HandleRendezvousBind(node: string, socket: nat, ip: string, accepted: bool) returns (bound: bool)
      requires TunnelsSound(state, capacity) && socket !in state.closed
      modifies this
      ensures TunnelsSound(state, capacity)
      ensures bound <==> accepted && Admits(old(state), capacity, node, ip)
      ensures state == if accepted then BindTunnel(old(state), capacity, node, socket, ip) else old(state)
      ensures bound ==> accepted
      ensures accepted ==>
                (bound <==>
                  || node in old(state).tunnels
                  || (|old(state).tunnels| < capacity.maxTunnels
                      && (ip in {"", "127.0.0.1", "::1", "localhost"}
                          || |set n <- old(state).tunnels | old(state).tunnels[n].ip == ip| < capacity.maxPerIp)))
      ensures !bound ==> state == old(state)
      ensures bound ==> state.tunnels == old(state).tunnels[node := Tunnel(socket, ip)] && (socket, node) in state.handlers
    {
      if !accepted {
        return false;
      }
      BindTunnelSound(state, capacity, node, socket, ip);
      if |state.tunnels| >= capacity.maxTunnels && node !in state.tunnels {
        return false;
      }
      if !Local(ip) {
        var active := CountFrom(ip);
        if active >= capacity.maxPerIp && node !in state.tunnels {
          return false;
        }
      }
      state := state.(tunnels := state.tunnels[node := Tunnel(socket, ip)], handlers := state.handlers + {(socket, node)});
      bound := true;
    }

    /** The count of active tunnels from one address. */
    method CountFrom(ip: string) returns (count: nat)
      ensures count == |FromIp(state.tunnels, ip)|
    {
      count := 0;
      var todo := state.tunnels.Keys;
      ghost var counted: set<string> := {};
      while todo != {}
        invariant todo <= state.tunnels.Keys
        invariant counted == (set node <- state.tunnels | state.tunnels[node].ip == ip && node !in todo)
        invariant count == |counted|
        decreases todo
      {
        var node :| node in todo;
        todo := todo - {node};
        if state.tunnels[node].ip == ip {
          count := count + 1;
          counted := counted + {node};
        }
      }
      assert counted == FromIp(state.tunnels, ip);
    }

    method SocketClosed(socket: nat)
      requires TunnelsSound(state, capacity)
      modifies this
      ensures state == CloseSocket(old(state), socket) && TunnelsSound(state, capacity)
    {
      CloseSocketExact(state, capacity, socket);
      state := CloseSocket(state, socket);
    }
  }
}
