/**
 * Building a circuit: one nested packet goes from hop to hop, each keeps its key and its
 * neighbours, and the acknowledgements come back.
 */
module OnionSetup {
  import opened Onion
  import opened SymbolicCrypto
  import opened Text
  import CircuitStore
  import OrderedMap

  datatype Relay = Relay(address: string, keyPair: Option<KeyPair>)

  datatype Kind = Create | Extend

  datatype Setup = Setup(
    kind: Kind, circuitId: string, encapsulatedKey: Encapsulated, nextHop: Option<string>, extendPayload: Option<Sealed>)

  datatype Sealed = Sealed(key: Key, iv: nat, plain: Setup)

  // ---------------------------------------------------------------- the initiator

  function HopKey(relay: Relay, seed: nat, circuitId: string): Key
    requires relay.keyPair.Some?
  {
    Derived(Encapsulate(relay.keyPair.value, seed).0, circuitId)
  }

  ghost predicate AllKeyed(relays: seq<Relay>) {
    forall relay <- relays :: relay.keyPair.Some?
  }

  function HopKeys(relays: seq<Relay>, seeds: seq<nat>, circuitId: string): (keys: seq<Key>)
    requires |relays| == |seeds| && forall relay <- relays :: relay.keyPair.Some?
    ensures |keys| == |relays|
    ensures forall i :: 0 <= i < |relays| ==> keys[i] == HopKey(relays[i], seeds[i], circuitId)
  {
    seq(|relays|, i requires 0 <= i < |relays| => HopKey(relays[i], seeds[i], circuitId))
  }

  /** The packet for the first of these relays, everything for the later ones sealed inside. */
  function Nest(relays: seq<Relay>, seeds: seq<nat>, ivs: seq<nat>, circuitId: string, kind: Kind): Setup
    requires |relays| == |seeds| == |ivs| > 0 && forall relay <- relays :: relay.keyPair.Some?
  {
    var encapsulated := Encapsulate(relays[0].keyPair.value, seeds[0]).1;
    if |relays| == 1 then Setup(kind, circuitId, encapsulated, None, None)
    else
      var inner := Nest(relays[1..], seeds[1..], ivs[1..], circuitId, Extend);
      Setup(kind, circuitId, encapsulated, Some(relays[1].address),
            Some(Sealed(HopKey(relays[0], seeds[0], circuitId), ivs[0], inner)))
  }

  datatype Building = Built(keys: seq<Key>, packet: Setup) | NoHops | NoKey(index: nat)

  method BuildCircuit(relays: seq<Relay>, circuitId: string, seeds: seq<nat>, ivs: seq<nat>) returns (r: Building)
    requires |relays| == |seeds| == |ivs|
    ensures r.NoHops? <==> relays == []
    ensures r.NoKey? ==> r.index < |relays| && relays[r.index].keyPair.None?
                         && forall i :: 0 <= i < r.index ==> relays[i].keyPair.Some?
    ensures r.Built? <==> relays != [] && AllKeyed(relays)
    ensures r.Built? ==> r.keys == HopKeys(relays, seeds, circuitId)
                         && r.packet == Nest(relays, seeds, ivs, circuitId, Create)
  {
    if relays == [] {
      return NoHops;
    }
    var keys: seq<Key>, encapsulatedKeys: seq<Encapsulated> := [], [];
    var i := 0;
    while i < |relays|
      invariant i == |keys| == |encapsulatedKeys| <= |relays|
      invariant forall j :: 0 <= j < i ==> relays[j].keyPair.Some?
      invariant forall j :: 0 <= j < i ==> keys[j] == HopKey(relays[j], seeds[j], circuitId)
      invariant forall j :: 0 <= j < i ==> encapsulatedKeys[j] == Encapsulate(relays[j].keyPair.value, seeds[j]).1
    {
      if relays[i].keyPair.None? {
        return NoKey(i);
      }
      var (secret, encapsulated) := Encapsulate(relays[i].keyPair.value, seeds[i]);
      keys := keys + [Derived(secret, circuitId)];
      encapsulatedKeys := encapsulatedKeys + [encapsulated];
      i := i + 1;
    }
    var last := |relays| - 1;
    var current := Setup(if last == 0 then Create else Extend, circuitId, encapsulatedKeys[last], None, None);
    i := last;
    while i > 0
      invariant 0 <= i <= last
      invariant current == Nest(relays[i..], seeds[i..], ivs[i..], circuitId, if i == 0 then Create else Extend)
    {
      assert relays[i - 1..][1..] == relays[i..] && seeds[i - 1..][1..] == seeds[i..] && ivs[i - 1..][1..] == ivs[i..];
      i := i - 1;
      current := Setup(if i == 0 then Create else Extend, circuitId, encapsulatedKeys[i], Some(relays[i + 1].address),
                       Some(Sealed(keys[i], ivs[i], current)));
    }
    assert relays[0..] == relays && seeds[0..] == seeds && ivs[0..] == ivs;
    r := Built(keys, current);
  }

  // ---------------------------------------------------------------- sizes

  function NextBytes(nextHop: Option<string>): nat {
    match nextHop
    case None => |"null"|
    case Some(address) => QuotedBytes(address)
  }

  function SealedBytes(plainBytes: nat): nat {
    |"{\"ciphertext\":\"\",\"iv\":,\"authTag\":}"| + IV_JSON + TAG_JSON + Base64Length(plainBytes)
  }

  function SetupHeadBytes(kind: Kind, circuitId: string, encapsulated: Encapsulated, nextHop: Option<string>): nat {
    |"{\"type\":"| + (if kind.Create? then |"\"CIRCUIT_CREATE\""| else |"\"CIRCUIT_EXTEND\""|)
    + |",\"circuitId\":"| + QuotedBytes(circuitId)
    + |",\"encapsulatedKey\":\"\""| + EncapsulatedChars(encapsulated)
    + |",\"nextHop\":"| + NextBytes(nextHop) + |",\"extendPayload\":}"|
  }

  function SetupBytes(s: Setup): nat {
    SetupHeadBytes(s.kind, s.circuitId, s.encapsulatedKey, s.nextHop)
    + match s.extendPayload
      case None => |"null"|
      case Some(sealed) => SealedBytes(SetupBytes(sealed.plain))
  }

  const MAX_EXTEND_BYTES := UNIFORM_CELL_SIZE * 2

  // ---------------------------------------------------------------- one relay

  datatype Status = Ready(circuitId: string) | Refused

  datatype ExtendLink = ViaTunnel(name: string) | ViaRelay(relay: RelayLink) | ViaDial(host: string, port: Option<int>)

  datatype Reaction = Reply(status: Status) | Ask(link: ExtendLink, packet: Setup)

  /** Extending does not look at writability, unlike forwarding. */
  predicate Bound(relay: RelayLink, address: string) {
    relay.address == address || relay.peerAddress == address || (':' in address && EndsWith(relay.address, address))
  }

  function FirstBound(relays: seq<RelayLink>, address: string): Option<RelayLink> {
    if relays == [] then None
    else if Bound(relays[0], address) then Some(relays[0])
    else FirstBound(relays[1..], address)
  }

  predicate IsFirstBound(relays: seq<RelayLink>, address: string, i: nat)
    requires i < |relays|
  {
    Bound(relays[i], address) && forall j :: 0 <= j < i ==> !Bound(relays[j], address)
  }

  function ExtendRoute(node: Node, address: string): ExtendLink {
    if address in node.tunnels then ViaTunnel(address)
    else match FirstBound(node.relays, address)
      case Some(relay) => ViaRelay(relay)
      case None => ViaDial(HostPart(address), PortPart(address))
  }

  function SetupKey(keyPair: KeyPair, packet: Setup): Option<Key> {
    if packet.circuitId == "" then None
    else match Decapsulate(keyPair, packet.encapsulatedKey)
      case None => None
      case Some(secret) => Some(Derived(secret, packet.circuitId))
  }

  function Extends(packet: Setup): bool {
    CircuitStore.Hop(packet.nextHop).Some? && packet.extendPayload.Some?
  }

  function React(node: Node, keyPair: KeyPair, packet: Setup): Reaction {
    match SetupKey(keyPair, packet)
    case None => Reply(Refused)
    case Some(key) =>
      if !Extends(packet) then Reply(Ready(packet.circuitId))
      else
        var sealed := packet.extendPayload.value;
        if sealed.key != key || SetupBytes(sealed.plain) > MAX_EXTEND_BYTES then Reply(Refused)
        else Ask(ExtendRoute(node, packet.nextHop.value), sealed.plain)
  }

  function RecordFor(packet: Setup, key: Key, prevHop: string, now: int): CircuitStore.Record {
    CircuitStore.Record(packet.circuitId, Some(prevHop), CircuitStore.Hop(packet.nextHop), key, now)
  }

  function Saved(circuits: seq<OrderedMap.Slot<CircuitStore.Record>>, keyPair: KeyPair, packet: Setup, prevHop: string, now: int)
    : seq<OrderedMap.Slot<CircuitStore.Record>>
  {
    match SetupKey(keyPair, packet)
    case None => circuits
    case Some(key) =>
      OrderedMap.Put(circuits, CircuitStore.KeyOf(packet.circuitId, Some(prevHop)), RecordFor(packet, key, prevHop, now))
  }

  /** A relay's answer upstream, from what came back from downstream within the time limit. */
  function Upstream(circuitId: string, answer: Option<Status>): Status {
    if answer.Some? && answer.value.Ready? then Ready(circuitId) else Refused
  }

  class OnionRouter {
    const nodeId: string
    const keyPair: KeyPair
    const db: CircuitStore.CircuitDb
    var tunnels: map<string, bool>
    var relays: seq<RelayLink>
    /** Everything sent or delivered because of received cells, in order. */
    var actions: seq<Action>

    constructor (nodeId: string, keyPair: KeyPair, db: CircuitStore.CircuitDb)
      ensures this.nodeId == nodeId && this.keyPair == keyPair && this.db == db
      ensures tunnels == map[] && relays == [] && actions == []
    {
      this.nodeId, this.keyPair, this.db := nodeId, keyPair, db;
      tunnels, relays, actions := map[], [], [];
    }

    function State(): Node
      reads this, db
    {
      Node(nodeId, db.memoryCircuits, tunnels, relays)
    }

    /** The circuit is saved before the inner packet is opened. The wait for the next relay's answer
        is between this call and the reply `Upstream` gives. */
    method HandleCircuitSetup(packet: Setup, prevHop: string, now: int) returns (r: Reaction)
      requires db.Valid()
      modifies db
      ensures db.Valid()
      ensures r == React(old(State()), keyPair, packet)
      ensures db.memoryCircuits == Saved(old(db.memoryCircuits), keyPair, packet, prevHop, now)
    {
      if packet.circuitId == "" {
        return Reply(Refused);
      }
      var secret := Decapsulate(keyPair, packet.encapsulatedKey);
      if secret.None? {
        return Reply(Refused);
      }
      var symmetricKey := Derived(secret.value, packet.circuitId);
      db.SaveCircuit(RecordFor(packet, symmetricKey, prevHop, now));
      if packet.nextHop.Some? && packet.nextHop.value != "" && packet.extendPayload.Some? {
        var sealed := packet.extendPayload.value;
        if sealed.key != symmetricKey {
          return Reply(Refused);
        }
        if SetupBytes(sealed.plain) > MAX_EXTEND_BYTES {
          return Reply(Refused);
        }
        r := Ask(ExtendRoute(State(), packet.nextHop.value), sealed.plain);
      } else {
        r := Reply(Ready(packet.circuitId));
      }
    }

    method HandleOnionCell(cell: Cell, prevHop: string)
      requires db.Valid()
      modifies this`actions
      ensures actions == old(actions) + Handle(State(), cell, prevHop)
    {
      if cell.circuitId == "" {
        return;
      }
      var circuit := db.GetCircuit(cell.circuitId, Some(prevHop));
      if circuit.None? {
        return;
      }
      match Decrypt(cell, circuit.value.symmetricKey) {
        case None =>
        case Some(layer) => actions := actions + Act(State(), layer);
      }
    }
  }

  // ---------------------------------------------------------------- the whole run

  /** How the request from the relay before fared. */
  datatype Fate = Lost | Unanswered | Answered

  /** A relay of the circuit, with its name for its predecessor; `stray` is the relay the request meant
      for it reaches if the link it is sent over leads elsewhere. */
  datatype Station = Station(node: Node, keyPair: KeyPair, prevHop: string, now: int, fate: Fate, stray: Stray)

  datatype Stray = Stray(node: Node, keyPair: KeyPair)

  predicate ExtendLeads(link: ExtendLink, address: string) {
    match link
    case ViaTunnel(name) => name == address
    case ViaRelay(relay) => relay.address == address || relay.peerAddress == address
    case ViaDial(host, port) => host == HostPart(address) && port == PortPart(address)
  }

  lemma {:induction false} FirstBoundFirst(relays: seq<RelayLink>, address: string)
    ensures match FirstBound(relays, address)
            case None => forall i :: 0 <= i < |relays| ==> !IsFirstBound(relays, address, i)
            case Some(relay) => exists i :: 0 <= i < |relays| && relays[i] == relay && IsFirstBound(relays, address, i)
  {
    if relays != [] {
      FirstBoundFirst(relays[1..], address);
      if Bound(relays[0], address) {
        assert IsFirstBound(relays, address, 0);
      } else if FirstBound(relays[1..], address).Some? {
        var i :| 0 <= i < |relays[1..]| && relays[1..][i] == FirstBound(relays[1..], address).value
                 && IsFirstBound(relays[1..], address, i);
        var k := i + 1;
        assert forall j :: 1 <= j < k ==> relays[j] == relays[1..][j - 1];
        assert IsFirstBound(relays, address, k) && relays[k] == relays[1..][i];
      } else {
        forall i | 0 <= i < |relays| ensures !IsFirstBound(relays, address, i) {
          if 0 < i && IsFirstBound(relays, address, i) {
            assert forall j :: 0 <= j < i - 1 ==> relays[1..][j] == relays[j + 1];
            assert IsFirstBound(relays[1..], address, i - 1);
          }
        }
      }
    }
  }

  /** A request to extend leads to the address meant unless, with no tunnel of that name, the first bound
      relay that matches is one whose own address merely ends with it. */
  lemma ExtendRouteLeads(node: Node, address: string)
    ensures ExtendLeads(ExtendRoute(node, address), address) <==>
            (address !in node.tunnels ==>
               forall i :: 0 <= i < |node.relays| && IsFirstBound(node.relays, address, i) ==>
                 node.relays[i].address == address || node.relays[i].peerAddress == address)
  {
    FirstBoundFirst(node.relays, address);
    forall i, j | 0 <= i < j < |node.relays| ensures !(IsFirstBound(node.relays, address, i) && IsFirstBound(node.relays, address, j)) {
    }
  }

  lemma {:induction false} NoneBound(relays: seq<RelayLink>, address: string)
    ensures FirstBound(relays, address) == None <==> forall relay <- relays :: !Bound(relay, address)
  {
    if relays != [] {
      NoneBound(relays[1..], address);
      assert relays == [relays[0]] + relays[1..];
    }
  }

  /** What any packet at all makes any relay answer: with no identifier, or a key for the other mechanism, or
      a packet inside that is not sealed under the key or too long, a refusal; with no successor or
      nothing inside, readiness; else the packet inside goes on, over the tunnel of the successor's name,
      without one over the first relay bound to it, else directly. */
  lemma ReactExactly(node: Node, keyPair: KeyPair, packet: Setup)
    ensures var heard := packet.circuitId != "" && packet.encapsulatedKey.keyPair.kem == keyPair.kem;
            var onward := packet.nextHop.Some? && packet.nextHop.value != "" && packet.extendPayload.Some?;
            var opens := onward && heard && SetupKey(keyPair, packet) == Some(packet.extendPayload.value.key);
            match React(node, keyPair, packet)
            case Reply(Ready(id)) => heard && !onward && id == packet.circuitId
            case Reply(Refused) => !heard || (onward && (!opens || SetupBytes(packet.extendPayload.value.plain) > 4096))
            case Ask(link, inner) =>
              && opens && inner == packet.extendPayload.value.plain && SetupBytes(inner) <= 4096
              && var address := packet.nextHop.value;
                 match link
                 case ViaTunnel(name) => name == address && address in node.tunnels
                 case ViaRelay(relay) =>
                   && address !in node.tunnels
                   && (exists i :: 0 <= i < |node.relays| && node.relays[i] == relay && IsFirstBound(node.relays, address, i))
                   && (relay.address == address || relay.peerAddress == address
                       || (':' in address && EndsWith(relay.address, address)))
                 case ViaDial(host, port) =>
                   && address !in node.tunnels
                   && (forall relay <- node.relays ::
                         relay.address != address && relay.peerAddress != address
                         && !(':' in address && EndsWith(relay.address, address)))
                   && host == HostPart(address) && port == PortPart(address)
  {
    hide SetupBytes, HostPart, PortPart;
    if packet.nextHop.Some? {
      FirstBoundFirst(node.relays, packet.nextHop.value);
      NoneBound(node.relays, packet.nextHop.value);
    }
  }

  /** The key a packet brings is the initiator's exactly if it was encapsulated for this relay. */
  lemma SetupKeyExactly(keyPair: KeyPair, packet: Setup, seed: nat)
    requires packet.circuitId != ""
    ensures SetupKey(keyPair, packet) == Some(Derived(Shared(keyPair, seed), packet.circuitId))
            <==> packet.encapsulatedKey == Encapsulated(keyPair, seed)
  {
  }

  /** What it makes a relay store: under the identifier and the predecessor the key it brought, the
      predecessor and the successor if it names one, and nothing else changes; with no key, nothing. */
  lemma SavedExactly(circuits: seq<OrderedMap.Slot<CircuitStore.Record>>, keyPair: KeyPair, packet: Setup,
                     prevHop: string, now: int, name: string)
    requires OrderedMap.DistinctKeys(circuits)
    ensures var stored := OrderedMap.Get(Saved(circuits, keyPair, packet, prevHop, now), name);
            if SetupKey(keyPair, packet).Some? && name == CircuitStore.KeyOf(packet.circuitId, Some(prevHop)) then
              && stored.Some? && stored.value.circuitId == packet.circuitId && stored.value.prevHop == Some(prevHop)
              && stored.value.nextHop == (if packet.nextHop == Some("") then None else packet.nextHop)
              && Some(stored.value.symmetricKey) == SetupKey(keyPair, packet) && stored.value.createdAt == now
            else stored == OrderedMap.Get(circuits, name)
    ensures SetupKey(keyPair, packet) == None <==>
            packet.circuitId == "" || packet.encapsulatedKey.keyPair.kem != keyPair.kem
  {
    if SetupKey(keyPair, packet).Some? {
      var key := CircuitStore.KeyOf(packet.circuitId, Some(prevHop));
      OrderedMap.PutGet(circuits, key, RecordFor(packet, SetupKey(keyPair, packet).value, prevHop, now), name);
    }
  }

  function Store(s: Station, packet: Setup): Node {
    s.node.(circuits := Saved(s.node.circuits, s.keyPair, packet, s.prevHop, s.now))
  }

  /** A relay reached astray cannot extend the circuit: it has no key for what is sealed inside. */
  function StrayStatus(stray: Stray, packet: Setup): Status {
    match React(stray.node, stray.keyPair, packet)
    case Reply(status) => status
    case Ask(_, _) => Refused
  }

  /** The relays meant, after the packet has gone as far as it goes, and what the first one answers. */
  function Establish(stations: seq<Station>, packet: Setup): (r: (seq<Node>, Status))
    requires stations != []
    ensures |r.0| == |stations|
  {
    var node := Store(stations[0], packet);
    var others := seq(|stations| - 1, i requires 0 <= i < |stations| - 1 => stations[i + 1].node);
    match React(stations[0].node, stations[0].keyPair, packet)
    case Reply(status) => ([node] + others, status)
    case Ask(link, inner) =>
      if |stations| == 1 || stations[1].fate == Lost then ([node] + others, Refused)
      else
        var (rest, answer) := if ExtendLeads(link, packet.nextHop.value) then Establish(stations[1..], inner)
                              else (others, StrayStatus(stations[1].stray, inner));
        ([node] + rest, Upstream(packet.circuitId, if stations[1].fate == Answered then Some(answer) else None))
  }

  /** Each station is the relay the initiator chose; a relay reached astray is another one. */
  ghost predicate Matching(stations: seq<Station>, relays: seq<Relay>) {
    && |stations| == |relays|
    && (forall i :: 0 <= i < |relays| ==>
          && relays[i].keyPair == Some(stations[i].keyPair)
          && relays[i].address != ""
          && stations[i].prevHop != ""
          && stations[i].stray.keyPair != stations[i].keyPair
          && OrderedMap.DistinctKeys(stations[i].node.circuits))
  }

  predicate LinkLeads(s: Station, address: string) {
    ExtendLeads(ExtendRoute(s.node, address), address)
  }

  /** Every request goes to the relay meant. */
  predicate AllLead(stations: seq<Station>, relays: seq<Relay>)
    requires |stations| == |relays|
  {
    |relays| > 1 ==> LinkLeads(stations[0], relays[1].address) && AllLead(stations[1..], relays[1..])
  }

  /** Every request goes to the relay meant, but the last may reach any relay of the same mechanism. */
  predicate Acknowledgeable(stations: seq<Station>, relays: seq<Relay>)
    requires |stations| == |relays|
  {
    |relays| > 1 ==>
      || (LinkLeads(stations[0], relays[1].address) && Acknowledgeable(stations[1..], relays[1..]))
      || (|relays| == 2 && !LinkLeads(stations[0], relays[1].address)
          && stations[1].stray.keyPair.kem == stations[1].keyPair.kem)
  }

  /** The relay keeps exactly the initiator's key for it and the address of the next relay. */
  predicate Keeps(node: Node, circuitId: string, s: Station, key: Key, nextHop: Option<string>) {
    CircuitStore.Lookup(node.circuits, circuitId, Some(s.prevHop))
    == Some(CircuitStore.Record(circuitId, Some(s.prevHop), nextHop, key, s.now))
  }

  function NextOf(relays: seq<Relay>, i: nat): Option<string>
    requires i < |relays|
  {
    if i + 1 < |relays| then Some(relays[i + 1].address) else None
  }

  lemma StoreKeeps(s: Station, packet: Setup, key: Key)
    requires OrderedMap.DistinctKeys(s.node.circuits) && s.prevHop != ""
    requires SetupKey(s.keyPair, packet) == Some(key)
    ensures Keeps(Store(s, packet), packet.circuitId, s, key, CircuitStore.Hop(packet.nextHop))
  {
    var name := CircuitStore.KeyOf(packet.circuitId, Some(s.prevHop));
    OrderedMap.PutGet(s.node.circuits, name, RecordFor(packet, key, s.prevHop, s.now), name);
  }

  predicate Fits(relays: seq<Relay>, seeds: seq<nat>, ivs: seq<nat>, circuitId: string)
    requires |relays| == |seeds| == |ivs| > 0 && forall relay <- relays :: relay.keyPair.Some?
  {
    |relays| > 1 ==> SetupBytes(Nest(relays[1..], seeds[1..], ivs[1..], circuitId, Extend)) <= MAX_EXTEND_BYTES
  }

  /** The packet got as far as station `i`. */
  predicate Reached(stations: seq<Station>, relays: seq<Relay>, i: nat)
    requires |stations| == |relays| > i
    decreases i
  {
    i > 0 ==> stations[1].fate != Lost && LinkLeads(stations[0], relays[1].address)
              && Reached(stations[1..], relays[1..], i - 1)
  }

  predicate AllAnswered(stations: seq<Station>) {
    forall j :: 1 <= j < |stations| ==> stations[j].fate == Answered
  }

  lemma FitsInside(relays: seq<Relay>, seeds: seq<nat>, ivs: seq<nat>, circuitId: string)
    requires |relays| == |seeds| == |ivs| > 1 && forall relay <- relays :: relay.keyPair.Some?
    requires Fits(relays, seeds, ivs, circuitId)
    ensures Fits(relays[1..], seeds[1..], ivs[1..], circuitId)
  {
  }

  /** One relay: it keeps its record and asks for the packet inside to be taken on, over the link it
      chooses for its successor's address, if that packet fits. */
  lemma HeadReacts(s: Station, relays: seq<Relay>, seeds: seq<nat>, ivs: seq<nat>, circuitId: string, kind: Kind)
    requires |relays| == |seeds| == |ivs| > 0 && forall relay <- relays :: relay.keyPair.Some?
    requires relays[0].keyPair == Some(s.keyPair) && s.prevHop != "" && OrderedMap.DistinctKeys(s.node.circuits)
    requires circuitId != "" && (|relays| > 1 ==> relays[1].address != "")
    ensures var packet := Nest(relays, seeds, ivs, circuitId, kind);
            && Keeps(Store(s, packet), circuitId, s, HopKey(relays[0], seeds[0], circuitId), NextOf(relays, 0))
            && React(s.node, s.keyPair, packet) ==
                 if |relays| == 1 then Reply(Ready(circuitId))
                 else if !Fits(relays, seeds, ivs, circuitId) then Reply(Refused)
                 else Ask(ExtendRoute(s.node, relays[1].address),
                          Nest(relays[1..], seeds[1..], ivs[1..], circuitId, Extend))
  {
    hide SetupBytes, ExtendRoute;
    var packet := Nest(relays, seeds, ivs, circuitId, kind);
    StoreKeeps(s, packet, HopKey(relays[0], seeds[0], circuitId));
  }

  /** Another relay of the same mechanism answers an exit's packet as the exit would, any other packet
      with a refusal. */
  lemma StrayAnswers(stray: Stray, relays: seq<Relay>, seeds: seq<nat>, ivs: seq<nat>, circuitId: string, kind: Kind)
    requires |relays| == |seeds| == |ivs| > 0 && forall relay <- relays :: relay.keyPair.Some?
    requires relays[0].keyPair != Some(stray.keyPair) && circuitId != "" && (|relays| > 1 ==> relays[1].address != "")
    ensures StrayStatus(stray, Nest(relays, seeds, ivs, circuitId, kind))
         == if |relays| == 1 && stray.keyPair.kem == relays[0].keyPair.value.kem then Ready(circuitId) else Refused
    ensures SetupKey(stray.keyPair, Nest(relays, seeds, ivs, circuitId, kind)) != Some(HopKey(relays[0], seeds[0], circuitId))
  {
    hide SetupBytes, ExtendRoute;
  }

  /** The initiator hears that the circuit is ready exactly when every answer came in time, the outermost
      sealed packet is within the limit, and every link led to its relay; but for the last link, which
      may have led to any relay of the same mechanism. */
  lemma {:induction false} CircuitReady(
      stations: seq<Station>, relays: seq<Relay>, seeds: seq<nat>, ivs: seq<nat>, circuitId: string, kind: Kind)
    requires Matching(stations, relays) && |relays| == |seeds| == |ivs| > 0 && circuitId != ""
    requires forall relay <- relays :: relay.keyPair.Some?
    ensures Establish(stations, Nest(relays, seeds, ivs, circuitId, kind)).1
         == if Fits(relays, seeds, ivs, circuitId) && AllAnswered(stations) && Acknowledgeable(stations, relays)
            then Ready(circuitId) else Refused
    decreases |relays|
  {
    hide SetupBytes, React, Store, Keeps, HopKey, StrayStatus, ExtendLeads, ExtendRoute;
    HeadReacts(stations[0], relays, seeds, ivs, circuitId, kind);
    if |relays| > 1 && Fits(relays, seeds, ivs, circuitId) {
      FitsInside(relays, seeds, ivs, circuitId);
      StrayAnswers(stations[1].stray, relays[1..], seeds[1..], ivs[1..], circuitId, Extend);
      CircuitReady(stations[1..], relays[1..], seeds[1..], ivs[1..], circuitId, Extend);
    }
  }

  /** Every relay the packet reached keeps the initiator's key for its place and its successor's
      address, none at the exit. */
  lemma {:induction false} RelayKeeps(
      stations: seq<Station>, relays: seq<Relay>, seeds: seq<nat>, ivs: seq<nat>, circuitId: string, kind: Kind, i: nat)
    requires Matching(stations, relays) && |relays| == |seeds| == |ivs| > i && circuitId != ""
    requires forall relay <- relays :: relay.keyPair.Some?
    requires Reached(stations, relays, i) && (i > 0 ==> Fits(relays, seeds, ivs, circuitId))
    ensures Keeps(Establish(stations, Nest(relays, seeds, ivs, circuitId, kind)).0[i], circuitId, stations[i],
                  HopKey(relays[i], seeds[i], circuitId), NextOf(relays, i))
    decreases i
  {
    hide SetupBytes, React, Store, Keeps, HopKey, ExtendLeads, ExtendRoute, StrayStatus;
    HeadReacts(stations[0], relays, seeds, ivs, circuitId, kind);
    if i > 0 {
      FitsInside(relays, seeds, ivs, circuitId);
      RelayKeeps(stations[1..], relays[1..], seeds[1..], ivs[1..], circuitId, Extend, i - 1);
    }
  }

  /** If the last link led elsewhere, the exit meant is as it was before. */
  lemma {:induction false} ExitUntouched(
      stations: seq<Station>, relays: seq<Relay>, seeds: seq<nat>, ivs: seq<nat>, circuitId: string, kind: Kind)
    requires Matching(stations, relays) && |relays| == |seeds| == |ivs| > 0 && circuitId != ""
    requires forall relay <- relays :: relay.keyPair.Some?
    requires !AllLead(stations, relays)
    ensures Establish(stations, Nest(relays, seeds, ivs, circuitId, kind)).0[|relays| - 1] == stations[|relays| - 1].node
    decreases |relays|
  {
    hide SetupBytes, React, Store, Keeps, HopKey, ExtendLeads, ExtendRoute, StrayStatus;
    HeadReacts(stations[0], relays, seeds, ivs, circuitId, kind);
    if LinkLeads(stations[0], relays[1].address) {
      ExitUntouched(stations[1..], relays[1..], seeds[1..], ivs[1..], circuitId, Extend);
    }
  }

  lemma {:induction false} ReadyReaches(stations: seq<Station>, relays: seq<Relay>, i: nat)
    requires |stations| == |relays| > i && AllAnswered(stations) && Acknowledgeable(stations, relays)
    requires i < |relays| - 1 || AllLead(stations, relays)
    ensures Reached(stations, relays, i)
    decreases i
  {
    if i > 0 {
      ReadyReaches(stations[1..], relays[1..], i - 1);
    }
  }

  /** What readiness means: every relay but the exit keeps the initiator's key for it; the exit does if
      every link led to its relay, and else the exit meant has not seen the packet. */
  lemma ReadyMeans(
      stations: seq<Station>, relays: seq<Relay>, seeds: seq<nat>, ivs: seq<nat>, circuitId: string)
    requires Matching(stations, relays) && |relays| == |seeds| == |ivs| > 0 && circuitId != ""
    requires forall relay <- relays :: relay.keyPair.Some?
    requires Establish(stations, Nest(relays, seeds, ivs, circuitId, Create)).1.Ready?
    ensures var nodes := Establish(stations, Nest(relays, seeds, ivs, circuitId, Create)).0;
            var last := |relays| - 1;
            && (forall i :: 0 <= i < |relays| && (i < last || AllLead(stations, relays)) ==>
                  Keeps(nodes[i], circuitId, stations[i], HopKey(relays[i], seeds[i], circuitId), NextOf(relays, i)))
            && (!AllLead(stations, relays) ==> nodes[last] == stations[last].node)
  {
    hide Nest, Establish, Keeps, HopKey, AllLead, Acknowledgeable, Reached, NextOf;
    CircuitReady(stations, relays, seeds, ivs, circuitId, Create);
    forall i | 0 <= i < |relays| && (i < |relays| - 1 || AllLead(stations, relays))
      ensures Keeps(Establish(stations, Nest(relays, seeds, ivs, circuitId, Create)).0[i], circuitId, stations[i],
                    HopKey(relays[i], seeds[i], circuitId), NextOf(relays, i))
    {
      ReadyReaches(stations, relays, i);
      RelayKeeps(stations, relays, seeds, ivs, circuitId, Create, i);
    }
    if !AllLead(stations, relays) {
      ExitUntouched(stations, relays, seeds, ivs, circuitId, Create);
    }
  }

  /** Set-up and use together, for a circuit identifier new to the exit: over a circuit reported ready, a
      cell wrapped with the initiator's keys goes as meant and is delivered exactly when every link of
      the set-up and every link of the trip leads to its relay and the cell can pass; else the exit
      meant never opens its layer. */
  lemma ReadyCircuitDelivers(
      stations: seq<Station>, relays: seq<Relay>, seeds: seq<nat>, setupIvs: seq<nat>, circuitId: string,
      ivs: seq<nat>, target: string, payload: Payload)
    requires Matching(stations, relays) && |relays| == |seeds| == |setupIvs| == |ivs| > 0 && circuitId != ""
    requires forall relay <- relays :: relay.keyPair.Some?
    requires var exit := stations[|relays| - 1];
             CircuitStore.Lookup(exit.node.circuits, circuitId, Some(exit.prevHop)) == None
    requires Establish(stations, Nest(relays, seeds, setupIvs, circuitId, Create)).1.Ready?
    ensures var nodes := Establish(stations, Nest(relays, seeds, setupIvs, circuitId, Create)).0;
            var keys, hops := HopKeys(relays, seeds, circuitId), Addresses(relays);
            var trip := Journey(nodes, hops, PrevHops(stations), Wrap(circuitId, hops, keys, ivs, target, payload));
            if AllLead(stations, relays) && Passable(circuitId, hops, keys, ivs, target, payload) && FramesLead(nodes, hops)
            then trip == (Intended(nodes, circuitId, hops, keys, ivs, target, payload), |relays|)
            else trip.1 < |relays|
  {
    hide Wrap, Journey, Intended, Nest, Establish, Fits, FramesLead, Passable, AllLead;
    ReadyMeans(stations, relays, seeds, setupIvs, circuitId);
    var nodes := Establish(stations, Nest(relays, seeds, setupIvs, circuitId, Create)).0;
    var keys, hops := HopKeys(relays, seeds, circuitId), Addresses(relays);
    if AllLead(stations, relays) {
      forall i | 0 <= i < |relays| ensures Holds(nodes[i], circuitId, PrevHops(stations)[i], keys[i]) {
      }
      OnionArrives(nodes, PrevHops(stations), circuitId, hops, keys, ivs, target, payload);
    } else {
      ExitLacks(nodes, PrevHops(stations), circuitId, hops, keys, ivs, target, payload);
    }
  }

  function Addresses(relays: seq<Relay>): (a: seq<string>)
    ensures |a| == |relays| && forall i :: 0 <= i < |relays| ==> a[i] == relays[i].address
  {
    seq(|relays|, i requires 0 <= i < |relays| => relays[i].address)
  }

  function PrevHops(stations: seq<Station>): (p: seq<string>)
    ensures |p| == |stations| && forall i :: 0 <= i < |stations| ==> p[i] == stations[i].prevHop
  {
    seq(|stations|, i requires 0 <= i < |stations| => stations[i].prevHop)
  }

  // ---------------------------------------------------------------- which circuits fit

  /** Up to three ML-KEM relays with addresses of at most 250 characters never trip the limit. */
  lemma ThreeRelaysFit(relays: seq<Relay>, seeds: seq<nat>, ivs: seq<nat>, circuitId: string)
    requires |relays| == |seeds| == |ivs| && 1 <= |relays| <= 3 && QuotedBytes(circuitId) == 34
    requires forall relay <- relays :: relay.keyPair.Some? && QuotedBytes(relay.address) <= 252
    ensures Fits(relays, seeds, ivs, circuitId)
  {
    if |relays| == 2 {
      LastBytes(relays[1..], seeds[1..], ivs[1..], circuitId);
    } else if |relays| == 3 {
      assert relays[2] in relays;
      LastBytes(relays[1..][1..], seeds[1..][1..], ivs[1..][1..], circuitId);
      MiddleBytes(relays[1..], seeds[1..], ivs[1..], circuitId);
    }
  }

  /** With four or more ML-KEM relays it always does. */
  lemma FourRelaysDoNotFit(relays: seq<Relay>, seeds: seq<nat>, ivs: seq<nat>, circuitId: string)
    requires |relays| == |seeds| == |ivs| && |relays| >= 4
    requires forall relay <- relays :: relay.keyPair.Some? && relay.keyPair.value.kem == MlKem768
    ensures !Fits(relays, seeds, ivs, circuitId)
  {
    HeadBytes(relays[3..], seeds[3..], ivs[3..], circuitId);
    assert relays[2..][1..] == relays[3..] && seeds[2..][1..] == seeds[3..] && ivs[2..][1..] == ivs[3..];
    MiddleBytes(relays[2..], seeds[2..], ivs[2..], circuitId);
    assert relays[1..][1..] == relays[2..] && seeds[1..][1..] == seeds[2..] && ivs[1..][1..] == ivs[2..];
    MiddleBytes(relays[1..], seeds[1..], ivs[1..], circuitId);
  }

  function BytesOf(relays: seq<Relay>, seeds: seq<nat>, ivs: seq<nat>, circuitId: string): nat
    requires |relays| == |seeds| == |ivs| > 0 && forall relay <- relays :: relay.keyPair.Some?
  {
    SetupBytes(Nest(relays, seeds, ivs, circuitId, Extend))
  }

  lemma HeadBytes(relays: seq<Relay>, seeds: seq<nat>, ivs: seq<nat>, circuitId: string)
    requires |relays| == |seeds| == |ivs| > 0 && forall relay <- relays :: relay.keyPair.Some?
    ensures BytesOf(relays, seeds, ivs, circuitId)
         >= EncapsulatedChars(Encapsulated(relays[0].keyPair.value, 0)) + QuotedBytes(circuitId) + 87
  {
  }

  lemma LastBytes(relays: seq<Relay>, seeds: seq<nat>, ivs: seq<nat>, circuitId: string)
    requires |relays| == |seeds| == |ivs| == 1 && relays[0].keyPair.Some?
    ensures BytesOf(relays, seeds, ivs, circuitId)
         == EncapsulatedChars(Encapsulated(relays[0].keyPair.value, 0)) + QuotedBytes(circuitId) + 95
  {
  }

  lemma MiddleBytes(relays: seq<Relay>, seeds: seq<nat>, ivs: seq<nat>, circuitId: string)
    requires |relays| == |seeds| == |ivs| > 1 && forall relay <- relays :: relay.keyPair.Some?
    ensures BytesOf(relays, seeds, ivs, circuitId)
         == EncapsulatedChars(Encapsulated(relays[0].keyPair.value, 0)) + QuotedBytes(circuitId) + 87
            + QuotedBytes(relays[1].address) + SealedBytes(BytesOf(relays[1..], seeds[1..], ivs[1..], circuitId))
  {
  }
}
