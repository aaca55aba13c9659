/**
 * Onion cells: the sender wraps a payload once for every hop, each hop peels one layer and passes
 * on exactly the cell inside. Frames are padded to one size.
 */
module Onion {
  import opened SymbolicCrypto
  import opened Text
  import CircuitStore
  import OrderedMap

  const UNIFORM_CELL_SIZE := 2048
  const MAX_ONION_PAYLOAD := 768

  /** What applications send: a text, or an object known by its JSON rendering. */
  datatype Payload = Plain(text: string) | Object(json: string)

  /** A layer before encryption. */
  datatype Layer =
    | Deliver(deliverTo: string, payload: Payload)
    | Forward(forwardTo: string, cell: Cell)

  /** The authentication tag and the ciphertext are terms over key, nonce and plaintext. */
  datatype Tag = Tag(key: Key, iv: nat, layer: Layer)
  datatype Cipher = Cipher(key: Key, iv: nat, layer: Layer)
  datatype Cell = Cell(circuitId: string, iv: nat, authTag: Tag, ciphertext: Cipher)
  datatype Frame = Frame(cell: Cell, pad: nat)

  function Encrypt(circuitId: string, layer: Layer, key: Key, iv: nat): Cell {
    Cell(circuitId, iv, Tag(key, iv, layer), Cipher(key, iv, layer))
  }

  function Decrypt(cell: Cell, key: Key): Option<Layer> {
    var sealed := cell.ciphertext;
    if sealed.key == key && sealed.iv == cell.iv && cell.authTag == Tag(key, cell.iv, sealed.layer)
    then Some(sealed.layer) else None
  }

  // ---------------------------------------------------------------- sizes in bytes of JSON

  function CharBytes(c: char): nat {
    if c < '\U{80}' then 1 else if c < '\U{800}' then 2 else if c < '\U{10000}' then 3 else 4
  }

  function Utf8Bytes(s: string): nat {
    if s == "" then 0 else CharBytes(s[0]) + Utf8Bytes(s[1..])
  }

  /** JSON escapes quotes, backslashes and control characters. */
  function EscapedBytes(c: char): nat {
    if c == '"' || c == '\\' || c == '\n' || c == '\r' || c == '\t' || c == '\U{8}' || c == '\U{C}' then 2
    else if c < ' ' then 6
    else CharBytes(c)
  }

  function InnerBytes(s: string): (n: nat)
    ensures |s| <= n
  {
    if s == "" then 0 else EscapedBytes(s[0]) + InnerBytes(s[1..])
  }

  function QuotedBytes(s: string): (n: nat)
    ensures |s| + 2 <= n
  {
    InnerBytes(s) + 2
  }

  /** Base64 without line breaks, padded. */
  function Base64Length(n: nat): (m: nat)
    ensures 3 * m >= 4 * n
  {
    (n + 2) / 3 * 4
  }

  function PayloadBytes(p: Payload): nat {
    match p
    case Plain(text) => Utf8Bytes(text)
    case Object(json) => Utf8Bytes(json)
  }

  function PayloadJsonBytes(p: Payload): nat {
    match p
    case Plain(text) => QuotedBytes(text)
    case Object(json) => Utf8Bytes(json)
  }

  function DeliverBytes(target: string): nat {
    |"{\"deliverTo\":"| + QuotedBytes(target) + |",\"payload\":"| + |"}"|
  }

  function ForwardBytes(address: string): nat {
    |"{\"forwardTo\":"| + QuotedBytes(address) + |",\"cell\":"| + |"}"|
  }

  const IV_JSON := 16 + 2
  const TAG_JSON := 24 + 2

  /** A cell without the characters of its ciphertext. */
  function CellHeadBytes(circuitId: string): nat {
    |"{\"circuitId\":"| + QuotedBytes(circuitId) + |",\"iv\":"| + IV_JSON + |",\"authTag\":"| + TAG_JSON
    + |",\"ciphertext\":\"\"}"|
  }

  function LayerBytes(layer: Layer): nat {
    match layer
    case Deliver(target, payload) => DeliverBytes(target) + PayloadJsonBytes(payload)
    case Forward(address, cell) => ForwardBytes(address) + CellBytes(cell)
  }

  function CellBytes(cell: Cell): nat {
    CellHeadBytes(cell.circuitId) + Base64Length(LayerBytes(cell.ciphertext.layer))
  }

  /** The frame on the wire: type, cell fields, pad and newline. */
  function FrameBytes(frame: Frame): nat {
    CellBytes(frame.cell) + |"\"type\":\"ONION_CELL\","| + |",\"pad\":\"\""| + frame.pad + |"\n"|
  }

  function PadTo(cell: Cell): Frame {
    var initial := FrameBytes(Frame(cell, 0));
    Frame(cell, if initial < UNIFORM_CELL_SIZE then UNIFORM_CELL_SIZE - initial else 0)
  }

  // ---------------------------------------------------------------- sending

  /** The cell for the first of these hops, the exit's layer innermost. */
  function Wrap(circuitId: string, hops: seq<string>, keys: seq<Key>, ivs: seq<nat>,
                target: string, payload: Payload): Cell
    requires |hops| == |keys| == |ivs| > 0
  {
    var layer := if |hops| == 1 then Deliver(target, payload)
                 else Forward(hops[1], Wrap(circuitId, hops[1..], keys[1..], ivs[1..], target, payload));
    Encrypt(circuitId, layer, keys[0], ivs[0])
  }

  datatype Circuit = Circuit(circuitId: string, hops: seq<string>, keys: seq<Key>)

  datatype SendError = PayloadTooLarge | NoGuard

  datatype Sending = Sent(host: string, port: Option<int>, frame: Frame) | Failed(error: SendError)

  method SendOnionCell(circuit: Circuit, target: string, payload: Payload, ivs: seq<nat>) returns (r: Sending)
    requires |circuit.hops| == |circuit.keys| == |ivs|
    ensures r.Failed? <==> PayloadBytes(payload) > MAX_ONION_PAYLOAD || circuit.hops == []
    ensures r.Failed? ==> r.error == if PayloadBytes(payload) > MAX_ONION_PAYLOAD then PayloadTooLarge else NoGuard
    ensures r.Sent? ==>
              && r.frame == PadTo(Wrap(circuit.circuitId, circuit.hops, circuit.keys, ivs, target, payload))
              && r.host == HostPart(circuit.hops[0]) && r.port == PortPart(circuit.hops[0])
  {
    if PayloadBytes(payload) > MAX_ONION_PAYLOAD {
      return Failed(PayloadTooLarge);
    }
    var Circuit(circuitId, hops, keys) := circuit;
    if hops == [] {
      return Failed(NoGuard);
    }
    var last := |hops| - 1;
    var innerCell := Encrypt(circuitId, Deliver(target, payload), keys[last], ivs[last]);
    var i := last;
    while i > 0
      invariant 0 <= i <= last
      invariant innerCell == Wrap(circuitId, hops[i..], keys[i..], ivs[i..], target, payload)
    {
      assert hops[i - 1..][1..] == hops[i..] && keys[i - 1..][1..] == keys[i..] && ivs[i - 1..][1..] == ivs[i..];
      innerCell := Encrypt(circuitId, Forward(hops[i], innerCell), keys[i - 1], ivs[i - 1]);
      i := i - 1;
    }
    assert hops[0..] == hops && keys[0..] == keys && ivs[0..] == ivs;
    r := Sent(HostPart(hops[0]), PortPart(hops[0]), PadTo(innerCell));
  }

  // ---------------------------------------------------------------- relaying

  datatype RelayLink = RelayLink(address: string, peerAddress: string, writable: bool)

  /** What a relay's answer depends on: its identity, the circuits it holds, its open reverse tunnels
      (with their sockets' writability) and the relays it is bound to, in Map order. */
  datatype Node = Node(
    nodeId: string, circuits: seq<OrderedMap.Slot<CircuitStore.Record>>, tunnels: map<string, bool>, relays: seq<RelayLink>)

  datatype Link = Tunnel(name: string) | Relay(relay: RelayLink) | Dial(host: string, port: int)

  datatype Action =
    | SendFrame(link: Link, frame: Frame)
    | SendPayload(link: Link, payload: Payload)
    | DeliverLocal(payload: Payload)

  predicate Dialable(address: string) {
    && ':' in address
    && HostPart(address) != ""
    && PortPart(address).Some? && 1 <= PortPart(address).value <= 65535
  }

  predicate Matches(relay: RelayLink, address: string) {
    relay.writable && (relay.address == address || relay.peerAddress == address || EndsWith(relay.address, address))
  }

  function FirstRelay(relays: seq<RelayLink>, address: string): (r: Option<RelayLink>)
    ensures r.Some? ==> r.value in relays && Matches(r.value, address)
  {
    if relays == [] then None
    else if Matches(relays[0], address) then Some(relays[0])
    else FirstRelay(relays[1..], address)
  }

  predicate OpenTunnel(node: Node, name: string) {
    name in node.tunnels && node.tunnels[name]
  }

  function Route(node: Node, address: string): Link
    requires Dialable(address)
  {
    if OpenTunnel(node, address) then Tunnel(address)
    else match FirstRelay(node.relays, address)
      case Some(relay) => Relay(relay)
      case None => Dial(HostPart(address), PortPart(address).value)
  }

  /** The link goes to the address it was chosen for. */
  predicate Leads(link: Link, address: string) {
    match link
    case Tunnel(name) => name == address
    case Relay(relay) => relay.address == address || relay.peerAddress == address
    case Dial(host, port) => host == HostPart(address) && Some(port) == PortPart(address)
  }

  /** Forwarding leads to the address meant unless, with no tunnel of that name, the first bound relay
      that matches is one whose own address merely ends with it. */
  lemma RouteLeads(node: Node, address: string)
    requires Dialable(address)
    ensures Leads(Route(node, address), address) <==>
            (!OpenTunnel(node, address) ==>
               forall i :: 0 <= i < |node.relays| && Matches(node.relays[i], address)
                           && (forall j :: 0 <= j < i ==> !Matches(node.relays[j], address)) ==>
                 node.relays[i].address == address || node.relays[i].peerAddress == address)
  {
    FirstRelayFirst(node.relays, address);
  }

  lemma {:induction false} FirstRelayFirst(relays: seq<RelayLink>, address: string)
    ensures match FirstRelay(relays, address)
            case None => forall relay <- relays :: !Matches(relay, address)
            case Some(relay) =>
              exists i :: 0 <= i < |relays| && relays[i] == relay && forall j :: 0 <= j < i ==> !Matches(relays[j], address)
  {
    if relays != [] && !Matches(relays[0], address) {
      FirstRelayFirst(relays[1..], address);
      match FirstRelay(relays[1..], address) {
        case None =>
        case Some(relay) =>
          var i :| 0 <= i < |relays[1..]| && relays[1..][i] == relay
                   && forall j :: 0 <= j < i ==> !Matches(relays[1..][j], address);
          var k := i + 1;
          assert relays[k] == relay;
          forall j | 0 <= j < k ensures !Matches(relays[j], address) {
            assert j > 0 ==> relays[j] == relays[1..][j - 1];
          }
      }
    }
  }

  /** Such a relay exists: a cell meant for 1.2.3.4 then goes to 11.2.3.4. */
  lemma RouteCanStray(node: Node, peer: string)
    requires node.tunnels == map[] && peer != "1.2.3.4:80"
    requires node.relays == [RelayLink("11.2.3.4:80", peer, true)]
    ensures Dialable("1.2.3.4:80")
    ensures Route(node, "1.2.3.4:80") == Relay(node.relays[0]) && !Leads(Route(node, "1.2.3.4:80"), "1.2.3.4:80")
  {
    PlainAddressDials();
    assert "11.2.3.4:80"[1..] == "1.2.3.4:80";
    hide Dialable;
    assert Matches(node.relays[0], "1.2.3.4:80");
  }

  lemma PlainAddressDials()
    ensures Dialable("1.2.3.4:80")
  {
    hide Split, ParseInt, ToRadix;
    SplitAtSeparator("1.2.3.4", ':', "80");
    SplitWhole("80", ':');
    assert "1.2.3.4" + [':'] + "80" == "1.2.3.4:80";
    EightyPrints();
    ParsePrinted(80, 10, "");
    assert "80" + "" == "80";
  }

  lemma EightyPrints()
    ensures IntToRadix(80, 10) == "80"
  {
    assert ToRadix(8, 10) == "8";
  }

  function ForwardActions(node: Node, address: string, cell: Cell): seq<Action> {
    if CellBytes(cell) > UNIFORM_CELL_SIZE * 2 || !Dialable(address) then []
    else [SendFrame(Route(node, address), PadTo(cell))]
  }

  predicate Truthy(payload: Payload) {
    payload != Plain("")
  }

  function ExitActions(node: Node, target: string, payload: Payload): seq<Action> {
    if target == "" || !Truthy(payload) || PayloadJsonBytes(payload) > UNIFORM_CELL_SIZE * 2 then []
    else if target == node.nodeId then [DeliverLocal(payload)]
    else if OpenTunnel(node, target) then [SendPayload(Tunnel(target), payload)]
    else []
  }

  /** A permitted object always reaches its target, here or over an open tunnel; a text only if it is not
      empty and its quoted form is within the limit. */
  lemma ExitDelivers(node: Node, target: string, payload: Payload)
    requires PayloadBytes(payload) <= MAX_ONION_PAYLOAD && target != ""
    requires target == node.nodeId || OpenTunnel(node, target)
    ensures (payload.Object? || (payload.text != "" && QuotedBytes(payload.text) <= UNIFORM_CELL_SIZE * 2)) <==>
            ExitActions(node, target, payload)
            == [if target == node.nodeId then DeliverLocal(payload) else SendPayload(Tunnel(target), payload)]
  {
  }

  function Act(node: Node, layer: Layer): seq<Action> {
    match layer
    case Forward(address, cell) => if address == "" then [] else ForwardActions(node, address, cell)
    case Deliver(target, payload) => ExitActions(node, target, payload)
  }

  /** Everything one received cell makes a node do. */
  function Handle(node: Node, cell: Cell, prevHop: string): seq<Action> {
    if cell.circuitId == "" then []
    else match CircuitStore.Lookup(node.circuits, cell.circuitId, Some(prevHop))
      case None => []
      case Some(circuit) =>
        match Decrypt(cell, circuit.symmetricKey)
        case None => []
        case Some(layer) => Act(node, layer)
  }

  predicate Holds(node: Node, circuitId: string, prevHop: string, key: Key) {
    var found := CircuitStore.Lookup(node.circuits, circuitId, Some(prevHop));
    found.Some? && found.value.symmetricKey == key
  }

  /** Padding changes neither circuit, nonce, tag nor ciphertext, and makes every cell that fits
      exactly as long as any other. */
  lemma PadExact(cell: Cell)
    ensures PadTo(cell).cell == cell
    ensures FrameBytes(PadTo(cell)) == UNIFORM_CELL_SIZE <==> FrameBytes(Frame(cell, 0)) <= UNIFORM_CELL_SIZE
    ensures FrameBytes(PadTo(cell)) >= UNIFORM_CELL_SIZE
  {
  }

  lemma DecryptEncrypt(circuitId: string, layer: Layer, key: Key, iv: nat, key': Key)
    ensures Decrypt(Encrypt(circuitId, layer, key, iv), key') == if key' == key then Some(layer) else None
  {
  }

  /** One hop: it peels its layer and passes on exactly the cell built for the next hop, over the link it
      chooses for that hop's address; or it delivers. */
  lemma HopPeels(node: Node, prevHop: string, circuitId: string, hops: seq<string>, keys: seq<Key>, ivs: seq<nat>,
                 target: string, payload: Payload)
    requires |hops| == |keys| == |ivs| > 0 && circuitId != ""
    requires Holds(node, circuitId, prevHop, keys[0])
    ensures Handle(node, Wrap(circuitId, hops, keys, ivs, target, payload), prevHop)
         == if |hops| == 1 then ExitActions(node, target, payload)
            else ForwardActions(node, hops[1], Wrap(circuitId, hops[1..], keys[1..], ivs[1..], target, payload))
  {
    assert |hops| > 1 && hops[1] == "" ==> !Dialable(hops[1]);
  }

  /** The node has the circuit and its key opens the cell. */
  predicate Opens(node: Node, cell: Cell, prevHop: string) {
    && cell.circuitId != ""
    && var circuit := CircuitStore.Lookup(node.circuits, cell.circuitId, Some(prevHop));
       circuit.Some? && Decrypt(cell, circuit.value.symmetricKey).Some?
  }

  /** What comes off a cell when the key stored for that predecessor fits. */
  predicate Peels(node: Node, cell: Cell, prevHop: string, layer: Layer) {
    && cell.circuitId != ""
    && var circuit := CircuitStore.Lookup(node.circuits, cell.circuitId, Some(prevHop));
       circuit.Some? && cell == Encrypt(cell.circuitId, layer, circuit.value.symmetricKey, cell.iv)
  }

  /** Only what was sealed under the key opens, and gives what was sealed. */
  lemma OpensOnlyItself(cell: Cell, key: Key, layer: Layer)
    ensures Decrypt(cell, key) == Some(layer) <==> cell == Encrypt(cell.circuitId, layer, key, cell.iv)
  {
    assert cell.ciphertext == Cipher(cell.ciphertext.key, cell.ciphertext.iv, cell.ciphertext.layer);
  }

  /** A cell that does not peel is dropped. */
  lemma ShutIsDropped(node: Node, cell: Cell, prevHop: string)
    requires forall layer :: !Peels(node, cell, prevHop, layer)
    ensures Handle(node, cell, prevHop) == []
  {
    OpensOnlyItself(cell, cell.ciphertext.key, cell.ciphertext.layer);
    hide Act;
    assert !Peels(node, cell, prevHop, cell.ciphertext.layer);
  }

  /** What a delivery layer makes any node do: it is handed to this node's user only if it names this node,
      sent only over an open tunnel of the target, and in every other case nothing happens. */
  lemma ExitExactly(node: Node, cell: Cell, prevHop: string, target: string, payload: Payload)
    requires Peels(node, cell, prevHop, Deliver(target, payload))
    ensures var actions := Handle(node, cell, prevHop);
            && (forall a <- actions ::
                  match a
                  case DeliverLocal(p) => target == node.nodeId && p == payload
                  case SendPayload(link, p) =>
                    target != node.nodeId && link == Tunnel(target)
                    && target in node.tunnels && node.tunnels[target] && p == payload
                  case SendFrame(_, _) => false)
            && |actions| ==
                 if target != "" && payload != Plain("") && PayloadJsonBytes(payload) <= 4096
                    && (target == node.nodeId || (target in node.tunnels && node.tunnels[target])) then 1 else 0
  {
    hide PayloadJsonBytes;
    OpensOnlyItself(cell, cell.ciphertext.key, Deliver(target, payload));
  }

  /** The relay is bound to this link, and none before it matches the address. */
  predicate IsFirstMatch(node: Node, relay: RelayLink, address: string, i: nat) {
    && i < |node.relays| && node.relays[i] == relay && Matches(relay, address)
    && forall j :: 0 <= j < i ==> !Matches(node.relays[j], address)
  }

  /** A forwarding layer makes any node send the cell inside, padded, and nothing else, if it is within the
      limit and the address is a host with a usable port: over an open tunnel of that name; without one
      over the first writable relay of that name, or whose address ends with it; else directly. */
  lemma ForwardExactly(node: Node, cell: Cell, prevHop: string, address: string, inner: Cell)
    requires Peels(node, cell, prevHop, Forward(address, inner))
    ensures var actions := Handle(node, cell, prevHop);
            var tunnel := address in node.tunnels && node.tunnels[address];
            if CellBytes(inner) <= 4096 && ':' in address && HostPart(address) != ""
               && PortPart(address).Some? && 1 <= PortPart(address).value <= 65535
            then
              && |actions| == 1 && actions[0].SendFrame? && actions[0].frame.cell == inner
              && (match actions[0].link
                  case Tunnel(name) => tunnel && name == address
                  case Relay(relay) =>
                    && !tunnel && relay.writable && (exists i :: IsFirstMatch(node, relay, address, i))
                    && (relay.address == address || relay.peerAddress == address || EndsWith(relay.address, address))
                  case Dial(host, port) =>
                    && !tunnel
                    && (forall relay <- node.relays | relay.writable ::
                          relay.address != address && relay.peerAddress != address && !EndsWith(relay.address, address))
                    && host == HostPart(address) && Some(port) == PortPart(address))
            else actions == []
  {
    OpensOnlyItself(cell, cell.ciphertext.key, Forward(address, inner));
    FirstRelayFirst(node.relays, address);
    hide CellBytes, FirstRelay, FrameBytes, HostPart, PortPart;
    if Dialable(address) && !OpenTunnel(node, address) && FirstRelay(node.relays, address).Some? {
      var relay := FirstRelay(node.relays, address).value;
      var i :| 0 <= i < |node.relays| && node.relays[i] == relay
               && forall j :: 0 <= j < i ==> !Matches(node.relays[j], address);
      assert Matches(relay, address);
      assert IsFirstMatch(node, relay, address, i);
    }
  }

  /** The actions of a whole trip and how many of the nodes meant opened their layer. A frame gets to the
      next node if the link it is sent over leads there; on any other link it is lost. */
  function Journey(nodes: seq<Node>, hops: seq<string>, prevHops: seq<string>, cell: Cell): (trip: (seq<Action>, nat))
    requires |nodes| == |hops| == |prevHops|
    ensures trip.1 <= |nodes|
  {
    if nodes == [] || !Opens(nodes[0], cell, prevHops[0]) then ([], 0)
    else
      var actions := Handle(nodes[0], cell, prevHops[0]);
      if |hops| > 1 && |actions| == 1 && actions[0].SendFrame? && Leads(actions[0].link, hops[1]) then
        var rest := Journey(nodes[1..], hops[1..], prevHops[1..], actions[0].frame.cell);
        (actions + rest.0, 1 + rest.1)
      else (actions, 1)
  }

  /** Every node's link for its successor's address leads there. */
  predicate FramesLead(nodes: seq<Node>, hops: seq<string>)
    requires |nodes| == |hops|
  {
    |hops| > 1 ==> Dialable(hops[1]) && Leads(Route(nodes[0], hops[1]), hops[1]) && FramesLead(nodes[1..], hops[1..])
  }

  /** The trip the sender means. */
  function Intended(nodes: seq<Node>, circuitId: string, hops: seq<string>, keys: seq<Key>, ivs: seq<nat>,
                    target: string, payload: Payload): seq<Action>
    requires |nodes| == |hops| == |keys| == |ivs| > 0
    requires forall i :: 1 <= i < |hops| ==> Dialable(hops[i])
  {
    if |hops| == 1 then ExitActions(nodes[0], target, payload)
    else
      [SendFrame(Route(nodes[0], hops[1]), PadTo(Wrap(circuitId, hops[1..], keys[1..], ivs[1..], target, payload)))]
      + Intended(nodes[1..], circuitId, hops[1..], keys[1..], ivs[1..], target, payload)
  }

  lemma {:induction false} WrapShrinks(circuitId: string, hops: seq<string>, keys: seq<Key>, ivs: seq<nat>,
                                      target: string, payload: Payload)
    requires |hops| == |keys| == |ivs| > 1
    ensures CellBytes(Wrap(circuitId, hops[1..], keys[1..], ivs[1..], target, payload))
         <= CellBytes(Wrap(circuitId, hops, keys, ivs, target, payload))
  {
  }

  /** The trip goes as meant, hop by hop to the exit's delivery, exactly when every address after the
      guard's can be dialled, the first forwarded cell is at most twice the uniform size, and every link
      leads to the hop it was chosen for; else the exit never opens its layer. */
  lemma {:induction false} OnionArrives(nodes: seq<Node>, prevHops: seq<string>, circuitId: string, hops: seq<string>,
                                       keys: seq<Key>, ivs: seq<nat>, target: string, payload: Payload)
    requires |nodes| == |prevHops| == |hops| == |keys| == |ivs| > 0 && circuitId != ""
    requires forall i :: 0 <= i < |hops| ==> Holds(nodes[i], circuitId, prevHops[i], keys[i])
    ensures var trip := Journey(nodes, hops, prevHops, Wrap(circuitId, hops, keys, ivs, target, payload));
            if Passable(circuitId, hops, keys, ivs, target, payload) && FramesLead(nodes, hops)
            then trip == (Intended(nodes, circuitId, hops, keys, ivs, target, payload), |hops|)
            else trip.1 < |hops|
    decreases |hops|
  {
    hide Handle, Leads, Route, CellBytes, Dialable, ExitActions, Opens, Holds, Wrap, Passable;
    if |hops| > 1 {
      TripStep(nodes, prevHops, circuitId, hops, keys, ivs, target, payload);
      OnionArrives(nodes[1..], prevHops[1..], circuitId, hops[1..], keys[1..], ivs[1..], target, payload);
      PassableStep(circuitId, hops, keys, ivs, target, payload);
    } else {
      HopPeels(nodes[0], prevHops[0], circuitId, hops, keys, ivs, target, payload);
      HolderOpens(nodes[0], prevHops[0], circuitId, hops, keys, ivs, target, payload);
      LastPasses(circuitId, hops, keys, ivs, target, payload);
    }
  }

  lemma LastPasses(circuitId: string, hops: seq<string>, keys: seq<Key>, ivs: seq<nat>, target: string, payload: Payload)
    requires |hops| == |keys| == |ivs| == 1
    ensures Passable(circuitId, hops, keys, ivs, target, payload)
  {
  }

  lemma TripStep(nodes: seq<Node>, prevHops: seq<string>, circuitId: string, hops: seq<string>,
                 keys: seq<Key>, ivs: seq<nat>, target: string, payload: Payload)
    requires |nodes| == |prevHops| == |hops| == |keys| == |ivs| > 1 && circuitId != ""
    requires Holds(nodes[0], circuitId, prevHops[0], keys[0])
    ensures var inner := Wrap(circuitId, hops[1..], keys[1..], ivs[1..], target, payload);
            var trip := Journey(nodes, hops, prevHops, Wrap(circuitId, hops, keys, ivs, target, payload));
            var rest := Journey(nodes[1..], hops[1..], prevHops[1..], inner);
            if Dialable(hops[1]) && CellBytes(inner) <= UNIFORM_CELL_SIZE * 2 && Leads(Route(nodes[0], hops[1]), hops[1])
            then trip == ([SendFrame(Route(nodes[0], hops[1]), PadTo(inner))] + rest.0, 1 + rest.1)
            else trip.1 == 1
  {
    hide Handle, Leads, Route, CellBytes, Dialable, Opens, Wrap, Holds, PadTo, ExitActions;
    var inner := Wrap(circuitId, hops[1..], keys[1..], ivs[1..], target, payload);
    HopPeels(nodes[0], prevHops[0], circuitId, hops, keys, ivs, target, payload);
    HolderOpens(nodes[0], prevHops[0], circuitId, hops, keys, ivs, target, payload);
    assert PadTo(inner).cell == inner by {
      PadExact(inner);
    }
  }

  lemma HolderOpens(node: Node, prevHop: string, circuitId: string, hops: seq<string>, keys: seq<Key>, ivs: seq<nat>,
                    target: string, payload: Payload)
    requires |hops| == |keys| == |ivs| > 0 && circuitId != ""
    ensures Holds(node, circuitId, prevHop, keys[0])
       <==> Opens(node, Wrap(circuitId, hops, keys, ivs, target, payload), prevHop)
  {
  }

  /** Without the circuit at the exit nothing is delivered. */
  lemma {:induction false} ExitLacks(nodes: seq<Node>, prevHops: seq<string>, circuitId: string, hops: seq<string>,
                                    keys: seq<Key>, ivs: seq<nat>, target: string, payload: Payload)
    requires |nodes| == |prevHops| == |hops| == |keys| == |ivs| > 0 && circuitId != ""
    requires !Holds(nodes[|hops| - 1], circuitId, prevHops[|hops| - 1], keys[|hops| - 1])
    ensures Journey(nodes, hops, prevHops, Wrap(circuitId, hops, keys, ivs, target, payload)).1 < |hops|
    decreases |hops|
  {
    hide Handle, Leads, Route, CellBytes, Dialable, ExitActions, Holds, Opens;
    HolderOpens(nodes[0], prevHops[0], circuitId, hops, keys, ivs, target, payload);
    if |hops| > 1 && Holds(nodes[0], circuitId, prevHops[0], keys[0]) {
      HopPeels(nodes[0], prevHops[0], circuitId, hops, keys, ivs, target, payload);
      ExitLacks(nodes[1..], prevHops[1..], circuitId, hops[1..], keys[1..], ivs[1..], target, payload);
    }
  }

  predicate Passable(circuitId: string, hops: seq<string>, keys: seq<Key>, ivs: seq<nat>,
                     target: string, payload: Payload)
    requires |hops| == |keys| == |ivs| > 0
  {
    && (forall i :: 1 <= i < |hops| ==> Dialable(hops[i]))
    && (|hops| > 1 ==>
        CellBytes(Wrap(circuitId, hops[1..], keys[1..], ivs[1..], target, payload)) <= UNIFORM_CELL_SIZE * 2)
  }

  lemma PassableStep(circuitId: string, hops: seq<string>, keys: seq<Key>, ivs: seq<nat>,
                     target: string, payload: Payload)
    requires |hops| == |keys| == |ivs| > 1
    ensures var inner := Wrap(circuitId, hops[1..], keys[1..], ivs[1..], target, payload);
            Passable(circuitId, hops, keys, ivs, target, payload)
            <==> Dialable(hops[1]) && CellBytes(inner) <= UNIFORM_CELL_SIZE * 2
                 && Passable(circuitId, hops[1..], keys[1..], ivs[1..], target, payload)
  {
    hide CellBytes, Dialable, Wrap;
    var rest := hops[1..];
    assert forall i :: 1 <= i < |rest| ==> rest[i] == hops[i + 1];
    if forall i :: 1 <= i < |rest| ==> Dialable(rest[i]) {
      forall i | 2 <= i < |hops| ensures Dialable(hops[i]) {
        assert hops[i] == rest[i - 1];
      }
    }
    if |hops| > 2 {
      WrapShrinks(circuitId, hops[1..], keys[1..], ivs[1..], target, payload);
    }
  }
}
