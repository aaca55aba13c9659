/**
 * A network of flooding nodes: packets in flight are delivered in any order, lost, or judged by a
 * cache that may have forgotten; nodes originate messages of their own.
 */
module FloodNetwork {
  import opened Flood
  import opened Text

  datatype Net = Net(nodes: seq<Node>, links: seq<seq<Link>>, flights: seq<Flight>)

  datatype Event =
    | Deliver(k: nat, known: bool, written: bool)
    | Lose(k: nat)
    | Originate(at: nat, body: Body, ttl: int)

  function Id(f: Flight): string {
    f.message.body.id
  }

  ghost predicate WellFormed(net: Net) {
    && |net.nodes| == |net.links|
    && (forall u :: 0 <= u < |net.links| ==> forall link <- net.links[u] :: link.to < |net.nodes|)
    && (forall f <- net.flights :: f.to < |net.nodes|)
  }

  ghost predicate Unused(net: Net, id: string) {
    && (forall node <- net.nodes ::
          id !in node.admitted && id !in node.store && id !in node.own && forall m <- node.passedOn :: m.body.id != id)
    && (forall f <- net.flights :: Id(f) != id)
  }

  /** A cache knows an identifier only if it admitted it once; new messages get new identifiers. */
  ghost predicate Enabled(net: Net, e: Event)
    requires WellFormed(net)
  {
    match e
    case Deliver(k, known, _) => k < |net.flights| && (known ==> Id(net.flights[k]) in net.nodes[net.flights[k].to].admitted)
    case Lose(k) => k < |net.flights|
    case Originate(at, body, _) => at < |net.nodes| && GlobalChannel(body.receiver) && Unused(net, body.id)
  }

  function Without<T>(s: seq<T>, k: nat): seq<T>
    requires k < |s|
  {
    s[..k] + s[k + 1..]
  }

  function Original(body: Body, ttl: int): Message {
    Message(body, Some(0), Some(ttl))
  }

  function Own(node: Node, id: string): Node {
    node.(admitted := node.admitted + {id}, own := node.own + {id})
  }

  ghost function Step(net: Net, e: Event): (next: Net)
    requires WellFormed(net) && Enabled(net, e)
    ensures WellFormed(next) && next.links == net.links && |next.nodes| == |net.nodes|
  {
    match e
    case Deliver(k, known, written) =>
      var f := net.flights[k];
      var node := net.nodes[f.to];
      CopiesFrom(f.to, net.links[f.to], Some(f.peer), Flood.Next(f.message));
      net.(nodes := net.nodes[f.to := Receive(node, f.message, known, written)],
           flights := Without(net.flights, k) + Replies(node, f.to, net.links[f.to], f.message, f.peer, known, written))
    case Lose(k) => net.(flights := Without(net.flights, k))
    case Originate(at, body, ttl) =>
      CopiesFrom(at, net.links[at], None, Original(body, ttl));
      net.(nodes := net.nodes[at := Own(net.nodes[at], body.id)],
           flights := net.flights + Copies(at, net.links[at], None, Original(body, ttl)))
  }

  ghost predicate Runs(net: Net, events: seq<Event>)
    requires WellFormed(net)
    decreases |events|
  {
    events != [] ==> Enabled(net, events[0]) && Runs(Step(net, events[0]), events[1..])
  }

  ghost function After(net: Net, events: seq<Event>): (last: Net)
    requires WellFormed(net) && Runs(net, events)
    ensures WellFormed(last) && last.links == net.links && |last.nodes| == |net.nodes|
    decreases |events|
  {
    if events == [] then net else After(Step(net, events[0]), events[1..])
  }

  ghost predicate Quiet(net: Net) {
    WellFormed(net) && net.flights == [] && forall node <- net.nodes :: node == FRESH
  }

  // ---------------------------------------------------------------- once per node

  /** Stored, emitted and passed on at most once: the emitted messages are exactly the stored ones,
      each once, and no identifier is passed on twice. */
  ghost predicate Once(node: Node) {
    && (forall i, j :: 0 <= i < j < |node.emitted| ==> node.emitted[i].id != node.emitted[j].id)
    && (forall b <- node.emitted :: b.id in node.store && node.store[b.id] == b)
    && (forall id <- node.store :: node.store[id] in node.emitted && node.store[id].id == id)
    && (forall i, j :: 0 <= i < j < |node.passedOn| ==> node.passedOn[i].body.id != node.passedOn[j].body.id)
    && (forall m <- node.passedOn :: m.body.id in node.store)
  }

  /** Whatever the cache says: it is the message table that makes it once. */
  lemma ReceiveOnce(node: Node, m: Message, known: bool, written: bool)
    requires Once(node)
    ensures Once(Receive(node, m, known, written))
  {
    hide PassesOn, GlobalChannel, Hop, Ttl;
  }

  lemma {:induction false} EveryNodeOnce(net: Net, events: seq<Event>)
    requires WellFormed(net) && Runs(net, events) && forall node <- net.nodes :: Once(node)
    ensures forall node <- After(net, events).nodes :: Once(node)
    decreases |events|
  {
    if events != [] {
      if events[0].Deliver? {
        var f := net.flights[events[0].k];
        assert net.nodes[f.to] in net.nodes;
        ReceiveOnce(net.nodes[f.to], f.message, events[0].known, events[0].written);
      } else if events[0].Originate? {
        assert net.nodes[events[0].at] in net.nodes;
      }
      EveryNodeOnce(Step(net, events[0]), events[1..]);
    }
  }

  /** From a quiet network, in every run. */
  lemma AtMostOnce(net: Net, events: seq<Event>)
    requires Quiet(net) && Runs(net, events)
    ensures forall node <- After(net, events).nodes :: Once(node)
  {
    EveryNodeOnce(net, events);
  }

  // ---------------------------------------------------------------- hop counts and contents

  /** The messages originated so far, by identifier, after some more events. */
  function Sources(sources: map<string, Message>, events: seq<Event>): map<string, Message>
    decreases |events|
  {
    if events == [] then sources
    else Sources(match events[0]
                 case Originate(_, body, ttl) => sources[body.id := Original(body, ttl)]
                 case _ => sources, events[1..])
  }

  /** Every copy is the original but for its hop count, which stays below the limit once it has been
      passed on. */
  predicate CopyOf(m: Message, source: Message) {
    m.body == source.body && Ttl(m) == Ttl(source) && Hop(m) >= 0 && (Hop(m) > 0 ==> Hop(m) < Ttl(m))
  }

  ghost predicate Authentic(net: Net, sources: map<string, Message>) {
    && (forall f <- net.flights :: Id(f) in sources && CopyOf(f.message, sources[Id(f)]))
    && (forall node <- net.nodes, id <- node.store :: id in sources && node.store[id] == sources[id].body)
    && (forall node <- net.nodes, m <- node.passedOn :: m.body.id in sources && CopyOf(m, sources[m.body.id]))
  }

  lemma NextIsCopy(m: Message, source: Message)
    requires CopyOf(m, source) && PassesOn(m)
    ensures CopyOf(Flood.Next(m), source)
    ensures Hop(Flood.Next(m)) == Hop(m) + 1 < Ttl(m) == Ttl(Flood.Next(m))
  {
  }

  lemma CopiesAuthentic(net: Net, sources: map<string, Message>, k: nat)
    requires WellFormed(net) && Authentic(net, sources) && k < |net.flights|
    ensures Id(net.flights[k]) in sources && CopyOf(net.flights[k].message, sources[Id(net.flights[k])])
    ensures net.nodes[net.flights[k].to] in net.nodes
  {
    assert net.flights[k] in net.flights;
  }

  lemma DeliverAuthentic(net: Net, sources: map<string, Message>, k: nat, known: bool, written: bool)
    requires WellFormed(net) && Enabled(net, Deliver(k, known, written)) && Authentic(net, sources)
    ensures Authentic(Step(net, Deliver(k, known, written)), sources)
  {
    hide CopyOf, PassesOn, Hop, Ttl;
    var f := net.flights[k];
    CopiesAuthentic(net, sources, k);
    if PassesOn(f.message) {
      NextIsCopy(f.message, sources[Id(f)]);
    }
    assert sources[Id(f)].body == f.message.body by {
      SameBody(f.message, sources[Id(f)]);
    }
  }

  lemma SameBody(m: Message, source: Message)
    requires CopyOf(m, source)
    ensures m.body == source.body
  {
  }

  /** In every run, what any node stores or passes on under an identifier is what its author sent. */
  lemma {:induction false} RunAuthentic(net: Net, sources: map<string, Message>, events: seq<Event>)
    requires WellFormed(net) && Runs(net, events) && Authentic(net, sources)
    ensures Authentic(After(net, events), Sources(sources, events))
    decreases |events|
  {
    if events != [] {
      var next := Step(net, events[0]);
      match events[0] {
        case Deliver(k, known, written) =>
          DeliverAuthentic(net, sources, k, known, written);
          RunAuthentic(next, sources, events[1..]);
        case Lose(k) =>
          RunAuthentic(next, sources, events[1..]);
        case Originate(at, body, ttl) =>
          OriginateAuthentic(net, sources, at, body, ttl);
          RunAuthentic(next, sources[body.id := Original(body, ttl)], events[1..]);
      }
    }
  }

  lemma StoresWhatWasSent(net: Net, events: seq<Event>)
    requires Quiet(net) && Runs(net, events)
    ensures Authentic(After(net, events), Sources(map[], events))
  {
    RunAuthentic(net, map[], events);
  }

  lemma OriginateAuthentic(net: Net, sources: map<string, Message>, at: nat, body: Body, ttl: int)
    requires WellFormed(net) && Enabled(net, Originate(at, body, ttl)) && Authentic(net, sources)
    ensures Authentic(Step(net, Originate(at, body, ttl)), sources[body.id := Original(body, ttl)])
  {
    assert net.nodes[at] in net.nodes;
  }

  // ---------------------------------------------------------------- the flood drains

  function Times(k: nat, n: nat): nat {
    if k == 0 then 0 else n + Times(k - 1, n)
  }

  /** The copies the nodes may still write: for every identifier a node lacks, one per link. */
  function Load(nodes: seq<Node>, links: seq<seq<Link>>, ids: set<string>): nat
    requires |nodes| == |links|
  {
    if nodes == [] then 0
    else Times(|ids - nodes[0].store.Keys|, |links[0]|) + Load(nodes[1..], links[1..], ids)
  }

  function Potential(net: Net, ids: set<string>): nat
    requires |net.nodes| == |net.links|
  {
    |net.flights| + Load(net.nodes, net.links, ids)
  }

  lemma {:induction false} LoadUpdate(nodes: seq<Node>, links: seq<seq<Link>>, ids: set<string>, u: nat, node: Node)
    requires |nodes| == |links| && u < |nodes|
    ensures Load(nodes[u := node], links, ids) + Times(|ids - nodes[u].store.Keys|, |links[u]|)
         == Load(nodes, links, ids) + Times(|ids - node.store.Keys|, |links[u]|)
  {
    var nodes' := nodes[u := node];
    if u == 0 {
      assert nodes'[1..] == nodes[1..];
    } else {
      LoadUpdate(nodes[1..], links[1..], ids, u - 1, node);
      assert nodes'[1..] == nodes[1..][u - 1 := node];
    }
  }

  lemma LacksOneLess(ids: set<string>, had: set<string>, id: string)
    requires id in ids && id !in had
    ensures |ids - had| == |ids - (had + {id})| + 1
  {
    assert ids - had == (ids - (had + {id})) + {id};
  }

  ghost predicate InPlay(net: Net, ids: set<string>) {
    forall f <- net.flights :: Id(f) in ids
  }

  /** What a node writes in answer is paid for by the identifier it now stores. */
  lemma ReceiveLoad(node: Node, self: nat, links: seq<Link>, m: Message, peer: string,
                    known: bool, written: bool, ids: set<string>)
    requires m.body.id in ids
    ensures |Replies(node, self, links, m, peer, known, written)|
            + Times(|ids - Receive(node, m, known, written).store.Keys|, |links|)
         <= Times(|ids - node.store.Keys|, |links|)
  {
    hide Copies, PassesOn, Receive;
    var had, has := node.store.Keys, Receive(node, m, known, written).store.Keys;
    StoredKeys(node, m, known, written);
    if Stores(node, m, known, written) {
      LacksOneLess(ids, had, m.body.id);
      assert Times(|ids - had|, |links|) == |links| + Times(|ids - has|, |links|);
    }
  }

  lemma StoredKeys(node: Node, m: Message, known: bool, written: bool)
    ensures Receive(node, m, known, written).store.Keys
         == node.store.Keys + if Stores(node, m, known, written) then {m.body.id} else {}
  {
  }

  /** Every delivery and every loss brings the flood nearer its end, whatever the hop limits. */
  lemma StepDrains(net: Net, ids: set<string>, e: Event)
    requires WellFormed(net) && Enabled(net, e) && !e.Originate? && InPlay(net, ids)
    ensures InPlay(Step(net, e), ids) && Potential(Step(net, e), ids) < Potential(net, ids)
  {
    hide Copies, Receive, Load, PassesOn;
    if e.Deliver? {
      var f := net.flights[e.k];
      assert f in net.flights;
      ReceiveLoad(net.nodes[f.to], f.to, net.links[f.to], f.message, f.peer, e.known, e.written, ids);
      LoadUpdate(net.nodes, net.links, ids, f.to, Receive(net.nodes[f.to], f.message, e.known, e.written));
    }
  }

  /** Without new messages every run ends after at most as many steps as the potential says. */
  lemma {:induction false} FloodDrains(net: Net, ids: set<string>, events: seq<Event>)
    requires WellFormed(net) && Runs(net, events) && InPlay(net, ids)
    requires forall e <- events :: !e.Originate?
    ensures |events| <= Potential(net, ids)
    decreases |events|
  {
    if events != [] {
      StepDrains(net, ids, events[0]);
      FloodDrains(Step(net, events[0]), ids, events[1..]);
    }
  }

  // ---------------------------------------------------------------- the flood reaches everyone

  /** Nobody loses a packet and every table can be written. */
  predicate Lossless(e: Event) {
    !e.Lose? && (e.Deliver? ==> e.written)
  }

  /** A name that makes a node skip a link is the name of the node at its far end. */
  ghost predicate HonestNames(links: seq<seq<Link>>) {
    forall u :: 0 <= u < |links| ==> forall link <- links[u] :: Honest(links, u, link)
  }

  ghost predicate Honest(links: seq<seq<Link>>, u: nat, link: Link) {
    link.to < |links| ==> forall back <- links[link.to] :: link.seenAs in back.names ==> back.to == u
  }

  predicate Passed(node: Node, id: string) {
    exists m <- node.passedOn :: m.body.id == id
  }

  /** The node has broadcast the message, its own or another's. */
  predicate Spread(node: Node, id: string) {
    id in node.own || Passed(node, id)
  }

  predicate Awaits(net: Net, u: nat, id: string) {
    exists f <- net.flights :: f.to == u && Id(f) == id
  }

  ghost predicate Covers(net: Net, u: nat, id: string)
    requires WellFormed(net) && u < |net.nodes|
  {
    Spread(net.nodes[u], id) ==>
      forall link <- net.links[u] :: id in net.nodes[link.to].admitted || Awaits(net, link.to, id)
  }

  /** A packet's sender knows the message, and the packet names the sender as its link does. */
  ghost predicate Sent(net: Net, f: Flight)
    requires WellFormed(net)
  {
    && f.from < |net.nodes| && Id(f) in net.nodes[f.from].admitted
    && exists link <- net.links[f.from] :: link.to == f.to && link.seenAs == f.peer
  }

  ghost predicate Covering(net: Net, id: string)
    requires WellFormed(net)
  {
    && (forall f <- net.flights :: Id(f) == id ==> Sent(net, f))
    && (forall u :: 0 <= u < |net.nodes| ==> Covers(net, u, id))
    && (forall node <- net.nodes :: id in node.admitted ==> id in node.own || id in node.store)
    && (forall node <- net.nodes :: Spread(node, id) ==> id in node.admitted)
  }

  lemma InWithout<T>(s: seq<T>, k: nat, x: T)
    requires k < |s| && x in s && x != s[k]
    ensures x in Without(s, k)
  {
    var i :| 0 <= i < |s| && s[i] == x;
    assert i < k ==> s[..k][i] == x;
    assert i > k ==> s[k + 1..][i - k - 1] == x;
  }

  lemma WithoutIn<T>(s: seq<T>, k: nat)
    requires k < |s|
    ensures forall x <- Without(s, k) :: x in s
  {
  }

  lemma SpreadAfter(node: Node, m: Message, known: bool, id: string)
    ensures var after := Receive(node, m, known, true);
            && after.own == node.own && node.admitted <= after.admitted
            && (Spread(after, id) <==>
                Spread(node, id) || (id == m.body.id && Stores(node, m, known, true) && PassesOn(m)))
            && (id in after.admitted <==> id in node.admitted || (id == m.body.id && !known))
            && (id in after.store <==> id in node.store || (id == m.body.id && !known))
  {
    var after := Receive(node, m, known, true);
    if Passed(node, id) {
      var c :| c in node.passedOn && c.body.id == id;
      assert c in after.passedOn;
    }
    if id == m.body.id && Stores(node, m, known, true) && PassesOn(m) {
      assert Flood.Next(m) in after.passedOn;
    }
  }

  lemma AwaitsAfter(net: Net, k: nat, known: bool, v: nat, id: string)
    requires WellFormed(net) && Enabled(net, Deliver(k, known, true)) && Awaits(net, v, id)
    ensures Awaits(Step(net, Deliver(k, known, true)), v, id) || (v == net.flights[k].to && id == Id(net.flights[k]))
  {
    hide Receive, Replies;
    var g :| g in net.flights && g.to == v && Id(g) == id;
    if g != net.flights[k] {
      InWithout(net.flights, k, g);
      assert g in Step(net, Deliver(k, known, true)).flights;
    }
  }

  /** A new broadcast reaches every neighbour, or skips the one it came from, who knows. */
  lemma RepliesCover(net: Net, k: nat, link: Link)
    requires WellFormed(net) && Enabled(net, Deliver(k, false, true)) && HonestNames(net.links)
    requires Sent(net, net.flights[k])
    requires var f := net.flights[k]; Stores(net.nodes[f.to], f.message, false, true) && PassesOn(f.message)
    requires link in net.links[net.flights[k].to]
    ensures Id(net.flights[k]) in net.nodes[link.to].admitted
            || Awaits(Step(net, Deliver(k, false, true)), link.to, Id(net.flights[k]))
  {
    var f := net.flights[k];
    var links := net.links[f.to];
    var next := Step(net, Deliver(k, false, true));
    if f.peer in link.names {
      var out :| out in net.links[f.from] && out.to == f.to && out.seenAs == f.peer;
      assert Honest(net.links, f.from, out);
      assert link.to == f.from;
    } else {
      CopiesReach(f.to, links, Some(f.peer), Flood.Next(f.message), link);
      var g := Flight(f.to, link.to, link.seenAs, Flood.Next(f.message));
      assert g in next.flights && Id(g) == Id(f);
    }
  }

  lemma CoversAfter(net: Net, k: nat, known: bool, id: string, u: nat)
    requires WellFormed(net) && Enabled(net, Deliver(k, known, true)) && HonestNames(net.links)
    requires Covering(net, id) && u < |net.nodes|
    ensures Covers(Step(net, Deliver(k, known, true)), u, id)
  {
    var e := Deliver(k, known, true);
    var f, next := net.flights[k], Step(net, e);
    assert f in net.flights && Covers(net, u, id);
    SpreadAfter(net.nodes[f.to], f.message, known, id);
    if Spread(next.nodes[u], id) {
      forall link <- net.links[u] ensures id in next.nodes[link.to].admitted || Awaits(next, link.to, id) {
        hide Receive, Replies, Spread, Passed, Awaits, PassesOn, Stores;
        if Spread(net.nodes[u], id) {
          if Awaits(net, link.to, id) {
            AwaitsAfter(net, k, known, link.to, id);
          }
        } else {
          RepliesCover(net, k, link);
        }
      }
    }
  }

  lemma SentAfter(net: Net, k: nat, known: bool, id: string, g: Flight)
    requires WellFormed(net) && Enabled(net, Deliver(k, known, true)) && Covering(net, id)
    requires g in Step(net, Deliver(k, known, true)).flights && Id(g) == id
    ensures Sent(Step(net, Deliver(k, known, true)), g)
  {
    var f := net.flights[k];
    SpreadAfter(net.nodes[f.to], f.message, known, id);
    WithoutIn(net.flights, k);
    if g !in Without(net.flights, k) {
      CopiesFrom(f.to, net.links[f.to], Some(f.peer), Flood.Next(f.message));
    } else {
      hide Receive, Replies;
      assert Sent(net, g);
    }
  }

  lemma DeliverCovers(net: Net, k: nat, known: bool, id: string)
    requires WellFormed(net) && Enabled(net, Deliver(k, known, true)) && HonestNames(net.links) && Covering(net, id)
    ensures Covering(Step(net, Deliver(k, known, true)), id)
  {
    var f, next := net.flights[k], Step(net, Deliver(k, known, true));
    hide Receive, Replies, Covers, Sent, Spread;
    assert f in net.flights && net.nodes[f.to] in net.nodes;
    SpreadAfter(net.nodes[f.to], f.message, known, id);
    forall g <- next.flights | Id(g) == id ensures Sent(next, g) {
      SentAfter(net, k, known, id, g);
    }
    forall u | 0 <= u < |next.nodes| ensures Covers(next, u, id) {
      CoversAfter(net, k, known, id, u);
    }
  }

  /** A new message: every neighbour of its author awaits it, and nothing else changes. */
  lemma OriginateCovers(net: Net, at: nat, body: Body, ttl: int, id: string)
    requires WellFormed(net) && Enabled(net, Originate(at, body, ttl)) && Covering(net, id)
    ensures Covering(Step(net, Originate(at, body, ttl)), id)
  {
    var e := Originate(at, body, ttl);
    var m, next := Original(body, ttl), Step(net, e);
    assert net.nodes[at] in net.nodes;
    assert forall f <- net.flights :: f in next.flights;
    CopiesFrom(at, net.links[at], None, m);
    forall u | 0 <= u < |next.nodes| ensures Covers(next, u, id) {
      assert Covers(net, u, id);
      if Spread(next.nodes[u], id) && !Spread(net.nodes[u], id) {
        forall link <- net.links[u] ensures Awaits(next, link.to, id) {
          CopiesReach(at, net.links[at], None, m, link);
          assert Flight(at, link.to, link.seenAs, m) in next.flights;
        }
      }
    }
    forall f <- next.flights | Id(f) == id ensures Sent(next, f) {
      assert f in net.flights ==> Sent(net, f);
    }
    forall node <- next.nodes
      ensures (id in node.admitted ==> id in node.own || id in node.store) && (Spread(node, id) ==> id in node.admitted)
    {
      assert node in net.nodes || node == Own(net.nodes[at], body.id);
      assert Passed(node, id) ==> node in net.nodes || Passed(net.nodes[at], id);
    }
  }

  lemma {:induction false} RunCovers(net: Net, events: seq<Event>, id: string)
    requires WellFormed(net) && Runs(net, events) && HonestNames(net.links) && Covering(net, id)
    requires forall e <- events :: Lossless(e)
    ensures Covering(After(net, events), id)
    decreases |events|
  {
    hide Covering, HonestNames;
    if events != [] {
      assert events[0] in events && Lossless(events[0]);
      match events[0] {
        case Deliver(k, known, written) => DeliverCovers(net, k, known, id);
        case Originate(at, body, ttl) => OriginateCovers(net, at, body, ttl, id);
        case Lose(_) =>
      }
      RunCovers(Step(net, events[0]), events[1..], id);
    }
  }

  lemma QuietCovers(net: Net, id: string)
    requires Quiet(net)
    ensures Covering(net, id)
  {
    forall u | 0 <= u < |net.nodes| ensures Covers(net, u, id) {
      assert net.nodes[u] in net.nodes;
    }
  }

  /** Once a flood without losses has drained, every neighbour of a node that broadcast the message
      knows it, in whatever order packets went and whatever the caches forgot. */
  lemma NeighboursKnow(net: Net, events: seq<Event>, id: string, u: nat, link: Link)
    requires Quiet(net) && Runs(net, events) && HonestNames(net.links)
    requires (forall e <- events :: Lossless(e)) && After(net, events).flights == []
    requires u < |net.nodes| && Spread(After(net, events).nodes[u], id) && link in net.links[u]
    ensures id in After(net, events).nodes[link.to].admitted
  {
    QuietCovers(net, id);
    RunCovers(net, events, id);
    assert Covers(After(net, events), u, id);
  }

  // ---------------------------------------------------------------- when the hop limit does not bite

  function Holders(nodes: seq<Node>, id: string): (n: nat)
    ensures n <= |nodes|
  {
    if nodes == [] then 0 else (if id in nodes[0].store then 1 else 0) + Holders(nodes[1..], id)
  }

  lemma {:induction false} HoldersUpdate(nodes: seq<Node>, id: string, u: nat, node: Node)
    requires u < |nodes|
    ensures Holders(nodes[u := node], id) + (if id in nodes[u].store then 1 else 0)
         == Holders(nodes, id) + (if id in node.store then 1 else 0)
  {
    var nodes' := nodes[u := node];
    if u == 0 {
      assert nodes'[1..] == nodes[1..];
    } else {
      HoldersUpdate(nodes[1..], id, u - 1, node);
      assert nodes'[1..] == nodes[1..][u - 1 := node];
    }
  }

  lemma {:induction false} HoldersMissing(nodes: seq<Node>, id: string, u: nat)
    requires u < |nodes| && id !in nodes[u].store
    ensures Holders(nodes, id) < |nodes|
  {
    if u > 0 {
      HoldersMissing(nodes[1..], id, u - 1);
    }
  }

  /** A copy cannot have made more hops than there are nodes that stored the message, so a limit above
      the number of nodes never stops it. */
  ghost predicate Free(net: Net, id: string) {
    && (forall f <- net.flights :: Id(f) == id ==>
          && Hop(f.message) <= Holders(net.nodes, id) && |net.nodes| < Ttl(f.message)
          && GlobalChannel(f.message.body.receiver))
    && (forall node <- net.nodes :: id in node.store ==> Passed(node, id))
  }

  lemma DeliverFree(net: Net, k: nat, known: bool, id: string)
    requires WellFormed(net) && Enabled(net, Deliver(k, known, true)) && Free(net, id)
    ensures Free(Step(net, Deliver(k, known, true)), id)
  {
    var f, next := net.flights[k], Step(net, Deliver(k, known, true));
    var node := net.nodes[f.to];
    var after := Receive(node, f.message, known, true);
    assert f in net.flights && node in net.nodes;
    HoldersUpdate(net.nodes, id, f.to, after);
    SpreadAfter(node, f.message, known, id);
    PassedAfter(node, f.message, known, id);
    if Id(f) == id && Stores(node, f.message, known, true) {
      HoldersMissing(net.nodes, id, f.to);
    }
    hide Receive, Copies, GlobalChannel, Holders, Passed;
    WithoutIn(net.flights, k);
    forall g <- next.flights | Id(g) == id
      ensures Hop(g.message) <= Holders(next.nodes, id) && |next.nodes| < Ttl(g.message)
              && GlobalChannel(g.message.body.receiver)
    {
    }
  }

  lemma PassedAfter(node: Node, m: Message, known: bool, id: string)
    ensures Passed(Receive(node, m, known, true), id)
       <==> Passed(node, id) || (id == m.body.id && Stores(node, m, known, true) && PassesOn(m))
  {
    var after := Receive(node, m, known, true);
    if Passed(node, id) {
      var c :| c in node.passedOn && c.body.id == id;
      assert c in after.passedOn;
    }
    if id == m.body.id && Stores(node, m, known, true) && PassesOn(m) {
      assert Flood.Next(m) in after.passedOn;
    }
  }

  lemma OriginateFree(net: Net, at: nat, body: Body, ttl: int, id: string)
    requires WellFormed(net) && Enabled(net, Originate(at, body, ttl)) && Free(net, id)
    requires body.id == id ==> |net.nodes| < Ttl(Original(body, ttl))
    ensures Free(Step(net, Originate(at, body, ttl)), id)
  {
    assert net.nodes[at] in net.nodes;
    HoldersUpdate(net.nodes, id, at, Own(net.nodes[at], body.id));
  }

  /** No message of this identifier is sent with a hop limit the network could exhaust. */
  ghost predicate Generous(events: seq<Event>, id: string, nodes: nat) {
    forall e <- events :: Lossless(e) && (e.Originate? && e.body.id == id ==> nodes < Ttl(Original(e.body, e.ttl)))
  }

  lemma {:induction false} RunFree(net: Net, events: seq<Event>, id: string)
    requires WellFormed(net) && Runs(net, events) && Free(net, id) && Generous(events, id, |net.nodes|)
    ensures Free(After(net, events), id)
    decreases |events|
  {
    hide Free;
    if events != [] {
      assert events[0] in events && Lossless(events[0]);
      match events[0] {
        case Deliver(k, known, written) => DeliverFree(net, k, known, id);
        case Originate(at, body, ttl) => OriginateFree(net, at, body, ttl, id);
        case Lose(_) =>
      }
      RunFree(Step(net, events[0]), events[1..], id);
    }
  }

  ghost predicate Path(links: seq<seq<Link>>, path: seq<nat>) {
    && path != []
    && (forall i :: 0 <= i < |path| ==> path[i] < |links|)
    && (|path| > 1 ==> (exists link <- links[path[0]] :: link.to == path[1]) && Path(links, path[1..]))
  }

  lemma NextKnows(net: Net, events: seq<Event>, id: string, u: nat, link: Link)
    requires Quiet(net) && Runs(net, events) && HonestNames(net.links)
    requires Generous(events, id, |net.nodes|) && After(net, events).flights == []
    requires u < |net.nodes| && link in net.links[u] && id in After(net, events).nodes[u].admitted
    ensures link.to < |net.nodes| && id in After(net, events).nodes[link.to].admitted
  {
    hide HonestNames;
    var last := After(net, events);
    assert last.nodes[u] in last.nodes;
    QuietCovers(net, id);
    RunCovers(net, events, id);
    RunFree(net, events, id);
    NeighboursKnow(net, events, id, u, link);
  }

  /** A drained flood without losses has reached every node there is a path to, for a message sent
      with a hop limit above the number of nodes (the default does for up to four). */
  lemma {:induction false} EveryoneKnows(net: Net, events: seq<Event>, id: string, path: seq<nat>)
    requires Quiet(net) && Runs(net, events) && HonestNames(net.links)
    requires Generous(events, id, |net.nodes|) && After(net, events).flights == []
    requires Path(net.links, path) && id in After(net, events).nodes[path[0]].admitted
    ensures id in After(net, events).nodes[path[|path| - 1]].admitted
    decreases |path|
  {
    hide Quiet, Runs, HonestNames, Generous, After;
    if |path| > 1 {
      var link :| link in net.links[path[0]] && link.to == path[1];
      NextKnows(net, events, id, path[0], link);
      EveryoneKnows(net, events, id, path[1..]);
    }
  }
}
