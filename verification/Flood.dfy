/**
 * Flooding of global channel messages: each node keeps a forgetful cache of identifiers and an
 * insert-or-ignore message table, and passes a copy on while its hop count is below its limit.
 */
module Flood {
  import opened Text
  import Address
  import OrderedMap
  import ReplayCache

  datatype Body = Body(
    id: string, sender: string, receiver: string, content: string,
    isAction: bool, isSnippet: bool, isE2EE: bool, timestamp: string)

  /** Missing hop and ttl fields are None. */
  datatype Message = Message(body: Body, hop: Option<int>, ttl: Option<int>)

  const DEFAULT_TTL := 5

  function Hop(m: Message): int {
    match m.hop case Some(h) => h case None => 0
  }

  function Ttl(m: Message): int {
    if m.ttl == None || m.ttl == Some(0) then DEFAULT_TTL else m.ttl.value
  }

  /** Absent fields, and a limit of zero, stand for the defaults. */
  lemma HopsRead(m: Message)
    ensures Hop(m) == if m.hop.Some? then m.hop.value else 0
    ensures Ttl(m) == if m.ttl.Some? && m.ttl.value != 0 then m.ttl.value else 5
  {
  }

  predicate GlobalChannel(receiver: string) {
    "#" <= receiver && ':' !in receiver
  }

  /** A connection to another node: `names` are those a received message's sender may go by that make
      the broadcast skip it, `seenAs` is how the far end names this one. */
  datatype Link = Link(to: nat, names: set<string>, seenAs: string)

  datatype Flight = Flight(from: nat, to: nat, peer: string, message: Message)

  /** What one node did: identifiers ever admitted to its cache, its message table, what it emitted to
      its user, the copies it passed on, and the identifiers of its own messages. */
  datatype Node = Node(
    admitted: set<string>, store: map<string, Body>, emitted: seq<Body>, passedOn: seq<Message>, own: set<string>)

  const FRESH := Node({}, map[], [], [], {})

  /** The copies one broadcast writes, one for each link not leading back. */
  function Copies(from: nat, links: seq<Link>, except: Option<string>, m: Message): (flights: seq<Flight>)
    ensures |flights| <= |links|
    ensures forall f <- flights :: f.from == from && f.message == m
  {
    if links == [] then []
    else
      var rest := Copies(from, links[1..], except, m);
      if except.Some? && except.value in links[0].names then rest
      else [Flight(from, links[0].to, links[0].seenAs, m)] + rest
  }

  lemma {:induction false} CopiesReach(from: nat, links: seq<Link>, except: Option<string>, m: Message, link: Link)
    requires link in links && !(except.Some? && except.value in link.names)
    ensures Flight(from, link.to, link.seenAs, m) in Copies(from, links, except, m)
  {
    if links[0] != link || (except.Some? && except.value in links[0].names) {
      CopiesReach(from, links[1..], except, m, link);
    }
  }

  /** Every copy goes over a link that does not lead back. */
  lemma {:induction false} CopiesFrom(from: nat, links: seq<Link>, except: Option<string>, m: Message)
    ensures forall f <- Copies(from, links, except, m) ::
              exists link <- links ::
                f.to == link.to && f.peer == link.seenAs && !(except.Some? && except.value in link.names)
  {
    if links != [] {
      CopiesFrom(from, links[1..], except, m);
      assert forall link <- links[1..] :: link in links;
    }
  }

  predicate LeadsBack(link: Link, except: Option<string>) {
    except.Some? && except.value in link.names
  }

  /** The places of the links that do not lead back. */
  function Onward(links: seq<Link>, except: Option<string>): set<nat> {
    set i: nat | i < |links| && !LeadsBack(links[i], except)
  }

  lemma OnwardSnoc(links: seq<Link>, except: Option<string>, link: Link)
    ensures |Onward(links + [link], except)| == |Onward(links, except)| + if LeadsBack(link, except) then 0 else 1
  {
    hide LeadsBack;
    assert Onward(links + [link], except)
        == if LeadsBack(link, except) then Onward(links, except) else Onward(links, except) + {|links|};
  }

  /** There is one for each of them, and none for a link that goes by the excepted name. */
  lemma {:induction false} CopiesCount(from: nat, links: seq<Link>, except: Option<string>, m: Message)
    ensures |Copies(from, links, except, m)| == |Onward(links, except)|
  {
    if links != [] {
      hide Copies, Onward, LeadsBack;
      var less, last := links[..|links| - 1], links[|links| - 1];
      assert links == less + [last];
      CopiesCount(from, less, except, m);
      CopiesSnoc(from, less, except, m, last);
      OnwardSnoc(less, except, last);
    }
  }

  lemma {:induction false} CopiesSnoc(from: nat, links: seq<Link>, except: Option<string>, m: Message, link: Link)
    ensures Copies(from, links + [link], except, m) == Copies(from, links, except, m)
            + if LeadsBack(link, except) then [] else [Flight(from, link.to, link.seenAs, m)]
  {
    if links != [] {
      CopiesSnoc(from, links[1..], except, m, link);
      assert (links + [link])[1..] == links[1..] + [link];
    }
  }

  /** An address is flooded exactly if it is a channel's and names no place. */
  lemma FloodsGlobalOnly(isChannel: bool, name: string, place: Address.Place)
    requires ':' !in name
    ensures GlobalChannel(Address.Print(isChannel, name, place)) <==> isChannel && place.Global?
  {
    var tail := Address.Tail(place);
    var raw := Address.Print(isChannel, name, place);
    assert raw[0] == Address.Mark(isChannel);
    if !place.Global? {
      assert tail[0] == ':';
      assert raw[1 + |name|] == ':';
    } else {
      assert raw == [Address.Mark(isChannel)] + name;
    }
  }

  /** The copy passed on. */
  function Next(m: Message): Message {
    Message(m.body, Some(Hop(m) + 1), Some(Ttl(m)))
  }

  predicate PassesOn(m: Message) {
    GlobalChannel(m.body.receiver) && Hop(m) + 1 < Ttl(m)
  }

  /** Receiving a message: `known` is the cache's verdict, `written` whether the table can be written. */
  function Receive(node: Node, m: Message, known: bool, written: bool): Node {
    var id := m.body.id;
    if known then node
    else
      var seen := node.(admitted := node.admitted + {id});
      if id in node.store || !written then seen
      else seen.(store := node.store[id := m.body], emitted := node.emitted + [m.body],
                 passedOn := node.passedOn + if PassesOn(m) then [Next(m)] else [])
  }

  predicate Stores(node: Node, m: Message, known: bool, written: bool) {
    !known && m.body.id !in node.store && written
  }

  function Replies(node: Node, self: nat, links: seq<Link>, m: Message, peer: string, known: bool, written: bool)
    : (flights: seq<Flight>)
    ensures |flights| <= |links|
  {
    if Stores(node, m, known, written) && PassesOn(m) then Copies(self, links, Some(peer), Next(m)) else []
  }

  // ---------------------------------------------------------------- one node, as it runs

  class FloodNode {
    const self: nat
    const seenMessages: ReplayCache.MessageTtlCache
    var links: seq<Link>
    var messages: map<string, Body>
    var emitted: seq<Body>
    var written: seq<Flight>
    ghost var passedOn: seq<Message>
    ghost var own: set<string>

    constructor (self: nat)
      ensures fresh(seenMessages) && seenMessages.Valid() && seenMessages.clock == 0
      ensures seenMessages.ttlMs == 180000 && seenMessages.maxCapacity == 5000
      ensures this.self == self && links == [] && written == [] && State() == FRESH
    {
      hide ReplayCache.History, ReplayCache.Live, ReplayCache.Replayed;
      this.self := self;
      seenMessages := new ReplayCache.MessageTtlCache(180000, 5000);
      links, messages, emitted, written, passedOn, own := [], map[], [], [], [], {};
    }

    ghost function Admitted(): set<string>
      reads seenMessages
    {
      set e <- seenMessages.admitted :: e.key
    }

    ghost function State(): Node
      reads this, seenMessages
    {
      Node(Admitted(), messages, emitted, passedOn, own)
    }

    /** INSERT OR IGNORE; a failing write reads as ignored. */
    method SaveMessage(body: Body, writable: bool) returns (changed: bool)
      modifies this`messages
      ensures changed <==> writable && body.id !in old(messages)
      ensures messages == if changed then old(messages)[body.id := body] else old(messages)
    {
      changed := false;
      if writable && body.id !in messages {
        messages := messages[body.id := body];
        changed := true;
      }
    }

    method BroadcastChannelMessage(m: Message, except: Option<string>)
      modifies this`written
      ensures written == old(written) + Copies(self, links, except, m)
    {
      var i := 0;
      assert links[0..] == links;
      while i < |links|
        invariant i <= |links|
        invariant written + Copies(self, links[i..], except, m) == old(written) + Copies(self, links, except, m)
      {
        assert links[i..][1..] == links[i + 1..];
        if !(except.Some? && except.value in links[i].names) {
          var rest := Copies(self, links[i + 1..], except, m);
          var f := Flight(self, links[i].to, links[i].seenAs, m);
          assert written + ([f] + rest) == (written + [f]) + rest;
          written := written + [f];
        }
        i := i + 1;
      }
      assert links[i..] == [];
    }

    /** A new message of this node's own: it is remembered as seen and broadcast, not stored here. */
    method SendGlobal(body: Body, now: int)
      requires seenMessages.Valid() && seenMessages.clock <= now && now > 0
      requires body.id !in Admitted()
      modifies this, seenMessages
      ensures seenMessages.Valid() && links == old(links)
      ensures State() == old(State()).(admitted := old(Admitted()) + {body.id}, own := old(own) + {body.id})
      ensures written == old(written) + Copies(self, links, None, Message(body, Some(0), Some(DEFAULT_TTL)))
    {
      hide ReplayCache.History, ReplayCache.Live, ReplayCache.Replayed, Copies;
      var isNew := seenMessages.Admit(body.id, now);
      assert isNew by {
        if ReplayCache.Replayed(old(seenMessages.admitted), body.id, now, seenMessages.ttlMs, seenMessages.maxCapacity) {
          ReplayCache.ReplayedBefore(old(seenMessages.admitted), body.id, now, seenMessages.ttlMs, seenMessages.maxCapacity);
        }
      }
      AdmittedGrows(old(seenMessages.admitted), OrderedMap.Slot(body.id, now));
      own := own + {body.id};
      BroadcastChannelMessage(Message(body, Some(0), Some(DEFAULT_TTL)), None);
    }

    /** The cache's verdict is the window rule over everything it ever admitted; the rest is `Receive`. */
    method HandleMessage(m: Message, remotePeer: string, now: int, writable: bool) returns (duplicate: bool)
      requires seenMessages.Valid() && seenMessages.clock <= now && now > 0
      modifies this, seenMessages
      ensures seenMessages.Valid()
      ensures duplicate ==> m.body.id in old(Admitted())
      ensures duplicate <==> ReplayCache.Replayed(old(seenMessages.admitted), m.body.id, now,
                                                  seenMessages.ttlMs, seenMessages.maxCapacity)
      ensures State() == Receive(old(State()), m, duplicate, writable)
      ensures written == old(written) + Replies(old(State()), self, links, m, remotePeer, duplicate, writable)
      ensures links == old(links)
      ensures messages == if !duplicate && m.body.id !in old(messages) && writable
                          then old(messages)[m.body.id := m.body] else old(messages)
      ensures emitted == if messages != old(messages) then old(emitted) + [m.body] else old(emitted)
      ensures passedOn != old(passedOn) ==> "#" <= m.body.receiver && ':' !in m.body.receiver
      ensures passedOn == old(passedOn) ==> written == old(written)
      ensures messages != old(messages) && "#" <= m.body.receiver && ':' !in m.body.receiver ==>
                var hop := 1 + if m.hop.Some? then m.hop.value else 0;
                var ttl := if m.ttl.Some? && m.ttl.value != 0 then m.ttl.value else 5;
                passedOn == old(passedOn) + if hop < ttl then [Message(m.body, Some(hop), Some(ttl))] else []
    {
      HopsRead(m);
      hide ReplayCache.History, ReplayCache.Live, ReplayCache.Replayed, Copies, Ttl, Hop;
      var isNew := seenMessages.Admit(m.body.id, now);
      if !isNew {
        ReplayCache.ReplayedBefore(old(seenMessages.admitted), m.body.id, now, seenMessages.ttlMs, seenMessages.maxCapacity);
        return true;
      }
      duplicate := false;
      assert Admitted() == old(Admitted()) + {m.body.id} by {
        AdmittedGrows(old(seenMessages.admitted), OrderedMap.Slot(m.body.id, now));
      }
      var msg := SaveMessage(m.body, writable);
      if msg {
        emitted := emitted + [m.body];
        var hop := Hop(m) + 1;
        var ttl := Ttl(m);
        if GlobalChannel(m.body.receiver) && hop < ttl {
          passedOn := passedOn + [Message(m.body, Some(hop), Some(ttl))];
          BroadcastChannelMessage(Message(m.body, Some(hop), Some(ttl)), Some(remotePeer));
        }
      }
    }
  }

  lemma AdmittedGrows(h: seq<ReplayCache.Entry>, e: ReplayCache.Entry)
    ensures (set x <- h + [e] :: x.key) == (set x <- h :: x.key) + {e.key}
  {
    assert forall x <- h + [e] :: x in h || x == e;
    assert e in h + [e];
    assert forall x <- h :: x in h + [e];
  }
}
