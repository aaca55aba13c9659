/**
 * The pool of known peers: what may enter it, how reports change a peer's standing, who is evicted,
 * and the random sample drawn from it.
 */
module PeerPool {
  import opened OrderedMap
  import opened Text

  const MAX_PEERS := 250

  datatype Config = Config(
    serverName: string, federationPort: int, publicPort: int, bootstrap: set<string>, interfaces: seq<string>)

  datatype Meta = Meta(score: int, failures: nat, fromGossip: bool, lastSeen: int)

  /** An address with its standing. */
  type Peer = Slot<Meta>

  /** `peers` is a Map in insertion order. */
  datatype Pool = Pool(peers: seq<Peer>, edgeIps: set<string>, publicIp: string)

  const MAPPED := "::ffff:"

  function Clean(ip: string): string {
    if MAPPED <= ip then ip[|MAPPED|..] else ip
  }

  /** Without the first occurrence of the mapped-address prefix. */
  function Unmapped(ip: string): string {
    var i := Find(ip, MAPPED);
    if i < 0 then ip else ip[..i] + ip[i + |MAPPED|..]
  }

  predicate Loopback(host: string) {
    host in {"localhost", "127.0.0.1", "::1", "0.0.0.0", "255.255.255.255"}
  }

  predicate IsSelf(c: Config, publicIp: string, host: string, port: Option<int>) {
    && port.Some? && (port.value == c.federationPort || port.value == c.publicPort)
    && (|| host == c.serverName
        || host in {"localhost", "127.0.0.1", "::1", "::ffff:127.0.0.1", "0.0.0.0"}
        || (publicIp != "" && (host == publicIp || host == MAPPED + publicIp))
        || exists address <- c.interfaces :: Unmapped(address) == host || address == host)
  }

  /** host:port with a usable port, of no loopback, own or edge host. */
  predicate Admissible(c: Config, edgeIps: set<string>, publicIp: string, address: string) {
    var host, port := HostPart(address), PortPart(address);
    && ':' in address && host != "" && port.Some? && 0 < port.value <= 65535
    && !Loopback(Clean(host))
    && !IsSelf(c, publicIp, host, port)
    && Clean(host) !in edgeIps && host !in edgeIps
  }

  // ---------------------------------------------------------------- reports about a peer

  /** The first peer of least score. */
  function Lowest(s: seq<Peer>): (i: nat)
    requires s != []
    ensures i < |s|
    ensures forall j :: 0 <= j < |s| ==> s[i].value.score <= s[j].value.score
    ensures forall j :: 0 <= j < i ==> s[i].value.score < s[j].value.score
  {
    if |s| == 1 then 0
    else
      var k := Lowest(s[..|s| - 1]);
      if s[|s| - 1].value.score < s[k].value.score then |s| - 1 else k
  }

  lemma LowestNext(s: seq<Peer>, i: nat)
    requires 0 < i < |s|
    ensures var k := Lowest(s[..i]);
            Lowest(s[..i + 1]) == if s[i].value.score < s[k].value.score then i else k
  {
    assert s[..i + 1][..i] == s[..i];
  }

  function MakeRoom(s: seq<Peer>, address: string): (t: seq<Peer>)
    ensures |s| <= MAX_PEERS && !Has(s, address) ==> |t| < MAX_PEERS
  {
    if |s| >= MAX_PEERS && !Has(s, address) then
      var k := Lowest(s);
      assert IndexOf(s, s[k].key) < |s|;
      Delete(s, s[k].key)
    else s
  }

  function Judge(m: Meta, success: bool, fromGossip: bool, now: int): Meta {
    if success then Meta(if fromGossip then 60 else 100, 0, fromGossip, now)
    else m.(score := m.score - 5, failures := m.failures + 1)
  }

  predicate Unwanted(m: Meta) {
    m.score <= 0 || m.failures >= 10 || (m.fromGossip && m.failures >= 1)
  }

  /** The pool with room made, after the report: gossip does not touch a peer already known, and a peer
      found unwanted is not kept. */
  function Recorded(c: Config, room: seq<Peer>, address: string, success: bool, fromGossip: bool, now: int): seq<Peer> {
    var i := IndexOf(room, address);
    var current := if i < |room| then room[i].value
                   else Meta(if fromGossip then 60 else 100, 0, fromGossip, now);
    if success && fromGossip && i < |room| then Put(room, address, current.(lastSeen := now))
    else
      var next := Judge(current, success, fromGossip, now);
      if address !in c.bootstrap && Unwanted(next) then Delete(room, address) else Put(room, address, next)
  }

  function Report(c: Config, s: Pool, address: string, success: bool, fromGossip: bool, now: int): Pool {
    if !Admissible(c, s.edgeIps, s.publicIp, address) then s
    else s.(peers := Recorded(c, MakeRoom(s.peers, address), address, success, fromGossip, now))
  }

  function EvictHost(s: seq<Peer>, host: string): seq<Peer> {
    if host == "" then s
    else Keep(s, (p: Peer) => ':' in p.key && Clean(HostPart(p.key)) == Clean(host))
  }

  function RegisterEdge(s: Pool, ip: string): Pool {
    if ip == "" then s
    else Pool(EvictHost(s.peers, Clean(ip)), s.edgeIps + {Clean(ip)}, s.publicIp)
  }

  function SetPublic(c: Config, s: Pool, ip: string): Pool {
    if ip == "" then s
    else Pool(Keep(s.peers, (p: Peer) => ':' !in p.key || IsSelf(c, ip, HostPart(p.key), PortPart(p.key))),
              s.edgeIps, ip)
  }

  // ---------------------------------------------------------------- what every operation keeps

  /** A score says how often contact failed; gossip is believed less, and not after one failure. */
  predicate Standing(c: Config, p: Peer) {
    && p.value.score + 5 * p.value.failures == (if p.value.fromGossip then 60 else 100)
    && (p.key !in c.bootstrap ==> p.value.failures < 10 && (p.value.fromGossip ==> p.value.failures == 0))
  }

  ghost predicate Sound(c: Config, s: Pool) {
    && DistinctKeys(s.peers) && |s.peers| <= MAX_PEERS
    && forall p <- s.peers :: Admissible(c, s.edgeIps, s.publicIp, p.key) && Standing(c, p)
  }

  lemma MakeRoomSound(c: Config, s: Pool, address: string)
    requires Sound(c, s)
    ensures var room := MakeRoom(s.peers, address);
            Sound(c, s.(peers := room)) && (Has(room, address) || |room| < MAX_PEERS)
  {
    hide Admissible;
    if |s.peers| >= MAX_PEERS && !Has(s.peers, address) {
      DeleteDistinct(s.peers, s.peers[Lowest(s.peers)].key);
    }
  }

  lemma PutSound(c: Config, s: Pool, address: string, meta: Meta)
    requires Sound(c, s) && (Has(s.peers, address) || |s.peers| < MAX_PEERS)
    requires Admissible(c, s.edgeIps, s.publicIp, address) && Standing(c, Slot(address, meta))
    ensures Sound(c, s.(peers := Put(s.peers, address, meta)))
  {
    hide Admissible, Standing;
    PutDistinct(s.peers, address, meta);
  }

  lemma DeleteSound(c: Config, s: Pool, address: string)
    requires Sound(c, s)
    ensures Sound(c, s.(peers := Delete(s.peers, address)))
  {
    DeleteDistinct(s.peers, address);
  }

  lemma JudgeStanding(c: Config, address: string, current: Meta, success: bool, fromGossip: bool, now: int)
    requires Standing(c, Slot(address, current))
    ensures var next := Judge(current, success, fromGossip, now);
            address in c.bootstrap || !Unwanted(next) ==> Standing(c, Slot(address, next))
  {
  }

  lemma ReportSound(c: Config, s: Pool, address: string, success: bool, fromGossip: bool, now: int)
    requires Sound(c, s)
    ensures Sound(c, Report(c, s, address, success, fromGossip, now))
  {
    if Admissible(c, s.edgeIps, s.publicIp, address) {
      var room := MakeRoom(s.peers, address);
      MakeRoomSound(c, s, address);
      var i := IndexOf(room, address);
      var current := if i < |room| then room[i].value else Meta(if fromGossip then 60 else 100, 0, fromGossip, now);
      assert Standing(c, Slot(address, current)) by {
        assert i < |room| ==> room[i] in room && room[i] == Slot(address, current);
      }
      assert Standing(c, Slot(address, current.(lastSeen := now)));
      var next := Judge(current, success, fromGossip, now);
      JudgeStanding(c, address, current, success, fromGossip, now);
      hide Admissible, Standing, Sound, Judge, Unwanted;
      if success && fromGossip && i < |room| {
        PutSound(c, s.(peers := room), address, current.(lastSeen := now));
      } else if address !in c.bootstrap && Unwanted(next) {
        DeleteSound(c, s.(peers := room), address);
      } else {
        PutSound(c, s.(peers := room), address, next);
      }
    }
  }

  lemma RegisterEdgeSound(c: Config, s: Pool, ip: string)
    requires Sound(c, s)
    ensures Sound(c, RegisterEdge(s, ip))
  {
    if ip != "" {
      var host := Clean(ip);
      if host != "" {
        var doomed := (p: Peer) => ':' in p.key && Clean(HostPart(p.key)) == Clean(host);
        KeepDistinct(s.peers, doomed);
        KeepIn(s.peers, doomed);
      }
      var next := RegisterEdge(s, ip);
      forall p <- next.peers ensures Admissible(c, next.edgeIps, next.publicIp, p.key) {
        HostHasNoColon(p.key);
        assert MAPPED[0] == ':';
        assert Clean(HostPart(p.key)) == HostPart(p.key);
      }
    }
  }

  /** Peers of that host go, and no others, whether or not the host comes in its IPv6-mapped form. */
  lemma RegisterEdgeEffect(c: Config, s: Pool, ip: string)
    requires Sound(c, s) && ip != ""
    ensures var next := RegisterEdge(s, ip);
            var entry := if "::ffff:" <= ip then ip[7..] else ip;
            var host := if "::ffff:" <= entry then entry[7..] else entry;
            && next.edgeIps == s.edgeIps + {entry}
            && (forall p <- s.peers :: p in next.peers <==> entry == "" || HostPart(p.key) != host)
            && (forall p <- next.peers :: p in s.peers)
  {
    var host := Clean(ip);
    var doomed := (p: Peer) => ':' in p.key && Clean(HostPart(p.key)) == Clean(host);
    KeepIn(s.peers, doomed);
    forall p <- s.peers ensures doomed(p) <==> HostPart(p.key) == Clean(host) {
      HostHasNoColon(p.key);
      assert MAPPED[0] == ':';
      assert Clean(HostPart(p.key)) == HostPart(p.key);
    }
  }

  /** Own addresses go, and no others. */
  lemma SetPublicEffect(c: Config, s: Pool, ip: string)
    requires Sound(c, s) && ip != ""
    ensures var next := SetPublic(c, s, ip);
            && next.publicIp == ip
            && (forall p <- s.peers :: p in next.peers <==> !Own(c, ip, HostPart(p.key), PortPart(p.key).value))
            && (forall p <- next.peers :: p in s.peers)
  {
    forall p <- s.peers
      ensures IsSelf(c, ip, HostPart(p.key), PortPart(p.key)) <==> Own(c, ip, HostPart(p.key), PortPart(p.key).value)
    {
      WelcomeExactly(c, s, p.key);
      HostHasNoColon(p.key);
      SelfIsOwn(c, ip, HostPart(p.key), PortPart(p.key).value);
    }
    KeepIn(s.peers, (p: Peer) => ':' !in p.key || IsSelf(c, ip, HostPart(p.key), PortPart(p.key)));
  }

  lemma SetPublicSound(c: Config, s: Pool, ip: string)
    requires Sound(c, s)
    ensures Sound(c, SetPublic(c, s, ip))
  {
    if ip != "" {
      var doomed := (p: Peer) => ':' !in p.key || IsSelf(c, ip, HostPart(p.key), PortPart(p.key));
      KeepDistinct(s.peers, doomed);
      KeepIn(s.peers, doomed);
    }
  }

  /** A failure costs five points and one failure or, at ten failures or for gossip, the place, which only a
      bootstrap peer keeps. A peer not known yet starts from the standing of a new one. */
  function AfterFailure(c: Config, address: string, was: Option<Meta>, fromGossip: bool, now: int): Option<Meta> {
    var m := if was.Some? then was.value else Meta(if fromGossip then 60 else 100, 0, fromGossip, now);
    if address !in c.bootstrap && (m.fromGossip || m.failures == 9) then None
    else Some(Meta(m.score - 5, m.failures + 1, m.fromGossip, m.lastSeen))
  }

  lemma FailureJudged(c: Config, address: string, was: Option<Meta>, fromGossip: bool, now: int)
    requires was.Some? ==> Standing(c, Slot(address, was.value))
    ensures var m := if was.Some? then was.value else Meta(if fromGossip then 60 else 100, 0, fromGossip, now);
            var next := Judge(m, false, fromGossip, now);
            AfterFailure(c, address, was, fromGossip, now) ==
              if address !in c.bootstrap && Unwanted(next) then None else Some(next)
  {
  }

  /** What a report does to the peer itself and to the others: a direct success restores full trust, gossip
      about a known peer changes no standing, a failure is as above; of the others only the first of least
      score can go, and only if the pool was full and the peer new. */
  lemma ReportEffect(c: Config, s: Pool, address: string, success: bool, fromGossip: bool, now: int)
    requires Sound(c, s) && Admissible(c, s.edgeIps, s.publicIp, address)
    ensures var was, after := Get(s.peers, address), Get(Report(c, s, address, success, fromGossip, now).peers, address);
            && (success && !fromGossip ==> after == Some(Meta(100, 0, false, now)))
            && (success && fromGossip ==>
                  after == Some(if was.Some? then was.value.(lastSeen := now) else Meta(60, 0, true, now)))
            && (!success ==> after == AfterFailure(c, address, was, fromGossip, now))
    ensures forall p <- s.peers | p.key != address
              && p !in Report(c, s, address, success, fromGossip, now).peers ::
                && |s.peers| == MAX_PEERS && Get(s.peers, address) == None
                && p == s.peers[Lowest(s.peers)] && forall q <- s.peers :: p.value.score <= q.value.score
  {
    var room := MakeRoom(s.peers, address);
    RoomEffect(s.peers, address);
    MakeRoomSound(c, s, address);
    KnownStanding(c, s, address);
    RecordEffect(c, room, address, success, fromGossip, now);
    FailureJudged(c, address, Get(s.peers, address), fromGossip, now);
    hide MakeRoom, Recorded, Admissible, Get, Has, Lowest, AfterFailure, Standing, Sound;
  }

  lemma KnownStanding(c: Config, s: Pool, address: string)
    requires Sound(c, s)
    ensures var known := Get(s.peers, address); known.Some? ==> Standing(c, Slot(address, known.value))
    ensures Has(s.peers, address) <==> Get(s.peers, address).Some?
  {
    hide Admissible;
    var i := IndexOf(s.peers, address);
    if i < |s.peers| {
      assert s.peers[i] in s.peers;
    }
  }

  lemma RoomEffect(s: seq<Peer>, address: string)
    requires DistinctKeys(s) && |s| <= MAX_PEERS
    ensures DistinctKeys(MakeRoom(s, address)) && Get(MakeRoom(s, address), address) == Get(s, address)
    ensures Has(s, address) ==> MakeRoom(s, address) == s
    ensures forall p <- s :: p !in MakeRoom(s, address) ==>
              && |s| == MAX_PEERS && !Has(s, address)
              && p == s[Lowest(s)] && forall q <- s :: p.value.score <= q.value.score
  {
    if |s| >= MAX_PEERS && !Has(s, address) {
      var k := Lowest(s);
      IndexIs(s, s[k].key, k);
      DeleteDistinct(s, s[k].key);
      var t := Delete(s, s[k].key);
      assert t == s[..k] + s[k + 1..];
      forall j | 0 <= j < |s| && j != k ensures s[j] in t {
        assert s[j] == t[if j < k then j else j - 1];
      }
      DeleteGet(s, s[k].key, address);
    }
  }

  lemma RecordEffect(c: Config, room: seq<Peer>, address: string, success: bool, fromGossip: bool, now: int)
    requires DistinctKeys(room)
    ensures var was := Get(room, address);
            var current := if was.Some? then was.value else Meta(if fromGossip then 60 else 100, 0, fromGossip, now);
            Get(Recorded(c, room, address, success, fromGossip, now), address) ==
              if success && fromGossip && was.Some? then Some(current.(lastSeen := now))
              else var next := Judge(current, success, fromGossip, now);
                   if address !in c.bootstrap && Unwanted(next) then None else Some(next)
    ensures forall p <- room | p.key != address :: p in Recorded(c, room, address, success, fromGossip, now)
  {
    var i := IndexOf(room, address);
    var current := if i < |room| then room[i].value else Meta(if fromGossip then 60 else 100, 0, fromGossip, now);
    var next := Judge(current, success, fromGossip, now);
    PutGet(room, address, current.(lastSeen := now), address);
    PutGet(room, address, next, address);
    OthersStay(room, address, current.(lastSeen := now));
    OthersStay(room, address, next);
    DeleteGet(room, address, address);
  }

  lemma OthersStay(s: seq<Peer>, address: string, meta: Meta)
    ensures forall p <- s | p.key != address :: p in Put(s, address, meta) && p in Delete(s, address)
  {
    var i := IndexOf(s, address);
    var t, u := Put(s, address, meta), Delete(s, address);
    forall p <- s | p.key != address ensures p in t && p in u {
      var j :| 0 <= j < |s| && s[j] == p;
      assert t[j] == p;
      assert u[if j < i then j else j - 1] == p;
    }
  }

  /** The server's own address at this port: by its name, by the address it is seen under, or by that of one of
      its network interfaces, which may carry the IPv6-mapped prefix. */
  ghost predicate Own(c: Config, publicIp: string, host: string, port: int) {
    && (port == c.federationPort || port == c.publicPort)
    && (host == c.serverName || (publicIp != "" && host == publicIp)
        || host in c.interfaces
        || exists k :: 0 <= k <= |host| && host[..k] + "::ffff:" + host[k..] in c.interfaces)
  }

  lemma UnmappedIs(address: string, host: string)
    requires ':' !in host
    ensures Unmapped(address) == host <==>
            address == host || exists k :: 0 <= k <= |host| && address == host[..k] + MAPPED + host[k..]
  {
    FindFirst(address, MAPPED);
    var i := Find(address, MAPPED);
    if i >= 0 {
      assert address == address[..i] + MAPPED + address[i + |MAPPED|..];
      assert address[i] == ':';
      if Unmapped(address) == host {
        assert host[..i] == address[..i] && host[i..] == address[i + |MAPPED|..];
      }
    }
    forall k | 0 <= k <= |host| && address == host[..k] + MAPPED + host[k..] ensures i == k {
      assert OccursAt(address, MAPPED, k);
      assert forall j :: 0 <= j < k ==> address[j] == host[j];
    }
    if k :| 0 <= k <= |host| && address == host[..k] + MAPPED + host[k..] {
      assert address[..k] == host[..k] && address[k + |MAPPED|..] == host[k..] && host == host[..k] + host[k..];
    }
  }

  lemma SelfIsOwn(c: Config, publicIp: string, host: string, port: int)
    requires ':' !in host && host !in {"localhost", "127.0.0.1", "0.0.0.0"}
    ensures IsSelf(c, publicIp, host, Some(port)) <==> Own(c, publicIp, host, port)
  {
    assert "::1"[0] == ':' && "::ffff:127.0.0.1"[0] == ':' && (MAPPED + publicIp)[0] == ':';
    hide Unmapped;
    forall address <- c.interfaces
      ensures Unmapped(address) == host <==>
              address == host || exists k :: 0 <= k <= |host| && address == host[..k] + MAPPED + host[k..]
    {
      UnmappedIs(address, host);
    }
  }

  /** A host with a port from 1 to 65535 that is no loopback or broadcast name, not the server's own address and
      not known as an edge node's. */
  ghost predicate Welcome(c: Config, s: Pool, address: string) {
    var host, port := HostPart(address), PortPart(address);
    && ':' in address && host != "" && port.Some? && 1 <= port.value <= 65535
    && host != "localhost" && host != "127.0.0.1" && host != "::1" && host != "0.0.0.0" && host != "255.255.255.255"
    && !Own(c, s.publicIp, host, port.value) && host !in s.edgeIps
  }

  lemma WelcomeExactly(c: Config, s: Pool, address: string)
    ensures Admissible(c, s.edgeIps, s.publicIp, address) <==> Welcome(c, s, address)
  {
    var host := HostPart(address);
    HostHasNoColon(address);
    assert "::1"[0] == ':' && MAPPED[0] == ':';
    assert Clean(host) == host;
    if PortPart(address).Some? && host !in {"localhost", "127.0.0.1", "0.0.0.0"} {
      hide IsSelf, Own, Unmapped;
      SelfIsOwn(c, s.publicIp, host, PortPart(address).value);
    }
  }

  /** A report about any other address changes nothing, whatever it says; a direct success about a welcome one
      always brings it into the pool. */
  lemma OthersIgnored(c: Config, s: Pool, address: string, success: bool, fromGossip: bool, now: int)
    requires Sound(c, s)
    ensures !Welcome(c, s, address) ==> Report(c, s, address, success, fromGossip, now) == s
    ensures Welcome(c, s, address) ==>
              Get(Report(c, s, address, true, false, now).peers, address) == Some(Meta(100, 0, false, now))
  {
    WelcomeExactly(c, s, address);
    if Welcome(c, s, address) {
      ReportEffect(c, s, address, true, false, now);
    }
    hide Welcome, Recorded, MakeRoom;
  }

  /** What the invariant says of every peer. */
  lemma PeersWelcome(c: Config, s: Pool, p: Peer)
    requires Sound(c, s) && p in s.peers
    ensures Welcome(c, s, p.key) && Standing(c, p)
  {
    WelcomeExactly(c, s, p.key);
  }

  datatype Op =
    | AddOrUpdate(address: string, success: bool, fromGossip: bool, now: int)
    | RegisterEdgeIp(ip: string)
    | SetPublicIp(ip: string)

  function Apply(c: Config, s: Pool, op: Op): Pool {
    match op
    case AddOrUpdate(address, success, fromGossip, now) => Report(c, s, address, success, fromGossip, now)
    case RegisterEdgeIp(ip) => RegisterEdge(s, ip)
    case SetPublicIp(ip) => SetPublic(c, s, ip)
  }

  function Run(c: Config, s: Pool, ops: seq<Op>): Pool
    decreases |ops|
  {
    if ops == [] then s else Run(c, Apply(c, s, ops[0]), ops[1..])
  }

  /** From an empty pool, after any operations. */
  lemma {:induction false} AlwaysSound(c: Config, s: Pool, ops: seq<Op>)
    requires Sound(c, s)
    ensures Sound(c, Run(c, s, ops))
    decreases |ops|
  {
    hide Sound;
    if ops != [] {
      match ops[0] {
        case AddOrUpdate(address, success, fromGossip, now) => ReportSound(c, s, address, success, fromGossip, now);
        case RegisterEdgeIp(ip) => RegisterEdgeSound(c, s, ip);
        case SetPublicIp(ip) => SetPublicSound(c, s, ip);
      }
      AlwaysSound(c, Apply(c, s, ops[0]), ops[1..]);
    }
  }

  // ---------------------------------------------------------------- the sample

  predicate Trusted(p: Peer) {
    p.value.failures == 0 && p.value.score >= 80
  }

  function TrustedAddresses(s: seq<Peer>): (t: seq<string>)
    ensures forall a <- t :: exists p <- s :: p.key == a && Trusted(p)
    ensures forall p <- s :: Trusted(p) ==> p.key in t
  {
    if s == [] then []
    else (if Trusted(s[0]) then [s[0].key] else []) + TrustedAddresses(s[1..])
  }

  ghost predicate NoRepeats(s: seq<string>) {
    forall i, j :: 0 <= i < j < |s| ==> s[i] != s[j]
  }

  lemma {:induction false} TrustedDistinct(s: seq<Peer>)
    requires DistinctKeys(s)
    ensures NoRepeats(TrustedAddresses(s))
  {
    if s != [] {
      var all, rest := TrustedAddresses(s), TrustedAddresses(s[1..]);
      TrustedDistinct(s[1..]);
      assert all == (if Trusted(s[0]) then [s[0].key] else []) + rest;
      hide TrustedAddresses, Trusted;
      forall a <- rest ensures a != s[0].key {
        var p :| p in s[1..] && p.key == a;
        var k :| 0 <= k < |s[1..]| && s[1..][k] == p;
        assert s[k + 1] == p;
      }
      if |all| > |rest| {
        assert forall j :: 1 <= j < |all| ==> all[j] == rest[j - 1] && rest[j - 1] in rest;
      }
    }
  }

  /** In a sound pool the trusted peers are those contacted directly and never failed since. */
  lemma TrustedIsDirect(c: Config, s: Pool, p: Peer)
    requires Sound(c, s) && p in s.peers
    ensures Trusted(p) <==> p.value.failures == 0 && !p.value.fromGossip
  {
  }

  class PeerManager {
    const config: Config
    var peers: seq<Peer>
    var edgeIps: set<string>
    var publicIp: string

    function State(): Pool
      reads this
    {
      Pool(peers, edgeIps, publicIp)
    }

    constructor (config: Config)
      ensures this.config == config && State() == Pool([], {}, "") && Sound(config, State())
    {
      this.config, peers, edgeIps, publicIp := config, [], {}, "";
    }

    method AddOrUpdatePeer(address: string, success: bool, fromGossip: bool, now: int)
      requires Sound(config, State())
      modifies this
      ensures State() == Apply(config, old(State()), AddOrUpdate(address, success, fromGossip, now))
      ensures Sound(config, State())
    {
      ReportSound(config, State(), address, success, fromGossip, now);
      hide Sound, Admissible, MakeRoom, Recorded;
      if !Admissible(config, edgeIps, publicIp, address) {
        return;
      }
      EvictForRoom(address);
      Record(address, success, fromGossip, now);
    }

    method Record(address: string, success: bool, fromGossip: bool, now: int)
      modifies this`peers
      ensures peers == Recorded(config, old(peers), address, success, fromGossip, now)
    {
      hide Put, Delete, IndexOf;
      var i := IndexOf(peers, address);
      var known := i < |peers|;
      var current := if known then peers[i].value else Meta(if fromGossip then 60 else 100, 0, fromGossip, now);
      if success {
        if fromGossip && known {
          peers := Put(peers, address, current.(lastSeen := now));
          return;
        }
        current := Meta(if fromGossip then 60 else 100, 0, fromGossip, now);
      } else {
        current := current.(score := current.score - 5, failures := current.failures + 1);
      }
      if address !in config.bootstrap
         && (current.score <= 0 || current.failures >= 10 || (current.fromGossip && current.failures >= 1)) {
        peers := Delete(peers, address);
      } else {
        peers := Put(peers, address, current);
      }
    }

    method EvictForRoom(address: string)
      modifies this`peers
      ensures peers == MakeRoom(old(peers), address)
    {
      hide Delete, Has, Lowest;
      if |peers| >= MAX_PEERS && !Has(peers, address) {
        var lowest := FindLowest();
        peers := Delete(peers, peers[lowest].key);
      }
    }

    /** The scan for the peer to evict. */
    method FindLowest() returns (lowest: nat)
      requires peers != []
      ensures lowest == Lowest(peers)
    {
      lowest := 0;
      var i := 1;
      while i < |peers|
        invariant 1 <= i <= |peers| && lowest < i && lowest == Lowest(peers[..i])
      {
        hide Lowest;
        LowestNext(peers, i);
        if peers[i].value.score < peers[lowest].value.score {
          lowest := i;
        }
        i := i + 1;
      }
      assert peers[..i] == peers;
    }

    method RegisterEdge(ip: string)
      requires Sound(config, State())
      modifies this
      ensures State() == Apply(config, old(State()), RegisterEdgeIp(ip)) && Sound(config, State())
    {
      RegisterEdgeSound(config, State(), ip);
      hide Sound;
      if ip == "" {
        return;
      }
      edgeIps := edgeIps + {Clean(ip)};
      var host := Clean(ip);
      if host != "" {
        peers := DropWhere(peers, (p: Peer) => ':' in p.key && Clean(HostPart(p.key)) == Clean(host));
      }
    }

    method SetOwnIp(ip: string)
      requires Sound(config, State())
      modifies this
      ensures State() == Apply(config, old(State()), SetPublicIp(ip)) && Sound(config, State())
    {
      SetPublicSound(config, State(), ip);
      hide Sound;
      if ip == "" {
        return;
      }
      publicIp := ip;
      var c := config;
      peers := DropWhere(peers, (p: Peer) => ':' !in p.key || IsSelf(c, ip, HostPart(p.key), PortPart(p.key)));
    }

    /** At most k distinct peers, all of them contacted directly without a failure since; all such
        peers if there are no more than k. `rolls[i]` is the random number in [0, i]. */
    method GetRandomSample(k: nat, rolls: seq<nat>) returns (sample: seq<string>)
      requires Sound(config, State())
      requires |rolls| >= |peers| && forall i :: 0 <= i < |rolls| ==> rolls[i] <= i
      ensures NoRepeats(sample)
      ensures |sample| == if |TrustedAddresses(peers)| <= k then |TrustedAddresses(peers)| else k
      ensures forall a <- sample :: exists p <- peers :: p.key == a && p.value.failures == 0 && !p.value.fromGossip
      ensures |TrustedAddresses(peers)| <= k ==> forall p <- peers :: p.value.failures == 0 && !p.value.fromGossip ==> p.key in sample
    {
      var trusted := TrustedAddresses(peers);
      assert |trusted| <= |peers| by {
        TrustedFewer(peers);
      }
      TrustedDistinct(peers);
      var list := new string[|trusted|](i requires 0 <= i < |trusted| => trusted[i]);
      assert list[..] == trusted;
      var i := list.Length - 1;
      while i > 0
        invariant -1 <= i < list.Length
        invariant NoRepeats(list[..]) && forall a :: a in list[..] <==> a in trusted
        decreases i
      {
        var j := rolls[i];
        ghost var was := list[..];
        list[i], list[j] := list[j], list[i];
        SwapKeeps(was, list[..], i, j);
        i := i - 1;
      }
      sample := if k < list.Length then list[..k] else list[..];
      forall p <- peers ensures Trusted(p) <==> p.value.failures == 0 && !p.value.fromGossip {
        TrustedIsDirect(config, State(), p);
      }
      assert forall a <- sample :: a in list[..];
    }
  }

  lemma {:induction false} TrustedFewer(s: seq<Peer>)
    ensures |TrustedAddresses(s)| <= |s|
  {
    if s != [] {
      TrustedFewer(s[1..]);
    }
  }

  lemma SwapKeeps(was: seq<string>, now: seq<string>, i: nat, j: nat)
    requires |was| == |now| && i < |was| && j < |was| && NoRepeats(was)
    requires now == was[i := was[j]][j := was[i]]
    ensures NoRepeats(now) && forall a :: a in now <==> a in was
  {
    assert forall a <- was :: a in now by {
      forall a <- was ensures a in now {
        var k :| 0 <= k < |was| && was[k] == a;
        assert now[if k == i then j else if k == j then i else k] == a;
      }
    }
    assert forall a <- now :: a in was;
  }
}
