/**
 * User and channel addresses: @user:target and #channel:target, where the target is a node
 * identity or a host with port, and the printed form `raw` of what was parsed.
 */
module Address {
  import opened Text
  import Bytes
  import Base32

  /** The server's own name and port, and its node identity if it has one already. */
  datatype Config = Config(serverName: string, federationPort: nat, localNodeId: string)

  datatype Place =
    | Global
    | Node(nodeId: string)
    | Server(host: string, port: nat, isIpv6: bool)

  datatype Parsed = Parsed(isChannel: bool, name: string, place: Place, isLocal: bool, raw: string)

  const MESH := ".mesh"

  // ---------------------------------------------------------------- string helpers

  function Index(s: string, c: char): (i: int)
    ensures -1 <= i < |s| && (i >= 0 ==> s[i] == c && c !in s[..i])
    ensures i < 0 <==> c !in s
  {
    if s == "" then -1
    else if s[0] == c then 0
    else
      var i := Index(s[1..], c);
      assert s == [s[0]] + s[1..];
      assert i >= 0 ==> s[..i + 1] == [s[0]] + s[1..][..i];
      if i < 0 then -1 else i + 1
  }

  lemma IndexIs(before: string, c: char, after: string)
    requires c !in before
    ensures Index(before + [c] + after, c) == |before|
  {
    var s := before + [c] + after;
    var i := Index(s, c);
    assert s[|before|] == c;
    forall j | 0 <= j < i ensures s[j] != c {
      assert s[..i][j] == s[j];
    }
    forall j | 0 <= j < |before| ensures s[j] != c {
      assert s[j] == before[j];
    }
  }

  predicate Decimal(c: char) {
    '0' <= c <= '9'
  }

  predicate AllDigits(s: string) {
    s != "" && forall c <- s :: Decimal(c)
  }

  predicate IsNodeId(s: string) {
    |s| == 16 && forall c <- s :: 'a' <= c <= 'z' || '2' <= c <= '7'
  }

  /** replace(text, ''): the first occurrence goes. */
  function WithoutFirst(s: string, pattern: string): string
    requires pattern != ""
  {
    var i := Find(s, pattern);
    if i < 0 then s else s[..i] + s[i + |pattern|..]
  }

  // ---------------------------------------------------------------- targets

  predicate IsMesh(target: string) {
    EndsWith(target, MESH) || IsNodeId(target)
  }

  function PortOf(digits: string): (n: nat)
    requires AllDigits(digits)
  {
    DigitsNumber(digits);
    NumberOf(digits, 10)
  }

  lemma {:induction false} DigitsNumber(digits: string)
    requires forall c <- digits :: Decimal(c)
    ensures NumberOf(digits, 10) >= 0
  {
    if digits != "" {
      assert forall c <- digits[..|digits| - 1] :: c in digits;
      DigitsNumber(digits[..|digits| - 1]);
      assert digits[|digits| - 1] in digits;
    }
  }

  /** [host] with an optional port behind it. */
  function Bracketed(c: Config, target: string, close: nat): Place
    requires 1 <= close < |target|
  {
    var rest := target[close + 1..];
    var port := if ":" <= rest && AllDigits(rest[1..]) then PortOf(rest[1..]) else c.federationPort;
    Server(target[1..close], port, true)
  }

  /** One colon before digits is a port; behind more colons only if there is a dot before the last. */
  function Bare(c: Config, target: string): Place {
    var last := LastIndexOf(target, ':');
    if last < 0 then Server(target, c.federationPort, false)
    else
      var head, tail := target[..last], target[last + 1..];
      if !AllDigits(tail) then Server(target, c.federationPort, true)
      else if ':' !in head then
        var host := if head == "" then c.serverName else head;
        Server(host, PortOf(tail), ':' in host)
      else if '.' in head then Server(head, PortOf(tail), true)
      else Server(target, c.federationPort, true)
  }

  function ParseTarget(c: Config, target: string): Place
    requires target != ""
  {
    if IsMesh(target) then Node(Lower(WithoutFirst(target, MESH)))
    else
      var close := Index(target, ']');
      if target[0] == '[' && close >= 0 then Bracketed(c, target, close) else Bare(c, target)
  }

  // ---------------------------------------------------------------- addresses

  function DotlessToI(s: string): string {
    seq(|s|, i requires 0 <= i < |s| => if s[i] == '\U{130}' then 'i' else s[i])
  }

  predicate IsGlobalName(name: string) {
    Split(Lower(DotlessToI(Trim(name))), ':')[0] in {"#genel", "#general", "genel", "general"}
  }

  function LocalPlace(c: Config): Place {
    if c.localNodeId != "" then Node(c.localNodeId) else Server(c.serverName, c.federationPort, false)
  }

  function PlaceOf(c: Config, isChannel: bool, name: string, target: string): Place {
    if target != "" then ParseTarget(c, target)
    else if isChannel && IsGlobalName(name) then Global
    else LocalPlace(c)
  }

  /** What follows the name in the printed form. */
  function Tail(p: Place): string {
    match p
    case Global => ""
    case Node(nodeId) => ":" + nodeId + MESH
    case Server(host, port, isIpv6) => ":" + (if isIpv6 then "[" + host + "]" else host) + ":" + ToRadix(port, 10)
  }

  predicate IsLocal(c: Config, p: Place) {
    match p
    case Global => true
    case Node(nodeId) => c.localNodeId != "" && nodeId == c.localNodeId
    case Server(host, port, _) => host == c.serverName && port == c.federationPort
  }

  function Mark(isChannel: bool): char {
    if isChannel then '#' else '@'
  }

  function Print(isChannel: bool, name: string, p: Place): string {
    [Mark(isChannel)] + name + Tail(p)
  }

  /** The part after the mark. */
  function ParseBody(c: Config, isChannel: bool, body: string): Option<Parsed> {
    var colon := Index(body, ':');
    var name := if colon < 0 then body else body[..colon];
    var target := if colon < 0 then "" else body[colon + 1..];
    if name == "" then None
    else
      var place := PlaceOf(c, isChannel, name, target);
      Some(Parsed(isChannel, name, place, IsLocal(c, place), Print(isChannel, name, place)))
  }

  function Parse(c: Config, address: string): Option<Parsed> {
    var clean := Trim(address);
    if "#" <= clean then ParseBody(c, true, clean[1..])
    else ParseBody(c, false, if "@" <= clean then clean[1..] else clean)
  }

  function FormatUser(c: Config, username: string, nodeId: string): string {
    var target := if nodeId != "" then nodeId else if c.localNodeId != "" then c.localNodeId else "local";
    "@" + username + ":" + target + MESH
  }

  // ---------------------------------------------------------------- printing and parsing agree

  ghost predicate OrdinaryConfig(c: Config) {
    && c.serverName != "" && ':' !in c.serverName && '[' !in c.serverName && ']' !in c.serverName
    && IsLower(c.localNodeId)
  }

  lemma PortReads(port: nat)
    ensures AllDigits(ToRadix(port, 10)) && PortOf(ToRadix(port, 10)) == port && ':' !in ToRadix(port, 10)
    ensures ']' !in ToRadix(port, 10)
  {
    NumberOfToRadix(port, 10);
    var digits := ToRadix(port, 10);
    assert forall c <- digits :: IsDigit(c, 10) && PrintedDigit(c) && Decimal(c);
  }

  /** A host printed with its port reads back as it is. */
  lemma PlainHostReads(c: Config, host: string, port: nat)
    requires host != "" && ':' !in host && !(host[0] == '[' && ']' in host)
    ensures ParseTarget(c, host + ":" + ToRadix(port, 10)) == Server(host, port, false)
  {
    var digits := ToRadix(port, 10);
    var t := host + ":" + digits;
    PortReads(port);
    NotMesh(t, digits);
    LastIndexIs(host, ':', digits);
    assert t == host + [':'] + digits;
    assert t[..|host|] == host && t[|host| + 1..] == digits && t[0] == host[0];
    assert ']' in t ==> ']' in host;
  }

  lemma NotMesh(t: string, digits: string)
    requires EndsWith(t, digits) && AllDigits(digits) && |digits| < |t| && (t[0] == '[' || ':' in t)
    ensures !IsMesh(t)
  {
    assert t[|t| - 1] == digits[|digits| - 1] && digits[|digits| - 1] in digits;
    MeshCharacters(t);
  }

  lemma MeshCharacters(t: string)
    ensures EndsWith(t, MESH) ==> t != "" && t[|t| - 1] == 'h'
    ensures IsNodeId(t) ==> t != "" && t[0] != '[' && ':' !in t
  {
    assert IsNodeId(t) ==> t[0] in t;
  }

  /** A bracketed host reads back exactly if it holds no closing bracket itself. */
  lemma BracketedHostReads(c: Config, host: string, port: nat)
    ensures var r := ParseTarget(c, "[" + host + "]" + ":" + ToRadix(port, 10));
            if ']' in host then r.Server? && |r.host| < |host| else r == Server(host, port, true)
  {
    var digits := ToRadix(port, 10);
    var t := "[" + host + "]" + ":" + digits;
    PortReads(port);
    NotMesh(t, digits);
    hide IsMesh, Bare, Bracketed, AllDigits, PortOf, ToRadix;
    if ']' in host {
      StrayBracketReads(c, host, digits);
    } else {
      PlainBracketsRead(c, host, port, digits);
    }
  }

  lemma StrayBracketReads(c: Config, host: string, digits: string)
    requires ']' in host
    ensures var t, k := "[" + host + "]" + ":" + digits, Index(host, ']');
            Index(t, ']') == k + 1 && t[0] == '[' && Bracketed(c, t, k + 1).host == host[..k]
  {
    hide AllDigits, PortOf, Index;
    var k := Index(host, ']');
    var before, after := host[..k], host[k + 1..];
    assert host == before + "]" + after;
    Regroup("[", before, "]", after, "]", ":", digits);
    InBrackets(before, after + "]" + ":" + digits);
  }

  lemma InBrackets(host: string, rest: string)
    requires ']' !in host
    ensures var t := ("[" + host) + "]" + rest;
            Index(t, ']') == |host| + 1 && t[0] == '[' && t[1..|host| + 1] == host && t[|host| + 2..] == rest
  {
    IndexIs("[" + host, ']', rest);
  }

  lemma Regroup(open: string, a: string, m: string, b: string, close: string, colon: string, digits: string)
    ensures open + (a + m + b) + close + colon + digits == (open + a) + m + (b + close + colon + digits)
  {
  }

  lemma PlainBracketsRead(c: Config, host: string, port: nat, digits: string)
    requires ']' !in host && AllDigits(digits) && PortOf(digits) == port
    ensures var t := "[" + host + "]" + ":" + digits;
            Index(t, ']') == |host| + 1 && t[0] == '[' && Bracketed(c, t, |host| + 1) == Server(host, port, true)
  {
    hide PortOf, Index;
    InBrackets(host, ":" + digits);
    assert "[" + host + "]" + ":" + digits == ("[" + host) + "]" + (":" + digits);
    assert (":" + digits)[1..] == digits;
  }

  /** Nothing but repetitions of ".mesh". */
  predicate OnlyMesh(s: string) {
    s == "" || (MESH <= s && OnlyMesh(s[|MESH|..]))
  }

  lemma {:induction false} ShiftedMesh(s: string)
    ensures s == "" || MESH <= s ==> (s + MESH == MESH + s <==> OnlyMesh(s))
  {
    if MESH <= s {
      var u := s[|MESH|..];
      assert s == MESH + u;
      if |u| >= |MESH| {
        ShiftedMesh(u);
        assert s + MESH == MESH + (u + MESH) && MESH + s == MESH + (MESH + u);
        assert s + MESH == MESH + s <==> u + MESH == MESH + u by {
          assert (s + MESH)[|MESH|..] == u + MESH && (MESH + s)[|MESH|..] == MESH + u;
        }
        assert u + MESH == MESH + u ==> MESH <= u by {
          assert (u + MESH)[..|MESH|] == u[..|MESH|] && (MESH + u)[..|MESH|] == MESH;
        }
      } else {
        assert (s + MESH)[|s|] == '.' && (MESH + s)[|s|] == s[|s| - |MESH|];
      }
    }
  }

  /** A node name whose first ".mesh" is followed by further ones only. */
  predicate Settled(n: string) {
    var i := Find(n, MESH);
    i < 0 || OnlyMesh(n[i..])
  }

  lemma FirstMeshAtEnd(n: string)
    requires Find(n, MESH) < 0
    ensures Find(n + MESH, MESH) == |n|
  {
    hide OccursAt;
    var t := n + MESH;
    FindFirst(t, MESH);
    assert OccursAt(t, MESH, |n|) by {
      AtEnd(n);
    }
    FindLater(n, MESH, MESH);
    forall j | |n| - |MESH| < j < |n| ensures !OccursAt(t, MESH, j) {
      NoStraddle(n, j);
    }
  }

  lemma AtEnd(n: string)
    ensures OccursAt(n + MESH, MESH, |n|)
  {
    assert (n + MESH)[|n|..|n| + |MESH|] == MESH;
  }

  /** No occurrence begins in the last four characters and runs into the suffix. */
  lemma NoStraddle(n: string, j: int)
    requires |n| - |MESH| < j < |n|
    ensures !OccursAt(n + MESH, MESH, j)
  {
    if 0 <= j {
      var k := |n| - j;
      assert (n + MESH)[j..j + |MESH|][k] == '.' && MESH[k] != '.';
    }
  }

  /** The printed node name reads back exactly if it is settled. */
  lemma MeshReads(c: Config, n: string)
    requires IsLower(n)
    ensures ParseTarget(c, n + MESH).Node?
    ensures ParseTarget(c, n + MESH) == Node(n) <==> Settled(n)
  {
    var t := n + MESH;
    assert t[|t| - |MESH|..] == MESH;
    if Find(n, MESH) < 0 {
      FirstMeshAtEnd(n);
      assert t[..|n|] == n && t[|n| + |MESH|..] == "";
      assert WithoutFirst(t, MESH) == n;
      LowerIs(n);
    } else {
      InnerMesh(n);
    }
  }

  lemma InnerMesh(n: string)
    requires IsLower(n) && Find(n, MESH) >= 0
    ensures Lower(WithoutFirst(n + MESH, MESH)) == n <==> OnlyMesh(n[Find(n, MESH)..])
  {
    var i := Find(n, MESH);
    FindFirst(n, MESH);
    var head, rest := n[..i], n[i + |MESH|..];
    MeshInside(n, i);
    WithoutInside(n);
    LowerInside(n, head, rest);
    MeshShifts(head, rest);
  }

  lemma MeshInside(n: string, i: nat)
    requires OccursAt(n, MESH, i)
    ensures n[i..] == MESH + n[i + |MESH|..] && n == n[..i] + (MESH + n[i + |MESH|..])
  {
    assert n[i..] == n[i..i + |MESH|] + n[i + |MESH|..];
  }

  lemma WithoutInside(n: string)
    requires Find(n, MESH) >= 0
    ensures WithoutFirst(n + MESH, MESH) == n[..Find(n, MESH)] + (n[Find(n, MESH) + |MESH|..] + MESH)
  {
    FindStays(n, MESH, MESH);
    hide Find;
  }

  lemma LowerInside(n: string, head: string, rest: string)
    requires IsLower(n) && n == head + (MESH + rest)
    ensures Lower(head + (rest + MESH)) == head + (rest + MESH)
  {
    var w := head + (rest + MESH);
    assert forall ch <- head :: ch in n;
    assert forall ch <- rest :: ch in MESH + rest;
    assert forall ch <- MESH + rest :: ch in n;
    LowerIs(w);
  }

  lemma MeshShifts(head: string, rest: string)
    ensures head + (rest + MESH) == head + (MESH + rest) <==> OnlyMesh(MESH + rest)
  {
    ShiftedMesh(MESH + rest);
    SwapMesh(rest);
    assert (head + (rest + MESH))[|head|..] == rest + MESH;
    assert (head + (MESH + rest))[|head|..] == MESH + rest;
  }

  lemma SwapMesh(rest: string)
    ensures rest + MESH == MESH + rest <==> (MESH + rest) + MESH == MESH + (MESH + rest)
  {
    assert (MESH + rest) + MESH == MESH + (rest + MESH);
    assert (MESH + (rest + MESH))[|MESH|..] == rest + MESH;
    assert (MESH + (MESH + rest))[|MESH|..] == MESH + rest;
  }

  /** What any parsed place satisfies. */
  ghost predicate Regular(p: Place) {
    match p
    case Global => true
    case Node(n) => IsLower(n)
    case Server(host, port, isIpv6) =>
      if isIpv6 then ':' in host || ']' !in host
      else host != "" && ':' !in host && !(host[0] == '[' && ']' in host)
  }

  lemma TargetRegular(c: Config, target: string)
    requires OrdinaryConfig(c) && target != ""
    ensures Regular(ParseTarget(c, target))
  {
    if IsMesh(target) {
      LowerIs(WithoutFirst(target, MESH));
    } else {
      var close := Index(target, ']');
      if target[0] == '[' && close >= 0 {
        assert forall ch <- target[1..close] :: ch in target[..close];
      } else {
        BareRegular(c, target);
      }
    }
  }

  lemma BareRegular(c: Config, target: string)
    requires OrdinaryConfig(c) && target != "" && !(target[0] == '[' && ']' in target)
    ensures Regular(Bare(c, target))
  {
    hide PortOf, AllDigits;
    var last := LastIndexOf(target, ':');
    if last >= 0 {
      LastIndexAt(target, ':');
      var head := target[..last];
      assert forall ch <- head :: ch in target;
      assert target[last] == ':';
    }
  }

  /** Printed, an address reads back as it was parsed ... */
  predicate Stable(p: Parsed) {
    match p.place
    case Global => p.name != "" && !IsSpace(p.name[|p.name| - 1])
    case Node(n) => Settled(n)
    case Server(host, _, _) => !(':' in host && ']' in host)
  }

  lemma AfterColon(x: string, digits: string)
    ensures (":" + x + ":" + digits)[1..] == x + ":" + digits
  {
  }

  lemma TailReads(c: Config, p: Place)
    requires OrdinaryConfig(c) && Regular(p) && !p.Global?
    ensures |Tail(p)| > 1 && Tail(p)[0] == ':'
    ensures ParseTarget(c, Tail(p)[1..]) == p <==> match p case Node(n) => Settled(n) case Server(host, _, _) => !(':' in host && ']' in host)
  {
    hide ParseTarget, Settled;
    match p {
      case Node(n) =>
        MeshReads(c, n);
        assert Tail(p)[1..] == n + MESH;
      case Server(host, port, isIpv6) =>
        AfterColon(if isIpv6 then "[" + host + "]" else host, ToRadix(port, 10));
        if isIpv6 {
          BracketedHostReads(c, host, port);
        } else {
          PlainHostReads(c, host, port);
        }
    }
  }

  lemma TailEnds(p: Place)
    requires !p.Global?
    ensures Tail(p) != "" && !IsSpace(Tail(p)[|Tail(p)| - 1])
  {
    match p {
      case Node(n) => assert Tail(p)[|Tail(p)| - 1] == 'h';
      case Server(_, port, _) =>
        PortReads(port);
        var digits := ToRadix(port, 10);
        assert digits[|digits| - 1] in digits;
        assert Tail(p)[|Tail(p)| - 1] == digits[|digits| - 1];
    }
  }

  lemma TrimWhole(s: string)
    requires s != "" && !IsSpace(s[0])
    ensures Trim(s) == TrimEnd(s)
    ensures !IsSpace(s[|s| - 1]) ==> Trim(s) == s
    ensures IsSpace(s[|s| - 1]) ==> Trim(s) == TrimEnd(s[..|s| - 1])
  {
  }

  lemma BodyParsed(c: Config, isChannel: bool, body: string)
    requires OrdinaryConfig(c) && ParseBody(c, isChannel, body).Some?
    ensures var p := ParseBody(c, isChannel, body).value;
            && p.isChannel == isChannel && p.name != "" && ':' !in p.name && Regular(p.place)
            && p.isLocal == IsLocal(c, p.place) && p.raw == Print(isChannel, p.name, p.place)
            && (p.place.Global? ==> isChannel && IsGlobalName(p.name))
  {
    hide ParseTarget, IsGlobalName;
    var colon := Index(body, ':');
    var target := if colon < 0 then "" else body[colon + 1..];
    if target != "" {
      TargetRegular(c, target);
      assert !ParseTarget(c, target).Global? by {
        TargetNotGlobal(c, target);
      }
    }
  }

  lemma TargetNotGlobal(c: Config, target: string)
    requires target != ""
    ensures !ParseTarget(c, target).Global?
  {
  }

  /** Name and tail are taken apart again where they were joined. */
  lemma BodyReads(c: Config, isChannel: bool, name: string, p: Place)
    requires OrdinaryConfig(c) && name != "" && ':' !in name && Regular(p)
    requires p.Global? ==> isChannel && IsGlobalName(name)
    ensures ParseBody(c, isChannel, name + Tail(p)) == Some(Parsed(isChannel, name, p, IsLocal(c, p), Print(isChannel, name, p)))
       <==> match p case Global => true case Node(n) => Settled(n) case Server(host, _, _) => !(':' in host && ']' in host)
  {
    hide ParseTarget, IsGlobalName, Tail, Settled, Regular;
    var body := name + Tail(p);
    if p.Global? {
      assert Tail(p) == "" by {
        GlobalTail();
      }
      assert body == name;
    } else {
      TailReads(c, p);
      var rest := Tail(p)[1..];
      assert Tail(p) == [':'] + rest;
      assert body == name + [':'] + rest;
      IndexIs(name, ':', rest);
      assert body[..|name|] == name && body[|name| + 1..] == rest;
    }
  }

  lemma GlobalTail()
    ensures Tail(Global) == ""
  {
  }

  /** ... exactly when it is stable: for every node identity, mesh name, host, host with port,
      bracketed or bare IPv6 address without stray closing brackets. */
  lemma PrintedParses(c: Config, address: string)
    requires OrdinaryConfig(c) && Parse(c, address).Some?
    ensures var p := Parse(c, address).value;
            Parse(c, p.raw) == Some(p) <==> Stable(p)
  {
    var clean := Trim(address);
    var isChannel := "#" <= clean;
    var body := if isChannel || "@" <= clean then clean[1..] else clean;
    BodyParsed(c, isChannel, body);
    var p := Parse(c, address).value;
    RawReads(c, p);
  }

  lemma MarkShows(isChannel: bool)
    ensures !IsSpace(Mark(isChannel))
  {
  }

  /** Without a blank at its end the printed form is parsed whole. */
  lemma KeptWhole(c: Config, isChannel: bool, name: string, p: Place)
    requires name != "" && (p.Global? ==> !IsSpace(name[|name| - 1]))
    ensures Parse(c, Print(isChannel, name, p)) == ParseBody(c, isChannel, name + Tail(p))
  {
    hide ParseBody, Tail, Trim, IsSpace;
    var body := name + Tail(p);
    var raw := Print(isChannel, name, p);
    assert raw == [Mark(isChannel)] + body && raw[1..] == body && raw[0] == Mark(isChannel);
    MarkShows(isChannel);
    if p.Global? {
      GlobalTail();
      assert raw[|raw| - 1] == name[|name| - 1];
    } else {
      TailEnds(p);
      assert raw[|raw| - 1] == Tail(p)[|Tail(p)| - 1];
    }
    TrimWhole(raw);
  }

  lemma RawReads(c: Config, p: Parsed)
    requires OrdinaryConfig(c) && p.name != "" && ':' !in p.name && Regular(p.place)
    requires p.isLocal == IsLocal(c, p.place) && p.raw == Print(p.isChannel, p.name, p.place)
    requires p.place.Global? ==> p.isChannel && IsGlobalName(p.name)
    ensures Parse(c, p.raw) == Some(p) <==> Stable(p)
  {
    hide Parse, ParseBody, IsGlobalName, Tail, Settled, Regular, Trim, IsSpace, IsLocal, OrdinaryConfig;
    if p.place.Global? && IsSpace(p.name[|p.name| - 1]) {
      GlobalTail();
      assert p.raw == [Mark(p.isChannel)] + p.name;
      ShorterName(c, p);
    } else {
      hide Print;
      KeptWhole(c, p.isChannel, p.name, p.place);
      BodyReads(c, p.isChannel, p.name, p.place);
    }
  }

  /** A trailing blank is lost: the name read back is shorter. */
  lemma ShorterName(c: Config, p: Parsed)
    requires p.name != "" && p.raw == [Mark(p.isChannel)] + p.name && IsSpace(p.name[|p.name| - 1])
    ensures Parse(c, p.raw) != Some(p)
  {
    hide PlaceOf, Print;
    TrimWhole(p.raw);
    var clean := Trim(p.raw);
    assert |clean| < |p.raw|;
  }

  // ---------------------------------------------------------------- what an address as written means

  /** Without a blank at its end an address is parsed whole. */
  lemma MarkedParses(c: Config, isChannel: bool, body: string)
    requires body != "" && !IsSpace(body[|body| - 1])
    ensures Parse(c, [Mark(isChannel)] + body) == ParseBody(c, isChannel, body)
  {
    hide ParseBody, Trim, IsSpace;
    var raw := [Mark(isChannel)] + body;
    MarkShows(isChannel);
    assert raw[0] == Mark(isChannel) && raw[|raw| - 1] == body[|body| - 1] && raw[1..] == body;
    TrimWhole(raw);
  }

  /** A name at a target: they come apart where they were joined. */
  lemma TargetedParses(c: Config, isChannel: bool, name: string, target: string)
    requires name != "" && ':' !in name && target != "" && !IsSpace(target[|target| - 1])
    ensures var p := ParseTarget(c, target);
            Parse(c, [Mark(isChannel)] + name + ":" + target)
            == Some(Parsed(isChannel, name, p, IsLocal(c, p), Print(isChannel, name, p)))
  {
    hide ParseTarget, Parse, IsGlobalName, IsLocal, Print, IsSpace, Index, LocalPlace;
    var body := name + [':'] + target;
    assert [Mark(isChannel)] + body == [Mark(isChannel)] + name + ":" + target;
    assert body[|body| - 1] == target[|target| - 1];
    MarkedParses(c, isChannel, body);
    IndexIs(name, ':', target);
    assert body[..|name|] == name && body[|name| + 1..] == target;
  }

  /** Parsed to that name at that server; it is the local one if host and port are the server's own. */
  ghost predicate AtServer(c: Config, r: Option<Parsed>, isChannel: bool, name: string, host: string, port: nat, isIpv6: bool) {
    && r.Some? && r.value.isChannel == isChannel && r.value.name == name && r.value.place == Server(host, port, isIpv6)
    && (r.value.isLocal <==> host == c.serverName && port == c.federationPort)
  }

  /** A host written without port stands for the configured one. */
  lemma HostWithoutPort(c: Config, isChannel: bool, name: string, host: string)
    requires name != "" && ':' !in name && host != "" && !IsSpace(host[|host| - 1])
    requires ':' !in host && !EndsWith(host, ".mesh") && !IsNodeId(host) && !(host[0] == '[' && ']' in host)
    ensures AtServer(c, Parse(c, [Mark(isChannel)] + name + ":" + host), isChannel, name, host, c.federationPort, false)
  {
    TargetedParses(c, isChannel, name, host);
  }

  /** So does one in brackets with nothing behind them that is a port. */
  lemma BracketsWithoutPort(c: Config, isChannel: bool, name: string, host: string, rest: string)
    requires name != "" && ':' !in name && ']' !in host && !IsSpace(("]" + rest)[|rest|])
    requires !(":" <= rest && AllDigits(rest[1..])) && !EndsWith("[" + host + "]" + rest, ".mesh")
    ensures AtServer(c, Parse(c, [Mark(isChannel)] + name + ":" + ("[" + host + "]" + rest)), isChannel, name,
                     host, c.federationPort, true)
  {
    hide Parse, Index, PortOf, AllDigits;
    var target := "[" + host + "]" + rest;
    InBrackets(host, rest);
    assert target[0] == '[' && target[|target| - 1] == ("]" + rest)[|rest|];
    assert !IsNodeId(target) by {
      assert target[0] in target;
    }
    TargetedParses(c, isChannel, name, target);
  }

  /** Behind more than one colon nothing is a port, unless it is all digits and there is a dot before. */
  lemma BareIpv6(c: Config, isChannel: bool, name: string, head: string, tail: string)
    requires name != "" && ':' !in name && ':' in head && ':' !in tail && !(head[0] == '[' && ']' in head + tail)
    requires !IsSpace((":" + tail)[|tail|]) && !EndsWith(head + ":" + tail, ".mesh")
    ensures var isPort := AllDigits(tail) && '.' in head;
            AtServer(c, Parse(c, [Mark(isChannel)] + name + ":" + (head + ":" + tail)), isChannel, name,
                     if isPort then head else head + ":" + tail, if isPort then PortOf(tail) else c.federationPort, true)
  {
    hide Parse, PortOf, AllDigits, LastIndexOf;
    var target := head + ":" + tail;
    assert target == head + [':'] + tail;
    LastIndexIs(head, ':', tail);
    assert target[..|head|] == head && target[|head| + 1..] == tail && target[0] == head[0];
    assert target[|target| - 1] == (":" + tail)[|tail|];
    assert !IsNodeId(target) by {
      assert target[|head|] == ':' && ':' in target;
    }
    assert ']' in target ==> ']' in head + tail;
    TargetedParses(c, isChannel, name, target);
  }

  lemma OneColonTarget(c: Config, host: string, tail: string)
    requires ':' !in host && ':' !in tail && !EndsWith(host + ":" + tail, ".mesh")
    requires host == "" || !(host[0] == '[' && ']' in host + tail)
    ensures var isPort := AllDigits(tail);
            ParseTarget(c, host + ":" + tail)
            == if !isPort then Server(host + ":" + tail, c.federationPort, true)
               else var name := if host == "" then c.serverName else host; Server(name, PortOf(tail), ':' in name)
  {
    hide PortOf, AllDigits, LastIndexOf;
    var target := host + ":" + tail;
    assert target == host + [':'] + tail;
    LastIndexIs(host, ':', tail);
    assert target[..|host|] == host && target[|host| + 1..] == tail;
    assert host != "" ==> target[0] == host[0];
    assert target[|host|] == ':';
    assert !IsNodeId(target);
    assert ']' in target ==> ']' in host + tail;
  }

  /** One colon before what is no port belongs to the host; nothing before it is the server's own name. */
  lemma OneColon(c: Config, isChannel: bool, name: string, host: string, tail: string)
    requires name != "" && ':' !in name && ':' !in host && ':' !in tail && !IsSpace((":" + tail)[|tail|])
    requires host == "" || !(host[0] == '[' && ']' in host + tail)
    requires !EndsWith(host + ":" + tail, ".mesh") && ':' !in c.serverName
    ensures var isPort := AllDigits(tail);
            AtServer(c, Parse(c, [Mark(isChannel)] + name + ":" + (host + ":" + tail)), isChannel, name,
                     if !isPort then host + ":" + tail else if host == "" then c.serverName else host,
                     if isPort then PortOf(tail) else c.federationPort, !isPort)
  {
    hide Parse, ParseTarget, PortOf, AllDigits, EndsWith, IsSpace, Print;
    var target := host + ":" + tail;
    assert target[|target| - 1] == (":" + tail)[|tail|];
    OneColonTarget(c, host, tail);
    TargetedParses(c, isChannel, name, target);
  }

  /** A node identity, bare or with ".mesh" behind it. */
  lemma NodeIdReads(c: Config, isChannel: bool, name: string, n: string)
    requires name != "" && ':' !in name && IsNodeId(n)
    ensures var bare := Parse(c, [Mark(isChannel)] + name + ":" + n);
            var mesh := Parse(c, [Mark(isChannel)] + name + ":" + (n + ".mesh"));
            && bare == mesh && bare.Some? && bare.value.place == Node(n) && bare.value.name == name
            && bare.value.isChannel == isChannel && (bare.value.isLocal <==> n == c.localNodeId)
  {
    hide Parse, Find;
    NodeIdPlain(n);
    assert n[|n| - 1] in n;
    assert WithoutFirst(n, MESH) == n;
    LowerIs(n);
    MeshReads(c, n);
    assert (n + MESH)[|n + MESH| - 1] == 'h';
    TargetedParses(c, isChannel, name, n);
    TargetedParses(c, isChannel, name, n + MESH);
  }

  /** A name alone is this node's own, known by its identity if it has one; or a global channel's. */
  lemma NameAlone(c: Config, isChannel: bool, name: string)
    requires name != "" && ':' !in name && !IsSpace(name[|name| - 1])
    ensures var r := Parse(c, [Mark(isChannel)] + name);
            && r.Some? && r.value.isChannel == isChannel && r.value.name == name && r.value.isLocal
            && r.value.place == (if isChannel && IsGlobalName(name) then Global
                                 else if c.localNodeId != "" then Node(c.localNodeId)
                                 else Server(c.serverName, c.federationPort, false))
  {
    hide IsGlobalName, IsSpace, Parse;
    MarkedParses(c, isChannel, name);
  }

  predicate SameLetter(c: char, w: char) {
    c == w || ('A' <= c <= 'Z' && c as int + 32 == w as int)
  }

  /** The same letters, some perhaps upper case. */
  ghost predicate Spells(s: string, word: string) {
    |s| == |word| && forall i :: 0 <= i < |s| ==> SameLetter(s[i], word[i])
  }

  predicate PlainLetter(w: char) {
    w == '#' || ('a' <= w <= 'z' && w != 'i' && w != 'k')
  }

  lemma LetterSpells(c: char, w: char)
    requires PlainLetter(w)
    ensures var low := LowerChar(if c == '\U{130}' then 'i' else c); |low| == 1 && (low[0] == w <==> SameLetter(c, w))
  {
  }

  lemma {:induction false} LowerSpells(s: string, word: string)
    requires forall w <- word :: PlainLetter(w)
    ensures Lower(DotlessToI(s)) == word <==> Spells(s, word)
  {
    if s != "" {
      var rest := s[1..];
      assert DotlessToI(s)[1..] == DotlessToI(rest);
      LetterSpells(s[0], 'a');
      var low := LowerChar(DotlessToI(s)[0]);
      hide LowerChar, PlainLetter, SameLetter;
      assert Lower(DotlessToI(s)) == [low[0]] + Lower(DotlessToI(rest));
      if word != "" {
        assert word[0] in word && forall w <- word[1..] :: w in word;
        LetterSpells(s[0], word[0]);
        LowerSpells(rest, word[1..]);
        SpellsFirst(s, word);
        hide Lower, DotlessToI, Spells;
        assert word == [word[0]] + word[1..];
      }
    }
  }

  lemma SpellsFirst(s: string, word: string)
    requires s != "" && word != ""
    ensures Spells(s, word) <==> SameLetter(s[0], word[0]) && Spells(s[1..], word[1..])
  {
    hide SameLetter;
    if Spells(s[1..], word[1..]) {
      assert forall i :: 1 <= i < |s| ==> s[i] == s[1..][i - 1] && word[i] == word[1..][i - 1];
    }
  }

  lemma {:induction false} LowerKeepsColons(s: string)
    requires ':' !in s
    ensures ':' !in Lower(DotlessToI(s))
  {
    if s != "" {
      assert DotlessToI(s)[1..] == DotlessToI(s[1..]);
      assert s[0] in s;
      LowerKeepsColons(s[1..]);
    }
  }

  /** The global channel has two names, in any case, with blanks around them, and with a second mark. */
  lemma GlobalNames(name: string)
    requires ':' !in name
    ensures var n := Trim(name);
            IsGlobalName(name) <==>
              Spells(n, "genel") || Spells(n, "general") || Spells(n, "#genel") || Spells(n, "#general")
  {
    var n := Trim(name);
    TrimInside(name);
    LowerKeepsColons(n);
    SplitWhole(Lower(DotlessToI(n)), ':');
    LowerSpells(n, "genel");
    LowerSpells(n, "general");
    LowerSpells(n, "#genel");
    LowerSpells(n, "#general");
  }

  lemma {:induction false} TrimInside(s: string)
    ensures forall c <- Trim(s) :: c in s
  {
    hide IsSpace;
    if s != "" && IsSpace(s[0]) {
      assert Trim(s) == Trim(s[1..]);
      TrimInside(s[1..]);
    } else {
      var t := TrimEnd(s);
      assert Trim(s) == t && t <= s;
      assert forall i :: 0 <= i < |t| ==> t[i] == s[i];
    }
  }

  /** What a node's key gives is a node identity. */
  lemma KeyGivesNodeId(digest: seq<Bytes.Byte>)
    requires |digest| == 32
    ensures IsNodeId(Base32.NodeId(digest))
  {
    Base32.NodeIdIsTenBytes(digest, digest);
    hide Base32.NodeId;
  }

  /** Without a mark a name is a user's. */
  lemma MarkMeansUser(c: Config, name: string)
    requires name != "" && name[0] != '#' && name[0] != '@' && !IsSpace(name[0])
    ensures Parse(c, name) == Parse(c, "@" + name)
  {
    hide ParseBody;
    var raw := "@" + name;
    TrimBoth(name);
    assert "@" <= Trim(raw) && Trim(raw)[1..] == Trim(name) && Trim(name)[0] == name[0];
  }

  lemma {:induction false} TrimBoth(s: string)
    requires s != "" && !IsSpace(s[0])
    ensures Trim(s) == TrimEnd(s) && TrimEnd(s) != "" && TrimEnd(s)[0] == s[0]
    ensures Trim("@" + s) == "@" + TrimEnd(s)
  {
    hide IsSpace;
    MarkShows(false);
    var raw := "@" + s;
    assert raw[0] == '@' && raw[|raw| - 1] == s[|s| - 1];
    assert !IsSpace('@');
    if IsSpace(s[|s| - 1]) {
      var less := s[..|s| - 1];
      assert raw[..|raw| - 1] == "@" + less;
      TrimBoth(less);
      TrimWhole("@" + less);
    }
    TrimWhole(raw);
    TrimWhole(s);
  }

  // ---------------------------------------------------------------- names of users

  predicate ValidUsername(u: string) {
    u != "" && forall c <- u :: 'a' <= c <= 'z' || 'A' <= c <= 'Z' || '0' <= c <= '9' || c == '_' || c == '-'
  }

  lemma NodeIdPlain(n: string)
    requires IsNodeId(n)
    ensures n != "" && IsLower(n) && Find(n, MESH) < 0
  {
    FindFirst(n, MESH);
    assert n[0] in n;
    forall k | 0 <= k < |n| ensures LowerChar(n[k]) == [n[k]] && n[k] != '.' {
      assert n[k] in n;
    }
    forall j: int | 0 <= j ensures !OccursAt(n, MESH, j) {
      if j + |MESH| <= |n| {
        assert n[j..j + |MESH|][0] == n[j];
      }
    }
  }

  /** The formatted name of a user parses back to that user at that node. */
  lemma FormatUserParses(c: Config, u: string, n: string)
    requires OrdinaryConfig(c) && ValidUsername(u) && IsNodeId(n)
    ensures Parse(c, FormatUser(c, u, n)) == Some(Parsed(false, u, Node(n), n == c.localNodeId, FormatUser(c, u, n)))
    ensures FormatUser(c, u, "") == FormatUser(c, u, if c.localNodeId == "" then "local" else c.localNodeId)
  {
    hide Parse, Find, IsNodeId, Index;
    NodeIdPlain(n);
    var p := Parsed(false, u, Node(n), IsLocal(c, Node(n)), Print(false, u, Node(n)));
    Regroup4(u, n);
    RawReads(c, p);
  }

  lemma Regroup4(u: string, n: string)
    ensures Print(false, u, Node(n)) == "@" + u + ":" + n + MESH
  {
    assert "@" + u + (":" + n + MESH) == "@" + u + ":" + n + MESH;
  }
}
