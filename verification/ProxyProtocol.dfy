/**
 * The HAProxy PROXY protocol in front of a socket: one parse of the bytes seen so far
 * (`parseBuffer`), repeated on every `data` event until it settles (`handle`).
 */
module ProxyProtocol {
  import opened Bytes
  import opened Text
  import Ipv6

  const V1_PREFIX: seq<Byte> := [0x50, 0x52, 0x4F, 0x58, 0x59, 0x20]
  const V2_MAGIC: seq<Byte> := [0x0D, 0x0A, 0x0D, 0x0A, 0x00, 0x0D, 0x0A, 0x51, 0x55, 0x49, 0x54, 0x0A]
  const CRLF: seq<Byte> := [0x0D, 0x0A]
  const MAX_V1 := 107
  const MAX_BUFFER := 4096

  datatype Reason =
    | UntrustedSpoof | V1TooLong | V1BadAddress | V1BadProtocol
    | V2BadVersion | V2ShortIpv4 | V2ShortIpv6 | V2BadCommand | HeaderOverflow

  /** An accepted header names the client and says where the payload starts. */
  datatype Verdict =
    | NeedMore
    | Accept(address: string, port: int, headerLength: nat)
    | Reject(reason: Reason)
    | Passthrough

  function Ascii(s: seq<Byte>): (text: string)
    ensures |text| == |s|
  {
    seq(|s|, i requires 0 <= i < |s| => (s[i] % 128) as char)
  }

  function StripMapped(ip: string): string {
    if "::ffff:" <= ip then ip[7..] else ip
  }

  predicate IsV1(buf: seq<Byte>) {
    V1_PREFIX <= buf
  }

  predicate IsV2(buf: seq<Byte>) {
    V2_MAGIC <= buf
  }

  /** Too short to tell: the bytes so far begin one of the two signatures. */
  predicate Undecided(buf: seq<Byte>) {
    || (|buf| < 6 && buf <= V1_PREFIX)
    || (|buf| < 12 && buf <= V2_MAGIC)
  }

  function ParseLine(line: string, remote: string, headerLength: nat): (v: Verdict)
    ensures v.Accept? ==> v.headerLength == headerLength
    ensures !v.NeedMore? && !v.Passthrough? && v != Reject(V1TooLong)
  {
    var tokens := Split(line, ' ');
    if |tokens| > 1 && tokens[1] == "UNKNOWN" then Accept(remote, 0, headerLength)
    else if |tokens| >= 6 && (tokens[1] == "TCP4" || tokens[1] == "TCP6") then
      var port := ParseInt(tokens[4], 10);
      if tokens[2] == "" || port.None? then Reject(V1BadAddress) else Accept(tokens[2], port.value, headerLength)
    else Reject(V1BadProtocol)
  }

  function ParseV1(buf: seq<Byte>, remote: string): (v: Verdict)
    ensures v.NeedMore? <==> Find(buf, CRLF) < 0 && |buf| <= MAX_V1
    ensures !v.Passthrough?
  {
    var end := Find(buf, CRLF);
    if end < 0 then (if |buf| > MAX_V1 then Reject(V1TooLong) else NeedMore)
    else ParseLine(Ascii(buf[..end]), remote, end + 2)
  }

  function Dotted(b: seq<Byte>): string
    requires |b| == 4
  {
    IntToRadix(b[0], 10) + "." + IntToRadix(b[1], 10) + "." + IntToRadix(b[2], 10) + "." + IntToRadix(b[3], 10)
  }

  function V2Length(buf: seq<Byte>): nat
    requires |buf| >= 16
  {
    16 + ReadU16(buf[14..])
  }

  /** A complete header of version 2, judged by its command and address family. */
  function ParseV2Header(header: seq<Byte>, remote: string): (v: Verdict)
    requires |header| >= 16 && |header| == V2Length(header)
    ensures v.Accept? ==> v.headerLength == |header|
    ensures !v.NeedMore? && !v.Passthrough? && v != Reject(HeaderOverflow)
  {
    var command, family: int := header[12] % 16, header[13] / 16;
    var length := |header| - 16;
    if command == 0 then Accept(remote, 0, |header|)
    else if command != 1 then Reject(V2BadCommand)
    else if family == 1 then
      if length < 12 then Reject(V2ShortIpv4)
      else Accept(Dotted(header[16..20]), ReadU16(header[24..]), |header|)
    else if family == 2 then
      if length < 36 then Reject(V2ShortIpv6)
      else Accept(Ipv6.Format(Ipv6.WordsOf(header[16..32])), ReadU16(header[48..]), |header|)
    else Accept(remote, 0, |header|)
  }

  function ParseV2(buf: seq<Byte>, remote: string): (v: Verdict)
    ensures v.NeedMore? <==> |buf| < 16 || (buf[12] / 16 == 2 && |buf| < V2Length(buf))
    ensures !v.Passthrough?
  {
    if |buf| < 16 then NeedMore
    else if buf[12] / 16 != 2 then Reject(V2BadVersion)
    else if |buf| < V2Length(buf) then NeedMore
    else
      assert buf[..V2Length(buf)][14..][..2] == buf[14..][..2];
      ParseV2Header(buf[..V2Length(buf)], remote)
  }

  datatype Peer = Peer(address: string, port: int, trusted: seq<string>) {
    function Clean(): string {
      StripMapped(address)
    }

    predicate IsTrusted() {
      Clean() in trusted
    }
  }

  function ParseBuffer(buf: seq<Byte>, peer: Peer): Verdict {
    if Undecided(buf) then NeedMore
    else if (IsV1(buf) || IsV2(buf)) && !peer.IsTrusted() then Reject(UntrustedSpoof)
    else if IsV1(buf) then ParseV1(buf, peer.Clean())
    else if IsV2(buf) then ParseV2(buf, peer.Clean())
    else Passthrough
  }

  // ---------------------------------------------------------------- one event at a time

  /** `Handed`: the socket has its real address, `bytes` is what its next reader sees. */
  datatype State =
    | Waiting(buffer: seq<Byte>)
    | Handed(address: string, port: int, bytes: seq<Byte>)
    | Failed(reason: Reason)

  function Settle(buf: seq<Byte>, peer: Peer): State {
    match ParseBuffer(buf, peer)
    case NeedMore => if |buf| > MAX_BUFFER then Failed(HeaderOverflow) else Waiting(buf)
    case Reject(reason) => Failed(reason)
    case Passthrough => Handed(peer.address, peer.port, buf)
    case Accept(address, port, n) => Handed(address, port, if n <= |buf| then buf[n..] else [])
  }

  function OnData(s: State, chunk: seq<Byte>, peer: Peer): State {
    match s
    case Waiting(buffer) => Settle(buffer + chunk, peer)
    case Handed(_, _, bytes) => s.(bytes := bytes + chunk)
    case Failed(_) => s
  }

  function Run(s: State, chunks: seq<seq<Byte>>, peer: Peer): State
    decreases |chunks|
  {
    if chunks == [] then s else Run(OnData(s, chunks[0], peer), chunks[1..], peer)
  }

  class ProxyHandler {
    const peer: Peer
    var buffer: seq<Byte>
    var finished: bool
    var destroyed: bool
    var failure: Option<Reason>
    var realRemoteAddress: string
    var realRemotePort: int
    /** Bytes put back on the socket, and those that arrive once the listener is gone. */
    var passedOn: seq<Byte>

    ghost function Now(): State
      reads this
    {
      if !finished then Waiting(buffer)
      else match failure
        case Some(reason) => Failed(reason)
        case None => Handed(realRemoteAddress, realRemotePort, passedOn)
    }

    ghost predicate Valid()
      reads this
    {
      (!finished ==> failure == None && passedOn == []) && (destroyed <==> failure.Some?)
    }

    constructor (peer: Peer)
      ensures Valid() && Now() == Waiting([]) && this.peer == peer
    {
      this.peer := peer;
      buffer, finished, destroyed, failure := [], false, false, None;
      realRemoteAddress, realRemotePort, passedOn := "", 0, [];
    }

    method HandleData(chunk: seq<Byte>)
      requires Valid()
      modifies this
      ensures Valid() && Now() == OnData(old(Now()), chunk, peer)
    {
      if finished {
        if !destroyed {
          passedOn := passedOn + chunk;
        }
        return;
      }
      buffer := buffer + chunk;
      var res := ParseBuffer(buffer, peer);
      match res {
        case NeedMore =>
          if |buffer| > MAX_BUFFER {
            finished, destroyed, failure := true, true, Some(HeaderOverflow);
          }
        case Reject(reason) =>
          finished, destroyed, failure := true, true, Some(reason);
        case Accept(address, port, n) =>
          finished, realRemoteAddress, realRemotePort := true, address, port;
          passedOn := if n <= |buffer| then buffer[n..] else [];
        case Passthrough =>
          finished, realRemoteAddress, realRemotePort := true, peer.address, peer.port;
          passedOn := buffer;
      }
    }
  }

  // ---------------------------------------------------------------- chunking

  /** The header of a trusted sender is short enough to be waited for: a version 1 line ends
      within 108 bytes, a version 2 header within 4097. Both are read off the stream. */
  ghost predicate HeaderFits(s: seq<Byte>, peer: Peer) {
    && (IsV1(s) && StripMapped(peer.address) in peer.trusted ==> Find(s, CRLF) + 1 <= MAX_V1)
    && (IsV2(s) && StripMapped(peer.address) in peer.trusted && |s| >= 16 && s[12] / 16 == 2 && |s| >= V2Length(s) ==>
          V2Length(s) - 1 <= MAX_BUFFER)
  }

  lemma OneSignature(s: seq<Byte>)
    ensures !IsV1(s) || !IsV2(s)
  {
    assert IsV1(s) ==> s[0] == V1_PREFIX[0];
    assert IsV2(s) ==> s[0] == V2_MAGIC[0];
  }

  lemma HeaderEndInside(buf: seq<Byte>, peer: Peer)
    ensures var v := ParseBuffer(buf, peer); v.Accept? ==> v.headerLength <= |buf|
  {
  }

  lemma PrefixLaws(a: seq<Byte>, s: seq<Byte>, p: seq<Byte>)
    requires a <= s
    ensures p <= s && |a| <= |p| ==> a <= p
    ensures s <= p || p <= a ==> a <= p || p <= s
    ensures s <= p ==> a <= p
    ensures p <= s && |p| <= |a| ==> p <= a
  {
    assert a == s[..|a|];
    if p <= s {
      assert p == s[..|p|];
    }
    if s <= p {
      assert s == p[..|s|];
      assert a == p[..|a|];
    }
  }

  lemma PrefixesStay(buf: seq<Byte>, more: seq<Byte>)
    requires !Undecided(buf)
    ensures !Undecided(buf + more) && (IsV1(buf + more) <==> IsV1(buf)) && (IsV2(buf + more) <==> IsV2(buf))
  {
    PrefixLaws(buf, buf + more, V1_PREFIX);
    PrefixLaws(buf, buf + more, V2_MAGIC);
  }

  lemma V1Settles(buf: seq<Byte>, more: seq<Byte>, remote: string)
    requires Find(buf + more, CRLF) + 1 <= MAX_V1
    ensures ParseV1(buf, remote) != NeedMore ==> ParseV1(buf + more, remote) == ParseV1(buf, remote)
  {
    var end := Find(buf, CRLF);
    if end >= 0 {
      FindStays(buf, more, CRLF);
      assert (buf + more)[..end] == buf[..end];
    } else if Find(buf + more, CRLF) >= 0 {
      FindLater(buf, more, CRLF);
    }
  }

  lemma V2Settles(buf: seq<Byte>, more: seq<Byte>, remote: string)
    ensures ParseV2(buf, remote) != NeedMore ==> ParseV2(buf + more, remote) == ParseV2(buf, remote)
    ensures |buf| >= 16 ==> V2Length(buf + more) == V2Length(buf)
  {
    if |buf| >= 16 {
      assert (buf + more)[14..][..2] == buf[14..][..2];
      var n := V2Length(buf);
      if n <= |buf| {
        assert (buf + more)[..n] == buf[..n];
      }
    }
  }

  /** A verdict reached on a prefix is the verdict on the whole stream. */
  lemma SettlesEarly(buf: seq<Byte>, more: seq<Byte>, peer: Peer)
    requires HeaderFits(buf + more, peer)
    ensures Settle(buf + more, peer) == OnData(Settle(buf, peer), more, peer)
  {
    var s := buf + more;
    HeaderEndInside(buf, peer);
    hide Find, ParseV1, ParseV2;
    if !Undecided(buf) {
      PrefixesStay(buf, more);
      if peer.IsTrusted() && IsV1(buf) {
        V1Settles(buf, more, peer.Clean());
      } else if peer.IsTrusted() && IsV2(buf) {
        V2Settles(buf, more, peer.Clean());
      }
      match ParseBuffer(buf, peer)
      case Accept(_, _, n) => assert s[n..] == buf[n..] + more;
      case _ =>
    }
  }

  lemma WaitsForBuffer(buf: seq<Byte>, peer: Peer)
    ensures Settle(buf, peer).Waiting? ==> Settle(buf, peer).buffer == buf
  {
    hide ParseBuffer;
  }

  /** Every way of cutting the stream gives the verdict, address, port and bytes of the whole. */
  lemma {:induction false} ChunkingIrrelevant(buf: seq<Byte>, chunks: seq<seq<Byte>>, peer: Peer)
    requires HeaderFits(buf + Flatten(chunks), peer)
    ensures Run(Settle(buf, peer), chunks, peer) == Settle(buf + Flatten(chunks), peer)
    decreases |chunks|
  {
    WaitsForBuffer(buf, peer);
    if chunks == [] {
      assert buf + [] == buf;
    } else {
      hide Settle, HeaderFits;
      var rest := Flatten(chunks[1..]);
      assert buf + chunks[0] + rest == buf + Flatten(chunks);
      match Settle(buf, peer)
      case Waiting(b) =>
        ChunkingIrrelevant(buf + chunks[0], chunks[1..], peer);
      case _ =>
        SettlesEarly(buf, Flatten(chunks), peer);
        RunSettled(Settle(buf, peer), chunks, peer);
    }
  }

  lemma {:induction false} RunSettled(s: State, chunks: seq<seq<Byte>>, peer: Peer)
    requires !s.Waiting?
    ensures Run(s, chunks, peer) == OnData(s, Flatten(chunks), peer)
    decreases |chunks|
  {
    if chunks == [] {
      assert s.Handed? ==> s.bytes + [] == s.bytes;
    } else {
      RunSettled(OnData(s, chunks[0], peer), chunks[1..], peer);
      assert s.Handed? ==> s.bytes + chunks[0] + Flatten(chunks[1..]) == s.bytes + Flatten(chunks);
    }
  }

  /** The whole protocol from a new connection, and its exact limit: all cuts of a stream agree
      with the uncut stream if and only if its header fits. */
  lemma ChunkingExact(s: seq<Byte>, peer: Peer)
    ensures (forall chunks: seq<seq<Byte>> :: Flatten(chunks) == s ==> Run(Waiting([]), chunks, peer) == Settle(s, peer))
            <==> HeaderFits(s, peer)
  {
    assert Settle([], peer) == Waiting([]);
    assert [] + s == s;
    if HeaderFits(s, peer) {
      forall chunks: seq<seq<Byte>> | Flatten(chunks) == s
        ensures Run(Waiting([]), chunks, peer) == Settle(s, peer)
      {
        ChunkingIrrelevant([], chunks, peer);
      }
    } else if IsV1(s) && Find(s, CRLF) + 1 > MAX_V1 {
      LongLineIsCut(s, peer);
    } else {
      LongHeaderIsCut(s, peer);
    }
  }

  lemma CutAt(s: seq<Byte>, n: nat, peer: Peer)
    requires n <= |s| && Settle(s[..n], peer) != Settle(s, peer) && Settle(s[..n], peer).Failed?
    ensures exists chunks: seq<seq<Byte>> :: Flatten(chunks) == s && Run(Waiting([]), chunks, peer) != Settle(s, peer)
  {
    assert OnData(Waiting([]), s[..n], peer) == Settle(s[..n], peer) by {
      assert [] + s[..n] == s[..n];
    }
    hide Settle, Flatten;
    var chunks := [s[..n], s[n..]];
    TwoChunks(s, n);
    RunSettled(Settle(s[..n], peer), chunks[1..], peer);
    assert Run(Waiting([]), chunks, peer) == Settle(s[..n], peer);
  }

  lemma TwoChunks(s: seq<Byte>, n: nat)
    requires n <= |s|
    ensures Flatten([s[..n], s[n..]]) == s
  {
    var chunks: seq<seq<Byte>> := [s[..n], s[n..]];
    var tail := chunks[1..];
    assert tail == [s[n..]] && |tail[1..]| == 0;
    assert Flatten(tail) == s[n..] + [];
  }

  lemma LongLineIsCut(s: seq<Byte>, peer: Peer)
    requires IsV1(s) && peer.IsTrusted() && Find(s, CRLF) + 1 > MAX_V1
    ensures exists chunks: seq<seq<Byte>> :: Flatten(chunks) == s && Run(Waiting([]), chunks, peer) != Settle(s, peer)
  {
    var n := MAX_V1 + 1;
    FindFirst(s, CRLF);
    FindFirst(s[..n], CRLF);
    assert s == s[..n] + s[n..];
    if Find(s[..n], CRLF) >= 0 {
      FindStays(s[..n], s[n..], CRLF);
    }
    hide Find;
    PrefixLaws(s[..n], s, V1_PREFIX);
    PrefixesStay(s[..n], s[n..]);
    assert Settle(s[..n], peer) == Failed(V1TooLong);
    assert Settle(s, peer) != Failed(V1TooLong);
    CutAt(s, n, peer);
  }

  lemma LongHeaderIsCut(s: seq<Byte>, peer: Peer)
    requires IsV2(s) && peer.IsTrusted() && |s| >= 16 && s[12] / 16 == 2
    requires |s| >= V2Length(s) && V2Length(s) - 1 > MAX_BUFFER
    ensures exists chunks: seq<seq<Byte>> :: Flatten(chunks) == s && Run(Waiting([]), chunks, peer) != Settle(s, peer)
  {
    var n := MAX_BUFFER + 1;
    assert s == s[..n] + s[n..];
    PrefixLaws(s[..n], s, V2_MAGIC);
    V2Settles(s[..n], s[n..], peer.Clean());
    OneSignature(s[..n]);
    OneSignature(s);
    assert s[..n][12] == s[12];
    hide ParseV1, ParseV2;
    assert Settle(s[..n], peer) == Failed(HeaderOverflow);
    assert Settle(s, peer) != Failed(HeaderOverflow);
    CutAt(s, n, peer);
  }

  lemma LineEnd(s: seq<Byte>)
    requires Find(s, CRLF) >= 0
    ensures var end := Find(s, CRLF); end + 2 <= |s| && s[end..end + 2] == CRLF && Find(s[..end], CRLF) < 0
  {
    FindLeast(s, CRLF);
    FindFirst(s, CRLF);
  }

  lemma HeaderLengths(s: seq<Byte>, peer: Peer)
    requires ParseBuffer(s, peer).Accept?
    ensures var n := ParseBuffer(s, peer).headerLength;
            && 2 <= n <= |s|
            && (IsV1(s) ==> n == Find(s, CRLF) + 2 && Find(s, CRLF) >= 0)
            && (IsV2(s) ==> |s| >= 16 && n == V2Length(s))
            && (IsV1(s) || IsV2(s))
  {
    hide ParseLine, ParseV2Header, Find;
    OneSignature(s);
  }

  lemma PassesPlain(s: seq<Byte>, peer: Peer)
    requires ParseBuffer(s, peer).Passthrough?
    ensures !IsV1(s) && !IsV2(s)
  {
    hide ParseLine, ParseV2Header, Find;
  }

  /** Nothing of the stream is lost or repeated: what is handed on is a suffix of the stream,
      all of it when no header came, and a header is dropped whole. */
  lemma HandsOnTheRest(s: seq<Byte>, peer: Peer)
    requires Settle(s, peer).Handed?
    ensures var n := |s| - |Settle(s, peer).bytes|;
            && 0 <= n && Settle(s, peer).bytes == s[n..]
            && (n > 0 <==> IsV1(s) || IsV2(s))
            && (IsV1(s) ==> n >= 2 && s[n - 2..n] == CRLF && Find(s[..n - 2], CRLF) < 0)
            && (IsV2(s) ==> |s| >= 16 && n == V2Length(s))
  {
    hide ParseBuffer, Find, IsV1, IsV2, V2Length;
    if ParseBuffer(s, peer).Accept? {
      HeaderLengths(s, peer);
      if IsV1(s) {
        LineEnd(s);
      }
    } else {
      PassesPlain(s, peer);
      assert s[0..] == s;
    }
  }

  // ---------------------------------------------------------------- who may send a header

  /** A sender is trusted if it is on the list, plainly or in its IPv6-mapped form, and not otherwise. */
  lemma TrustedExactly(peer: Peer)
    ensures StripMapped(peer.address) in peer.trusted <==>
            || (peer.address in peer.trusted && !("::ffff:" <= peer.address))
            || exists ip <- peer.trusted :: peer.address == "::ffff:" + ip
    ensures peer.IsTrusted() <==> StripMapped(peer.address) in peer.trusted
  {
    if "::ffff:" <= peer.address {
      assert peer.address == "::ffff:" + peer.address[7..];
    }
    forall ip <- peer.trusted | peer.address == "::ffff:" + ip ensures StripMapped(peer.address) == ip {
      assert peer.address[7..] == ip;
    }
  }

  /** Anyone else's header, of either version and however cut, is refused. */
  lemma StrangerRefused(s: seq<Byte>, chunks: seq<seq<Byte>>, peer: Peer)
    requires StripMapped(peer.address) !in peer.trusted && Flatten(chunks) == s
    requires V1_PREFIX <= s || V2_MAGIC <= s
    ensures Run(Waiting([]), chunks, peer) == Failed(UntrustedSpoof)
  {
    hide Find, ParseV1, ParseV2;
    OneSignature(s);
    assert s[0] == if V1_PREFIX <= s then V1_PREFIX[0] else V2_MAGIC[0];
    assert !Undecided(s);
    ChunkingExact(s, peer);
  }

  /** Bytes that begin neither signature go on whole, with the peer's own address and port; as long as they
      may still become one of the two, they are kept back. */
  lemma PlainBytesPass(s: seq<Byte>, chunks: seq<seq<Byte>>, peer: Peer)
    requires !(V1_PREFIX <= s) && !(V2_MAGIC <= s) && Flatten(chunks) == s
    ensures Run(Waiting([]), chunks, peer) ==
            if s <= V1_PREFIX || s <= V2_MAGIC then Waiting(s) else Handed(peer.address, peer.port, s)
  {
    hide Find, ParseV1, ParseV2;
    assert s <= V1_PREFIX && |s| >= 6 ==> s == V1_PREFIX;
    assert s <= V2_MAGIC && |s| >= 12 ==> s == V2_MAGIC;
    ChunkingExact(s, peer);
  }

  // ---------------------------------------------------------------- the specification's own headers

  /** Section 2.1 of the PROXY protocol specification: the human-readable header. */
  datatype V1Header = V1Header(family: string, source: string, destination: string, sourcePort: nat, destinationPort: nat)

  predicate Token(s: string) {
    s != "" && forall c <- s :: ' ' < c < '\U{7F}'
  }

  ghost predicate V1Legal(h: V1Header) {
    && (h.family == "TCP4" || h.family == "TCP6")
    && Token(h.source) && Token(h.destination) && h.sourcePort < 65536 && h.destinationPort < 65536
  }

  function V1Tokens(h: V1Header): seq<string> {
    ["PROXY", h.family, h.source, h.destination, IntToRadix(h.sourcePort, 10), IntToRadix(h.destinationPort, 10)]
  }

  function V1Line(h: V1Header): string {
    Join(V1Tokens(h), ' ')
  }

  function Encoded(text: string): seq<Byte> {
    seq(|text|, i requires 0 <= i < |text| => text[i] as int % 128)
  }

  ghost predicate IsAscii(s: string) {
    forall c <- s :: c < '\U{80}'
  }

  lemma AsciiRoundTrip(s: string)
    requires IsAscii(s)
    ensures Ascii(Encoded(s)) == s
  {
    forall i | 0 <= i < |s|
      ensures Ascii(Encoded(s))[i] == s[i]
    {
      assert s[i] in s;
    }
  }

  ghost predicate Plain(s: string) {
    IsAscii(s) && '\r' !in s
  }

  lemma PlainJoins(a: string, b: string)
    requires Plain(a) && Plain(b)
    ensures Plain(a + [' '] + b)
  {
  }

  lemma {:induction false} JoinPlain(parts: seq<string>)
    requires forall i :: 0 <= i < |parts| ==> Plain(parts[i])
    ensures Plain(Join(parts, ' '))
  {
    if |parts| > 1 {
      JoinPlain(parts[1..]);
      PlainJoins(parts[0], Join(parts[1..], ' '));
    }
  }

  lemma V1LineIsPlain(h: V1Header)
    requires V1Legal(h)
    ensures Plain(V1Line(h))
    ensures Split(V1Line(h), ' ') == V1Tokens(h)
    ensures "PROXY " <= V1Line(h)
  {
    var tokens := V1Tokens(h);
    forall i | 0 <= i < |tokens|
      ensures Plain(tokens[i]) && ' ' !in tokens[i]
    {
    }
    hide IntToRadix, Plain;
    JoinPlain(tokens);
    SplitJoin(tokens, ' ');
    assert Join(tokens, ' ') == "PROXY" + [' '] + Join(tokens[1..], ' ');
  }

  lemma NoCrlf(line: string, rest: seq<Byte>)
    requires Plain(line)
    ensures Find(Encoded(line) + CRLF + rest, CRLF) == |line|
  {
    var s := Encoded(line) + CRLF + rest;
    FindFirst(s, CRLF);
    hide Find;
    assert s[|line|..|line| + 2] == CRLF;
    assert OccursAt(s, CRLF, |line|);
    forall j | 0 <= j < |line|
      ensures !OccursAt(s, CRLF, j)
    {
      assert line[j] in line;
      assert s[j..j + 2][0] == s[j] == line[j] as int % 128;
    }
  }

  lemma V1Begins(line: string, rest: seq<Byte>)
    requires "PROXY " <= line
    ensures var s := Encoded(line) + CRLF + rest; IsV1(s) && !IsV2(s) && !Undecided(s)
  {
    var s := Encoded(line) + CRLF + rest;
    assert Encoded("PROXY ") == V1_PREFIX;
    assert line[..6] == "PROXY ";
    assert Encoded(line)[..6] == Encoded(line[..6]);
    assert s[..6] == V1_PREFIX;
    assert s[0] == s[..6][0] == 0x50;
    assert |s| >= 6 && !(s <= V2_MAGIC);
  }

  /** The verdict on a line of version 1, word by word. */
  function V1Outcome(tokens: seq<string>, rest: seq<Byte>, peer: Peer): State
    requires |tokens| >= 2
  {
    if tokens[1] == "UNKNOWN" then Handed(StripMapped(peer.address), 0, rest)
    else if |tokens| < 6 || tokens[1] !in {"TCP4", "TCP6"} then Failed(V1BadProtocol)
    else if tokens[2] == "" || ParseInt(tokens[4], 10) == None then Failed(V1BadAddress)
    else Handed(tokens[2], ParseInt(tokens[4], 10).value, rest)
  }

  /** Any line of version 1 from a trusted proxy, legal or not and however cut: only the sender's own address
      is used for an unknown connection, and what is no TCP line or has no address or port is refused. */
  lemma V1LineJudged(tokens: seq<string>, rest: seq<Byte>, chunks: seq<seq<Byte>>, peer: Peer)
    requires |tokens| >= 2 && tokens[0] == "PROXY" && forall i :: 0 <= i < |tokens| ==> Plain(tokens[i]) && ' ' !in tokens[i]
    requires StripMapped(peer.address) in peer.trusted && |Join(tokens, ' ')| < MAX_V1
    requires Flatten(chunks) == Encoded(Join(tokens, ' ')) + CRLF + rest
    ensures Run(Waiting([]), chunks, peer) == V1Outcome(tokens, rest, peer)
  {
    var line := Join(tokens, ' ');
    var s := Encoded(line) + CRLF + rest;
    JoinPlain(tokens);
    SplitJoin(tokens, ' ');
    assert line == "PROXY" + [' '] + Join(tokens[1..], ' ');
    V1Begins(line, rest);
    NoCrlf(line, rest);
    AsciiRoundTrip(line);
    ChunkingExact(s, peer);
    hide Find, Join, Split, ParseInt, Encoded, Ascii, Undecided, Run;
    assert s[..|line|] == Encoded(line);
    assert s[|line| + 2..] == rest;
  }

  lemma V1Parses(h: V1Header)
    requires V1Legal(h)
    ensures forall remote: string, n: nat ::
              ParseLine(V1Line(h), remote, n) == Accept(h.source, h.sourcePort, n)
  {
    V1LineIsPlain(h);
    ParsePrinted(h.sourcePort, 10, "");
    assert IntToRadix(h.sourcePort, 10) + "" == IntToRadix(h.sourcePort, 10);
    hide V1Line, ParseInt, IntToRadix;
  }

  /** Whatever legal version 1 header a trusted proxy writes, however it is cut into events, the
      socket gets the client's address and port, and the next reader exactly what follows. */
  lemma V1HeaderArrives(h: V1Header, rest: seq<Byte>, chunks: seq<seq<Byte>>, peer: Peer)
    requires V1Legal(h) && StripMapped(peer.address) in peer.trusted && |V1Line(h)| < MAX_V1
    requires Flatten(chunks) == Encoded(V1Line(h)) + CRLF + rest
    ensures Run(Waiting([]), chunks, peer) == Handed(h.source, h.sourcePort, rest)
  {
    var line := V1Line(h);
    var s := Encoded(line) + CRLF + rest;
    V1LineIsPlain(h);
    V1Begins(line, rest);
    NoCrlf(line, rest);
    AsciiRoundTrip(line);
    V1Parses(h);
    ChunkingExact(s, peer);
    hide Find, V1Line, ParseLine, Encoded, Ascii, Undecided, Run;
    assert s[..|line|] == Encoded(line);
    assert s[|line| + 2..] == rest;
  }

  /** Section 2.2: the binary header of a proxied connection over IPv4 or IPv6; `transport`
      is the low nibble of byte 14, `extensions` the TLV vectors. */
  datatype V2Header = V2Header(
    transport: nat, source: seq<Byte>, destination: seq<Byte>, sourcePort: nat, destinationPort: nat,
    extensions: seq<Byte>)

  ghost predicate V2Legal(h: V2Header) {
    && h.transport < 16 && |h.source| == |h.destination| && (|h.source| == 4 || |h.source| == 16)
    && h.sourcePort < U16_LIMIT && h.destinationPort < U16_LIMIT && 16 + |V2Addresses(h)| <= MAX_BUFFER + 1
  }

  function V2Addresses(h: V2Header): seq<Byte>
    requires h.sourcePort < U16_LIMIT && h.destinationPort < U16_LIMIT
  {
    h.source + h.destination + U16BE(h.sourcePort) + U16BE(h.destinationPort) + h.extensions
  }

  ghost function V2Encode(h: V2Header): seq<Byte>
    requires V2Legal(h)
  {
    V2_MAGIC + [0x21, (if |h.source| == 4 then 0x10 else 0x20) + h.transport] + U16BE(|V2Addresses(h)|) + V2Addresses(h)
  }

  function PrintedAddress(source: seq<Byte>): string
    requires |source| == 4 || |source| == 16
  {
    if |source| == 4 then Dotted(source) else Ipv6.Format(Ipv6.WordsOf(source))
  }

  lemma NoDot(b: Byte)
    ensures '.' !in IntToRadix(b, 10)
  {
    NumberOfToRadix(b, 10);
    assert forall c <- ToRadix(b, 10) :: PrintedDigit(c);
  }

  /** The dotted form names the four octets in their order. */
  lemma DottedReads(b: seq<Byte>, i: nat)
    requires |b| == 4 && i < 4
    ensures var parts := Split(Dotted(b), '.'); |parts| == 4 && ParseInt(parts[i], 10) == Some(b[i] as int)
  {
    var parts := [IntToRadix(b[0], 10), IntToRadix(b[1], 10), IntToRadix(b[2], 10), IntToRadix(b[3], 10)];
    forall j | 0 <= j < 4 ensures '.' !in parts[j] {
      NoDot(b[j]);
    }
    hide IntToRadix, ParseInt;
    FourJoined(parts[0], parts[1], parts[2], parts[3]);
    assert Dotted(b) == Join(parts, '.');
    SplitJoin(parts, '.');
    ParsePrinted(b[i], 10, "");
    assert parts[i] + "" == parts[i];
  }

  lemma FourJoined(a: string, b: string, c: string, d: string)
    ensures Join([a, b, c, d], '.') == a + "." + b + "." + c + "." + d
  {
    var rest := [b, c, d];
    assert [a, b, c, d][1..] == rest && rest[1..] == [c, d] && [c, d][1..] == [d];
    assert Join([a, b, c, d], '.') == a + ['.'] + Join(rest, '.');
    assert Join(rest, '.') == b + ['.'] + Join([c, d], '.');
    assert Join([c, d], '.') == c + ['.'] + Join([d], '.');
    assert a + "." + (b + "." + (c + "." + d)) == a + "." + b + "." + c + "." + d;
  }

  lemma V2Fields(h: V2Header)
    requires V2Legal(h)
    ensures var w := V2Encode(h); var n := |h.source|;
            && |w| == 16 + |V2Addresses(h)| && V2_MAGIC <= w && w[12] == 0x21
            && w[13] / 16 == (if n == 4 then 1 else 2)
            && ReadU16(w[14..]) == |V2Addresses(h)| && |V2Addresses(h)| >= 2 * n + 4
            && w[16..16 + n] == h.source && ReadU16(w[16 + 2 * n..]) == h.sourcePort
  {
    var w, n := V2Encode(h), |h.source|;
    assert w[14..16] == U16BE(|V2Addresses(h)|);
    assert w[16..] == V2Addresses(h);
    assert w[16..16 + n] == V2Addresses(h)[..n];
    assert w[16 + 2 * n..] == V2Addresses(h)[2 * n..];
    assert V2Addresses(h)[2 * n..] == U16BE(h.sourcePort) + U16BE(h.destinationPort) + h.extensions;
  }

  /** The verdict on a header of version 2 by its version, command and family. */
  function V2Outcome(w: seq<Byte>, rest: seq<Byte>, peer: Peer): State
    requires |w| >= 16
  {
    var version, command, family: int := w[12] / 16, w[12] % 16, w[13] / 16;
    var own := Handed(StripMapped(peer.address), 0, rest);
    if version != 2 then Failed(V2BadVersion)
    else if command > 1 then Failed(V2BadCommand)
    else if command == 0 then own
    else match family
      case 1 =>
        if |w| < 28 then Failed(V2ShortIpv4) else Handed(Dotted(w[16..20]), ReadU16(w[24..26]), rest)
      case 2 =>
        if |w| < 52 then Failed(V2ShortIpv6) else Handed(Ipv6.Format(Ipv6.WordsOf(w[16..32])), ReadU16(w[48..50]), rest)
      case _ => own
  }

  lemma V2Whole(w: seq<Byte>, rest: seq<Byte>)
    requires |w| >= 16 && V2_MAGIC <= w && V2Length(w) == |w|
    ensures var s := w + rest;
            IsV2(s) && !IsV1(s) && !Undecided(s) && |s| >= 16 && V2Length(s) == |w| && s[..|w|] == w && s[|w|..] == rest
            && s[12] == w[12]
  {
    var s := w + rest;
    V2Settles(w, rest, "");
    PrefixLaws(w, s, V2_MAGIC);
    assert w[..12] == V2_MAGIC;
    assert s[..12] == V2_MAGIC;
    OneSignature(s);
  }

  /** Any complete header of version 2 from a trusted proxy, however cut. */
  lemma V2HeaderJudged(w: seq<Byte>, rest: seq<Byte>, chunks: seq<seq<Byte>>, peer: Peer)
    requires 16 <= |w| <= MAX_BUFFER + 1 && V2_MAGIC <= w && V2Length(w) == |w|
    requires StripMapped(peer.address) in peer.trusted && Flatten(chunks) == w + rest
    ensures Run(Waiting([]), chunks, peer) == V2Outcome(w, rest, peer)
  {
    hide IsV1, IsV2, Undecided, Run, Dotted;
    V2Whole(w, rest);
    ChunkingExact(w + rest, peer);
  }

  lemma V2HeaderArrives(h: V2Header, rest: seq<Byte>, chunks: seq<seq<Byte>>, peer: Peer)
    requires V2Legal(h) && StripMapped(peer.address) in peer.trusted && Flatten(chunks) == V2Encode(h) + rest
    ensures Run(Waiting([]), chunks, peer) == Handed(PrintedAddress(h.source), h.sourcePort, rest)
  {
    var w := V2Encode(h);
    var s := w + rest;
    V2Fields(h);
    hide V2Encode, ReadU16;
    assert s[14..][..2] == w[14..][..2];
    assert ReadU16(s[14..]) == ReadU16(w[14..]) by {
      V2Settles(w, rest, "");
    }
    assert w[..12] == V2_MAGIC;
    assert s[0] == w[..12][0] == 0x0D;
    assert IsV2(s) && !IsV1(s);
    assert |s| >= 16 && !Undecided(s);
    assert s[..|w|] == w && s[|w|..] == rest;
    assert ParseV2Header(w, peer.Clean()) == Accept(PrintedAddress(h.source), h.sourcePort, |w|);
    ChunkingExact(s, peer);
  }
}
