/**
 * The SSH-2 binary packet transport of a client connection: `sendPacket` frames payloads
 * (section 6 of RFC 4253), `processIncoming` recovers them from a byte stream cut anywhere.
 */
module SshTransport {
  import opened Bytes

  type Digest = d: seq<Byte> | |d| == 32 witness seq(32, _ => 0)

  /** One direction's key material: the cipher's key stream by position, and the MAC. */
  datatype Keys = Keys(stream: nat -> Byte, mac: (int, seq<Byte>) -> Digest)

  const NEWKEYS: Byte := 21
  const NEWLINE: Byte := 10
  const MAX_PACKET := 65536
  const MAX_BANNER := 256
  /** Largest payload whose packet length field still fits the receiver's limit. */
  const MAX_PAYLOAD := 65527

  // ---------------------------------------------------------------- cipher

  /** Counter mode: the same operation encrypts and decrypts, at a stream position. */
  function Crypt(k: Keys, pos: nat, data: seq<Byte>): (out: seq<Byte>)
    ensures |out| == |data|
  {
    seq(|data|, i requires 0 <= i < |data| => XorByte(data[i], k.stream(pos + i)))
  }

  lemma CryptCancels(k: Keys, pos: nat, data: seq<Byte>)
    ensures Crypt(k, pos, Crypt(k, pos, data)) == data
  {
    forall i | 0 <= i < |data|
      ensures Crypt(k, pos, Crypt(k, pos, data))[i] == data[i]
    {
      XorCancels(data[i], k.stream(pos + i));
    }
  }

  /** Plaintext and ciphertext together show the key stream at that position, and nothing else. */
  lemma CryptShowsStream(k: Keys, pos: nat, data: seq<Byte>, i: nat)
    requires i < |data|
    ensures XorByte(Crypt(k, pos, data)[i], data[i]) == k.stream(pos + i)
  {
    XorShows(data[i], k.stream(pos + i));
  }

  /** Decrypting a header first and its body later is decrypting the whole packet. */
  lemma CryptSplits(k: Keys, pos: nat, a: seq<Byte>, b: seq<Byte>)
    ensures Crypt(k, pos, a + b) == Crypt(k, pos, a) + Crypt(k, pos + |a|, b)
  {
    var whole, parts := Crypt(k, pos, a + b), Crypt(k, pos, a) + Crypt(k, pos + |a|, b);
    forall i | 0 <= i < |whole|
      ensures whole[i] == parts[i]
    {
      if i < |a| {
        assert (a + b)[i] == a[i];
      } else {
        assert (a + b)[i] == b[i - |a|];
      }
    }
  }

  // ---------------------------------------------------------------- sending

  function PadLength(payloadLength: nat): nat {
    var pad := 16 - (5 + payloadLength) % 16;
    if pad < 4 then pad + 16 else pad
  }

  /** Section 6 of RFC 4253: at least four bytes of padding, whole cipher blocks; and the
      padding chosen is the only one below twenty that does it. */
  lemma PaddingRule(n: nat, pad: nat)
    requires pad < 20
    ensures pad == PadLength(n) <==> 4 <= pad && (5 + n + pad) % 16 == 0
  {
    var r := (5 + n) % 16;
    assert (5 + n + pad) % 16 == (r + pad) % 16;
  }

  function Packet(payload: seq<Byte>, padding: seq<Byte>): seq<Byte>
    requires |padding| < 256
    requires 1 + |payload| + |padding| < U32_LIMIT
  {
    U32BE(1 + |payload| + |padding|) + [|padding|] + payload + padding
  }

  datatype Sender = Sender(open: bool, encrypted: bool, seqNo: nat, pos: nat, wire: seq<Byte>)

  ghost predicate Sendable(payload: seq<Byte>, padding: seq<Byte>) {
    |payload| + 20 < U32_LIMIT && |padding| == PadLength(|payload|)
  }

  function WireForm(k: Keys, encrypted: bool, seqNo: int, pos: nat, packet: seq<Byte>): seq<Byte> {
    if encrypted then Crypt(k, pos, packet) + k.mac(seqNo, packet) else packet
  }

  ghost function Send(k: Keys, s: Sender, payload: seq<Byte>, padding: seq<Byte>): Sender
    requires Sendable(payload, padding)
  {
    var packet := Packet(payload, padding);
    if !s.open then s else
      s.(seqNo := (s.seqNo + 1) % U32_LIMIT,
         pos := if s.encrypted then s.pos + |packet| else s.pos,
         wire := s.wire + WireForm(k, s.encrypted, s.seqNo, s.pos, packet))
  }

  /** The key exchange switches the outgoing direction on right after its NEWKEYS packet. */
  ghost function SendThenSwitch(k: Keys, s: Sender, payload: seq<Byte>, padding: seq<Byte>): Sender
    requires Sendable(payload, padding)
  {
    var sent := Send(k, s, payload, padding);
    if s.open && payload != [] && payload[0] == NEWKEYS then sent.(encrypted := true) else sent
  }

  // ---------------------------------------------------------------- receiving

  /** `packetLength == 0` is the source's null: no encrypted header has been read. */
  datatype Receiver = Receiver(
    open: bool,
    thrown: bool,
    identifying: bool,
    buffer: seq<Byte>,
    encrypted: bool,
    packetLength: nat,
    head: seq<Byte>,
    seqNo: nat,
    pos: nat,
    delivered: seq<seq<Byte>>)

  function IndexOf(s: seq<Byte>, b: Byte): (i: int)
    ensures -1 <= i < |s|
    ensures i >= 0 ==> s[i] == b
    ensures forall j :: 0 <= j < (if i >= 0 then i else |s|) ==> s[j] != b
  {
    if s == [] then -1
    else if s[0] == b then 0
    else
      var i := IndexOf(s[1..], b);
      if i < 0 then -1 else i + 1
  }

  /** Reading the message type off an empty payload throws; the rest of the buffer waits. */
  function Handle(r: Receiver, payload: seq<Byte>): Receiver {
    if payload == [] then r.(thrown := true)
    else r.(delivered := r.delivered + [payload], encrypted := r.encrypted || payload[0] == NEWKEYS)
  }

  function IdentStep(r: Receiver): Receiver {
    var i := IndexOf(r.buffer, NEWLINE);
    if i >= 0 then r.(buffer := r.buffer[i + 1..], identifying := false)
    else if |r.buffer| > MAX_BANNER then r.(open := false)
    else r
  }

  function TakePacket(r: Receiver, payload: seq<Byte>, rest: seq<Byte>): Receiver {
    Handle(r.(buffer := rest, seqNo := (r.seqNo + 1) % U32_LIMIT), payload)
  }

  function ClearStep(r: Receiver): Receiver {
    if |r.buffer| < 5 then r else
      var length, pad: int := ReadU32(r.buffer), r.buffer[4];
      if length > MAX_PACKET || length < 4 || pad >= length then r.(open := false)
      else if |r.buffer| < 4 + length then r
      else TakePacket(r, r.buffer[5..4 + length - pad], r.buffer[4 + length..])
  }

  function TakeHeader(r: Receiver, head: seq<Byte>, rest: seq<Byte>): Receiver
    requires |head| == 4
  {
    var length := ReadU32(head);
    U32Writes(head);
    var r' := r.(buffer := rest, pos := r.pos + 4, head := head, packetLength := length);
    if length > MAX_PACKET || length < 4 then r'.(open := false) else r'
  }

  function HeaderStep(k: Keys, r: Receiver): Receiver {
    if |r.buffer| < 4 then r else TakeHeader(r, Crypt(k, r.pos, r.buffer[..4]), r.buffer[4..])
  }

  /** A header that was read is four bytes long and announced a length within limits. */
  ghost predicate Framed(r: Receiver) {
    r.open && r.packetLength != 0 ==> |r.head| == 4 && 4 <= r.packetLength <= MAX_PACKET
  }

  /** The decrypted packet against its MAC and its padding length. */
  ghost function Judge(k: Keys, r: Receiver, plain: seq<Byte>, mac: seq<Byte>): Receiver
    requires |plain| == 4 + r.packetLength && r.packetLength >= 1
  {
    if mac != k.mac(r.seqNo, plain) then r.(open := false) else
      var pad: int := plain[4];
      var next := r.(seqNo := (r.seqNo + 1) % U32_LIMIT);
      if pad >= r.packetLength || pad < 4 then next.(open := false)
      else Handle(next.(packetLength := 0, head := []), plain[5..|plain| - pad])
  }

  ghost function BodyStep(k: Keys, r: Receiver): Receiver
    requires r.open && r.packetLength != 0 && Framed(r)
  {
    var length := r.packetLength;
    if |r.buffer| < length + 32 then r else
      Judge(k, r.(buffer := r.buffer[length + 32..], pos := r.pos + length),
            r.head + Crypt(k, r.pos, r.buffer[..length]), r.buffer[length..length + 32])
  }

  ghost function Step(k: Keys, r: Receiver): (r': Receiver)
    requires Framed(r)
    ensures Framed(r')
  {
    if !r.open || r.thrown then r
    else if r.identifying then IdentStep(r)
    else if !r.encrypted then ClearStep(r)
    else if r.packetLength == 0 then HeaderStep(k, r)
    else BodyStep(k, r)
  }

  ghost function Rank(r: Receiver): nat {
    |r.buffer| + (if r.open then 1 else 0)
  }

  lemma EmptyRests(k: Keys, r: Receiver)
    requires Framed(r) && r.buffer == []
    ensures Step(k, r) == r
  {
  }

  /** What one call of `processIncoming` leaves behind. */
  ghost function Drain(k: Keys, r: Receiver): (r': Receiver)
    requires Framed(r)
    ensures Framed(r') && Step(k, r') == r'
    decreases Rank(r)
  {
    var next := Step(k, r);
    if next == r then r else Drain(k, next)
  }

  lemma DrainsIn(k: Keys, a: Receiver, b: Receiver, c: Receiver)
    requires Framed(a) && Framed(b) && Framed(c)
    requires Step(k, a) == b && Step(k, b) == c && Step(k, c) == c
    ensures Drain(k, a) == c
  {
    assert Drain(k, c) == c;
    assert Drain(k, b) == c;
  }

  lemma DrainStep(k: Keys, r: Receiver)
    requires Framed(r)
    ensures Drain(k, r) == Drain(k, Step(k, r))
  {
  }

  function Append(r: Receiver, bytes: seq<Byte>): Receiver {
    r.(buffer := r.buffer + bytes)
  }

  /** One `data` event: a destroyed socket delivers none, a past exception is forgotten. */
  ghost function Feed(k: Keys, r: Receiver, chunk: seq<Byte>): (r': Receiver)
    requires Framed(r)
    ensures Framed(r')
  {
    if !r.open then r else Drain(k, Append(r.(thrown := false), chunk))
  }

  ghost function FeedAll(k: Keys, r: Receiver, chunks: seq<seq<Byte>>): Receiver
    requires Framed(r)
    decreases |chunks|
  {
    if chunks == [] then r else FeedAll(k, Feed(k, r, chunks[0]), chunks[1..])
  }

  // ---------------------------------------------------------------- chunking

  lemma {:induction false} IndexOfPrefix(s: seq<Byte>, t: seq<Byte>, b: Byte)
    ensures IndexOf(s, b) >= 0 ==> IndexOf(s + t, b) == IndexOf(s, b)
    ensures IndexOf(s, b) < 0 && IndexOf(s + t, b) >= 0 ==> IndexOf(s + t, b) >= |s|
  {
    var i, j := IndexOf(s, b), IndexOf(s + t, b);
    if i >= 0 {
      assert (s + t)[i] == b;
      assert forall n :: 0 <= n < i ==> (s + t)[n] == s[n];
    }
    assert 0 <= j < |s| ==> (s + t)[j] == s[j];
  }

  /** The identification line, if it ends at all, ends within the length limit. */
  ghost predicate BannerFits(r: Receiver, rest: seq<Byte>) {
    r.identifying ==> IndexOf(r.buffer + rest, NEWLINE) <= MAX_BANNER
  }

  lemma IdentAppend(r: Receiver, rest: seq<Byte>)
    requires IdentStep(r) != r && r.identifying && BannerFits(r, rest)
    ensures IdentStep(Append(r, rest)) == Append(IdentStep(r), rest)
  {
    IndexOfPrefix(r.buffer, rest, NEWLINE);
    var i := IndexOf(r.buffer, NEWLINE);
    if i >= 0 {
      assert (r.buffer + rest)[i + 1..] == r.buffer[i + 1..] + rest;
    }
  }

  lemma SliceAppend(b: seq<Byte>, rest: seq<Byte>, n: nat, m: nat)
    requires n <= m <= |b|
    ensures (b + rest)[n..m] == b[n..m] && (b + rest)[..n] == b[..n] && (b + rest)[m..] == b[m..] + rest
  {
  }

  lemma HandleAppend(r: Receiver, payload: seq<Byte>, rest: seq<Byte>)
    ensures Handle(Append(r, rest), payload) == Append(Handle(r, payload), rest)
  {
  }

  lemma TakeAppend(r: Receiver, payload: seq<Byte>, left: seq<Byte>, rest: seq<Byte>)
    ensures TakePacket(Append(r, rest), payload, left + rest) == Append(TakePacket(r, payload, left), rest)
  {
  }

  lemma HeadAppend(b: seq<Byte>, rest: seq<Byte>)
    requires |b| >= 5
    ensures ReadU32(b + rest) == ReadU32(b) && (b + rest)[4] == b[4]
  {
  }

  lemma ClearAppend(r: Receiver, rest: seq<Byte>)
    requires ClearStep(r) != r && r.open
    ensures ClearStep(Append(r, rest)) == Append(ClearStep(r), rest)
  {
    hide ReadU32, TakePacket;
    var b := r.buffer;
    HeadAppend(b, rest);
    var length, pad: int := ReadU32(b), b[4];
    if 4 <= length <= MAX_PACKET && pad < length {
      SliceAppend(b, rest, 5, 4 + length - pad);
      SliceAppend(b, rest, 4 + length, 4 + length);
      TakeAppend(r, b[5..4 + length - pad], b[4 + length..], rest);
    }
  }

  lemma JudgeAppend(k: Keys, r: Receiver, plain: seq<Byte>, mac: seq<Byte>, rest: seq<Byte>)
    requires |plain| == 4 + r.packetLength && r.packetLength >= 1
    ensures Judge(k, Append(r, rest), plain, mac) == Append(Judge(k, r, plain, mac), rest)
  {
    hide Handle;
    if mac == k.mac(r.seqNo, plain) {
      var pad: int := plain[4];
      if 4 <= pad < r.packetLength {
        HandleAppend(r.(seqNo := (r.seqNo + 1) % U32_LIMIT, packetLength := 0, head := []),
                     plain[5..|plain| - pad], rest);
      }
    }
  }

  lemma BodyAppend(k: Keys, r: Receiver, rest: seq<Byte>)
    requires r.open && r.packetLength != 0 && Framed(r) && BodyStep(k, r) != r
    ensures BodyStep(k, Append(r, rest)) == Append(BodyStep(k, r), rest)
  {
    hide Crypt, Judge;
    var b, length := r.buffer, r.packetLength;
    SliceAppend(b, rest, length, length + 32);
    var r' := r.(buffer := b[length + 32..], pos := r.pos + length);
    JudgeAppend(k, r', r.head + Crypt(k, r.pos, b[..length]), b[length..length + 32], rest);
  }

  /** Bytes that arrive later cannot change a step that is already possible. */
  lemma StepAppend(k: Keys, r: Receiver, rest: seq<Byte>)
    requires Framed(r) && Step(k, r) != r && BannerFits(r, rest)
    ensures Step(k, Append(r, rest)) == Append(Step(k, r), rest)
  {
    if r.identifying {
      IdentAppend(r, rest);
    } else if !r.encrypted {
      ClearAppend(r, rest);
    } else if r.packetLength == 0 {
      assert (r.buffer + rest)[..4] == r.buffer[..4];
      assert (r.buffer + rest)[4..] == r.buffer[4..] + rest;
    } else {
      BodyAppend(k, r, rest);
    }
  }

  lemma StepForgetsLine(k: Keys, r: Receiver)
    requires Framed(r)
    ensures Step(k, r) == r || !Step(k, r).open || !Step(k, r).identifying
    ensures !r.identifying ==> !Step(k, r).identifying
    ensures Step(k, r) == r || Rank(Step(k, r)) < Rank(r)
    ensures Step(k, r).identifying ==> Step(k, r).buffer == r.buffer
    ensures !r.open ==> Step(k, r) == r
  {
    hide ReadU32, Crypt;
  }

  lemma {:induction false} DrainAppend(k: Keys, r: Receiver, rest: seq<Byte>)
    requires Framed(r) && BannerFits(r, rest)
    ensures Drain(k, Append(r, rest)) == Drain(k, Append(Drain(k, r), rest))
    decreases Rank(r)
  {
    hide Step;
    var next := Step(k, r);
    if next != r {
      StepAppend(k, r, rest);
      StepForgetsLine(k, r);
      DrainAppend(k, next, rest);
    }
  }

  lemma {:induction false} DrainForgetsLine(k: Keys, r: Receiver)
    requires Framed(r)
    ensures Drain(k, r).identifying && Drain(k, r).open ==> Drain(k, r) == r
    ensures !r.identifying ==> !Drain(k, r).identifying
    decreases Rank(r)
  {
    hide Step;
    StepForgetsLine(k, r);
    if Step(k, r) != r {
      DrainForgetsLine(k, Step(k, r));
    }
  }

  /** The same payloads, verdict and state kept for later. Once the connection is closed the bytes left in
      the buffer are never looked at; whether the last event ended in an exception is not kept. */
  ghost predicate Same(a: Receiver, b: Receiver) {
    if a.open then a.(thrown := false) == b.(thrown := false)
    else a.(thrown := false, buffer := []) == b.(thrown := false, buffer := [])
  }

  ghost predicate Resting(k: Keys, r: Receiver) {
    Framed(r) && r.open && !r.thrown && Step(k, r) == r
  }

  /** If the reading ended in an exception, nothing in the buffer could be read further. */
  ghost predicate Inert(k: Keys, r: Receiver)
    requires Framed(r)
  {
    r.thrown ==> Step(k, r.(thrown := false)) == r.(thrown := false)
  }

  lemma AppendInjective(a: Receiver, b: Receiver, rest: seq<Byte>)
    ensures Append(a, rest) == Append(b, rest) <==> a == b
  {
    if Append(a, rest) == Append(b, rest) {
      assert a.buffer == (a.buffer + rest)[..|a.buffer|] && b.buffer == (b.buffer + rest)[..|b.buffer|];
    }
  }

  /** Where nothing can be read with more bytes, nothing can be read without them. */
  lemma StuckPrefix(k: Keys, r: Receiver, rest: seq<Byte>)
    requires Framed(r) && BannerFits(r, rest) && Step(k, Append(r, rest)) == Append(r, rest)
    ensures Step(k, r) == r
  {
    hide Step;
    if Step(k, r) != r {
      StepAppend(k, r, rest);
      AppendInjective(Step(k, r), r, rest);
    }
  }

  /** Behind an exception with an inert rest, events only collect bytes. */
  lemma {:induction false} InertStays(k: Keys, d: Receiver, chunks: seq<seq<Byte>>)
    requires Framed(d) && d.open && !d.identifying
    requires var all := Append(d.(thrown := false), Flatten(chunks)); Step(k, all) == all
    ensures FeedAll(k, d, chunks).(thrown := false) == Append(d.(thrown := false), Flatten(chunks))
    decreases |chunks|
  {
    hide Step;
    var clear := d.(thrown := false);
    if chunks == [] {
      assert clear.buffer + [] == clear.buffer;
    } else {
      var first, rest := chunks[0], Flatten(chunks[1..]);
      var next := Append(clear, first);
      assert next.buffer + rest == clear.buffer + Flatten(chunks);
      assert Append(next, rest) == Append(clear, Flatten(chunks));
      StuckPrefix(k, next, rest);
      assert Feed(k, d, first) == next;
      assert next.(thrown := false) == next;
      InertStays(k, next, chunks[1..]);
    }
  }

  /** Whatever bytes arrive, well formed or not: as long as the identification line fits, and a packet
      without payload leaves nothing behind that could be read, it makes no difference how they were
      cut into `data` events. */
  lemma {:induction false} ChunkingIrrelevant(k: Keys, r: Receiver, chunks: seq<seq<Byte>>)
    requires Resting(k, r)
    requires BannerFits(r, Flatten(chunks)) && Inert(k, Feed(k, r, Flatten(chunks)))
    ensures Same(FeedAll(k, r, chunks), Feed(k, r, Flatten(chunks)))
    ensures !Feed(k, r, Flatten(chunks)).thrown ==> !FeedAll(k, r, chunks).thrown
    decreases |chunks|
  {
    hide Step;
    if chunks == [] {
      assert Append(r.(thrown := false), []) == r;
    } else {
      var first, rest := chunks[0], Flatten(chunks[1..]);
      var given := Append(r, first);
      var d := Drain(k, given);
      assert r.(thrown := false) == r;
      assert given.buffer + rest == r.buffer + Flatten(chunks);
      assert Append(given, rest) == Append(r, Flatten(chunks));
      DrainAppend(k, given, rest);
      DrainForgetsLine(k, given);
      assert Feed(k, r, first) == d;
      if d.open && !d.thrown {
        assert d.(thrown := false) == d;
        ChunkingIrrelevant(k, d, chunks[1..]);
      } else {
        HaltedStays(k, d, rest);
        if d.open {
          assert Append(d, rest).(thrown := false) == Append(d.(thrown := false), rest);
          InertStays(k, d, chunks[1..]);
        } else {
          ClosedStaysClosed(k, d, chunks[1..]);
        }
      }
    }
  }

  lemma HaltedStays(k: Keys, d: Receiver, rest: seq<Byte>)
    requires Framed(d) && (!d.open || d.thrown)
    ensures Step(k, Append(d, rest)) == Append(d, rest) && Drain(k, Append(d, rest)) == Append(d, rest)
  {
  }

  lemma {:induction false} ClosedStaysClosed(k: Keys, r: Receiver, chunks: seq<seq<Byte>>)
    requires Framed(r) && !r.open
    ensures FeedAll(k, r, chunks) == r
    decreases |chunks|
  {
    if chunks != [] {
      ClosedStaysClosed(k, r, chunks[1..]);
    }
  }

  /** A step that leaves at least the bytes that came last did not need them. */
  lemma StepPrefix(k: Keys, q: Receiver, rest: seq<Byte>)
    requires Framed(q) && BannerFits(q, rest)
    requires var w := Step(k, Append(q, rest)); w != Append(q, rest) && w.open && |w.buffer| >= |rest|
    ensures Step(k, q) != q
  {
    var b := q.buffer;
    if q.identifying {
      IndexOfPrefix(b, rest, NEWLINE);
    } else if !q.encrypted {
      assert |b| >= 5;
      HeadAppend(b, rest);
      hide ReadU32;
      StepShrinks(k, q);
    } else {
      hide Crypt, Judge, ReadU32;
      BodyShrinks(k, Append(q, rest));
      BodyShrinks(k, q);
    }
  }

  lemma BodyShrinks(k: Keys, r: Receiver)
    requires Framed(r) && r.open && !r.thrown && !r.identifying && r.encrypted
    ensures if r.packetLength == 0 then Step(k, r) != r <==> |r.buffer| >= 4
            else Step(k, r) != r <==> |r.buffer| >= r.packetLength + 32
    ensures Step(k, r) != r ==> |Step(k, r).buffer| == |r.buffer| - if r.packetLength == 0 then 4 else r.packetLength + 32
  {
  }

  /** A reading that leaves at least the bytes that came last went as it would have without them. */
  lemma {:induction false} DrainPrefix(k: Keys, q: Receiver, rest: seq<Byte>)
    requires Framed(q) && BannerFits(q, rest)
    requires var t := Drain(k, Append(q, rest)); t.open && |t.buffer| >= |rest|
    ensures Drain(k, Append(q, rest)) == Append(Drain(k, q), rest)
    decreases Rank(q)
  {
    hide Step;
    var whole := Append(q, rest);
    var w := Step(k, whole);
    if w == whole {
      StuckPrefix(k, q, rest);
    } else {
      StallShrinks(k, w);
      assert w.open by {
        StepForgetsLine(k, w);
      }
      StepPrefix(k, q, rest);
      StepAppend(k, q, rest);
      StepForgetsLine(k, q);
      DrainPrefix(k, Step(k, q), rest);
    }
  }

  /** Such a packet was complete before the last byte came. */
  lemma StallEarlier(k: Keys, r: Receiver, stream: seq<Byte>)
    requires Resting(k, r) && BannerFits(r, stream) && !Inert(k, Feed(k, r, stream))
    ensures |stream| >= 2
    ensures var d := Feed(k, r, stream[..|stream| - 1]);
            d.thrown && d.open && Feed(k, r, stream) == Append(d, stream[|stream| - 1..])
  {
    hide Step, Drain, Feed, BannerFits;
    var stalled := Feed(k, r, stream);
    FeedIsDrain(k, r, stream);
    StalledOpen(k, Append(r, stream));
    if stalled.buffer == [] {
      EmptyRests(k, stalled.(thrown := false));
    }
    FeedIsDrain(k, r, []);
    assert stream != [];
    var x, last := stream[..|stream| - 1], stream[|stream| - 1..];
    LastByte(r, stream);
    DrainPrefix(k, Append(r, x), last);
    FeedIsDrain(k, r, x);
    assert x != [];
  }

  lemma LastByte(r: Receiver, stream: seq<Byte>)
    requires stream != [] && BannerFits(r, stream)
    ensures var x, last := stream[..|stream| - 1], stream[|stream| - 1..];
            && x + last == stream && |last| == 1
            && Append(Append(r, x), last) == Append(r, stream) && BannerFits(Append(r, x), last)
  {
    hide IndexOf;
    var x, last := stream[..|stream| - 1], stream[|stream| - 1..];
    assert r.buffer + x + last == r.buffer + stream;
  }

  lemma FeedIsDrain(k: Keys, r: Receiver, chunk: seq<Byte>)
    requires Resting(k, r)
    ensures Feed(k, r, chunk) == Drain(k, Append(r, chunk))
    ensures chunk == [] ==> Feed(k, r, chunk) == r
  {
    assert r.(thrown := false) == r;
    assert chunk == [] ==> Append(r, chunk) == r;
  }

  /** A packet without payload stops the reading until the next event: if what it left could be read, the
      event that brings the last byte reads it when it comes alone, and not when it comes with the
      rest. */
  lemma StallIsSeen(k: Keys, r: Receiver, stream: seq<Byte>)
    requires Resting(k, r) && BannerFits(r, stream) && !Inert(k, Feed(k, r, stream))
    ensures |stream| >= 2
    ensures var chunks := [stream[..|stream| - 1], stream[|stream| - 1..]];
            Flatten(chunks) == stream && !Same(FeedAll(k, r, chunks), Feed(k, r, stream))
  {
    StallEarlier(k, r, stream);
    var x, last := stream[..|stream| - 1], stream[|stream| - 1..];
    var d, stalled := Feed(k, r, x), Feed(k, r, stream);
    var again := stalled.(thrown := false);
    assert Append(d.(thrown := false), last) == again;
    assert Feed(k, d, last) == Drain(k, again);
    DrainMoves(k, again);
    hide Step, Feed, Drain;
    TwoChunks(k, r, x, last);
    assert x + last == stream;
  }

  lemma TwoChunks(k: Keys, r: Receiver, x: seq<Byte>, y: seq<Byte>)
    requires Framed(r)
    ensures FeedAll(k, r, [x, y]) == Feed(k, Feed(k, r, x), y) && Flatten([x, y]) == x + y
  {
    hide Feed;
    var chunks: seq<seq<Byte>> := [x, y];
    assert chunks[1..] == [y] && chunks[1..][0] == y;
    var none := chunks[1..][1..];
    assert |none| == 0 && FeedAll(k, Feed(k, Feed(k, r, x), y), none) == Feed(k, Feed(k, r, x), y);
    assert FeedAll(k, r, chunks) == FeedAll(k, Feed(k, r, x), chunks[1..]);
    assert Flatten(chunks[1..]) == y + Flatten(none);
  }

  lemma DrainMoves(k: Keys, r: Receiver)
    requires Framed(r) && Step(k, r) != r
    ensures Rank(Drain(k, r)) < Rank(r)
  {
    hide Step;
    StepForgetsLine(k, r);
    DrainRank(k, Step(k, r));
  }

  lemma {:induction false} DrainRank(k: Keys, r: Receiver)
    requires Framed(r)
    ensures Rank(Drain(k, r)) <= Rank(r)
    decreases Rank(r)
  {
    hide Step;
    StepForgetsLine(k, r);
    if Step(k, r) != r {
      DrainRank(k, Step(k, r));
    }
  }

  lemma {:induction false} StallShrinks(k: Keys, r: Receiver)
    requires Framed(r)
    ensures |Drain(k, r).buffer| <= |r.buffer|
    ensures !r.thrown && Drain(k, r).thrown ==> |Drain(k, r).buffer| < |r.buffer|
    decreases Rank(r)
  {
    hide Step;
    var next := Step(k, r);
    StepShrinks(k, r);
    StepForgetsLine(k, r);
    if next.thrown {
      ThrownRests(k, next);
    } else if next != r {
      StallShrinks(k, next);
    }
  }

  lemma StepShrinks(k: Keys, r: Receiver)
    requires Framed(r)
    ensures |Step(k, r).buffer| <= |r.buffer|
    ensures !r.thrown && Step(k, r).thrown ==> |Step(k, r).buffer| < |r.buffer| && Step(k, r).open
  {
  }

  lemma {:induction false} StalledOpen(k: Keys, r: Receiver)
    requires Framed(r) && !r.thrown && Drain(k, r).thrown
    ensures Drain(k, r).open
    decreases Rank(r)
  {
    hide Step;
    var next := Step(k, r);
    StepShrinks(k, r);
    StepForgetsLine(k, r);
    if next.thrown {
      ThrownRests(k, next);
    } else if next != r {
      StalledOpen(k, next);
    }
  }

  lemma ThrownRests(k: Keys, r: Receiver)
    requires Framed(r) && r.thrown
    ensures Drain(k, r) == r
  {
  }

  /** A cut into events, none of them empty. */
  ghost predicate Cuts(chunks: seq<seq<Byte>>, stream: seq<Byte>) {
    Flatten(chunks) == stream && forall i :: 0 <= i < |chunks| ==> chunks[i] != []
  }

  /** Two things see chunk boundaries, the limit on the identification line and a packet without
      payload: every cut behaves like the whole stream exactly when the line ends by offset 256 or
      not at all, and what such a packet leaves unread could not be read anyway. */
  lemma ChunkingExact(k: Keys, r: Receiver, stream: seq<Byte>)
    requires Resting(k, r)
    ensures (forall chunks: seq<seq<Byte>> :: Cuts(chunks, stream) ==> Same(FeedAll(k, r, chunks), Feed(k, r, stream)))
            <==> BannerFits(r, stream) && Inert(k, Feed(k, r, stream))
  {
    hide Feed, Same, BannerFits, Inert, FeedAll;
    if !BannerFits(r, stream) {
      LateLineIsCut(k, r, stream);
      assert Cuts(CutAtLimit(r, stream), stream);
    } else if Inert(k, Feed(k, r, stream)) {
      forall chunks: seq<seq<Byte>> | Cuts(chunks, stream)
        ensures Same(FeedAll(k, r, chunks), Feed(k, r, stream))
      {
        ChunkingIrrelevant(k, r, chunks);
      }
    } else {
      StallIsSeen(k, r, stream);
      assert Cuts([stream[..|stream| - 1], stream[|stream| - 1..]], stream);
    }
  }

  /** The cut right behind the limit on the line. */
  function CutAtLimit(r: Receiver, stream: seq<Byte>): seq<seq<Byte>>
    requires 0 < MAX_BANNER + 1 - |r.buffer| < |stream|
  {
    var n := MAX_BANNER + 1 - |r.buffer|;
    [stream[..n], stream[n..]]
  }

  /** A line that ends behind the limit is accepted when it comes in one event, whatever follows it; cut
      right behind the limit, the connection closes still waiting for it. */
  lemma LateLineIsCut(k: Keys, r: Receiver, stream: seq<Byte>)
    requires Resting(k, r) && !BannerFits(r, stream)
    ensures 0 < MAX_BANNER + 1 - |r.buffer| < |stream| && Cuts(CutAtLimit(r, stream), stream)
    ensures !Feed(k, r, stream).identifying
    ensures var cut := FeedAll(k, r, CutAtLimit(r, stream)); !cut.open && cut.identifying && cut.delivered == r.delivered
    ensures !Same(FeedAll(k, r, CutAtLimit(r, stream)), Feed(k, r, stream))
  {
    hide Feed, Step;
    LateCut(k, r, stream);
    LateWhole(k, r, stream);
    var n := MAX_BANNER + 1 - |r.buffer|;
    TwoChunks(k, r, stream[..n], stream[n..]);
    assert stream[..n] + stream[n..] == stream;
  }

  lemma LateCut(k: Keys, r: Receiver, stream: seq<Byte>)
    requires Resting(k, r) && !BannerFits(r, stream)
    ensures var n := MAX_BANNER + 1 - |r.buffer|;
            && 0 < n < |stream|
            && var cut := FeedAll(k, r, CutAtLimit(r, stream));
               !cut.open && cut.identifying && cut.delivered == r.delivered
  {
    var n := MAX_BANNER + 1 - |r.buffer|;
    IndexOfPrefix(r.buffer, stream, NEWLINE);
    assert |r.buffer| <= MAX_BANNER;
    var cut := Append(r, stream[..n]);
    assert r.(thrown := false) == r;
    assert cut.buffer + stream[n..] == r.buffer + stream;
    IndexOfPrefix(cut.buffer, stream[n..], NEWLINE);
    var closed := Step(k, cut);
    assert !closed.open && closed.identifying && closed.delivered == r.delivered;
    DrainsIn(k, cut, closed, closed);
    var chunks := [stream[..n], stream[n..]];
    assert Feed(k, r, chunks[0]) == closed;
    ClosedStaysClosed(k, closed, chunks[1..]);
  }

  lemma LateWhole(k: Keys, r: Receiver, stream: seq<Byte>)
    requires Resting(k, r) && !BannerFits(r, stream)
    ensures !Feed(k, r, stream).identifying
  {
    assert r.(thrown := false) == r;
    var read := Step(k, Append(r, stream));
    assert !read.identifying;
    DrainForgetsLine(k, read);
  }

  // ---------------------------------------------------------------- round trip

  /** Between packets: nothing buffered, no header half read. */
  ghost predicate Idle(r: Receiver) {
    r.open && !r.thrown && !r.identifying && r.buffer == [] && r.packetLength == 0 && r.head == []
  }

  /** The packet layout of section 6 of RFC 4253, read back field by field. */
  ghost predicate IsPacket(p: seq<Byte>, payload: seq<Byte>) {
    |p| >= 16 && |p| % 16 == 0 && ReadU32(p) == |p| - 4 && 4 <= p[4] < 20 && |p| == 5 + |payload| + p[4] &&
    p[5..|p| - p[4]] == payload
  }

  lemma PacketFields(payload: seq<Byte>, padding: seq<Byte>)
    requires Sendable(payload, padding)
    ensures IsPacket(Packet(payload, padding), payload)
  {
    PaddingRule(|payload|, |padding|);
    var length := 1 + |payload| + |padding|;
    U32Reads(length);
    var p := Packet(payload, padding);
    assert p[..4] == U32BE(length);
    assert p[5..|p| - |padding|] == payload;
  }

  ghost function Received(r: Receiver, payload: seq<Byte>, size: nat): Receiver {
    Handle(r.(seqNo := (r.seqNo + 1) % U32_LIMIT, pos := if r.encrypted then r.pos + size else r.pos), payload)
  }

  lemma WireParts(k: Keys, pos: nat, packet: seq<Byte>, tag: seq<Byte>)
    requires |packet| >= 4
    ensures var wire := Crypt(k, pos, packet) + tag;
            |wire| >= 4 && Crypt(k, pos, wire[..4]) == packet[..4] && wire[4..] == Crypt(k, pos + 4, packet[4..]) + tag
  {
    var head, body := packet[..4], packet[4..];
    assert packet == head + body;
    CryptSplits(k, pos, head, body);
    CryptCancels(k, pos, head);
    assert (Crypt(k, pos, packet) + tag)[..4] == Crypt(k, pos, head);
  }

  lemma HeaderArrives(k: Keys, r: Receiver, packet: seq<Byte>, tag: seq<Byte>)
    requires Idle(r) && |packet| >= 4
    ensures HeaderStep(k, Append(r, Crypt(k, r.pos, packet) + tag))
            == TakeHeader(r, packet[..4], Crypt(k, r.pos + 4, packet[4..]) + tag)
  {
    WireParts(k, r.pos, packet, tag);
    var wire := Crypt(k, r.pos, packet) + tag;
    assert Append(r, wire).buffer == wire;
  }

  lemma BodyArrives(k: Keys, r: Receiver, packet: seq<Byte>, tag: seq<Byte>)
    requires r.open && r.packetLength != 0 && |packet| == 4 + r.packetLength && r.head == packet[..4]
    requires Framed(r) && |tag| == 32
    requires r.buffer == Crypt(k, r.pos, packet[4..]) + tag
    ensures BodyStep(k, r) == Judge(k, r.(buffer := [], pos := r.pos + r.packetLength), packet, tag)
  {
    hide Judge;
    CryptCancels(k, r.pos, packet[4..]);
    var length := r.packetLength;
    assert r.buffer[..length] == Crypt(k, r.pos, packet[4..]);
    assert r.buffer[length..length + 32] == tag;
    assert r.buffer[length + 32..] == [];
    assert r.head + packet[4..] == packet;
  }

  lemma ClearArrives(k: Keys, r: Receiver, p: seq<Byte>, payload: seq<Byte>)
    requires Idle(r) && !r.encrypted && IsPacket(p, payload) && |p| <= MAX_PACKET
    ensures Step(k, Append(r, p)) == Received(r, payload, |p|)
  {
    assert Append(r, p).buffer == p && p[|p|..] == [];
  }

  lemma CipherArrives(k: Keys, r: Receiver, p: seq<Byte>, payload: seq<Byte>)
    requires Idle(r) && r.encrypted && IsPacket(p, payload) && |p| <= MAX_PACKET
    ensures Step(k, Step(k, Append(r, WireForm(k, true, r.seqNo, r.pos, p)))) == Received(r, payload, |p|)
  {
    SealedSteps(k, r, p, k.mac(r.seqNo, p));
  }

  lemma PacketArrives(k: Keys, r: Receiver, p: seq<Byte>, payload: seq<Byte>)
    requires Idle(r) && IsPacket(p, payload) && |p| <= MAX_PACKET
    ensures Drain(k, Append(r, WireForm(k, r.encrypted, r.seqNo, r.pos, p))) == Received(r, payload, |p|)
  {
    var start := Append(r, WireForm(k, r.encrypted, r.seqNo, r.pos, p));
    var done := Received(r, payload, |p|);
    EmptyRests(k, done);
    if !r.encrypted {
      ClearArrives(k, r, p, payload);
      DrainsIn(k, start, done, done);
    } else {
      CipherArrives(k, r, p, payload);
      DrainsIn(k, start, Step(k, start), done);
    }
  }

  /** Header and body of a sealed packet of permitted length, whatever its tag. */
  lemma SealedSteps(k: Keys, r: Receiver, p: seq<Byte>, tag: seq<Byte>)
    requires Idle(r) && r.encrypted && |p| >= 5 && ReadU32(p) == |p| - 4 && |tag| == 32
    requires 4 <= |p| - 4 <= MAX_PACKET
    ensures Step(k, Step(k, Append(r, Crypt(k, r.pos, p) + tag)))
         == Judge(k, r.(buffer := [], pos := r.pos + |p|, head := p[..4], packetLength := |p| - 4), p, tag)
  {
    HeaderArrives(k, r, p, tag);
    assert ReadU32(p[..4]) == ReadU32(p);
    hide ReadU32, Crypt, Judge;
    var mid := r.(buffer := Crypt(k, r.pos + 4, p[4..]) + tag, pos := r.pos + 4, head := p[..4], packetLength := |p| - 4);
    assert Step(k, Append(r, Crypt(k, r.pos, p) + tag)) == mid;
    BodyArrives(k, mid, p, tag);
  }

  lemma PacketTooLong(k: Keys, r: Receiver, p: seq<Byte>, payload: seq<Byte>)
    requires Idle(r) && IsPacket(p, payload) && |p| - 4 > MAX_PACKET
    ensures var got := Drain(k, Append(r, WireForm(k, r.encrypted, r.seqNo, r.pos, p)));
            !got.open && got.delivered == r.delivered
  {
    var start := Append(r, WireForm(k, r.encrypted, r.seqNo, r.pos, p));
    if r.encrypted {
      HeaderArrives(k, r, p, k.mac(r.seqNo, p));
      assert ReadU32(p[..4]) == ReadU32(p);
    } else {
      assert start.buffer == p;
    }
    var closed := Step(k, start);
    DrainsIn(k, start, closed, closed);
  }

  /** The sender checks no length: of everything it can frame, the peer takes exactly the
      payloads of 1 to 65527 bytes; a longer one closes the connection. */
  lemma DeliveredExactly(k: Keys, r: Receiver, payload: seq<Byte>, padding: seq<Byte>)
    requires Idle(r) && Sendable(payload, padding)
    ensures var got := Drain(k, Append(r, WireForm(k, r.encrypted, r.seqNo, r.pos, Packet(payload, padding))));
            && (got.delivered == r.delivered + [payload] <==> 1 <= |payload| <= MAX_PAYLOAD)
            && (got.open <==> |payload| <= MAX_PAYLOAD)
  {
    var p := Packet(payload, padding);
    PacketFields(payload, padding);
    if |payload| <= MAX_PAYLOAD {
      PacketArrives(k, r, p, payload);
      assert |r.delivered + [payload]| == |r.delivered| + 1;
    } else {
      PacketTooLong(k, r, p, payload);
      assert |r.delivered + [payload]| == |r.delivered| + 1;
    }
  }

  /** What a packet between packets leads to, whoever sent it: taken, its payload handed on and both counters
      moved past it; or the connection closed with nothing handed on. */
  ghost predicate TakenIf(taken: bool, r: Receiver, d: Receiver, payload: seq<Byte>, size: nat) {
    && (d.open <==> taken)
    && d.delivered == (if taken && payload != [] then r.delivered + [payload] else r.delivered)
    && (taken ==> d.buffer == [] && d.seqNo == (r.seqNo + 1) % U32_LIMIT && (d.thrown <==> payload == [])
                  && (d.encrypted <==> r.encrypted || (payload != [] && payload[0] == NEWKEYS))
                  && d.pos == if r.encrypted then r.pos + size else r.pos)
  }

  lemma SealedTooLong(k: Keys, r: Receiver, p: seq<Byte>, tag: seq<Byte>)
    requires Idle(r) && r.encrypted && |p| >= 5 && ReadU32(p) == |p| - 4 && |tag| == 32
    requires !(8 <= |p| <= 4 + MAX_PACKET)
    ensures var d := Drain(k, Append(r, Crypt(k, r.pos, p) + tag)); !d.open && d.delivered == r.delivered
  {
    var start := Append(r, Crypt(k, r.pos, p) + tag);
    HeaderArrives(k, r, p, tag);
    assert ReadU32(p[..4]) == ReadU32(p);
    var closed := Step(k, start);
    DrainsIn(k, start, closed, closed);
  }

  /** After NEWKEYS a packet that announces its own length is taken if and only if that is within the limits,
      its tag is the MAC over sequence number and plaintext, and its padding is at least four bytes and
      fits; any other closes the connection. */
  lemma SealedExactly(k: Keys, r: Receiver, p: seq<Byte>, tag: seq<Byte>)
    requires Idle(r) && r.encrypted && |p| >= 5 && ReadU32(p) == |p| - 4 && |tag| == 32
    ensures var taken := 8 <= |p| <= 4 + MAX_PACKET && tag == k.mac(r.seqNo, p) && 4 <= p[4] < |p| - 4;
            TakenIf(taken, r, Drain(k, Append(r, Crypt(k, r.pos, p) + tag)), if taken then p[5..|p| - p[4]] else [], |p|)
  {
    var start := Append(r, Crypt(k, r.pos, p) + tag);
    if 8 <= |p| <= 4 + MAX_PACKET {
      SealedSteps(k, r, p, tag);
      var end := Step(k, Step(k, start));
      assert Step(k, end) == end;
      DrainsIn(k, start, Step(k, start), end);
    } else {
      SealedTooLong(k, r, p, tag);
    }
  }

  /** Before, there is no MAC and padding may be shorter. */
  lemma ClearExactly(k: Keys, r: Receiver, p: seq<Byte>)
    requires Idle(r) && !r.encrypted && |p| >= 5 && ReadU32(p) == |p| - 4
    ensures var taken := 8 <= |p| <= 4 + MAX_PACKET && p[4] < |p| - 4;
            TakenIf(taken, r, Drain(k, Append(r, p)), if taken then p[5..|p| - p[4]] else [], |p|)
  {
    var start := Append(r, p);
    assert start.buffer == p && p[|p|..] == [];
    var end := Step(k, start);
    assert Step(k, end) == end;
    DrainsIn(k, start, end, end);
  }

  datatype Outgoing = Outgoing(payload: seq<Byte>, padding: seq<Byte>)

  ghost predicate Carried(m: Outgoing) {
    1 <= |m.payload| <= MAX_PAYLOAD && |m.padding| == PadLength(|m.payload|)
  }

  ghost predicate AllCarried(ms: seq<Outgoing>) {
    forall i :: 0 <= i < |ms| ==> Carried(ms[i])
  }

  ghost function SendAll(k: Keys, s: Sender, ms: seq<Outgoing>): Sender
    requires AllCarried(ms)
    decreases |ms|
  {
    if ms == [] then s else SendAll(k, SendThenSwitch(k, s, ms[0].payload, ms[0].padding), ms[1..])
  }

  function Payloads(ms: seq<Outgoing>): seq<seq<Byte>> {
    if ms == [] then [] else [ms[0].payload] + Payloads(ms[1..])
  }

  /** The two ends agree on phase, sequence number and cipher position. */
  ghost predicate InStep(s: Sender, r: Receiver) {
    s.open && s.encrypted == r.encrypted && s.seqNo == r.seqNo && s.pos == r.pos
  }

  lemma StaysInStep(k: Keys, s: Sender, r: Receiver, m: Outgoing)
    requires InStep(s, r) && Idle(r) && Carried(m)
    ensures var p := Packet(m.payload, m.padding);
            var s1, r1 := SendThenSwitch(k, s, m.payload, m.padding), Received(r, m.payload, |p|);
            && s1.wire == s.wire + WireForm(k, s.encrypted, s.seqNo, s.pos, p) && InStep(s1, r1)
            && Idle(r1) && r1.delivered == r.delivered + [m.payload]
  {
    hide Packet, WireForm;
  }

  lemma OneArrives(k: Keys, s: Sender, r: Receiver, m: Outgoing) returns (first: seq<Byte>, r1: Receiver)
    requires InStep(s, r) && Idle(r) && Carried(m)
    ensures var s1 := SendThenSwitch(k, s, m.payload, m.padding);
            s1.wire == s.wire + first && InStep(s1, r1)
    ensures r1 == Drain(k, Append(r, first)) && Idle(r1) && r1.delivered == r.delivered + [m.payload]
  {
    hide Step, Drain, WireForm, Received, SendThenSwitch, IsPacket, Append;
    var p := Packet(m.payload, m.padding);
    PacketFields(m.payload, m.padding);
    first := WireForm(k, s.encrypted, s.seqNo, s.pos, p);
    r1 := Received(r, m.payload, |p|);
    StaysInStep(k, s, r, m);
    assert |p| == 5 + |m.payload| + |m.padding|;
    PacketArrives(k, r, p, m.payload);
  }

  ghost predicate Arrived(k: Keys, s: Sender, r: Receiver, end: Sender, payloads: seq<seq<Byte>>) {
    && s.wire <= end.wire && Framed(r)
    && var r' := Drain(k, Append(r, end.wire[|s.wire|..]));
       InStep(end, r') && Idle(r') && r'.delivered == r.delivered + payloads
  }

  lemma {:induction false} StreamArrives(k: Keys, s: Sender, r: Receiver, ms: seq<Outgoing>)
    requires InStep(s, r) && Idle(r) && AllCarried(ms)
    ensures Arrived(k, s, r, SendAll(k, s, ms), Payloads(ms))
    decreases |ms|
  {
    if ms == [] {
      assert Append(r, s.wire[|s.wire|..]) == r;
      EmptyRests(k, r);
    } else {
      var first, r1 := OneArrives(k, s, r, ms[0]);
      var s1 := SendThenSwitch(k, s, ms[0].payload, ms[0].padding);
      StreamArrives(k, s1, r1, ms[1..]);
      JoinArrivals(k, s, s1, r, first, r1, SendAll(k, s1, ms[1..]), ms[0].payload, Payloads(ms[1..]));
    }
  }

  lemma DrainJoin(k: Keys, r: Receiver, first: seq<Byte>, later: seq<Byte>)
    requires Framed(r) && !r.identifying
    ensures Drain(k, Append(r, first + later)) == Drain(k, Append(Drain(k, Append(r, first)), later))
  {
    assert r.buffer + (first + later) == r.buffer + first + later;
    DrainAppend(k, Append(r, first), later);
  }

  lemma SuffixSplits(all: seq<Byte>, sent: seq<Byte>, first: seq<Byte>)
    requires sent + first <= all
    ensures sent <= all && all[|sent|..] == first + all[|sent + first|..]
  {
    assert sent + first == all[..|sent| + |first|];
    assert sent == all[..|sent|];
    assert first == all[|sent|..|sent| + |first|];
  }

  lemma JoinArrivals(k: Keys, s: Sender, s1: Sender, r: Receiver, first: seq<Byte>, r1: Receiver, end: Sender,
                     payload: seq<Byte>, payloads: seq<seq<Byte>>)
    requires Framed(r) && !r.identifying && s1.wire == s.wire + first && Drain(k, Append(r, first)) == r1
    requires r1.delivered == r.delivered + [payload] && Arrived(k, s1, r1, end, payloads)
    ensures Arrived(k, s, r, end, [payload] + payloads)
  {
    hide Drain, Step;
    var later := end.wire[|s1.wire|..];
    SuffixSplits(end.wire, s.wire, first);
    DrainJoin(k, r, first, later);
    assert r1.delivered + payloads == r.delivered + ([payload] + payloads);
  }

  /** For every list of payloads and every way of cutting the emitted bytes, across the switch
      to encryption, the peer hands over that list and both ends stay in step. */
  lemma TransportRoundTrip(k: Keys, s: Sender, r: Receiver, ms: seq<Outgoing>, chunks: seq<seq<Byte>>)
    requires InStep(s, r) && Idle(r) && AllCarried(ms)
    requires s.wire == [] && Flatten(chunks) == SendAll(k, s, ms).wire
    ensures var r' := FeedAll(k, r, chunks);
            r'.delivered == r.delivered + Payloads(ms) && Idle(r') && InStep(SendAll(k, s, ms), r')
  {
    StreamArrives(k, s, r, ms);
    assert SendAll(k, s, ms).wire[|s.wire|..] == Flatten(chunks);
    assert r.(thrown := false) == r;
    ChunkingIrrelevant(k, r, chunks);
  }

  const FreshReceiver := Receiver(true, false, true, [], false, 0, [], 0, 0, [])
  const FreshSender := Sender(true, false, 0, 0, [])

  /** A whole session from its first byte: identification line, key exchange in the clear,
      everything after NEWKEYS encrypted; nothing is lost, added or reordered. */
  lemma SessionArrives(k: Keys, line: seq<Byte>, ms: seq<Outgoing>, chunks: seq<seq<Byte>>)
    requires AllCarried(ms) && 1 <= |line| <= MAX_BANNER + 1 && IndexOf(line, NEWLINE) == |line| - 1
    requires Flatten(chunks) == line + SendAll(k, FreshSender, ms).wire
    ensures var r := FeedAll(k, FreshReceiver, chunks);
            r.delivered == Payloads(ms) && Idle(r) && InStep(SendAll(k, FreshSender, ms), r)
  {
    var wire := SendAll(k, FreshSender, ms).wire;
    var ready := FreshReceiver.(identifying := false);
    LineArrives(k, line, wire);
    hide Drain, Step, SendAll, IndexOf;
    StreamArrives(k, FreshSender, ready, ms);
    assert wire[|FreshSender.wire|..] == wire;
    ChunkingIrrelevant(k, FreshReceiver, chunks);
  }

  lemma LineArrives(k: Keys, line: seq<Byte>, rest: seq<Byte>)
    requires 1 <= |line| <= MAX_BANNER + 1 && IndexOf(line, NEWLINE) == |line| - 1
    ensures Resting(k, FreshReceiver) && BannerFits(FreshReceiver, line + rest)
    ensures Feed(k, FreshReceiver, line + rest) == Drain(k, Append(FreshReceiver.(identifying := false), rest))
  {
    var start := Append(FreshReceiver, line + rest);
    assert start.buffer == line + rest;
    IndexOfPrefix(line, rest, NEWLINE);
    hide IndexOf;
    assert (line + rest)[|line|..] == rest;
    assert Step(k, start) == Append(FreshReceiver.(identifying := false), rest);
    DrainStep(k, start);
  }

  // ---------------------------------------------------------------- the connection

  class SshClientConnection {
    var open: bool
    var thrown: bool
    var identifying: bool
    var inBuffer: seq<Byte>
    var isEncryptedIn: bool
    var currentPacketLen: nat
    var decryptedHead: seq<Byte>
    var inSeq: nat
    var decryptPos: nat
    var handled: seq<seq<Byte>>
    var isEncryptedOut: bool
    var outSeq: nat
    var encryptPos: nat
    var written: seq<Byte>
    const inKeys: Keys
    const outKeys: Keys

    ghost function In(): Receiver
      reads this
    {
      Receiver(open, thrown, identifying, inBuffer, isEncryptedIn, currentPacketLen, decryptedHead,
               inSeq, decryptPos, handled)
    }

    ghost function Out(): Sender
      reads this
    {
      Sender(open, isEncryptedOut, outSeq, encryptPos, written)
    }

    ghost predicate Valid()
      reads this
    {
      Framed(In())
    }

    constructor (inKeys: Keys, outKeys: Keys)
      ensures Valid()
      ensures In() == Receiver(true, false, true, [], false, 0, [], 0, 0, [])
      ensures Out() == Sender(true, false, 0, 0, [])
      ensures this.inKeys == inKeys && this.outKeys == outKeys
    {
      this.inKeys, this.outKeys := inKeys, outKeys;
      open, thrown, identifying, inBuffer, handled := true, false, true, [], [];
      isEncryptedIn, currentPacketLen, decryptedHead, inSeq, decryptPos := false, 0, [], 0, 0;
      isEncryptedOut, outSeq, encryptPos, written := false, 0, 0, [];
    }

    method HandlePacket(payload: seq<Byte>)
      modifies this`thrown, this`handled, this`isEncryptedIn
      ensures In() == Handle(old(In()), payload)
    {
      if payload == [] {
        thrown := true;
        return;
      }
      handled := handled + [payload];
      if payload[0] == NEWKEYS {
        isEncryptedIn := true;
      }
    }

    method OnData(chunk: seq<Byte>)
      requires Valid()
      modifies this
      ensures Valid()
      ensures In() == Feed(inKeys, old(In()), chunk)
      ensures Out() == old(Out()).(open := open)
    {
      if !open {
        return;
      }
      thrown := false;
      inBuffer := inBuffer + chunk;
      ProcessIncoming();
    }

    method ProcessIncoming()
      requires Valid() && open && !thrown
      modifies this
      ensures Valid()
      ensures In() == Drain(inKeys, old(In()))
      ensures Out() == old(Out()).(open := open)
    {
      ghost var start := In();
      if identifying {
        ReadBanner();
        DrainStep(inKeys, start);
        if identifying {
          return;
        }
      }
      while |inBuffer| > 0
        invariant Valid() && open && !thrown && !identifying
        invariant Drain(inKeys, In()) == Drain(inKeys, start)
        invariant Out() == old(Out())
        decreases |inBuffer|
      {
        var more := ReadPacket();
        if !more {
          return;
        }
      }
      EmptyRests(inKeys, In());
    }

    method ReadBanner()
      requires Valid() && open && !thrown && identifying
      modifies this
      ensures Valid()
      ensures In() == IdentStep(old(In()))
      ensures identifying ==> !open || In() == old(In())
      ensures !identifying ==> open && !thrown
      ensures Out() == old(Out()).(open := open)
    {
      hide IndexOf;
      var idx := IndexOf(inBuffer, NEWLINE);
      if idx == -1 {
        if |inBuffer| > MAX_BANNER {
          open := false;
        }
        return;
      }
      inBuffer := inBuffer[idx + 1..];
      identifying := false;
    }

    /** One turn of the loop; false where the loop returns. */
    method ReadPacket() returns (more: bool)
      requires Valid() && open && !thrown && !identifying && |inBuffer| > 0
      modifies this
      ensures Valid()
      ensures Drain(inKeys, In()) == Drain(inKeys, old(In()))
      ensures more ==> open && !thrown && !identifying && |inBuffer| < |old(inBuffer)|
      ensures !more ==> Step(inKeys, In()) == In()
      ensures Out() == old(Out()).(open := open)
    {
      ghost var start := In();
      DrainStep(inKeys, start);
      if !isEncryptedIn {
        more := ReadClear();
      } else {
        if |inBuffer| < 4 {
          return false;
        }
        if currentPacketLen == 0 {
          ReadHeader();
          if !open {
            return false;
          }
        }
        DrainStep(inKeys, In());
        var neededBytes := currentPacketLen + 32;
        if |inBuffer| < neededBytes {
          return false;
        }
        ReadBody();
        more := open && !thrown;
      }
    }

    method ReadClear() returns (more: bool)
      requires Valid() && open && !thrown && !identifying && !isEncryptedIn
      modifies this
      ensures Valid()
      ensures In() == ClearStep(old(In()))
      ensures more ==> open && !thrown && !identifying && |inBuffer| < |old(inBuffer)|
      ensures !more ==> !open || thrown || In() == old(In())
      ensures Out() == old(Out()).(open := open)
    {
      if |inBuffer| < 5 {
        return false;
      }
      var packetLength, paddingLength: int := ReadU32(inBuffer), inBuffer[4];
      if packetLength > MAX_PACKET || packetLength < 4 || paddingLength >= packetLength {
        open := false;
        return false;
      }
      if |inBuffer| < 4 + packetLength {
        return false;
      }
      var payload := inBuffer[5..4 + packetLength - paddingLength];
      inBuffer := inBuffer[4 + packetLength..];
      inSeq := (inSeq + 1) % U32_LIMIT;
      HandlePacket(payload);
      more := !thrown;
    }

    method ReadHeader()
      requires Valid() && open && !thrown && !identifying && isEncryptedIn && currentPacketLen == 0 && |inBuffer| >= 4
      modifies this
      ensures Valid() && !thrown && !identifying && isEncryptedIn
      ensures In() == HeaderStep(inKeys, old(In()))
      ensures open ==> currentPacketLen != 0
      ensures Out() == old(Out()).(open := open)
    {
      var decHead := Crypt(inKeys, decryptPos, inBuffer[..4]);
      decryptPos := decryptPos + 4;
      U32Writes(decHead);
      currentPacketLen := ReadU32(decHead);
      decryptedHead := decHead;
      inBuffer := inBuffer[4..];
      if currentPacketLen > MAX_PACKET || currentPacketLen < 4 {
        open := false;
      }
    }

    method ReadBody()
      requires Valid() && open && !thrown && currentPacketLen != 0 && |inBuffer| >= currentPacketLen + 32
      modifies this
      ensures Valid() && identifying == old(identifying)
      ensures In() == BodyStep(inKeys, old(In()))
      ensures |inBuffer| < |old(inBuffer)|
      ensures Out() == old(Out()).(open := open)
    {
      var encBody := inBuffer[..currentPacketLen];
      var macReceived := inBuffer[currentPacketLen..currentPacketLen + 32];
      inBuffer := inBuffer[currentPacketLen + 32..];
      var fullDecrypted := decryptedHead + Crypt(inKeys, decryptPos, encBody);
      decryptPos := decryptPos + currentPacketLen;
      Accept(fullDecrypted, macReceived);
    }

    method Accept(fullDecrypted: seq<Byte>, macReceived: seq<Byte>)
      requires open && currentPacketLen >= 4 && |fullDecrypted| == 4 + currentPacketLen
      modifies this
      ensures Valid() && identifying == old(identifying) && inBuffer == old(inBuffer)
      ensures In() == Judge(inKeys, old(In()), fullDecrypted, macReceived)
      ensures Out() == old(Out()).(open := open)
    {
      if macReceived != inKeys.mac(inSeq, fullDecrypted) {
        open := false;
        return;
      }
      inSeq := (inSeq + 1) % U32_LIMIT;
      var paddingLength: int := fullDecrypted[4];
      if paddingLength >= currentPacketLen || paddingLength < 4 {
        open := false;
        return;
      }
      var payload := fullDecrypted[5..4 + currentPacketLen - paddingLength];
      currentPacketLen := 0;
      decryptedHead := [];
      HandlePacket(payload);
    }

    /** The random padding is the parameter `padding`. */
    method SendPacket(payload: seq<Byte>, padding: seq<Byte>)
      requires Valid() && Sendable(payload, padding)
      modifies this`outSeq, this`encryptPos, this`written
      ensures Valid()
      ensures Out() == Send(outKeys, old(Out()), payload, padding)
      ensures !open ==> written == old(written) && outSeq == old(outSeq)
    {
      if !open {
        return;
      }
      PaddingRule(|payload|, |padding|);
      var raw := FillPacket(payload, padding);
      if !isEncryptedOut {
        written := written + raw[..];
      } else {
        var encrypted := Crypt(outKeys, encryptPos, raw[..]);
        encryptPos := encryptPos + raw.Length;
        written := written + (encrypted + outKeys.mac(outSeq, raw[..]));
      }
      outSeq := (outSeq + 1) % U32_LIMIT;
    }

    /** The buffer that is filled in place: length, padding length, payload, padding. */
    method FillPacket(payload: seq<Byte>, padding: seq<Byte>) returns (raw: array<Byte>)
      requires Sendable(payload, padding) && |padding| < 256 && 1 + |payload| + |padding| < U32_LIMIT
      ensures fresh(raw) && raw[..] == Packet(payload, padding)
    {
      var packetLen := 1 + |payload| + |padding|;
      raw := new Byte[4 + packetLen](_ => 0);
      var length := U32BE(packetLen);
      forall i | 0 <= i < 4 { raw[i] := length[i]; }
      raw[4] := |padding|;
      forall i | 0 <= i < |payload| { raw[5 + i] := payload[i]; }
      forall i | 0 <= i < |padding| { raw[5 + |payload| + i] := padding[i]; }
    }

    /** The end of the key exchange: NEWKEYS in the clear, everything after it encrypted. */
    method SendNewKeys(padding: seq<Byte>)
      requires Valid() && open && Sendable([NEWKEYS], padding)
      modifies this
      ensures Valid()
      ensures Out() == SendThenSwitch(outKeys, old(Out()), [NEWKEYS], padding)
      ensures In() == old(In())
    {
      SendPacket([NEWKEYS], padding);
      isEncryptedOut := true;
    }
  }
}
