/**
 * How long an onion frame is: the growth of one base64 layer per hop against a fixed cell, and the
 * largest payload that still fits.
 */
module OnionSize {
  import opened Onion
  import opened SymbolicCrypto
  import Utf8

  const HEX := "0123456789abcdef"

  function Escape(c: char): string {
    if c == '"' || c == '\\' then ['\\', c]
    else if c == '\n' then "\\n"
    else if c == '\r' then "\\r"
    else if c == '\t' then "\\t"
    else if c == '\U{8}' then "\\b"
    else if c == '\U{C}' then "\\f"
    else if c < ' ' then "\\u00" + [HEX[c as int / 16], HEX[c as int % 16]]
    else [c]
  }

  function Escaped(s: string): string {
    if s == "" then "" else Escape(s[0]) + Escaped(s[1..])
  }

  /** What JSON.stringify writes for a text. */
  function Quoted(s: string): string {
    "\"" + Escaped(s) + "\""
  }

  lemma {:induction false} TextBytes(s: string)
    ensures Utf8Bytes(s) == |Utf8.Encode(s)|
  {
    if s != "" {
      TextBytes(s[1..]);
    }
  }

  lemma {:induction false} TextBytesJoin(s: string, t: string)
    ensures Utf8Bytes(s + t) == Utf8Bytes(s) + Utf8Bytes(t)
  {
    if s == "" {
      assert s + t == t;
    } else {
      TextBytesJoin(s[1..], t);
      assert (s + t)[1..] == s[1..] + t;
    }
  }

  lemma EscapeBytes(c: char)
    ensures Utf8Bytes(Escape(c)) == EscapedBytes(c)
  {
    var e := Escape(c);
    if e == [c] {
      assert e[1..] == "";
    } else {
      assert forall i :: 0 <= i < |e| ==> CharBytes(e[i]) == 1;
      PlainBytes(e);
    }
  }

  lemma {:induction false} PlainBytes(s: string)
    requires forall i :: 0 <= i < |s| ==> CharBytes(s[i]) == 1
    ensures Utf8Bytes(s) == |s|
  {
    if s != "" {
      PlainBytes(s[1..]);
    }
  }

  lemma {:induction false} InnerIs(s: string)
    ensures InnerBytes(s) == Utf8Bytes(Escaped(s))
  {
    if s != "" {
      InnerIs(s[1..]);
      EscapeBytes(s[0]);
      TextBytesJoin(Escape(s[0]), Escaped(s[1..]));
    }
  }

  /** The lengths are those of the octets themselves: UTF-8 of the text, and of its quoted form. */
  lemma JsonLength(s: string)
    ensures Utf8Bytes(s) == |Utf8.Encode(s)|
    ensures QuotedBytes(s) == |Utf8.Encode(Quoted(s))|
  {
    TextBytes(s);
    TextBytes(Quoted(s));
    InnerIs(s);
    TextBytesJoin("\"" + Escaped(s), "\"");
    TextBytesJoin("\"", Escaped(s));
    PlainBytes("\"");
  }

  /** The length of the outermost cell from the number of hops, their addresses and the payload. */
  function OnionBytes(circuitId: string, hops: seq<string>, target: string, payloadBytes: nat): nat
    requires hops != []
  {
    CellHeadBytes(circuitId) + Base64Length(
      if |hops| == 1 then DeliverBytes(target) + payloadBytes
      else ForwardBytes(hops[1]) + OnionBytes(circuitId, hops[1..], target, payloadBytes))
  }

  /** Keys and nonces do not matter: the recurrence gives the length of every wrapped cell. */
  lemma {:induction false} WrapBytes(circuitId: string, hops: seq<string>, keys: seq<Key>, ivs: seq<nat>,
                                    target: string, payload: Payload)
    requires |hops| == |keys| == |ivs| > 0
    ensures CellBytes(Wrap(circuitId, hops, keys, ivs, target, payload))
         == OnionBytes(circuitId, hops, target, PayloadJsonBytes(payload))
  {
    hide Base64Length, CellHeadBytes, DeliverBytes, ForwardBytes, PayloadJsonBytes;
    if |hops| > 1 {
      WrapBytes(circuitId, hops[1..], keys[1..], ivs[1..], target, payload);
    }
  }

  /** The most plaintext whose base64 fits in this many characters. */
  function MostPlaintext(chars: int): int {
    chars / 4 * 3
  }

  lemma Base64Fits(n: nat, chars: int)
    ensures Base64Length(n) <= chars <==> n <= MostPlaintext(chars)
  {
  }

  /** The inverse recurrence: how many payload bytes remain if the cell may be `room` long. */
  function LargestPayload(circuitId: string, hops: seq<string>, target: string, room: int): int
    requires hops != []
  {
    var plaintext := MostPlaintext(room - CellHeadBytes(circuitId));
    if |hops| == 1 then plaintext - DeliverBytes(target)
    else LargestPayload(circuitId, hops[1..], target, plaintext - ForwardBytes(hops[1]))
  }

  lemma {:induction false} FitsExactly(circuitId: string, hops: seq<string>, target: string, payloadBytes: nat, room: int)
    requires hops != []
    ensures OnionBytes(circuitId, hops, target, payloadBytes) <= room
       <==> payloadBytes <= LargestPayload(circuitId, hops, target, room)
    decreases |hops|
  {
    hide Base64Length, CellHeadBytes, DeliverBytes, ForwardBytes, MostPlaintext;
    var chars := room - CellHeadBytes(circuitId);
    if |hops| == 1 {
      Base64Fits(DeliverBytes(target) + payloadBytes, chars);
    } else {
      var inner := OnionBytes(circuitId, hops[1..], target, payloadBytes);
      Base64Fits(ForwardBytes(hops[1]) + inner, chars);
      FitsExactly(circuitId, hops[1..], target, payloadBytes, MostPlaintext(chars) - ForwardBytes(hops[1]));
    }
  }

  /** The cell must leave 30 bytes for type, empty pad and newline. */
  const ROOM := UNIFORM_CELL_SIZE - 30

  lemma UniformWhenRoom(cell: Cell)
    ensures FrameBytes(PadTo(cell)) == UNIFORM_CELL_SIZE <==> CellBytes(cell) <= ROOM
  {
  }

  /** The frame the guard gets has exactly the uniform size, and with it every frame passed on, if
      and only if the payload's JSON is no longer than the inverse recurrence allows. */
  lemma UniformExactly(circuitId: string, hops: seq<string>, keys: seq<Key>, ivs: seq<nat>,
                       target: string, payload: Payload)
    requires |hops| == |keys| == |ivs| > 0
    ensures FrameBytes(PadTo(Wrap(circuitId, hops, keys, ivs, target, payload))) == UNIFORM_CELL_SIZE
       <==> PayloadJsonBytes(payload) <= LargestPayload(circuitId, hops, target, ROOM)
    ensures PayloadJsonBytes(payload) <= LargestPayload(circuitId, hops, target, ROOM) ==>
              forall i :: 0 <= i < |hops| ==>
                FrameBytes(PadTo(Wrap(circuitId, hops[i..], keys[i..], ivs[i..], target, payload))) == UNIFORM_CELL_SIZE
  {
    hide Wrap, CellBytes, FrameBytes, PadTo, OnionBytes, LargestPayload, PayloadJsonBytes;
    WrapBytes(circuitId, hops, keys, ivs, target, payload);
    FitsExactly(circuitId, hops, target, PayloadJsonBytes(payload), ROOM);
    UniformWhenRoom(Wrap(circuitId, hops, keys, ivs, target, payload));
    if PayloadJsonBytes(payload) <= LargestPayload(circuitId, hops, target, ROOM) {
      forall i | 0 <= i < |hops|
        ensures FrameBytes(PadTo(Wrap(circuitId, hops[i..], keys[i..], ivs[i..], target, payload))) == UNIFORM_CELL_SIZE
      {
        SuffixShrinks(circuitId, hops, keys, ivs, target, payload, i);
        UniformWhenRoom(Wrap(circuitId, hops[i..], keys[i..], ivs[i..], target, payload));
      }
    }
  }

  lemma {:induction false} SuffixShrinks(circuitId: string, hops: seq<string>, keys: seq<Key>, ivs: seq<nat>,
                                        target: string, payload: Payload, i: nat)
    requires |hops| == |keys| == |ivs| > i
    ensures CellBytes(Wrap(circuitId, hops[i..], keys[i..], ivs[i..], target, payload))
         <= CellBytes(Wrap(circuitId, hops, keys, ivs, target, payload))
    decreases i
  {
    if i == 0 {
      assert hops[0..] == hops && keys[0..] == keys && ivs[0..] == ivs;
    } else {
      WrapShrinks(circuitId, hops, keys, ivs, target, payload);
      SuffixShrinks(circuitId, hops[1..], keys[1..], ivs[1..], target, payload, i - 1);
      assert hops[1..][i - 1..] == hops[i..] && keys[1..][i - 1..] == keys[i..] && ivs[1..][i - 1..] == ivs[i..];
    }
  }

  /** Identifiers as generated here: 32 hexadecimal characters, and a 16-character node as target. */
  predicate Ordinary(circuitId: string, target: string) {
    QuotedBytes(circuitId) == 34 && QuotedBytes(target) == 18
  }

  /** Over one or two hops every permitted payload object fits, with second addresses up to 186
      characters. */
  lemma TwoHopsFit(circuitId: string, hops: seq<string>, target: string, json: string)
    requires 1 <= |hops| <= 2 && Ordinary(circuitId, target)
    requires |hops| == 2 ==> QuotedBytes(hops[1]) <= 188
    requires PayloadBytes(Object(json)) <= MAX_ONION_PAYLOAD
    ensures PayloadJsonBytes(Object(json)) <= LargestPayload(circuitId, hops, target, ROOM)
  {
    hide QuotedBytes;
    if |hops| == 2 {
      assert LargestPayload(circuitId, hops, target, ROOM)
          == LargestPayload(circuitId, hops[1..], target, MostPlaintext(ROOM - 125) - ForwardBytes(hops[1]));
    }
  }

  lemma PlaintextBetween(chars: int, low: int, high: int)
    requires low <= chars <= high
    ensures low / 4 * 3 <= MostPlaintext(chars) <= high / 4 * 3
  {
  }

  /** Over three hops at most 557 bytes fit whatever the addresses, and 530 do for addresses of up to
      21 characters, as an IPv4 address with port has: less than the permitted payload. */
  lemma ThreeHopsLimit(circuitId: string, hops: seq<string>, target: string)
    requires |hops| == 3 && Ordinary(circuitId, target)
    ensures LargestPayload(circuitId, hops, target, ROOM) <= 557 < MAX_ONION_PAYLOAD
    ensures QuotedBytes(hops[1]) <= 23 && QuotedBytes(hops[2]) <= 23 ==>
              530 <= LargestPayload(circuitId, hops, target, ROOM)
  {
    hide QuotedBytes, MostPlaintext;
    PlaintextBetween(ROOM - 125, 1893, 1893);
    var one := MostPlaintext(ROOM - 125) - ForwardBytes(hops[1]);
    assert LargestPayload(circuitId, hops, target, ROOM) == LargestPayload(circuitId, hops[1..], target, one);
    PlaintextBetween(one - 125, if QuotedBytes(hops[1]) <= 23 then 1249 else one - 125, 1270);
    var two := MostPlaintext(one - 125) - ForwardBytes(hops[2]);
    PlaintextBetween(two - 125, if two >= 891 then 766 else two - 125, 802);
    assert hops[1..][1] == hops[2] && hops[1..][1..] == hops[2..];
    assert LargestPayload(circuitId, hops[1..], target, one) == LargestPayload(circuitId, hops[2..], target, two);
  }

  lemma TwoHopsBounded(circuitId: string, hops: seq<string>, target: string, payloadBytes: nat)
    requires 1 <= |hops| <= 2 && Ordinary(circuitId, target) && payloadBytes <= MAX_ONION_PAYLOAD
    requires |hops| == 2 ==> QuotedBytes(hops[1]) <= 1000
    ensures OnionBytes(circuitId, hops, target, payloadBytes) <= UNIFORM_CELL_SIZE * 2
  {
    hide QuotedBytes;
    var exitBytes := CellHeadBytes(circuitId) + Base64Length(DeliverBytes(target) + payloadBytes);
    assert exitBytes <= 1209;
    if |hops| == 2 {
      assert OnionBytes(circuitId, hops[1..], target, payloadBytes) == exitBytes;
    }
  }

  /** Within three hops no relay drops a permitted payload object for its size. */
  lemma ThreeHopsPass(circuitId: string, hops: seq<string>, keys: seq<Key>, ivs: seq<nat>, target: string, json: string)
    requires |hops| == |keys| == |ivs| && 1 <= |hops| <= 3 && Ordinary(circuitId, target)
    requires forall i :: 1 <= i < |hops| ==> Dialable(hops[i]) && QuotedBytes(hops[i]) <= 1000
    requires PayloadBytes(Object(json)) <= MAX_ONION_PAYLOAD
    ensures Passable(circuitId, hops, keys, ivs, target, Object(json))
  {
    hide Wrap, CellBytes, QuotedBytes, Dialable, OnionBytes;
    if |hops| > 1 {
      assert |hops| > 2 ==> hops[1..][1] == hops[2];
      WrapBytes(circuitId, hops[1..], keys[1..], ivs[1..], target, Object(json));
      TwoHopsBounded(circuitId, hops[1..], target, Utf8Bytes(json));
    }
  }
}
