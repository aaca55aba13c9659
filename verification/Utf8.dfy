/** UTF-8, and the one-octet encoding Node calls ascii. */
module Utf8 {
  import opened Bytes
  import opened Text

  function EncodeChar(c: char): (s: seq<Byte>)
    ensures |s| >= 1
  {
    var n := c as int;
    if n < 0x80 then [n]
    else if n < 0x800 then [0xC0 + n / 64, 0x80 + n % 64]
    else if n < 0x10000 then [0xE0 + n / 4096, 0x80 + n / 64 % 64, 0x80 + n % 64]
    else [0xF0 + n / 262144, 0x80 + n / 4096 % 64, 0x80 + n / 64 % 64, 0x80 + n % 64]
  }

  function Encode(s: string): seq<Byte> {
    if s == "" then [] else EncodeChar(s[0]) + Encode(s[1..])
  }

  /** The length of a character's encoding by its first octet; 0 if no character starts so. */
  function LeadLength(b: Byte): nat {
    if b < 0x80 then 1 else if b < 0xC2 then 0 else if b < 0xE0 then 2 else if b < 0xF0 then 3 else if b < 0xF5 then 4 else 0
  }

  /** The number a lead octet and its continuation octets spell. */
  function CodePoint(s: seq<Byte>): int
    requires 1 <= |s| <= 4
  {
    var a: int := s[0];
    if |s| == 1 then a
    else
      var b: int := s[1];
      if |s| == 2 then (a - 0xC0) * 64 + (b - 0x80)
      else
        var c: int := s[2];
        if |s| == 3 then (a - 0xE0) * 4096 + (b - 0x80) * 64 + (c - 0x80)
        else
          var d: int := s[3];
          (a - 0xF0) * 262144 + (b - 0x80) * 4096 + (c - 0x80) * 64 + (d - 0x80)
  }

  predicate Scalar(n: int) {
    0 <= n < 0xD800 || 0xE000 <= n < 0x11_0000
  }

  /** Decoding; None for octets that are no character's encoding. */
  function Decode(s: seq<Byte>): Option<string>
    decreases |s|
  {
    if s == [] then Some("")
    else
      var k := LeadLength(s[0]);
      if k == 0 || k > |s| || !Scalar(CodePoint(s[..k])) then None
      else
        var c := CodePoint(s[..k]) as char;
        if EncodeChar(c) != s[..k] then None
        else match Decode(s[k..])
          case None => None
          case Some(rest) => Some([c] + rest)
  }

  lemma LeadOf(c: char)
    ensures var e := EncodeChar(c); |e| == LeadLength(e[0]) <= 4 && CodePoint(e) == c as int
  {
    var n := c as int;
    assert n / 64 == n / 4096 * 64 + n / 64 % 64;
    assert n / 4096 == n / 262144 * 64 + n / 4096 % 64;
  }

  predicate Continues(b: Byte) {
    0x80 <= b < 0xC0
  }

  /** The forms of section 3 of RFC 3629: ASCII is itself; else the first octet's leading ones count the octets,
      the rest are continuation octets, and the number is spelt six bits an octet. */
  lemma CharForm(c: char)
    ensures var e, n := EncodeChar(c), c as int;
            && (n < 0x80 ==> e == [n])
            && (0x80 <= n < 0x800 ==> |e| == 2 && 0xC0 <= e[0] < 0xE0)
            && (0x800 <= n < 0x10000 ==> |e| == 3 && 0xE0 <= e[0] < 0xF0)
            && (0x10000 <= n ==> |e| == 4 && 0xF0 <= e[0] < 0xF8)
            && (forall i :: 1 <= i < |e| ==> Continues(e[i]))
            && CodePoint(e) == n
  {
    LeadOf(c);
  }

  lemma {:induction false} DecodeEncode(s: string)
    ensures Decode(Encode(s)) == Some(s)
  {
    if s != "" {
      var e, rest := EncodeChar(s[0]), Encode(s[1..]);
      LeadOf(s[0]);
      DecodeEncode(s[1..]);
      assert (e + rest)[..|e|] == e && (e + rest)[|e|..] == rest && (e + rest)[0] == e[0];
      assert s == [s[0]] + s[1..];
    }
  }

  /** Buffer.from(s, 'ascii'): the low octet of every UTF-16 unit. */
  function AsciiChar(c: char): seq<Byte> {
    var n := c as int;
    if n < 0x10000 then [n % 256]
    else [(0xD800 + (n - 0x10000) / 0x400) % 256, (0xDC00 + (n - 0x10000) % 0x400) % 256]
  }

  function AsciiBytes(s: string): seq<Byte> {
    if s == "" then [] else AsciiChar(s[0]) + AsciiBytes(s[1..])
  }

  /** toString('ascii') drops the top bit. */
  function AsciiText(s: seq<Byte>): (t: string)
    ensures |t| == |s| && IsAscii(t)
  {
    if s == [] then "" else [(s[0] % 128) as char] + AsciiText(s[1..])
  }

  predicate IsAscii(s: string) {
    forall c <- s :: c < '\U{80}'
  }

  lemma AsciiConcat(a: string, b: string)
    ensures IsAscii(a + b) <==> IsAscii(a) && IsAscii(b)
  {
    assert forall c <- a :: c in a + b;
    assert forall c <- b :: c in a + b;
  }

  /** Only ASCII text survives. */
  lemma {:induction false} AsciiRoundTrip(s: string)
    ensures AsciiText(AsciiBytes(s)) == s <==> IsAscii(s)
  {
    if IsAscii(s) {
      AsciiKept(s);
    }
  }

  lemma AsciiTextCons(b: Byte, rest: seq<Byte>)
    ensures AsciiText([b] + rest) == [(b % 128) as char] + AsciiText(rest)
  {
    assert ([b] + rest)[1..] == rest;
  }

  lemma AsciiCharKept(c: char)
    requires c < '\U{80}'
    ensures AsciiChar(c) == [c as int]
  {
  }

  lemma AsciiTail(s: string)
    requires IsAscii(s) && s != ""
    ensures s[0] < '\U{80}' && IsAscii(s[1..])
  {
    assert s[0] in s && forall c <- s[1..] :: c in s;
  }

  lemma {:induction false} AsciiKept(s: string)
    requires IsAscii(s)
    ensures AsciiText(AsciiBytes(s)) == s
  {
    if s != "" {
      hide AsciiText, AsciiChar, IsAscii;
      AsciiTail(s);
      AsciiCharKept(s[0]);
      AsciiKept(s[1..]);
      AsciiTextCons(s[0] as int, AsciiBytes(s[1..]));
    }
  }
}
