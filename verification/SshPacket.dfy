/**
 * The typed writer over a growing buffer and its reader: the data types of section 5 of RFC 4251.
 */
module SshPacket {
  import opened Bytes
  import opened Text
  import Utf8

  datatype Value =
    | Octet(octet: Byte)
    | Boolean(flag: bool)
    | UInt32(number: int)
    | Str(text: string)
    | Buf(bytes: seq<Byte>)
    | NameList(names: seq<string>)

  datatype Kind = OctetKind | BooleanKind | UInt32Kind | StrKind | BufKind | NameListKind

  function KindOf(v: Value): Kind {
    match v
    case Octet(_) => OctetKind
    case Boolean(_) => BooleanKind
    case UInt32(_) => UInt32Kind
    case Str(_) => StrKind
    case Buf(_) => BufKind
    case NameList(_) => NameListKind
  }

  function Prefixed(bytes: seq<Byte>): (s: seq<Byte>)
    requires |bytes| < U32_LIMIT
    ensures |s| == 4 + |bytes|
  {
    U32BE(|bytes|) + bytes
  }

  function NamesBytes(names: seq<string>): seq<Byte> {
    Utf8.AsciiBytes(Join(names, ','))
  }

  /** Numbers and lengths below 2^32. */
  predicate Writable(v: Value) {
    match v
    case UInt32(n) => 0 <= n < U32_LIMIT
    case Str(text) => |Utf8.Encode(text)| < U32_LIMIT
    case Buf(bytes) => |bytes| < U32_LIMIT
    case NameList(names) => |NamesBytes(names)| < U32_LIMIT
    case _ => true
  }

  function Encoded(v: Value): seq<Byte>
    requires Writable(v)
  {
    match v
    case Octet(b) => [b]
    case Boolean(flag) => [if flag then 1 else 0]
    case UInt32(n) => U32BE(n)
    case Str(text) => Prefixed(Utf8.Encode(text))
    case Buf(bytes) => Prefixed(bytes)
    case NameList(names) => Prefixed(NamesBytes(names))
  }

  function EncodedAll(values: seq<Value>): seq<Byte>
    requires forall v <- values :: Writable(v)
  {
    if values == [] then [] else Encoded(values[0]) + EncodedAll(values[1..])
  }

  // ---------------------------------------------------------------- reading, as a function

  function ReadPrefixed(s: seq<Byte>): Option<seq<Byte>> {
    if |s| < 4 || 4 + ReadU32(s) > |s| then None else Some(s[4..4 + ReadU32(s)])
  }

  function SplitNames(raw: string): seq<string> {
    if raw == "" then [] else Split(raw, ',')
  }

  /** The value read off the front and the octets it took. */
  function Decoded(kind: Kind, s: seq<Byte>): (r: Option<(Value, nat)>)
    ensures r.Some? ==> r.value.1 <= |s| && KindOf(r.value.0) == kind
  {
    match kind
    case OctetKind => if s == [] then None else Some((Octet(s[0]), 1))
    case BooleanKind => if s == [] then None else Some((Boolean(s[0] != 0), 1))
    case UInt32Kind => if |s| < 4 then None else Some((UInt32(ReadU32(s)), 4))
    case _ =>
      match ReadPrefixed(s)
      case None => None
      case Some(bytes) =>
        match DecodedPrefixed(kind, bytes)
        case None => None
        case Some(v) => Some((v, 4 + |bytes|))
  }

  function DecodedPrefixed(kind: Kind, bytes: seq<Byte>): (r: Option<Value>)
    requires kind.StrKind? || kind.BufKind? || kind.NameListKind?
    ensures r.Some? ==> KindOf(r.value) == kind
  {
    if kind.BufKind? then Some(Buf(bytes))
    else if kind.NameListKind? then Some(NameList(SplitNames(Utf8.AsciiText(bytes))))
    else match Utf8.Decode(bytes)
      case None => None
      case Some(text) => Some(Str(text))
  }

  function DecodedAll(kinds: seq<Kind>, s: seq<Byte>): Option<(seq<Value>, seq<Byte>)>
    decreases |kinds|
  {
    if kinds == [] then Some(([], s))
    else match Decoded(kinds[0], s)
      case None => None
      case Some((v, n)) =>
        match DecodedAll(kinds[1..], s[n..])
        case None => None
        case Some((vs, rest)) => Some(([v] + vs, rest))
  }

  function Kinds(values: seq<Value>): (kinds: seq<Kind>)
    ensures |kinds| == |values|
  {
    if values == [] then [] else [KindOf(values[0])] + Kinds(values[1..])
  }

  // ---------------------------------------------------------------- round trips

  /** A name list survives exactly when its names are ASCII without commas and it is not one empty
      name. */
  predicate PlainNames(names: seq<string>) {
    names != [""] && forall name <- names :: ',' !in name && Utf8.IsAscii(name)
  }

  predicate Survives(v: Value) {
    v.NameList? ==> PlainNames(v.names)
  }

  lemma PrefixedReads(bytes: seq<Byte>, rest: seq<Byte>)
    requires |bytes| < U32_LIMIT
    ensures ReadPrefixed(Prefixed(bytes) + rest) == Some(bytes)
  {
    var s := Prefixed(bytes) + rest;
    assert s[..4] == U32BE(|bytes|);
    U32Reads(|bytes|);
    assert ReadU32(s) == ReadU32(s[..4]);
    assert s[4..4 + |bytes|] == bytes;
  }

  lemma U32Front(n: int, rest: seq<Byte>)
    requires 0 <= n < U32_LIMIT
    ensures |U32BE(n)| == 4 && ReadU32(U32BE(n) + rest) == n
  {
    U32Reads(n);
  }

  lemma {:induction false} JoinAscii(names: seq<string>)
    requires names != []
    ensures Utf8.IsAscii(Join(names, ',')) <==> forall name <- names :: Utf8.IsAscii(name)
  {
    if |names| > 1 {
      JoinAscii(names[1..]);
      assert Join(names, ',') == names[0] + ([','] + Join(names[1..], ','));
      Utf8.AsciiConcat(names[0], [','] + Join(names[1..], ','));
      Utf8.AsciiConcat([','], Join(names[1..], ','));
      assert names == [names[0]] + names[1..];
    } else {
      assert Join(names, ',') == names[0];
    }
  }

  lemma {:induction false} JoinEmpty(names: seq<string>)
    requires names != []
    ensures Join(names, ',') == "" <==> names == [""]
  {
  }

  lemma NamesRead(names: seq<string>)
    ensures SplitNames(Utf8.AsciiText(NamesBytes(names))) == names <==> PlainNames(names)
  {
    if names != [] {
      var joined := Join(names, ',');
      JoinAscii(names);
      JoinEmpty(names);
      Utf8.AsciiRoundTrip(joined);
      if PlainNames(names) {
        SplitJoin(names, ',');
      } else {
        var raw := Utf8.AsciiText(NamesBytes(names));
        SplitParts(raw, ',');
        SplitAscii(raw);
      }
    }
  }

  lemma {:induction false} SplitAscii(s: string)
    requires Utf8.IsAscii(s)
    ensures forall part <- Split(s, ',') :: Utf8.IsAscii(part)
  {
    if s != "" {
      Utf8.AsciiConcat([s[0]], s[1..]);
      assert s == [s[0]] + s[1..];
      SplitAscii(s[1..]);
      assert Split(s[1..], ',')[0] in Split(s[1..], ',');
      Utf8.AsciiConcat([s[0]], Split(s[1..], ',')[0]);
    }
  }

  /** Reading a written value back gives it, whatever follows, exactly when it survives. */
  lemma ValueRoundTrip(v: Value, rest: seq<Byte>)
    requires Writable(v)
    ensures Decoded(KindOf(v), Encoded(v) + rest) == Some((v, |Encoded(v)|)) <==> Survives(v)
  {
    hide Prefixed, ReadPrefixed, Utf8.Encode, Utf8.Decode, NamesBytes, SplitNames, PlainNames, U32BE, ReadU32;
    match v
    case Octet(_) =>
    case Boolean(_) =>
    case UInt32(n) =>
      U32Front(n, rest);
    case Str(text) =>
      PrefixedReads(Utf8.Encode(text), rest);
      Utf8.DecodeEncode(text);
    case Buf(bytes) =>
      PrefixedReads(bytes, rest);
    case NameList(names) =>
      PrefixedReads(NamesBytes(names), rest);
      NamesRead(names);
  }

  /** A whole packet: every value back in order and nothing left over. */
  lemma {:induction false} PacketRoundTrip(values: seq<Value>, rest: seq<Byte>)
    requires forall v <- values :: Writable(v) && Survives(v)
    ensures DecodedAll(Kinds(values), EncodedAll(values) + rest) == Some((values, rest))
  {
    if values == [] {
      assert EncodedAll(values) + rest == rest;
    } else {
      var e, more := Encoded(values[0]), EncodedAll(values[1..]);
      assert EncodedAll(values) + rest == e + (more + rest);
      ValueRoundTrip(values[0], more + rest);
      assert (e + (more + rest))[|e|..] == more + rest;
      PacketRoundTrip(values[1..], rest);
      assert Kinds(values)[1..] == Kinds(values[1..]) && Kinds(values)[0] == KindOf(values[0]);
      assert values == [values[0]] + values[1..];
    }
  }

  // ---------------------------------------------------------------- the multiple-precision integer

  /** What the writer puts in front: a zero octet for an empty or a negative-looking number. */
  function MpintBytes(raw: seq<Byte>): (data: seq<Byte>)
    ensures |raw| <= |data|
  {
    if raw == [] || raw[0] >= 0x80 then [0] + raw else raw
  }

  function Magnitude(raw: seq<Byte>): nat {
    if raw == [] then 0 else Magnitude(raw[..|raw| - 1]) * 256 + raw[|raw| - 1]
  }

  /** Two's complement, shortest form: zero is empty, a leading zero octet only before a high bit. */
  predicate CanonicalNonNegative(data: seq<Byte>) {
    data == [] || (data[0] < 0x80 && (data[0] == 0 ==> |data| > 1 && data[1] >= 0x80))
  }

  lemma {:induction false} LeadingZero(raw: seq<Byte>)
    ensures Magnitude([0] + raw) == Magnitude(raw)
  {
    if raw != [] {
      LeadingZero(raw[..|raw| - 1]);
      assert ([0] + raw)[..|raw|] == [0] + raw[..|raw| - 1];
    } else {
      assert [0] + raw == [0];
    }
  }

  /** The number is kept, and it is in the standard's shortest form exactly for a non-zero number
      without superfluous leading zeros: zero itself is written as one zero octet. */
  lemma MpintForm(raw: seq<Byte>)
    ensures Magnitude(MpintBytes(raw)) == Magnitude(raw) && MpintBytes(raw)[0] < 0x80
    ensures CanonicalNonNegative(MpintBytes(raw))
       <==> raw != [] && (raw[0] != 0 || (|raw| > 1 && raw[1] >= 0x80))
  {
    LeadingZero(raw);
  }

  // ---------------------------------------------------------------- the writer

  class SshPacketWriter {
    var buffer: array<Byte>
    var offset: nat

    ghost predicate Valid()
      reads this
    {
      0 < buffer.Length && offset <= buffer.Length
    }

    ghost function Contents(): seq<Byte>
      requires Valid()
      reads this, buffer
    {
      buffer[..offset]
    }

    /** A size of 0 would make the doubling below run for ever. */
    constructor (initialSize: nat)
      requires initialSize > 0
      ensures Valid() && fresh(buffer) && Contents() == []
    {
      buffer := new Byte[initialSize](_ => 0);
      offset := 0;
    }

    method EnsureCapacity(bytesNeeded: nat)
      requires Valid()
      modifies this`buffer
      ensures Valid() && Contents() == old(Contents())
      ensures offset + bytesNeeded <= buffer.Length
      ensures if offset + bytesNeeded <= old(buffer.Length) then buffer == old(buffer) else fresh(buffer)
    {
      if offset + bytesNeeded > buffer.Length {
        var nextSize := buffer.Length * 2;
        while offset + bytesNeeded > nextSize
          invariant nextSize >= buffer.Length > 0
          decreases offset + bytesNeeded - nextSize
        {
          nextSize := nextSize * 2;
        }
        var nextBuf := new Byte[nextSize](_ => 0);
        forall i | 0 <= i < buffer.Length {
          nextBuf[i] := buffer[i];
        }
        buffer := nextBuf;
      }
    }

    method WriteByte(val: int) returns (ok: bool)
      requires Valid()
      modifies this, buffer
      ensures Valid() && (buffer == old(buffer) || fresh(buffer))
      ensures ok <==> 0 <= val < 256
      ensures Contents() == if ok then old(Contents()) + [val] else old(Contents())
    {
      EnsureCapacity(1);
      if !(0 <= val < 256) {
        return false;
      }
      buffer[offset] := val;
      offset := offset + 1;
      ok := true;
    }

    method WriteBoolean(val: bool)
      requires Valid()
      modifies this, buffer
      ensures Valid() && (buffer == old(buffer) || fresh(buffer))
      ensures Contents() == old(Contents()) + Encoded(Boolean(val))
      ensures Contents() == old(Contents()) + [if val then 1 else 0]
    {
      var _ := WriteByte(if val then 1 else 0);
    }

    method WriteUInt32(val: int) returns (ok: bool)
      requires Valid()
      modifies this, buffer
      ensures Valid() && (buffer == old(buffer) || fresh(buffer))
      ensures old(offset) + 4 <= old(buffer.Length) ==> buffer == old(buffer)
      ensures ok <==> Writable(UInt32(val))
      ensures Contents() == if ok then old(Contents()) + Encoded(UInt32(val)) else old(Contents())
    {
      EnsureCapacity(4);
      if !(0 <= val < U32_LIMIT) {
        return false;
      }
      Put(U32BE(val));
      ok := true;
    }

    /** Puts the octets into the buffer at the offset and moves the offset behind them. */
    method Put(bytes: seq<Byte>)
      requires Valid() && offset + |bytes| <= buffer.Length
      modifies this`offset, buffer
      ensures Valid() && Contents() == old(Contents()) + bytes
    {
      forall i | 0 <= i < |bytes| {
        buffer[offset + i] := bytes[i];
      }
      offset := offset + |bytes|;
    }

    method WriteRaw(bytes: seq<Byte>)
      requires Valid()
      modifies this, buffer
      ensures Valid() && (buffer == old(buffer) || fresh(buffer))
      ensures Contents() == old(Contents()) + bytes
    {
      EnsureCapacity(|bytes|);
      Put(bytes);
    }

    method WriteBuffer(bytes: seq<Byte>) returns (ok: bool)
      requires Valid()
      modifies this, buffer
      ensures Valid() && (buffer == old(buffer) || fresh(buffer))
      ensures ok <==> |bytes| < U32_LIMIT
      ensures Contents() == if ok then old(Contents()) + Prefixed(bytes) else old(Contents())
    {
      EnsureCapacity(4 + |bytes|);
      ok := WriteUInt32(|bytes|);
      if ok {
        Put(bytes);
      }
    }

    method WriteString(text: string) returns (ok: bool)
      requires Valid()
      modifies this, buffer
      ensures Valid() && (buffer == old(buffer) || fresh(buffer))
      ensures ok <==> Writable(Str(text))
      ensures Contents() == if ok then old(Contents()) + Encoded(Str(text)) else old(Contents())
    {
      ok := WriteBuffer(Utf8.Encode(text));
    }

    method WriteMpint(raw: seq<Byte>) returns (ok: bool)
      requires Valid()
      modifies this, buffer
      ensures Valid() && (buffer == old(buffer) || fresh(buffer))
      ensures ok <==> |MpintBytes(raw)| < U32_LIMIT
      ensures Contents() == if ok then old(Contents()) + Prefixed(MpintBytes(raw)) else old(Contents())
    {
      var padded := raw;
      if |raw| == 0 || raw[0] >= 0x80 {
        padded := [0] + raw;
      }
      ok := WriteBuffer(padded);
    }

    method WriteNameList(names: seq<string>) returns (ok: bool)
      requires Valid()
      modifies this, buffer
      ensures Valid() && (buffer == old(buffer) || fresh(buffer))
      ensures ok <==> Writable(NameList(names))
      ensures Contents() == if ok then old(Contents()) + Encoded(NameList(names)) else old(Contents())
    {
      ok := WriteBuffer(NamesBytes(names));
    }

    method ToBuffer() returns (bytes: seq<Byte>)
      requires Valid()
      ensures bytes == Contents()
    {
      bytes := buffer[..offset];
    }
  }

  // ---------------------------------------------------------------- the reader

  /** A read past the end is an error; the offset then stays where the reading got to. */
  class SshPacketReader {
    const buffer: seq<Byte>
    var offset: nat

    ghost predicate Valid()
      reads this
    {
      offset <= |buffer|
    }

    constructor (buffer: seq<Byte>)
      ensures Valid() && this.buffer == buffer && offset == 0
    {
      this.buffer, offset := buffer, 0;
    }

    ghost predicate Took(kind: Kind, before: nat, r: Option<Value>)
      requires before <= |buffer|
      reads this
    {
      match Decoded(kind, buffer[before..])
      case None => r.None?
      case Some((v, n)) => r == Some(v) && offset == before + n
    }

    method ReadByte() returns (r: Option<Value>)
      requires Valid()
      modifies this
      ensures Valid() && Took(OctetKind, old(offset), r)
    {
      if offset >= |buffer| {
        return None;
      }
      r := Some(Octet(buffer[offset]));
      offset := offset + 1;
    }

    method ReadBoolean() returns (r: Option<Value>)
      requires Valid()
      modifies this
      ensures Valid() && Took(BooleanKind, old(offset), r)
      ensures r.Some? ==> r == Some(Boolean(buffer[old(offset)] != 0))
    {
      var b := ReadByte();
      r := match b case None => None case Some(v) => Some(Boolean(v.Octet? && v.octet != 0));
    }

    method ReadUInt32() returns (r: Option<Value>)
      requires Valid()
      modifies this
      ensures Valid() && Took(UInt32Kind, old(offset), r)
      ensures r.None? ==> offset == old(offset)
    {
      if offset + 4 > |buffer| {
        return None;
      }
      r := Some(UInt32(ReadU32(buffer[offset..])));
      offset := offset + 4;
    }

    method ReadBuffer() returns (r: Option<Value>)
      requires Valid()
      modifies this
      ensures Valid() && Took(BufKind, old(offset), r)
      ensures r.Some? ==> r.value.Buf? && ReadPrefixed(buffer[old(offset)..]) == Some(r.value.bytes)
      ensures r.None? ==> ReadPrefixed(buffer[old(offset)..]) == None
    {
      var n := ReadUInt32();
      if n.None? {
        return None;
      }
      var length := n.value.number;
      assert length >= 0 by {
        U32Writes(buffer[old(offset)..][..4]);
        assert ReadU32(buffer[old(offset)..]) == ReadU32(buffer[old(offset)..][..4]);
      }
      if offset + length > |buffer| {
        return None;
      }
      r := Some(Buf(buffer[offset..offset + length]));
      assert buffer[old(offset)..][4..4 + length] == buffer[offset..offset + length];
      offset := offset + length;
    }

    method ReadString() returns (r: Option<Value>)
      requires Valid()
      modifies this
      ensures Valid() && Took(StrKind, old(offset), r)
    {
      var bytes := ReadBuffer();
      r := match bytes
           case None => None
           case Some(v) => (match Utf8.Decode(v.bytes) case None => None case Some(text) => Some(Str(text)));
    }

    method ReadNameList() returns (r: Option<Value>)
      requires Valid()
      modifies this
      ensures Valid() && Took(NameListKind, old(offset), r)
    {
      var bytes := ReadBuffer();
      r := match bytes
           case None => None
           case Some(v) => Some(NameList(SplitNames(Utf8.AsciiText(v.bytes))));
    }
  }

  // ---------------------------------------------------------------- any caller

  lemma {:induction false} EncodedAllSnoc(values: seq<Value>, v: Value)
    requires Writable(v) && forall w <- values :: Writable(w)
    ensures forall w <- values + [v] :: Writable(w)
    ensures EncodedAll(values + [v]) == EncodedAll(values) + Encoded(v)
  {
    hide Encoded, Writable;
    var all := values + [v];
    assert forall w <- all :: w in values || w == v;
    if values == [] {
      assert EncodedAll(all) == Encoded(v) + EncodedAll(all[1..]) && all[1..] == [];
    } else {
      EncodedAllSnoc(values[1..], v);
      assert all[1..] == values[1..] + [v];
    }
  }

  /** Any sequence of writes, from any positive size: the buffer is the concatenation of the
      encodings, however often it was reallocated. */
  method WritePacket(values: seq<Value>, initialSize: nat) returns (bytes: seq<Byte>)
    requires initialSize > 0 && forall v <- values :: Writable(v)
    ensures bytes == EncodedAll(values)
  {
    hide Encoded, Writable;
    var w := new SshPacketWriter(initialSize);
    var i := 0;
    while i < |values|
      invariant i <= |values| && w.Valid() && fresh(w) && fresh(w.buffer)
      invariant forall v <- values[..i] :: Writable(v)
      invariant w.Contents() == EncodedAll(values[..i])
    {
      var v := values[i];
      assert v in values && values[..i + 1] == values[..i] + [v];
      EncodedAllSnoc(values[..i], v);
      WriteValue(w, v);
      i := i + 1;
    }
    assert values[..i] == values;
    bytes := w.ToBuffer();
  }

  method WriteValue(w: SshPacketWriter, v: Value)
    requires w.Valid() && Writable(v)
    modifies w, w.buffer
    ensures w.Valid() && (w.buffer == old(w.buffer) || fresh(w.buffer))
    ensures w.Contents() == old(w.Contents()) + Encoded(v)
  {
    var ok := true;
    match v {
      case Octet(b) => ok := w.WriteByte(b);
      case Boolean(flag) => w.WriteBoolean(flag);
      case UInt32(n) => ok := w.WriteUInt32(n);
      case Str(text) => ok := w.WriteString(text);
      case Buf(bytes) => ok := w.WriteBuffer(bytes);
      case NameList(names) => ok := w.WriteNameList(names);
    }
    assert ok;
  }

  /** Written and read back with the same types: the same values, and nothing remains. */
  method WriteThenRead(values: seq<Value>, initialSize: nat) returns (back: seq<Value>, remaining: nat)
    requires initialSize > 0 && forall v <- values :: Writable(v) && Survives(v)
    ensures back == values && remaining == 0
  {
    hide Decoded, EncodedAll, Kinds;
    var bytes := WritePacket(values, initialSize);
    var r := new SshPacketReader(bytes);
    PacketRoundTrip(values, []);
    assert EncodedAll(values) + [] == EncodedAll(values);
    back := [];
    var i := 0;
    var kinds := Kinds(values);
    assert kinds[0..] == kinds && values[0..] == values && bytes[0..] == bytes;
    while i < |values|
      invariant i <= |values| && r.Valid() && fresh(r) && r.buffer == bytes
      invariant back == values[..i]
      invariant DecodedAll(kinds[i..], bytes[r.offset..]) == Some((values[i..], []))
    {
      ghost var before := r.offset;
      assert kinds[i..][1..] == kinds[i + 1..] && values[i..][1..] == values[i + 1..];
      var v := ReadValue(r, kinds[i]);
      ghost var n := Decoded(kinds[i], bytes[before..]).value.1;
      assert bytes[before..][n..] == bytes[r.offset..];
      back := back + [v.value];
      i := i + 1;
    }
    assert bytes[r.offset..] == [];
    remaining := |bytes| - r.offset;
  }

  method ReadValue(r: SshPacketReader, kind: Kind) returns (v: Option<Value>)
    requires r.Valid()
    modifies r
    ensures r.Valid() && r.Took(kind, old(r.offset), v)
  {
    match kind {
      case OctetKind => v := r.ReadByte();
      case BooleanKind => v := r.ReadBoolean();
      case UInt32Kind => v := r.ReadUInt32();
      case StrKind => v := r.ReadString();
      case BufKind => v := r.ReadBuffer();
      case NameListKind => v := r.ReadNameList();
    }
  }
}
