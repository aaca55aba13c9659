/**
 * Base 32 of section 6 of RFC 4648, lower case, by a 32-bit accumulator that is never masked;
 * and the node identifiers derived from it.
 */
module Base32 {
  import opened Bytes
  import Text

  // ---------------------------------------------------------------- bits

  function Digit(b: bool): nat {
    if b then 1 else 0
  }

  /** The number a bit string spells, most significant bit first. */
  function Val(bits: seq<bool>): nat {
    if bits == [] then 0 else 2 * Val(bits[..|bits| - 1]) + Digit(bits[|bits| - 1])
  }

  function BitsOf(n: nat, k: nat): (bits: seq<bool>)
    ensures |bits| == k
  {
    if k == 0 then [] else BitsOf(n / 2, k - 1) + [n % 2 == 1]
  }

  lemma ValSnoc(bits: seq<bool>, b: bool)
    ensures Val(bits + [b]) == 2 * Val(bits) + Digit(b)
  {
    assert (bits + [b])[..|bits|] == bits;
  }

  lemma {:induction false} ValOfBits(n: nat, k: nat)
    requires n < Pow2(k)
    ensures Val(BitsOf(n, k)) == n
  {
    if k > 0 {
      ValOfBits(n / 2, k - 1);
      ValSnoc(BitsOf(n / 2, k - 1), n % 2 == 1);
    }
  }

  lemma {:induction false} ValBound(bits: seq<bool>)
    ensures Val(bits) < Pow2(|bits|)
  {
    if bits != [] {
      ValBound(bits[..|bits| - 1]);
    }
  }

  lemma {:induction false} BitsOfVal(bits: seq<bool>)
    ensures BitsOf(Val(bits), |bits|) == bits
  {
    if bits != [] {
      var init, last := bits[..|bits| - 1], bits[|bits| - 1];
      BitsOfVal(init);
      var n, m := Val(bits), Val(init);
      assert n == 2 * m + Digit(last);
      assert n / 2 == m && (n % 2 == 1 <==> last);
      hide Val;
      assert BitsOf(n, |bits|) == BitsOf(m, |init|) + [last];
      assert init + [last] == bits;
    }
  }

  function Zeros(n: nat): seq<bool> {
    seq(n, _ => false)
  }

  /** The low `k` bits, and shifts by `k`: the accumulator's `|`, `&`, `<<` and `>>>`. */
  function Low(n: nat, k: nat): nat {
    if k == 0 then 0 else 2 * Low(n / 2, k - 1) + n % 2
  }

  function Shl(n: nat, k: nat): nat {
    if k == 0 then n else 2 * Shl(n, k - 1)
  }

  function Shr(n: nat, k: nat): nat {
    if k == 0 then n else Shr(n / 2, k - 1)
  }

  lemma {:induction false} LowIsVal(n: nat, k: nat)
    ensures Low(n, k) == Val(BitsOf(n, k))
  {
    if k > 0 {
      LowIsVal(n / 2, k - 1);
      ValSnoc(BitsOf(n / 2, k - 1), n % 2 == 1);
    }
  }

  lemma LowBits(n: nat, k: nat)
    ensures BitsOf(Low(n, k), k) == BitsOf(n, k)
    ensures Low(n, k) < Pow2(k) && Low(n, k) == Val(BitsOf(n, k))
  {
    LowIsVal(n, k);
    BitsOfVal(BitsOf(n, k));
    ValBound(BitsOf(n, k));
  }

  lemma {:induction false} ShlBits(n: nat, k: nat, low: nat, m: nat)
    requires low < Pow2(k)
    ensures BitsOf(Shl(n, k) + low, m + k) == BitsOf(n, m) + BitsOf(low, k)
  {
    if k > 0 {
      assert (Shl(n, k) + low) / 2 == Shl(n, k - 1) + low / 2;
      assert (Shl(n, k) + low) % 2 == low % 2;
      ShlBits(n, k - 1, low / 2, m);
    }
  }

  lemma {:induction false} ShrBits(n: nat, k: nat, m: nat)
    ensures BitsOf(Shr(n, k), m) == BitsOf(n, m + k)[..m]
  {
    if k > 0 {
      ShrBits(n / 2, k - 1, m);
    }
  }

  lemma {:induction false} BitsSuffix(n: nat, m: nat, k: nat)
    ensures BitsOf(n, m + k)[m..] == BitsOf(n, k)
  {
    if k > 0 {
      BitsSuffix(n / 2, m, k - 1);
      assert BitsOf(n, m + k)[m..] == BitsOf(n / 2, m + k - 1)[m..] + [n % 2 == 1];
    }
  }

  // ---------------------------------------------------------------- the encoding by bit groups

  function Symbol(v: nat): (c: char)
    requires v < 32
    ensures SymbolIndex(c) == v
  {
    if v < 26 then ('a' as int + v) as char else ('2' as int + v - 26) as char
  }

  /** Position in the alphabet, or -1. */
  function SymbolIndex(c: char): (i: int)
    ensures -1 <= i < 32
  {
    if 'a' <= c <= 'z' then c as int - 'a' as int
    else if '2' <= c <= '7' then c as int - '2' as int + 26
    else -1
  }

  function ByteBits(buf: seq<Byte>): (bits: seq<bool>)
    ensures |bits| == 8 * |buf|
  {
    if buf == [] then [] else ByteBits(buf[..|buf| - 1]) + BitsOf(buf[|buf| - 1], 8)
  }

  function GroupSymbol(group: seq<bool>): (c: char)
    requires |group| == 5
    ensures Val(group) < 32 && SymbolIndex(c) == Val(group)
  {
    ValBound(group);
    assert Pow2(5) == 32;
    Symbol(Val(group))
  }

  /** Section 6 of RFC 4648: five bits a symbol, the last group filled with zero bits. */
  function Quintets(bits: seq<bool>): string {
    if bits == [] then ""
    else if |bits| < 5 then [GroupSymbol(bits + Zeros(5 - |bits|))]
    else [GroupSymbol(bits[..5])] + Quintets(bits[5..])
  }

  function Padded(s: string): string {
    s + seq((8 - |s| % 8) % 8, _ => '=')
  }

  function EncodeSpec(buf: seq<Byte>, padding: bool): string {
    var s := Quintets(ByteBits(buf));
    if padding then Padded(s) else s
  }

  lemma CatSlices<T>(a: seq<T>, b: seq<T>, n: nat)
    requires n <= |a|
    ensures (a + b)[..n] == a[..n] && (a + b)[n..] == a[n..] + b
  {
  }

  lemma Assoc<T>(a: seq<T>, b: seq<T>, c: seq<T>)
    ensures a + b + c == a + (b + c)
  {
  }

  lemma {:induction false} QuintetsAppend(a: seq<bool>, b: seq<bool>)
    requires |a| % 5 == 0
    ensures Quintets(a + b) == Quintets(a) + Quintets(b)
    decreases |a|
  {
    hide GroupSymbol, Zeros;
    if a == [] {
      assert a + b == b;
    } else {
      QuintetsAppend(a[5..], b);
      CatSlices(a, b, 5);
      Assoc([GroupSymbol(a[..5])], Quintets(a[5..]), Quintets(b));
    }
  }

  lemma {:induction false} QuintetsLength(bits: seq<bool>)
    ensures |Quintets(bits)| == (|bits| + 4) / 5
    ensures forall c <- Quintets(bits) :: SymbolIndex(c) >= 0
  {
    hide GroupSymbol, Zeros, SymbolIndex;
    if |bits| >= 5 {
      QuintetsLength(bits[5..]);
    }
  }

  // ---------------------------------------------------------------- the accumulator

  /** `(value << k) | low` in 32 bits: as an unsigned bit pattern, which is all `>>>` and `&` see. */
  function ShiftIn(value: nat, k: nat, low: nat): nat {
    Low(Shl(value, k) + low, 32)
  }

  /** The low end of the 32-bit accumulator holds the bits not yet written; above it, garbage. */
  ghost predicate Holds(value: nat, pending: seq<bool>) {
    |pending| <= 32 && BitsOf(value, |pending|) == pending
  }

  lemma ShiftHolds(value: nat, pending: seq<bool>, k: nat, low: nat)
    requires Holds(value, pending) && low < Pow2(k) && |pending| + k <= 32
    ensures Holds(ShiftIn(value, k, low), pending + BitsOf(low, k))
  {
    hide BitsOf, Low, Shl, Pow2;
    var n := |pending|;
    var wide, top := Shl(value, k) + low, 32 - (n + k);
    ShlBits(value, k, low, n);
    LowBits(wide, 32);
    BitsSuffix(wide, top, n + k);
    BitsSuffix(Low(wide, 32), top, n + k);
    assert top + (n + k) == 32;
  }

  /** Taking `w` bits off the top of what is pending. */
  lemma Extract(value: nat, pending: seq<bool>, w: nat)
    requires Holds(value, pending) && w <= |pending|
    ensures Low(Shr(value, |pending| - w), w) == Val(pending[..w])
    ensures Holds(value, pending[w..])
  {
    hide BitsOf, Low, Shr, Val, Pow2;
    var rest := |pending| - w;
    LowBits(Shr(value, rest), w);
    ShrBits(value, rest, w);
    BitsSuffix(value, w, rest);
  }

  lemma {:induction false} ZeroBits(k: nat)
    ensures BitsOf(0, k) == Zeros(k) && 0 < Pow2(k)
  {
    if k > 0 {
      ZeroBits(k - 1);
    }
  }

  lemma ByteBitsNext(buf: seq<Byte>, i: nat)
    requires i < |buf|
    ensures ByteBits(buf[..i + 1]) == ByteBits(buf[..i]) + BitsOf(buf[i], 8)
    ensures buf[i] < Pow2(8)
  {
    assert buf[..i + 1][..i] == buf[..i];
    assert Pow2(4) == 16;
  }

  /** Moving one full group from the pending bits to the output. */
  lemma GroupWritten(value: nat, written: seq<bool>, pending: seq<bool>)
    requires Holds(value, pending) && |pending| >= 5 && |written| % 5 == 0
    ensures var v := Low(Shr(value, |pending| - 5), 5);
            v < 32 && Quintets(written + pending[..5]) == Quintets(written) + [Symbol(v)]
    ensures Holds(value, pending[5..])
    ensures written + pending[..5] + pending[5..] == written + pending
  {
    hide Low, Shr, Val, Quintets, Holds, Symbol;
    assert |pending[..5]| == 5;
    Extract(value, pending, 5);
    OneGroup(pending[..5]);
    QuintetsAppend(written, pending[..5]);
  }

  method Encode(buf: seq<Byte>, padding: bool) returns (output: string)
    ensures output == EncodeSpec(buf, padding)
  {
    output := EncodeBody(buf);
    if padding {
      output := Pad(output);
    }
  }

  /** So far `output` stands for the bits written, and the accumulator ends in those pending. */
  ghost predicate Encoding(all: seq<bool>, value: nat, bits: nat, output: string, written: seq<bool>, pending: seq<bool>) {
    && |pending| == bits && Holds(value, pending)
    && |written| % 5 == 0 && output == Quintets(written)
    && written + pending == all
  }

  lemma ByteTaken(
    buf: seq<Byte>, i: nat, value: nat, bits: nat, output: string, written: seq<bool>, pending: seq<bool>)
    requires i < |buf| && bits < 5 && Encoding(ByteBits(buf[..i]), value, bits, output, written, pending)
    ensures Encoding(ByteBits(buf[..i + 1]), ShiftIn(value, 8, buf[i]), bits + 8, output, written, pending + BitsOf(buf[i], 8))
  {
    hide ByteBits, ShiftIn, Holds, BitsOf, Quintets, Pow2;
    ByteBitsNext(buf, i);
    ShiftHolds(value, pending, 8, buf[i]);
    Assoc(written, pending, BitsOf(buf[i], 8));
  }

  lemma GroupTaken(all: seq<bool>, value: nat, bits: nat, output: string, written: seq<bool>, pending: seq<bool>)
    requires bits >= 5 && Encoding(all, value, bits, output, written, pending)
    ensures var v := Low(Shr(value, bits - 5), 5);
            && v < 32 && bits <= |pending|
            && Encoding(all, value, bits - 5, output + [Symbol(v)], written + pending[..5], pending[5..])
  {
    hide Holds, Quintets, Low, Shr, Symbol;
    GroupWritten(value, written, pending);
  }

  /** The pending bits, filled up with zeros, are the last symbol. */
  lemma RestTaken(all: seq<bool>, value: nat, bits: nat, output: string, written: seq<bool>, pending: seq<bool>)
    requires bits < 5 && Encoding(all, value, bits, output, written, pending)
    ensures bits == 0 ==> Quintets(all) == output
    ensures bits > 0 ==>
              var v := Low(ShiftIn(value, 5 - bits, 0), 5); v < 32 && Quintets(all) == output + [Symbol(v)]
  {
    hide Holds, Quintets, Low, ShiftIn, Symbol;
    QuintetsAppend(written, pending);
    if bits > 0 {
      LastGroup(value, pending);
    } else {
      assert written + pending == written;
    }
  }

  method EncodeBody(buf: seq<Byte>) returns (output: string)
    ensures output == Quintets(ByteBits(buf))
  {
    hide Quintets, ByteBits, Low, Shl, Shr, ShiftIn, Symbol, Holds, BitsOf, Pow2;
    var bits, value := 0, 0;
    output := "";
    ghost var written: seq<bool>, pending: seq<bool> := [], [];
    NothingPending();
    assert buf[..0] == [] && Encoding(ByteBits([]), value, bits, output, written, pending);
    hide Encoding;
    for i := 0 to |buf|
      invariant bits < 5 && Encoding(ByteBits(buf[..i]), value, bits, output, written, pending)
    {
      ByteTaken(buf, i, value, bits, output, written, pending);
      value := ShiftIn(value, 8, buf[i]);
      pending := pending + BitsOf(buf[i], 8);
      bits := bits + 8;
      while bits >= 5
        invariant Encoding(ByteBits(buf[..i + 1]), value, bits, output, written, pending)
      {
        GroupTaken(ByteBits(buf[..i + 1]), value, bits, output, written, pending);
        output := output + [Symbol(Low(Shr(value, bits - 5), 5))];
        written, pending := written + pending[..5], pending[5..];
        bits := bits - 5;
      }
    }
    assert buf[..|buf|] == buf;
    RestTaken(ByteBits(buf), value, bits, output, written, pending);
    if bits > 0 {
      output := output + [Symbol(Low(ShiftIn(value, 5 - bits, 0), 5))];
    }
  }

  lemma NothingPending()
    ensures Holds(0, []) && Quintets([]) == "" && ByteBits([]) == []
  {
  }

  method Pad(text: string) returns (output: string)
    ensures output == Padded(text)
  {
    output := text;
    while |output| % 8 != 0
      invariant |text| <= |output| <= |text| + (8 - |text| % 8) % 8
      invariant output == text + seq(|output| - |text|, _ => '=')
      decreases |text| + 8 - |output|
    {
      output := output + "=";
    }
  }

  lemma OneGroup(group: seq<bool>)
    requires |group| == 5
    ensures Val(group) < 32 && Quintets(group) == [Symbol(Val(group))]
  {
    ValBound(group);
    assert Pow2(5) == 32;
    assert GroupSymbol(group) == Symbol(Val(group));
    hide Val, GroupSymbol, Symbol;
    assert group[..5] == group && Quintets(group[5..]) == "";
  }

  lemma LastGroup(value: nat, pending: seq<bool>)
    requires Holds(value, pending) && 0 < |pending| < 5
    ensures var v := Low(ShiftIn(value, 5 - |pending|, 0), 5);
            v < 32 && Quintets(pending) == [Symbol(v)]
  {
    var k := 5 - |pending|;
    ZeroBits(k);
    ShiftHolds(value, pending, k, 0);
    LowBits(ShiftIn(value, k, 0), 5);
    assert Pow2(5) == 32;
    assert Quintets([]) == "";
  }

  // ---------------------------------------------------------------- decoding

  function GroupByte(group: seq<bool>): (b: Byte)
    requires |group| == 8
    ensures b == Val(group)
  {
    ValBound(group);
    assert Pow2(4) == 16;
    Val(group)
  }

  function Octets(bits: seq<bool>): seq<Byte> {
    if |bits| < 8 then [] else [GroupByte(bits[..8])] + Octets(bits[8..])
  }

  /** The bits of the symbols; characters outside the alphabet are skipped. */
  function SymbolBits(s: string): seq<bool> {
    if s == "" then []
    else
      var i := SymbolIndex(s[|s| - 1]);
      SymbolBits(s[..|s| - 1]) + (if i < 0 then [] else BitsOf(i, 5))
  }

  function StripPadding(s: string): (t: string)
    ensures t <= s
  {
    if s != "" && s[|s| - 1] == '=' then StripPadding(s[..|s| - 1]) else s
  }

  function DecodeSpec(s: string): seq<Byte> {
    Octets(SymbolBits(StripPadding(Text.Lower(s))))
  }

  lemma {:induction false} OctetsAppend(a: seq<bool>, b: seq<bool>)
    requires |a| % 8 == 0
    ensures Octets(a + b) == Octets(a) + Octets(b)
    decreases |a|
  {
    hide GroupByte;
    if a == [] {
      assert a + b == b;
    } else {
      OctetsAppend(a[8..], b);
      CatSlices(a, b, 8);
      Assoc([GroupByte(a[..8])], Octets(a[8..]), Octets(b));
    }
  }

  lemma SymbolBitsNext(s: string, i: nat)
    requires i < |s|
    ensures var v := SymbolIndex(s[i]);
            SymbolBits(s[..i + 1]) == SymbolBits(s[..i]) + (if v < 0 then [] else BitsOf(v, 5)) && v < Pow2(5)
  {
    assert s[..i + 1][..i] == s[..i];
    assert Pow2(5) == 32;
  }

  lemma OneOctet(group: seq<bool>)
    requires |group| == 8
    ensures Val(group) < 256 && Octets(group) == [Val(group)]
  {
    assert Val(group) == GroupByte(group);
    hide Val, GroupByte;
    assert group[..8] == group && Octets(group[8..]) == [];
  }

  lemma OctetRead(value: nat, read: seq<bool>, pending: seq<bool>)
    requires Holds(value, pending) && |pending| >= 8 && |read| % 8 == 0
    ensures var v := Low(Shr(value, |pending| - 8), 8);
            v < 256 && Octets(read + pending[..8]) == Octets(read) + [v]
    ensures Holds(value, pending[8..])
    ensures read + pending[..8] + pending[8..] == read + pending
  {
    hide Low, Shr, Val, Octets, Holds;
    assert |pending[..8]| == 8;
    Extract(value, pending, 8);
    OneOctet(pending[..8]);
    OctetsAppend(read, pending[..8]);
  }

  /** So far `result` stands for the bits read, and the accumulator ends in those pending. */
  ghost predicate Decoding(all: seq<bool>, value: nat, bits: nat, result: seq<Byte>, read: seq<bool>, pending: seq<bool>) {
    && |pending| == bits && Holds(value, pending)
    && |read| % 8 == 0 && result == Octets(read)
    && read + pending == all
  }

  lemma SymbolTaken(s: string, i: nat, value: nat, bits: nat, result: seq<Byte>, read: seq<bool>, pending: seq<bool>)
    requires i < |s| && bits < 8 && Decoding(SymbolBits(s[..i]), value, bits, result, read, pending)
    ensures var idx := SymbolIndex(s[i]);
            if idx < 0 then Decoding(SymbolBits(s[..i + 1]), value, bits, result, read, pending)
            else Decoding(SymbolBits(s[..i + 1]), ShiftIn(value, 5, idx), bits + 5, result, read, pending + BitsOf(idx, 5))
  {
    hide SymbolBits, ShiftIn, Holds, BitsOf, Octets, Pow2, SymbolIndex;
    SymbolBitsNext(s, i);
    var idx := SymbolIndex(s[i]);
    if idx >= 0 {
      ShiftHolds(value, pending, 5, idx);
      Assoc(read, pending, BitsOf(idx, 5));
    } else {
      assert SymbolBits(s[..i]) + [] == SymbolBits(s[..i]);
    }
  }

  lemma OctetTaken(all: seq<bool>, value: nat, bits: nat, result: seq<Byte>, read: seq<bool>, pending: seq<bool>)
    requires bits >= 8 && Decoding(all, value, bits, result, read, pending)
    ensures var v := Low(Shr(value, bits - 8), 8);
            && v < 256 && bits <= |pending|
            && Decoding(all, value, bits - 8, result + [v], read + pending[..8], pending[8..])
  {
    hide Holds, Octets, Low, Shr;
    OctetRead(value, read, pending);
  }

  lemma TailDropped(all: seq<bool>, value: nat, bits: nat, result: seq<Byte>, read: seq<bool>, pending: seq<bool>)
    requires bits < 8 && Decoding(all, value, bits, result, read, pending)
    ensures Octets(all) == result
  {
    hide Holds, Octets;
    OctetsAppend(read, pending);
    ShortTail(pending);
  }

  method Decode(s: string) returns (result: seq<Byte>)
    ensures result == DecodeSpec(s)
  {
    hide Octets, Low, Shr, Shl, ShiftIn, Holds, BitsOf, SymbolIndex, StripPadding;
    var cleanStr := StripPadding(Text.Lower(s));
    var bits, value := 0, 0;
    result := [];
    ghost var read: seq<bool>, pending: seq<bool> := [], [];
    NothingPending();
    ShortTail([]);
    assert cleanStr[..0] == "" && Decoding(SymbolBits(""), value, bits, result, read, pending);
    hide Decoding, SymbolBits;
    for i := 0 to |cleanStr|
      invariant bits < 8 && Decoding(SymbolBits(cleanStr[..i]), value, bits, result, read, pending)
    {
      SymbolTaken(cleanStr, i, value, bits, result, read, pending);
      var idx := SymbolIndex(cleanStr[i]);
      if idx == -1 {
        continue;
      }
      value := ShiftIn(value, 5, idx);
      pending := pending + BitsOf(idx, 5);
      bits := bits + 5;
      if bits >= 8 {
        OctetTaken(SymbolBits(cleanStr[..i + 1]), value, bits, result, read, pending);
        result := result + [Low(Shr(value, bits - 8), 8)];
        read, pending := read + pending[..8], pending[8..];
        bits := bits - 8;
      }
    }
    assert cleanStr[..|cleanStr|] == cleanStr;
    TailDropped(SymbolBits(cleanStr), value, bits, result, read, pending);
  }

  lemma ShortTail(bits: seq<bool>)
    requires |bits| < 8
    ensures Octets(bits) == []
  {
  }

  // ---------------------------------------------------------------- round trip

  lemma {:induction false} SymbolBitsAppend(a: string, b: string)
    ensures SymbolBits(a + b) == SymbolBits(a) + SymbolBits(b)
  {
    if b == "" {
      assert a + b == a;
    } else {
      hide SymbolIndex, BitsOf;
      SymbolBitsAppend(a, b[..|b| - 1]);
      assert (a + b)[..|a + b| - 1] == a + b[..|b| - 1];
      assert (a + b)[|a + b| - 1] == b[|b| - 1];
      var i := SymbolIndex(b[|b| - 1]);
      Assoc(SymbolBits(a), SymbolBits(b[..|b| - 1]), if i < 0 then [] else BitsOf(i, 5));
    }
  }

  lemma GroupCarry(group: seq<bool>, text: string)
    requires |group| == 5
    ensures SymbolBits([GroupSymbol(group)] + text) == group + SymbolBits(text)
  {
    BitsOfVal(group);
    var one := [GroupSymbol(group)];
    hide Val, BitsOf, GroupSymbol;
    SymbolBitsAppend(one, text);
    assert one[..0] == "" && SymbolBits("") == [];
    assert SymbolBits(one) == group;
  }

  lemma {:induction false} QuintetsCarry(bits: seq<bool>)
    ensures |Quintets(bits)| == (|bits| + 4) / 5
    ensures SymbolBits(Quintets(bits)) == bits + Zeros(5 * |Quintets(bits)| - |bits|)
  {
    hide SymbolBits, GroupSymbol;
    QuintetsLength(bits);
    if bits == [] {
      NoSymbols();
    } else if |bits| < 5 {
      NoSymbols();
      var group := bits + Zeros(5 - |bits|);
      GroupCarry(group, "");
      assert [GroupSymbol(group)] + "" == Quintets(bits);
    } else {
      QuintetsCarry(bits[5..]);
      GroupCarry(bits[..5], Quintets(bits[5..]));
      var fill := Zeros(5 * |Quintets(bits)| - |bits|);
      assert bits[..5] + (bits[5..] + fill) == bits + fill;
    }
  }

  lemma NoSymbols()
    ensures SymbolBits("") == [] && Zeros(0) == []
  {
  }

  lemma ByteCarry(b: Byte)
    ensures Octets(BitsOf(b, 8)) == [b]
  {
    assert Pow2(4) == 16;
    ValOfBits(b, 8);
    OneOctet(BitsOf(b, 8));
  }

  lemma {:induction false} OctetsCarry(buf: seq<Byte>, rest: seq<bool>)
    requires |rest| < 8
    ensures Octets(ByteBits(buf) + rest) == buf
  {
    hide Octets, BitsOf;
    OctetsAppend(ByteBits(buf), rest);
    ShortTail(rest);
    ShortTail([]);
    if buf != [] {
      var init, last := buf[..|buf| - 1], buf[|buf| - 1];
      OctetsCarry(init, []);
      assert ByteBits(init) + [] == ByteBits(init);
      OctetsAppend(ByteBits(init), BitsOf(last, 8));
      ByteCarry(last);
      assert init + [last] == buf;
    }
  }

  lemma {:induction false} StripsPadding(s: string, n: nat)
    requires s == "" || s[|s| - 1] != '='
    ensures StripPadding(s + seq(n, _ => '=')) == s
  {
    var padded := s + seq(n, _ => '=');
    if n == 0 {
      assert padded == s;
    } else {
      StripsPadding(s, n - 1);
      assert padded[..|padded| - 1] == s + seq(n - 1, _ => '=');
    }
  }

  lemma CleanSymbols(s: string, n: nat)
    requires forall c <- s :: SymbolIndex(c) >= 0
    ensures StripPadding(Text.Lower(s + seq(n, _ => '='))) == s
  {
    var text := s + seq(n, _ => '=');
    Text.LowerIs(text);
    assert s != "" ==> s[|s| - 1] in s;
    StripsPadding(s, n);
  }

  /** Every byte string survives encoding and decoding, with and without padding. */
  lemma DecodeEncode(buf: seq<Byte>, padding: bool)
    ensures DecodeSpec(EncodeSpec(buf, padding)) == buf
  {
    var bits := ByteBits(buf);
    QuintetsLength(bits);
    QuintetsCarry(bits);
    hide Quintets, Octets, SymbolBits, ByteBits, SymbolIndex;
    var s := Quintets(bits);
    var n := if padding then (8 - |s| % 8) % 8 else 0;
    CleanSymbols(s, n);
    assert EncodeSpec(buf, padding) == s + seq(n, _ => '=');
    OctetsCarry(buf, Zeros(5 * |s| - 8 * |buf|));
  }

  /** Section 6 of RFC 4648: ceil(8n/5) symbols, and with padding a multiple of eight. */
  lemma EncodedLength(buf: seq<Byte>)
    ensures |EncodeSpec(buf, false)| == (8 * |buf| + 4) / 5
    ensures |EncodeSpec(buf, true)| % 8 == 0 && |EncodeSpec(buf, true)| == (|buf| + 4) / 5 * 8
  {
    QuintetsLength(ByteBits(buf));
    hide Quintets, ByteBits;
    FullGroups(|buf|);
  }

  lemma FullGroups(n: nat)
    ensures var m := (8 * n + 4) / 5; m + (8 - m % 8) % 8 == (n + 4) / 5 * 8
  {
    var q, r := n / 5, n % 5;
    var tail := if r == 0 then 0 else if r == 1 then 2 else if r == 2 then 4 else if r == 3 then 5 else 7;
    assert (8 * n + 4) / 5 == 8 * q + tail;
    assert (n + 4) / 5 == if r == 0 then q else q + 1;
  }

  // ---------------------------------------------------------------- node identifiers

  /** `deriveNodeId`, given the digest of the public key. */
  function NodeId(digest: seq<Byte>): string
    requires |digest| == 32
  {
    QuintetsLength(ByteBits(digest));
    EncodeSpec(digest, false)[..16]
  }

  lemma {:induction false} ByteBitsAppend(a: seq<Byte>, b: seq<Byte>)
    ensures ByteBits(a + b) == ByteBits(a) + ByteBits(b)
  {
    if b == [] {
      assert a + b == a;
    } else {
      hide BitsOf;
      ByteBitsAppend(a, b[..|b| - 1]);
      assert (a + b)[..|a + b| - 1] == a + b[..|b| - 1];
    }
  }

  /** The identifier is the encoding of the digest's first ten bytes: 16 symbols of the
      alphabet, equal for two keys exactly when those 80 bits are. */
  lemma NodeIdIsTenBytes(digest: seq<Byte>, other: seq<Byte>)
    requires |digest| == |other| == 32
    ensures NodeId(digest) == EncodeSpec(digest[..10], false)
    ensures |NodeId(digest)| == 16 && forall c <- NodeId(digest) :: SymbolIndex(c) >= 0
    ensures NodeId(digest) == NodeId(other) <==> digest[..10] == other[..10]
  {
    TenBytes(digest);
    TenBytes(other);
    DecodeEncode(digest[..10], false);
    DecodeEncode(other[..10], false);
    QuintetsLength(ByteBits(digest[..10]));
  }

  lemma TenBytes(digest: seq<Byte>)
    requires |digest| == 32
    ensures NodeId(digest) == EncodeSpec(digest[..10], false)
  {
    var head, tail := digest[..10], digest[10..];
    assert digest == head + tail;
    ByteBitsAppend(head, tail);
    QuintetsAppend(ByteBits(head), ByteBits(tail));
    QuintetsLength(ByteBits(head));
  }
}
