/** Octets and the fixed-width big-endian integers the wire formats are built from. */
module Bytes {

  type Byte = b: int | 0 <= b < 256

  const U32_LIMIT := 0x1_0000_0000
  const U16_LIMIT := 0x1_0000

  function U16BE(n: int): seq<Byte>
    requires 0 <= n < U16_LIMIT
  {
    [n / 0x100, n % 0x100]
  }

  function ReadU16(s: seq<Byte>): int
    requires |s| >= 2
  {
    var hi: int, lo: int := s[0], s[1];
    hi * 0x100 + lo
  }

  function U32BE(n: int): seq<Byte>
    requires 0 <= n < U32_LIMIT
  {
    [n / 0x100_0000, n / 0x1_0000 % 0x100, n / 0x100 % 0x100, n % 0x100]
  }

  function ReadU32(s: seq<Byte>): int
    requires |s| >= 4
  {
    var a: int, b: int, c: int, d: int := s[0], s[1], s[2], s[3];
    a * 0x100_0000 + b * 0x1_0000 + c * 0x100 + d
  }

  /** Four octets and the number they spell determine each other. */
  lemma U32Reads(n: int)
    requires 0 <= n < U32_LIMIT
    ensures ReadU32(U32BE(n)) == n
  {
    assert n / 0x1_0000 == n / 0x100_0000 * 0x100 + n / 0x1_0000 % 0x100;
    assert n / 0x100 == n / 0x1_0000 * 0x100 + n / 0x100 % 0x100;
  }

  lemma U32Writes(s: seq<Byte>)
    requires |s| == 4
    ensures 0 <= ReadU32(s) < U32_LIMIT && U32BE(ReadU32(s)) == s
  {
    var m := ReadU32(s);
    var a: int, b: int, c: int := s[0], s[1], s[2];
    assert m / 0x100 == a * 0x1_0000 + b * 0x100 + c;
    assert m / 0x1_0000 == a * 0x100 + b;
    assert m / 0x100_0000 == a;
  }

  /** The octet of most weight comes first: of two numbers the greater has the greater octet where their
      encodings first differ. */
  lemma U32Order(m: int, n: int)
    requires 0 <= m < n < U32_LIMIT
    ensures exists i :: 0 <= i < 4 && U32BE(m)[..i] == U32BE(n)[..i] && U32BE(m)[i] < U32BE(n)[i]
  {
    var a, b := U32BE(m), U32BE(n);
    U32Reads(m);
    U32Reads(n);
    if a[0] != b[0] {
      assert a[..0] == b[..0] && a[0] < b[0];
    } else if a[1] != b[1] {
      assert a[..1] == b[..1] && a[1] < b[1];
    } else if a[2] != b[2] {
      assert a[..2] == b[..2] && a[2] < b[2];
    } else {
      assert a[..3] == b[..3] && a[3] < b[3];
    }
  }

  /** Bitwise exclusive or, one binary digit at a time. */
  function Xor(a: nat, b: nat): nat {
    if a == 0 && b == 0 then 0 else 2 * Xor(a / 2, b / 2) + if a % 2 == b % 2 then 0 else 1
  }

  lemma {:induction false} XorCancels(a: nat, b: nat)
    ensures Xor(Xor(a, b), b) == a
    decreases a + b
  {
    if a != 0 || b != 0 {
      var x, high := Xor(a, b), Xor(a / 2, b / 2);
      XorCancels(a / 2, b / 2);
      assert x / 2 == high && (x % 2 == 0 <==> a % 2 == b % 2);
    }
  }

  /** The other operand comes back too. */
  lemma {:induction false} XorShows(a: nat, b: nat)
    ensures Xor(Xor(a, b), a) == b
    decreases a + b
  {
    if a != 0 || b != 0 {
      var x, high := Xor(a, b), Xor(a / 2, b / 2);
      XorShows(a / 2, b / 2);
      assert x / 2 == high && (x % 2 == 0 <==> a % 2 == b % 2);
    }
  }

  function Pow2(k: nat): nat {
    if k == 0 then 1 else 2 * Pow2(k - 1)
  }

  lemma {:induction false} XorBound(a: nat, b: nat, k: nat)
    requires a < Pow2(k) && b < Pow2(k)
    ensures Xor(a, b) < Pow2(k)
  {
    if k > 0 && (a != 0 || b != 0) {
      XorBound(a / 2, b / 2, k - 1);
    } else if k > 0 {
      XorBound(0, 0, k - 1);
    }
  }

  function XorByte(a: Byte, b: Byte): Byte {
    assert Pow2(8) == 256 by {
      assert Pow2(4) == 16;
    }
    XorBound(a, b, 8);
    Xor(a, b)
  }

  function Flatten<T>(chunks: seq<seq<T>>): seq<T> {
    if chunks == [] then [] else chunks[0] + Flatten(chunks[1..])
  }
}
