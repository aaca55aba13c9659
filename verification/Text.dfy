/** The string operations the parsers share: splitting, joining, numbers in a radix. */
module Text {

  datatype Option<+T> = None | Some(value: T)

  function Split<T(==)>(s: seq<T>, sep: T): (parts: seq<seq<T>>)
    ensures |parts| >= 1
  {
    if s == [] then [[]]
    else
      var rest := Split(s[1..], sep);
      if s[0] == sep then [[]] + rest else [[s[0]] + rest[0]] + rest[1..]
  }

  function Join<T>(parts: seq<seq<T>>, sep: T): seq<T> {
    if parts == [] then []
    else if |parts| == 1 then parts[0]
    else parts[0] + [sep] + Join(parts[1..], sep)
  }

  lemma {:induction false} SplitAtSeparator<T>(head: seq<T>, sep: T, tail: seq<T>)
    requires sep !in head
    ensures Split(head + [sep] + tail, sep) == [head] + Split(tail, sep)
  {
    var s := head + [sep] + tail;
    if head == [] {
      assert s[1..] == tail;
    } else {
      assert s[1..] == head[1..] + [sep] + tail;
      SplitAtSeparator(head[1..], sep, tail);
      assert [head[0]] + head[1..] == head;
    }
  }

  lemma {:induction false} SplitWhole<T>(s: seq<T>, sep: T)
    requires sep !in s
    ensures Split(s, sep) == [s]
  {
    if s != [] {
      SplitWhole(s[1..], sep);
      assert [s[0]] + s[1..] == s;
    }
  }

  /** Splitting undoes joining when no part holds the separator. */
  lemma {:induction false} SplitJoin<T>(parts: seq<seq<T>>, sep: T)
    requires parts != [] && forall p <- parts :: sep !in p
    ensures Split(Join(parts, sep), sep) == parts
  {
    if |parts| == 1 {
      SplitWhole(parts[0], sep);
    } else {
      SplitJoin(parts[1..], sep);
      SplitAtSeparator(parts[0], sep, Join(parts[1..], sep));
    }
  }

  lemma {:induction false} SplitParts<T>(s: seq<T>, sep: T)
    ensures forall p <- Split(s, sep) :: sep !in p
  {
    if s != [] {
      SplitParts(s[1..], sep);
    }
  }

  /** First position from which `s` reads `pattern`, or -1. */
  function Find<T(==)>(s: seq<T>, pattern: seq<T>): (i: int)
    requires pattern != []
    ensures -1 <= i && (i >= 0 ==> i + |pattern| <= |s|)
  {
    if |s| < |pattern| then -1
    else if s[..|pattern|] == pattern then 0
    else
      var i := Find(s[1..], pattern);
      if i < 0 then -1 else i + 1
  }

  ghost predicate OccursAt<T>(s: seq<T>, pattern: seq<T>, i: int) {
    0 <= i && i + |pattern| <= |s| && s[i..i + |pattern|] == pattern
  }

  lemma SliceOfTail<T>(s: seq<T>, i: nat, j: nat)
    requires i <= j < |s|
    ensures s[1..][i..j] == s[i + 1..j + 1]
  {
  }

  lemma {:induction false} FindFirst<T>(s: seq<T>, pattern: seq<T>)
    requires pattern != []
    ensures Find(s, pattern) >= 0 ==> OccursAt(s, pattern, Find(s, pattern))
    ensures forall j :: 0 <= j && OccursAt(s, pattern, j) ==> 0 <= Find(s, pattern) <= j
  {
    if |s| >= |pattern| && s[..|pattern|] != pattern {
      FindFirst(s[1..], pattern);
      var i := Find(s[1..], pattern);
      if i >= 0 {
        SliceOfTail(s, i, i + |pattern|);
      }
      forall j | 0 <= j && OccursAt(s, pattern, j)
        ensures 0 <= Find(s, pattern) <= j
      {
        assert j > 0;
        SliceOfTail(s, j - 1, j - 1 + |pattern|);
        assert OccursAt(s[1..], pattern, j - 1);
      }
    }
  }

  lemma OccursPrefix<T>(s: seq<T>, t: seq<T>, pattern: seq<T>, j: int)
    requires j + |pattern| <= |s|
    ensures OccursAt(s + t, pattern, j) <==> OccursAt(s, pattern, j)
  {
    if 0 <= j {
      assert (s + t)[j..j + |pattern|] == s[j..j + |pattern|];
    }
  }

  /** The first occurrence is the first whatever follows. */
  lemma FindStays<T>(s: seq<T>, t: seq<T>, pattern: seq<T>)
    requires pattern != [] && Find(s, pattern) >= 0
    ensures Find(s + t, pattern) == Find(s, pattern)
  {
    FindFirst(s, pattern);
    FindFirst(s + t, pattern);
    hide Find, OccursAt;
    var i, j := Find(s, pattern), Find(s + t, pattern);
    OccursPrefix(s, t, pattern, i);
    assert OccursAt(s + t, pattern, i);
    OccursPrefix(s, t, pattern, j);
  }

  lemma FindLeast<T>(s: seq<T>, pattern: seq<T>)
    requires pattern != [] && Find(s, pattern) >= 0
    ensures Find(s[..Find(s, pattern)], pattern) < 0
  {
    var end := Find(s, pattern);
    assert s == s[..end] + s[end..];
    if Find(s[..end], pattern) >= 0 {
      FindStays(s[..end], s[end..], pattern);
    }
  }

  /** What is found only in a longer text ends past the shorter one. */
  lemma FindLater<T>(s: seq<T>, t: seq<T>, pattern: seq<T>)
    requires pattern != [] && Find(s, pattern) < 0 && Find(s + t, pattern) >= 0
    ensures Find(s + t, pattern) + |pattern| > |s|
  {
    FindFirst(s, pattern);
    FindFirst(s + t, pattern);
    hide Find, OccursAt;
    forall j | 0 <= j && j + |pattern| <= |s|
      ensures !OccursAt(s + t, pattern, j)
    {
      OccursPrefix(s, t, pattern, j);
    }
  }

  function LastIndexOf(s: string, c: char): (i: int)
    ensures -1 <= i < |s|
    ensures c !in s <==> i == -1
  {
    if s == "" then -1
    else if s[|s| - 1] == c then |s| - 1
    else
      assert s == s[..|s| - 1] + [s[|s| - 1]];
      LastIndexOf(s[..|s| - 1], c)
  }

  lemma {:induction false} LastIndexAt(s: string, c: char)
    requires c in s
    ensures s[LastIndexOf(s, c)] == c
  {
    if s[|s| - 1] != c {
      assert s == s[..|s| - 1] + [s[|s| - 1]];
      LastIndexAt(s[..|s| - 1], c);
    }
  }

  lemma {:induction false} LastIndexIs(before: string, c: char, after: string)
    requires c !in after
    ensures LastIndexOf(before + [c] + after, c) == |before|
  {
    var s := before + [c] + after;
    if after != "" {
      var less := after[..|after| - 1];
      assert s[|s| - 1] == after[|after| - 1] && after[|after| - 1] in after;
      assert s[..|s| - 1] == before + [c] + less;
      assert forall ch <- less :: ch in after;
      LastIndexIs(before, c, less);
    }
  }

  predicate EndsWith(s: string, suffix: string) {
    |suffix| <= |s| && s[|s| - |suffix|..] == suffix
  }

  /** Lower case of the letters whose lower case has a letter of ASCII in it: the Kelvin sign and the
      dotted capital I besides those of ASCII. */
  function LowerChar(c: char): string {
    if 'A' <= c <= 'Z' then [(c as int + 32) as char]
    else if c == '\U{212A}' then "k"
    else if c == '\U{130}' then "i\U{307}"
    else [c]
  }

  function Lower(s: string): string {
    if s == "" then "" else LowerChar(s[0]) + Lower(s[1..])
  }

  predicate IsLower(s: string) {
    forall c <- s :: LowerChar(c) == [c]
  }

  lemma {:induction false} LowerIs(s: string)
    ensures IsLower(Lower(s)) && (IsLower(s) ==> Lower(s) == s)
  {
    if s != "" {
      LowerIs(s[1..]);
      assert IsLower(LowerChar(s[0]));
      assert s[0] in s && s == [s[0]] + s[1..];
    }
  }

  // ---------------------------------------------------------------- numbers

  /** Lower-case digits, as toString(16) prints them. */
  function DigitChar(d: nat): (c: char)
    requires d < 16
    ensures PrintedDigit(c)
  {
    if d < 10 then ('0' as int + d) as char else ('a' as int + d - 10) as char
  }

  predicate PrintedDigit(c: char) {
    '0' <= c <= '9' || 'a' <= c <= 'f'
  }

  type Radix = r: int | r == 10 || r == 16 witness 10

  function Quotient(n: nat, radix: Radix): nat {
    if radix == 10 then n / 10 else n / 16
  }

  function Remainder(n: nat, radix: Radix): (d: nat)
    ensures d < radix
    ensures n == Shift(Quotient(n, radix), radix) + d
  {
    if radix == 10 then n % 10 else n % 16
  }

  function Shift(n: int, radix: Radix): int {
    if radix == 10 then n * 10 else n * 16
  }

  function DigitValue(c: char): int {
    if '0' <= c <= '9' then c as int - '0' as int
    else if 'a' <= c <= 'z' then c as int - 'a' as int + 10
    else if 'A' <= c <= 'Z' then c as int - 'A' as int + 10
    else -1
  }

  predicate IsDigit(c: char, radix: Radix) {
    0 <= DigitValue(c) < radix
  }

  function ToRadix(n: nat, radix: Radix): (s: string)
    ensures |s| >= 1 && forall c <- s :: IsDigit(c, radix) && PrintedDigit(c)
  {
    if n < radix then [DigitChar(n)] else ToRadix(Quotient(n, radix), radix) + [DigitChar(Remainder(n, radix))]
  }

  /** Number.prototype.toString for integers. */
  function IntToRadix(n: int, radix: Radix): string
  {
    if n < 0 then "-" + ToRadix(-n, radix) else ToRadix(n, radix)
  }

  function NumberOf(s: string, radix: Radix): int {
    if s == "" then 0 else Shift(NumberOf(s[..|s| - 1], radix), radix) + DigitValue(s[|s| - 1])
  }

  function LeadingDigits(s: string, radix: Radix): (n: nat)
    ensures n <= |s|
    ensures forall i :: 0 <= i < n ==> IsDigit(s[i], radix)
    ensures n < |s| ==> !IsDigit(s[n], radix)
  {
    if s == "" || !IsDigit(s[0], radix) then 0 else 1 + LeadingDigits(s[1..], radix)
  }

  predicate IsSpace(c: char) {
    || c == ' ' || '\t' <= c <= '\r' || c == '\U{A0}' || c == '\U{FEFF}' || c == '\U{1680}' || c == '\U{3000}'
    || '\U{2000}' <= c <= '\U{200A}' || c == '\U{2028}' || c == '\U{2029}' || c == '\U{202F}' || c == '\U{205F}'
  }

  function TrimStart(s: string): (t: string)
    ensures |t| <= |s|
    ensures t == "" || !IsSpace(t[0])
  {
    if s != "" && IsSpace(s[0]) then TrimStart(s[1..]) else s
  }

  function TrimEnd(s: string): (t: string)
    ensures |t| <= |s|
    ensures t == "" || !IsSpace(t[|t| - 1])
    ensures t <= s
  {
    if s != "" && IsSpace(s[|s| - 1]) then TrimEnd(s[..|s| - 1]) else s
  }

  function Trim(s: string): (t: string)
    ensures t == "" || (!IsSpace(t[0]) && !IsSpace(t[|t| - 1]))
  {
    TrimEnd(TrimStart(s))
  }

  function ParseDigits(s: string, radix: Radix): Option<int> {
    var digits := if radix == 16 && ("0x" <= s || "0X" <= s) then s[2..] else s;
    var n := LeadingDigits(digits, radix);
    if n == 0 then None else Some(NumberOf(digits[..n], radix))
  }

  /** Number.parseInt: leading blanks, a sign, "0x" in radix 16, then the longest digit run. */
  function ParseInt(s: string, radix: Radix): Option<int> {
    var t := TrimStart(s);
    if "-" <= t then
      match ParseDigits(t[1..], radix)
      case Some(n) => Some(-n)
      case None => None
    else ParseDigits(if "+" <= t then t[1..] else t, radix)
  }

  lemma NumberOfSnoc(s: string, c: char, radix: Radix)
    ensures NumberOf(s + [c], radix) == Shift(NumberOf(s, radix), radix) + DigitValue(c)
  {
    assert (s + [c])[..|s|] == s;
  }

  lemma {:induction false} NumberOfToRadix(n: nat, radix: Radix)
    ensures NumberOf(ToRadix(n, radix), radix) == n
  {
    if n < radix {
      NumberOfSnoc("", DigitChar(n), radix);
      assert "" + [DigitChar(n)] == [DigitChar(n)];
    } else {
      NumberOfToRadix(Quotient(n, radix), radix);
      NumberOfSnoc(ToRadix(Quotient(n, radix), radix), DigitChar(Remainder(n, radix)), radix);
    }
  }

  /** Only zero is printed with a zero in front, and two octets take at most four hexadecimal digits. */
  lemma {:induction false} NoLeadingZero(n: nat)
    ensures ToRadix(n, 16)[0] == '0' <==> n == 0
    ensures n < 0x10000 ==> |ToRadix(n, 16)| <= 4
    ensures n < 0x1000 ==> |ToRadix(n, 16)| <= 3
    ensures n < 0x100 ==> |ToRadix(n, 16)| <= 2
  {
    if n >= 16 {
      NoLeadingZero(Quotient(n, 16));
    }
  }

  lemma {:induction false} LeadingDigitsWhole(digits: string, rest: string, radix: Radix)
    requires forall c <- digits :: IsDigit(c, radix)
    requires rest == "" || !IsDigit(rest[0], radix)
    ensures LeadingDigits(digits + rest, radix) == |digits|
  {
    if digits == "" {
      assert digits + rest == rest;
    } else {
      LeadingDigitsWhole(digits[1..], rest, radix);
      assert (digits + rest)[1..] == digits[1..] + rest;
    }
  }

  lemma ParsePrintedDigits(n: nat, radix: Radix, rest: string)
    requires rest == "" || (!IsDigit(rest[0], radix) && rest[0] != 'x' && rest[0] != 'X')
    ensures ParseDigits(ToRadix(n, radix) + rest, radix) == Some(n)
  {
    var digits := ToRadix(n, radix);
    NumberOfToRadix(n, radix);
    LeadingDigitsWhole(digits, rest, radix);
    var s := digits + rest;
    assert s[..|digits|] == digits;
    assert |s| >= 2 ==> s[1] == if |digits| >= 2 then digits[1] else rest[0];
    hide ToRadix, LeadingDigits, NumberOf;
    assert !("0x" <= s) && !("0X" <= s);
  }

  /** Printing then parsing gives the number back, whatever non-digit follows. */
  lemma ParsePrinted(n: int, radix: Radix, rest: string)
    requires rest == "" || (!IsDigit(rest[0], radix) && rest[0] != 'x' && rest[0] != 'X')
    ensures ParseInt(IntToRadix(n, radix) + rest, radix) == Some(n)
  {
    hide ToRadix, ParseDigits;
    var m := if n < 0 then -n else n;
    var digits := ToRadix(m, radix);
    ParsePrintedDigits(m, radix, rest);
    var s := IntToRadix(n, radix) + rest;
    if n < 0 {
      assert s[0] == '-';
      assert s[1..] == digits + rest;
    } else {
      assert s[0] == digits[0] && PrintedDigit(s[0]);
    }
    assert TrimStart(s) == s;
  }

  /** host and port as split(':') and parseInt read them. */
  function HostPart(address: string): string {
    Split(address, ':')[0]
  }

  function PortPart(address: string): Option<int> {
    var parts := Split(address, ':');
    if |parts| > 1 then ParseInt(parts[1], 10) else None
  }

  /** The host is what stands before the first colon. */
  lemma HostHasNoColon(address: string)
    ensures ':' !in HostPart(address)
  {
    SplitParts(address, ':');
    assert HostPart(address) in Split(address, ':');
  }

  lemma SplitSecond(host: string, text: string, more: string)
    requires ':' !in host && ':' !in text && (more == "" || more[0] == ':')
    ensures var parts := Split(host + ":" + text + more, ':'); |parts| > 1 && parts[0] == host && parts[1] == text
  {
    hide Split;
    assert host + ":" + text + more == host + [':'] + (text + more);
    SplitAtSeparator(host, ':', text + more);
    if more == "" {
      assert text + more == text;
      SplitWhole(text, ':');
    } else {
      assert text + more == text + [':'] + more[1..];
      SplitAtSeparator(text, ':', more[1..]);
    }
  }

  /** A printed port reads back, whatever follows its digits, and nothing behind a second colon matters; without
      a colon there is no port. */
  lemma AddressReads(host: string, port: nat, junk: string, more: string)
    requires ':' !in host && ':' !in junk && (more == "" || more[0] == ':')
    requires junk == "" || (!IsDigit(junk[0], 10) && junk[0] != 'x' && junk[0] != 'X')
    ensures HostPart(host) == host && PortPart(host) == None
    ensures var address := host + ":" + (ToRadix(port, 10) + junk) + more;
            HostPart(address) == host && PortPart(address) == Some(port)
  {
    var digits := ToRadix(port, 10);
    NumberOfToRadix(port, 10);
    ParsePrinted(port, 10, junk);
    assert forall c <- digits :: IsDigit(c, 10);
    assert !IsDigit(':', 10);
    assert IntToRadix(port, 10) == digits;
    hide Split, ToRadix, ParseInt, NumberOf, IsDigit;
    SplitWhole(host, ':');
    SplitSecond(host, digits + junk, more);
  }
}
