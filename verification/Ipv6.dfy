/** IPv6 text in the canonical form of RFC 5952: printing, parsing, canonicalisation. */
module Ipv6 {
  import opened Bytes
  import opened Text

  // ---------------------------------------------------------------- the longest zero run

  /** Zeros from position `j` on, looking no further than `n`. */
  function RunTo(w: seq<int>, j: nat, n: nat): (length: nat)
    requires j <= n <= |w|
    ensures length <= n - j
    ensures forall i :: j <= i < j + length ==> w[i] == 0
    decreases n - j
  {
    if j < n && w[j] == 0 then 1 + RunTo(w, j + 1, n) else 0
  }

  datatype Run = Run(start: int, length: nat)

  /** The leftmost of the longest zero runs among the first `n` words. */
  ghost predicate IsBest(w: seq<int>, n: nat, r: Run)
    requires n <= |w|
  {
    && (r.length == 0 ==> r.start == -1)
    && (r.length > 0 ==> 0 <= r.start < n && RunTo(w, r.start, n) == r.length)
    && (forall j :: 0 <= j < n ==> RunTo(w, j, n) <= r.length)
    && (forall j :: 0 <= j < r.start && j < n ==> RunTo(w, j, n) < r.length)
  }

  function BestFrom(w: seq<int>, i: nat): (r: Run)
    requires i <= |w|
    decreases |w| - i
  {
    if i == |w| then Run(-1, 0)
    else
      var rest, here := BestFrom(w, i + 1), RunTo(w, i, |w|);
      if here > 0 && here >= rest.length then Run(i, here) else rest
  }

  lemma {:induction false} BestFromIsBest(w: seq<int>, i: nat)
    requires i <= |w|
    ensures var r := BestFrom(w, i);
            && (r.length == 0 ==> r.start == -1)
            && (r.length > 0 ==> i <= r.start < |w| && RunTo(w, r.start, |w|) == r.length)
            && (forall j :: i <= j < |w| ==> RunTo(w, j, |w|) <= r.length)
            && (forall j :: i <= j < r.start && j < |w| ==> RunTo(w, j, |w|) < r.length)
    decreases |w| - i
  {
    if i < |w| {
      BestFromIsBest(w, i + 1);
    }
  }

  lemma BestUnique(w: seq<int>, a: Run, b: Run)
    requires IsBest(w, |w|, a) && IsBest(w, |w|, b)
    ensures a == b
  {
    if a.length > 0 && b.length > 0 {
      assert RunTo(w, a.start, |w|) <= b.length && RunTo(w, b.start, |w|) <= a.length;
    }
  }

  lemma {:induction false} RunGrows(w: seq<int>, j: nat, n: nat)
    requires j <= n < |w|
    ensures RunTo(w, j, n + 1) == RunTo(w, j, n) + (if RunTo(w, j, n) == n - j && w[n] == 0 then 1 else 0)
    decreases n - j
  {
    if j < n {
      RunGrows(w, j + 1, n);
    }
  }

  lemma BestFits(w: seq<int>)
    ensures var r := BestFrom(w, 0); r.length > 0 ==> 0 <= r.start && r.start + r.length <= |w|
  {
    BestFromIsBest(w, 0);
  }

  /** The `t` words before position `n` are zero, and the word before those is not. */
  ghost predicate Touches(w: seq<int>, n: nat, t: nat)
    requires n <= |w|
  {
    t <= n &&
    forall j :: 0 <= j < n ==> if j < n - t then RunTo(w, j, n) < n - j else RunTo(w, j, n) == n - j
  }

  lemma ScanStep(w: seq<int>, i: nat, best: Run, t: nat)
    requires i < |w| && IsBest(w, i, best) && Touches(w, i, t) && t <= best.length
    ensures var t' := if w[i] == 0 then t + 1 else 0;
            && Touches(w, i + 1, t')
            && IsBest(w, i + 1, if t' > best.length then Run(i + 1 - t', t') else best)
  {
    var m, t' := i + 1, if w[i] == 0 then t + 1 else 0;
    var next := if t' > best.length then Run(m - t', t') else best;
    forall j | 0 <= j < m
      ensures if j < m - t' then RunTo(w, j, m) < m - j else RunTo(w, j, m) == m - j
      ensures RunTo(w, j, m) <= next.length && (j < next.start ==> RunTo(w, j, m) < next.length)
    {
      RunGrows(w, j, i);
    }
    if t' <= best.length && best.length > 0 {
      RunGrows(w, best.start, i);
    }
  }

  method LongestZeroRun(words: seq<int>) returns (r: Run)
    ensures r == BestFrom(words, 0)
    ensures IsBest(words, |words|, r)
  {
    var maxRunStart, maxRunLength, currentRunStart, currentRunLength := -1, 0, -1, 0;
    for i := 0 to |words|
      invariant IsBest(words, i, Run(maxRunStart, maxRunLength))
      invariant Touches(words, i, currentRunLength) && currentRunLength <= maxRunLength
      invariant currentRunStart == if currentRunLength == 0 then -1 else i - currentRunLength
    {
      ScanStep(words, i, Run(maxRunStart, maxRunLength), currentRunLength);
      if words[i] == 0 {
        if currentRunStart == -1 {
          currentRunStart := i;
          currentRunLength := 1;
        } else {
          currentRunLength := currentRunLength + 1;
        }
        if currentRunLength > maxRunLength {
          maxRunStart := currentRunStart;
          maxRunLength := currentRunLength;
        }
      } else {
        currentRunStart := -1;
        currentRunLength := 0;
      }
    }
    r := Run(maxRunStart, maxRunLength);
    BestFromIsBest(words, 0);
    BestUnique(words, r, BestFrom(words, 0));
  }

  // ---------------------------------------------------------------- printing

  function Hexes(w: seq<int>): (hexes: seq<string>)
    ensures |hexes| == |w|
  {
    if w == [] then [] else [IntToRadix(w[0], 16)] + Hexes(w[1..])
  }

  function HexJoin(w: seq<int>): string {
    Join(Hexes(w), ':')
  }

  function Format(w: seq<int>): string {
    var r := BestFrom(w, 0);
    BestFromIsBest(w, 0);
    if r.length >= 2 then HexJoin(w[..r.start]) + "::" + HexJoin(w[r.start + r.length..]) else HexJoin(w)
  }

  method FormatWords(words: seq<int>) returns (text: string)
    ensures text == Format(words)
  {
    var run := LongestZeroRun(words);
    hide HexJoin, RunTo;
    if run.length >= 2 {
      text := HexJoin(words[..run.start]) + "::" + HexJoin(words[run.start + run.length..]);
    } else {
      text := HexJoin(words);
    }
  }

  function WordsOf(bytes: seq<Byte>): (w: seq<int>)
    requires |bytes| % 2 == 0
    ensures |w| == |bytes| / 2
  {
    if bytes == [] then [] else [ReadU16(bytes)] + WordsOf(bytes[2..])
  }

  lemma {:induction false} WordsOfSnoc(bytes: seq<Byte>, pair: seq<Byte>)
    requires |bytes| % 2 == 0 && |pair| == 2
    ensures WordsOf(bytes + pair) == WordsOf(bytes) + [ReadU16(pair)]
  {
    if bytes == [] {
      assert bytes + pair == pair;
      assert WordsOf(pair[2..]) == [];
    } else {
      WordsOfSnoc(bytes[2..], pair);
      assert (bytes + pair)[2..] == bytes[2..] + pair;
    }
  }

  /** The PROXY header's address bytes, printed. */
  method FormatIPv6(buf: seq<Byte>, offset: nat) returns (text: string)
    requires offset + 16 <= |buf|
    ensures text == Format(WordsOf(buf[offset..offset + 16]))
  {
    hide Format, ReadU16;
    var words: seq<int> := [];
    var i := 0;
    while i < 16
      invariant 0 <= i <= 16 && i % 2 == 0
      invariant words == WordsOf(buf[offset..offset + i])
    {
      var pair := buf[offset + i..offset + i + 2];
      WordsOfSnoc(buf[offset..offset + i], pair);
      assert buf[offset..offset + i] + pair == buf[offset..offset + i + 2];
      words := words + [ReadU16(pair)];
      i := i + 2;
    }
    text := FormatWords(words);
  }

  // ---------------------------------------------------------------- parsing

  function ParseAll(parts: seq<string>, radix: Radix): (r: Option<seq<int>>)
    ensures r.Some? ==> |r.value| == |parts|
  {
    if parts == [] then Some([])
    else
      match (ParseInt(parts[0], radix), ParseAll(parts[1..], radix))
      case (Some(n), Some(rest)) => Some([n] + rest)
      case _ => None
  }

  function StripBrackets(s: string): string {
    var t := if "[" <= s then s[1..] else s;
    if t != "" && t[|t| - 1] == ']' then t[..|t| - 1] else t
  }

  predicate IsOctet(n: int) {
    0 <= n <= 255
  }

  /** The address without brackets and scope, its dotted tail turned into two words. */
  function SplitTail(s: string): Option<(string, seq<int>)> {
    var lastColon := LastIndexOf(s, ':');
    var tail := s[lastColon + 1..];
    if '.' !in tail then Some((s, [])) else
      var octets := ParseAll(Split(tail, '.'), 10);
      if octets.Some? && |octets.value| == 4 && (forall o <- octets.value :: IsOctet(o)) then
        var o := octets.value;
        Some((if lastColon < 0 then s[..|s| - 1] else s[..lastColon], [o[0] * 256 + o[1], o[2] * 256 + o[3]]))
      else None
  }

  function Groups(s: string): seq<string> {
    if s == "" then [] else Split(s, ':')
  }

  /** Words before and after the "::", if there is one. */
  function Halves(s: string): Option<(seq<int>, seq<int>)> {
    var i := Find(s, "::");
    if i < 0 then
      match ParseAll(Split(s, ':'), 16)
      case Some(head) => Some((head, []))
      case None => None
    else if Find(s[i + 2..], "::") >= 0 then None
    else
      match (ParseAll(Groups(s[..i]), 16), ParseAll(Groups(s[i + 2..]), 16))
      case (Some(head), Some(tail)) => Some((head, tail))
      case _ => None
  }

  function Zeros(n: nat): seq<int> {
    seq(n, _ => 0)
  }

  /** Too many words make the address invalid; missing ones are zeros in the middle. */
  function Assemble(head: seq<int>, tail: seq<int>): (w: Option<seq<int>>)
    ensures w.Some? ==> |w.value| == 8
  {
    var total := |head| + |tail|;
    if total > 8 then None else Some(head + Zeros(8 - total) + tail)
  }

  function CutScope(s: string): string {
    var scope := Find(s, "%");
    if scope >= 0 then s[..scope] else s
  }

  /** The eight words of an address, or nothing where the source returns its input unchanged. */
  function Words(ip: string): (w: Option<seq<int>>)
    ensures w.Some? ==> |w.value| == 8
  {
    if ip == "" then None else
      match SplitTail(CutScope(StripBrackets(Trim(ip))))
      case None => None
      case Some((str, v4Words)) =>
        match Halves(str)
        case None => None
        case Some((head, tail)) => Assemble(head, tail + v4Words)
  }

  function Canonicalize(ip: string): string {
    match Words(ip)
    case Some(w) => Format(w)
    case None => ip
  }

  method CanonicalizeIPv6(ip: string) returns (text: string)
    ensures text == Canonicalize(ip)
  {
    var words := Words(ip);
    match words
    case None => text := ip;
    case Some(w) => text := FormatWords(w);
  }

  // ---------------------------------------------------------------- printing then parsing

  predicate HexText(s: string) {
    forall c <- s :: PrintedDigit(c) || c == '-' || c == ':'
  }

  /** No colon at either end, no two in a row: what joined groups look like. */
  ghost predicate Tight(s: string) {
    && HexText(s)
    && (s != "" ==> s[0] != ':' && s[|s| - 1] != ':')
    && (forall i :: 0 <= i < |s| - 1 ==> s[i] != ':' || s[i + 1] != ':')
  }

  lemma HexGroup(n: int)
    ensures var g := IntToRadix(n, 16); g != "" && ':' !in g && HexText(g)
  {
  }

  lemma {:induction false} HexJoinTight(w: seq<int>)
    ensures Tight(HexJoin(w)) && (HexJoin(w) == "" <==> w == [])
  {
    if w != [] {
      HexGroup(w[0]);
      HexJoinTight(w[1..]);
      var g, rest := IntToRadix(w[0], 16), HexJoin(w[1..]);
      assert Hexes(w)[1..] == Hexes(w[1..]);
      if |w| == 1 {
        assert HexJoin(w) == g;
      } else {
        assert HexJoin(w) == g + [':'] + rest;
      }
    }
  }

  lemma {:induction false} ParseAllHexes(w: seq<int>)
    ensures ParseAll(Hexes(w), 16) == Some(w)
    ensures forall g <- Hexes(w) :: ':' !in g
  {
    if w != [] {
      ParseAllHexes(w[1..]);
      HexGroup(w[0]);
      ParsePrinted(w[0], 16, "");
      assert IntToRadix(w[0], 16) + "" == IntToRadix(w[0], 16);
      assert Hexes(w)[1..] == Hexes(w[1..]);
      assert [w[0]] + w[1..] == w;
    }
  }

  lemma GroupsOfJoin(w: seq<int>)
    ensures ParseAll(Groups(HexJoin(w)), 16) == Some(w)
    ensures w != [] ==> ParseAll(Split(HexJoin(w), ':'), 16) == Some(w)
  {
    HexJoinTight(w);
    ParseAllHexes(w);
    if w != [] {
      SplitJoin(Hexes(w), ':');
    }
  }

  lemma NoDouble(s: string, j: int)
    requires Tight(s)
    ensures !OccursAt(s, "::", j)
  {
    if 0 <= j && j + 2 <= |s| {
      assert s[j..j + 2][0] == s[j] && s[j..j + 2][1] == s[j + 1];
    }
  }

  lemma FindNone(s: string)
    requires Tight(s)
    ensures Find(s, "::") == -1
  {
    FindFirst(s, "::");
    NoDouble(s, Find(s, "::"));
  }

  lemma FindDouble(left: string, right: string)
    requires Tight(left) && Tight(right)
    ensures Find(left + "::" + right, "::") == |left|
  {
    var s := left + "::" + right;
    FindFirst(s, "::");
    hide Find;
    assert s[|left|..|left| + 2] == "::";
    assert OccursAt(s, "::", |left|);
    forall j | 0 <= j < |left|
      ensures !OccursAt(s, "::", j)
    {
      assert s[j..j + 2][0] == left[j] && s[j..j + 2][1] == if j + 1 < |left| then left[j + 1] else ':';
    }
  }

  lemma HalvesShort(head: seq<int>, tail: seq<int>)
    ensures Halves(HexJoin(head) + "::" + HexJoin(tail)) == Some((head, tail))
  {
    HexJoinTight(head);
    HexJoinTight(tail);
    GroupsOfJoin(head);
    GroupsOfJoin(tail);
    hide HexJoin, Groups, ParseAll;
    var left, right := HexJoin(head), HexJoin(tail);
    FindDouble(left, right);
    FindNone(right);
    hide Find;
    var s := left + "::" + right;
    assert s[..|left|] == left && s[|left| + 2..] == right;
  }

  lemma HalvesLong(w: seq<int>)
    requires w != []
    ensures Halves(HexJoin(w)) == Some((w, []))
  {
    HexJoinTight(w);
    FindNone(HexJoin(w));
    GroupsOfJoin(w);
  }

  lemma HexJoinText(w: seq<int>)
    ensures HexText(HexJoin(w)) && (HexJoin(w) == "" <==> w == [])
  {
    HexJoinTight(w);
  }

  lemma HexTextJoins(left: string, right: string)
    requires HexText(left) && HexText(right)
    ensures HexText(left + "::" + right) && left + "::" + right != ""
  {
    assert (left + "::" + right)[|left|] == ':';
  }

  lemma FormatShape(w: seq<int>)
    ensures var r := BestFrom(w, 0);
            if r.length < 2 then Format(w) == HexJoin(w)
            else && 0 <= r.start && r.start + r.length <= |w|
                 && Format(w) == HexJoin(w[..r.start]) + "::" + HexJoin(w[r.start + r.length..])
  {
    BestFits(w);
    hide HexJoin, RunTo, BestFrom;
  }

  lemma FormatIsHexText(w: seq<int>)
    requires w != []
    ensures HexText(Format(w)) && Format(w) != ""
  {
    var r := BestFrom(w, 0);
    FormatShape(w);
    hide HexJoin, HexText, RunTo, BestFrom, Format;
    HexJoinText(w);
    if r.length >= 2 {
      HexJoinText(w[..r.start]);
      HexJoinText(w[r.start + r.length..]);
      HexTextJoins(HexJoin(w[..r.start]), HexJoin(w[r.start + r.length..]));
    }
  }

  lemma PlainText(s: string)
    requires HexText(s) && s != ""
    ensures SplitTail(CutScope(StripBrackets(Trim(s)))) == Some((s, []))
  {
    assert s[0] in s && s[|s| - 1] in s;
    assert Trim(s) == s;
    assert !("[" <= s);
    assert StripBrackets(s) == s;
    NoScope(s);
    var tail := s[LastIndexOf(s, ':') + 1..];
    assert '.' in tail ==> '.' in s;
  }

  lemma NoScope(s: string)
    requires HexText(s)
    ensures CutScope(s) == s
  {
    FindFirst(s, "%");
    hide Find;
    forall i | 0 <= i < |s|
      ensures !OccursAt(s, "%", i)
    {
      assert s[i] in s && s[i..i + 1][0] == s[i];
    }
  }

  lemma Refill(w: seq<int>, r: Run)
    requires |w| == 8 && r == BestFrom(w, 0) && r.length > 0
    ensures 0 <= r.start && r.start + r.length <= 8
    ensures Assemble(w[..r.start], w[r.start + r.length..]) == Some(w)
  {
    BestFromIsBest(w, 0);
    hide BestFrom;
    assert w[..r.start] + Zeros(r.length) + w[r.start + r.length..] == w;
  }

  lemma FormatHalves(w: seq<int>)
    requires |w| == 8
    ensures Halves(Format(w)).Some?
    ensures var (head, tail) := Halves(Format(w)).value; Assemble(head, tail) == Some(w)
  {
    var r := BestFrom(w, 0);
    hide HexJoin, Halves, RunTo, Zeros, BestFrom;
    if r.length >= 2 {
      Refill(w, r);
      HalvesShort(w[..r.start], w[r.start + r.length..]);
    } else {
      AllProvided(w);
      HalvesLong(w);
    }
  }

  lemma AllProvided(w: seq<int>)
    requires |w| == 8
    ensures Assemble(w, []) == Some(w)
  {
    assert w + Zeros(0) + [] == w;
  }

  /** What is printed for eight words parses back to those words. */
  lemma FormatParses(w: seq<int>)
    requires |w| == 8
    ensures Words(Format(w)) == Some(w)
  {
    FormatIsHexText(w);
    PlainText(Format(w));
    FormatHalves(w);
    hide SplitTail, CutScope, StripBrackets, Trim, Format, Halves, Assemble;
    var (head, tail) := Halves(Format(w)).value;
    assert tail + [] == tail;
  }

  /** Canonical text is a fixed point, for every input string whatsoever. */
  lemma CanonicalizeIdempotent(ip: string)
    ensures Canonicalize(Canonicalize(ip)) == Canonicalize(ip)
  {
    match Words(ip)
    case Some(w) => FormatParses(w);
    case None =>
  }

  /** Different addresses never print alike. */
  lemma FormatInjective(v: seq<int>, w: seq<int>)
    requires |v| == |w| == 8
    ensures Format(v) == Format(w) <==> v == w
  {
    FormatParses(v);
    FormatParses(w);
  }

  // ---------------------------------------------------------------- the canonical form

  /** "::" stands in the text at `at` and nowhere else, so not three colons in a row either. */
  ghost predicate OnlyDouble(text: string, at: int) {
    forall j :: OccursAt(text, "::", j) <==> j == at
  }

  lemma DoubleOnce(left: string, right: string)
    requires Tight(left) && Tight(right)
    ensures OnlyDouble(left + "::" + right, |left|)
  {
    var s := left + "::" + right;
    assert s[|left|..|left| + 2] == "::";
    forall j | 0 <= j < |s| - 1 && j != |left| ensures s[j] != ':' || s[j + 1] != ':' {
      if j < |left| {
        assert s[j] == left[j] && (j + 1 < |left| ==> s[j + 1] == left[j + 1]);
      } else {
        assert s[j + 1] == right[j - |left| - 1];
        assert j > |left| + 1 ==> s[j] == right[j - |left| - 2];
      }
    }
    forall j | OccursAt(s, "::", j) ensures j == |left| {
      assert s[j..j + 2][0] == s[j] && s[j..j + 2][1] == s[j + 1];
    }
  }

  lemma GroupsAre(w: seq<int>)
    ensures Groups(HexJoin(w)) == Hexes(w) && (w != [] ==> Split(HexJoin(w), ':') == Hexes(w))
  {
    HexJoinTight(w);
    ParseAllHexes(w);
    if w != [] {
      SplitJoin(Hexes(w), ':');
    }
  }

  /** The text is the groups of `head`, "::" once, and the groups of `tail`. */
  ghost predicate IsShortened(text: string, head: seq<int>, tail: seq<int>) {
    var at := Find(text, "::");
    && at >= 0 && OnlyDouble(text, at)
    && Groups(text[..at]) == Hexes(head) && Groups(text[at + 2..]) == Hexes(tail)
    && Halves(text) == Some((head, tail))
  }

  /** The text is the groups of `w`, without "::". */
  ghost predicate IsFull(text: string, w: seq<int>) {
    && (forall j :: !OccursAt(text, "::", j))
    && Groups(text) == Hexes(w) && Halves(text) == Some((w, []))
  }

  ghost predicate ZeroPair(w: seq<int>) {
    exists i :: 0 <= i < |w| - 1 && w[i] == w[i + 1] == 0
  }

  /** Sections 4.2.1 to 4.2.3 of RFC 5952, of the text: with two adjacent zero words, "::" occurs once,
      in place of the leftmost of the longest runs, and the groups around it are the other words; else it
      does not occur and every word has its group. */
  lemma ShortensExactly(w: seq<int>, r: Run)
    requires |w| == 8 && IsBest(w, 8, r)
    ensures r.length >= 2 <==> ZeroPair(w)
    ensures if r.length >= 2 then IsShortened(Format(w), w[..r.start], w[r.start + r.length..]) else IsFull(Format(w), w)
  {
    BestIs(w, r);
    TwoZeros(w, r);
    hide HexJoin, IsBest, RunTo, BestFrom, IsShortened, IsFull, ZeroPair;
    if r.length >= 2 {
      Shortened(w[..r.start], w[r.start + r.length..]);
    } else {
      Unshortened(w);
    }
  }

  lemma Unshortened(w: seq<int>)
    requires w != []
    ensures IsFull(HexJoin(w), w)
  {
    HalvesLong(w);
    GroupsAre(w);
    HexJoinTight(w);
    hide HexJoin, Groups, Halves, Hexes;
    forall j ensures !OccursAt(HexJoin(w), "::", j) {
      NoDouble(HexJoin(w), j);
    }
  }

  lemma BestIs(w: seq<int>, r: Run)
    requires IsBest(w, |w|, r)
    ensures r == BestFrom(w, 0) && (r.length > 0 ==> 0 <= r.start && r.start + r.length <= |w|)
  {
    BestFromIsBest(w, 0);
    BestUnique(w, r, BestFrom(w, 0));
    hide BestFrom;
  }

  lemma TwoZeros(w: seq<int>, r: Run)
    requires |w| == 8 && IsBest(w, 8, r)
    ensures r.length >= 2 <==> ZeroPair(w)
  {
    if r.length >= 2 {
      assert w[r.start] == w[r.start + 1] == 0;
    } else {
      forall i | 0 <= i < 7 ensures w[i] != 0 || w[i + 1] != 0 {
        assert RunTo(w, i, 8) < 2;
      }
    }
  }

  lemma Shortened(head: seq<int>, tail: seq<int>)
    ensures IsShortened(HexJoin(head) + "::" + HexJoin(tail), head, tail)
  {
    HexJoinTight(head);
    HexJoinTight(tail);
    GroupsAre(head);
    GroupsAre(tail);
    HalvesShort(head, tail);
    hide HexJoin, Groups, Halves, Hexes;
    var left, right := HexJoin(head), HexJoin(tail);
    FindDouble(left, right);
    hide Find;
    DoubleOnce(left, right);
    var s := left + "::" + right;
    assert s[..|left|] == left && s[|left| + 2..] == right;
  }

  /** Sections 4.1 and 4.3 of RFC 5952: a group is the word's digits, lower case, at most four for two
      octets, and begins with a zero only if it is the word zero. */
  lemma {:induction false} GroupsPlain(w: seq<int>, i: nat)
    requires i < |w| && w[i] >= 0
    ensures var g := Hexes(w)[i];
            && g != "" && (forall c <- g :: PrintedDigit(c)) && ParseInt(g, 16) == Some(w[i])
            && (g[0] == '0' <==> g == "0") && (g == "0" <==> w[i] == 0)
            && (w[i] < 0x10000 ==> |g| <= 4)
  {
    if i > 0 {
      GroupsPlain(w[1..], i - 1);
    } else {
      NoLeadingZero(w[0]);
      ParsePrinted(w[0], 16, "");
      assert IntToRadix(w[0], 16) + "" == IntToRadix(w[0], 16);
    }
  }
}
