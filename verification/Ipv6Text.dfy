/**
 Printing and parsing IPv6 addresses. `Denotes` is the grammar of section 2.2 of RFC 4291 (eight
 groups, one run of groups elided by "::", an IPv4 suffix); the parser accepts exactly the texts that
 denote an address, and the printed text of an address denotes that address and no other.
 */
module Ipv6Text {
  import opened Wrappers
  import opened PowersOfTwo
  import opened Text

  const HEXTET_COUNT: nat := 8

  datatype ParseError = AddressValueError

  predicate IsHextet(s: string) {
    1 <= |s| <= 4 && forall k :: 0 <= k < |s| ==> IsHexDigit(s[k])
  }

  ghost predicate Groups(xs: seq<string>) {
    forall k :: 0 <= k < |xs| ==> IsHextet(xs[k])
  }

  /** The number written by a list of groups, the most significant first. */
  ghost function Value(xs: seq<string>): nat
    requires Groups(xs)
  {
    if xs == [] then 0 else Value(xs[..|xs| - 1]) * 65536 + Number(xs[|xs| - 1], 16)
  }

  ghost function Zeros(k: nat): (z: seq<string>)
    ensures |z| == k && Groups(z) && forall i :: 0 <= i < k ==> z[i] == "0"
  {
    seq(k, _ => "0")
  }

  /** An empty list of groups still leaves one empty part between separators. */
  function Pad(xs: seq<string>): (p: seq<string>)
    ensures p != []
  {
    if xs == [] then [""] else xs
  }

  ghost predicate FullParts(parts: seq<string>, n: nat) {
    |parts| == HEXTET_COUNT && Groups(parts) && n == Value(parts)
  }

  ghost predicate ElidedParts(parts: seq<string>, hi: seq<string>, lo: seq<string>, n: nat) {
    && Groups(hi) && Groups(lo) && |hi| + |lo| < HEXTET_COUNT
    && parts == Pad(hi) + [""] + Pad(lo)
    && n == Value(hi + Zeros(HEXTET_COUNT - |hi| - |lo|) + lo)
  }

  ghost predicate DenotesParts(parts: seq<string>, n: nat) {
    FullParts(parts, n) || exists hi, lo :: ElidedParts(parts, hi, lo, n)
  }

  function ParseOctet(s: string): (r: Option<nat>)
    ensures r.Some? ==> r.value < 256
  {
    if s == "" || (exists k :: 0 <= k < |s| && !IsDigit(s[k])) then None
    else if Number(s, 10) > 255 || (s[0] == '0' && |s| > 1) then None
    else Some(Number(s, 10))
  }

  function ParseOctets(octets: seq<string>): (r: Option<nat>)
    ensures r.Some? ==> r.value < Pow2(8 * |octets|)
  {
    if octets == [] then Some(0)
    else
      var hi, lo := ParseOctets(octets[..|octets| - 1]), ParseOctet(octets[|octets| - 1]);
      Pow2Add(8, 8 * (|octets| - 1));
      Pow2Values();
      if hi.None? || lo.None? then None else Some(hi.value * 256 + lo.value)
  }

  /** Dotted decimal: four octets without leading zeros. */
  function ParseV4(s: string): (r: Option<nat>) {
    var octets := Split(s, '.');
    if |octets| != 4 then None else ParseOctets(octets)
  }

  /** The parts with an IPv4 suffix, if there is one, written as two groups. */
  function SuffixExpanded(parts: seq<string>): (r: Option<seq<string>>)
    requires parts != []
    ensures r.Some? ==> r.value != []
  {
    var last := parts[|parts| - 1];
    if '.' !in last then Some(parts)
    else
      var v4 := ParseV4(last);
      if v4.None? then None
      else Some(parts[..|parts| - 1] + [Hex((v4.value / 65536) % 65536), Hex(v4.value % 65536)])
  }

  /** Text `s` is a way to write the address `n`. */
  ghost predicate Denotes(s: string, n: nat) {
    var parts := SuffixExpanded(Split(s, ':'));
    parts.Some? && DenotesParts(parts.value, n)
  }

  /** A decimal number up to 255 without leading zeros. */
  predicate IsOctet(s: string) {
    && s != "" && (forall k :: 0 <= k < |s| ==> '0' <= s[k] <= '9') && (s[0] == '0' ==> |s| == 1)
    && NumberAtMost(s, 255)
  }

  predicate NumberAtMost(s: string, n: nat) {
    (forall k :: 0 <= k < |s| ==> IsDigit(s[k])) && Number(s, 10) <= n
  }

  lemma OctetIff(s: string)
    ensures ParseOctet(s).Some? <==> IsOctet(s)
    ensures IsOctet(s) ==> ParseOctet(s).value == Number(s, 10)
  {
  }

  lemma OneMoreOctet(o: seq<string>, k: nat)
    requires k < |o|
    ensures ParseOctets(o[..k + 1]).Some? <==> ParseOctets(o[..k]).Some? && IsOctet(o[k])
  {
    OctetIff(o[k]);
    assert o[..k + 1][..k] == o[..k];
  }

  lemma ValueOfOctets(o: seq<string>, k: nat)
    requires k < |o| && ParseOctets(o[..k + 1]).Some?
    ensures ParseOctets(o[..k]).Some? && NumberAtMost(o[k], 255)
    ensures ParseOctets(o[..k + 1]).value == 256 * ParseOctets(o[..k]).value + Number(o[k], 10)
  {
    OctetIff(o[k]);
    assert o[..k + 1][..k] == o[..k];
  }

  /** Four decimal numbers, the first one the highest. */
  ghost predicate Dotted(o: seq<string>, v: nat) {
    && |o| == 4 && (forall j :: 0 <= j < 4 ==> IsOctet(o[j]))
    && v == 256 * (256 * (256 * Number(o[0], 10) + Number(o[1], 10)) + Number(o[2], 10)) + Number(o[3], 10)
  }

  lemma {:induction false} OctetsAccepted(o: seq<string>, k: nat)
    requires k <= |o|
    ensures ParseOctets(o[..k]).Some? <==> forall j :: 0 <= j < k ==> IsOctet(o[j])
  {
    if k > 0 {
      OctetsAccepted(o, k - 1);
      OneMoreOctet(o, k - 1);
    }
  }

  lemma OctetsDotted(o: seq<string>)
    requires |o| == 4 && ParseOctets(o).Some?
    ensures NumberAtMost(o[0], 255) && NumberAtMost(o[1], 255) && NumberAtMost(o[2], 255) && NumberAtMost(o[3], 255)
    ensures ParseOctets(o).value ==
            256 * (256 * (256 * Number(o[0], 10) + Number(o[1], 10)) + Number(o[2], 10)) + Number(o[3], 10)
  {
    assert o[..0] == [] && o[..4] == o;
    ValueOfOctets(o, 3);
    ValueOfOctets(o, 2);
    ValueOfOctets(o, 1);
    ValueOfOctets(o, 0);
  }

  lemma OctetsIff(o: seq<string>, r: Option<nat>, v: nat)
    requires |o| == 4 && r == ParseOctets(o)
    ensures r == Some(v) <==> Dotted(o, v)
  {
    OctetsAccepted(o, 4);
    assert o[..4] == o;
    if r.Some? {
      OctetsDotted(o);
    }
  }

  lemma DottedIff(s: string, v: nat)
    ensures ParseV4(s) == Some(v) <==> Dotted(Split(s, '.'), v)
  {
    var o := Split(s, '.');
    if |o| == 4 {
      OctetsIff(o, ParseOctets(o), v);
    }
  }

  lemma {:induction false} JoinPadded(xs: seq<string>, sep: char)
    ensures Join(Pad(xs), sep) == Join(xs, sep)
  {
  }

  lemma GroupsHaveNoColon(xs: seq<string>)
    requires Groups(xs)
    ensures forall k :: 0 <= k < |xs| ==> ':' !in xs[k] && '.' !in xs[k] && xs[k] != ""
  {
  }

  lemma SplitElided(hi: seq<string>, lo: seq<string>)
    requires Groups(hi) && Groups(lo)
    ensures Split(Join(hi, ':') + "::" + Join(lo, ':'), ':') == Pad(hi) + [""] + Pad(lo)
  {
    JoinPadded(hi, ':');
    JoinPadded(lo, ':');
    GroupsHaveNoColon(hi);
    GroupsHaveNoColon(lo);
    ColonsSplit(Pad(hi), Pad(lo));
  }

  lemma TwoColons(a: string, b: string)
    ensures a + "::" + b == a + [':'] + ("" + [':'] + b)
  {
    assert "::" == [':'] + [':'];
  }

  lemma TailSplit(q: seq<string>)
    requires q != [] && forall k :: 0 <= k < |q| ==> ':' !in q[k]
    ensures Split("" + [':'] + Join(q, ':'), ':') == [""] + q
  {
    SplitAt("", Join(q, ':'), ':');
    SplitJoin(q, ':');
  }

  lemma PartsRegroup(p: seq<string>, q: seq<string>)
    ensures p + ([""] + q) == p + [""] + q
  {
  }

  lemma ColonsSplit(p: seq<string>, q: seq<string>)
    requires p != [] && (forall k :: 0 <= k < |p| ==> ':' !in p[k]) && q != []
    requires (forall k :: 0 <= k < |q| ==> ':' !in q[k])
    ensures Split(Join(p, ':') + "::" + Join(q, ':'), ':') == p + [""] + q
  {
    TwoColons(Join(p, ':'), Join(q, ':'));
    SplitJoinThen(p, "" + [':'] + Join(q, ':'), ':');
    TailSplit(q);
    PartsRegroup(p, q);
  }

  ghost predicate FullText(s: string, xs: seq<string>, n: nat) {
    Groups(xs) && |xs| == HEXTET_COUNT && s == Join(xs, ':') && n == Value(xs)
  }

  ghost predicate ElidedText(s: string, hi: seq<string>, lo: seq<string>, n: nat) {
    && Groups(hi) && Groups(lo) && |hi| + |lo| < HEXTET_COUNT
    && s == Join(hi, ':') + "::" + Join(lo, ':')
    && n == Value(hi + Zeros(HEXTET_COUNT - |hi| - |lo|) + lo)
  }

  lemma FullForm(s: string, xs: seq<string>, n: nat)
    ensures FullText(s, xs, n) <==> xs == Split(s, ':') && FullParts(xs, n)
  {
    JoinSplit(s, ':');
    if FullText(s, xs, n) {
      GroupsHaveNoColon(xs);
      SplitJoin(xs, ':');
    }
  }

  lemma ElidedForm(s: string, hi: seq<string>, lo: seq<string>, n: nat)
    ensures ElidedText(s, hi, lo, n) <==> ElidedParts(Split(s, ':'), hi, lo, n)
  {
    if Groups(hi) && Groups(lo) {
      var t := Join(hi, ':') + "::" + Join(lo, ':');
      SplitElided(hi, lo);
      JoinSplit(s, ':');
      JoinSplit(t, ':');
    }
  }

  /** Without an IPv4 suffix the texts of `n` are its eight groups, or fewer with one "::" for zeros. */
  lemma DenotesForms(s: string, n: nat)
    requires '.' !in s
    ensures Denotes(s, n) <==> (exists xs :: FullText(s, xs, n)) || (exists hi, lo :: ElidedText(s, hi, lo, n))
  {
    SplitKeepsOut(s, ':', '.');
    forall xs ensures FullText(s, xs, n) <==> xs == Split(s, ':') && FullParts(xs, n) {
      FullForm(s, xs, n);
    }
    forall hi, lo ensures ElidedText(s, hi, lo, n) <==> ElidedParts(Split(s, ':'), hi, lo, n) {
      ElidedForm(s, hi, lo, n);
    }
  }

  lemma {:induction false} SplitKeepsOut(s: string, sep: char, c: char)
    requires c !in s
    ensures forall k :: 0 <= k < |Split(s, sep)| ==> c !in Split(s, sep)[k]
  {
    if s != "" {
      SplitKeepsOut(s[1..], sep, c);
      var rest := Split(s[1..], sep);
      assert c !in [s[0]] + rest[0];
    }
  }

  /** The groups before the elided place `k`; none when the text starts with "::". */
  function HiParts(parts: seq<string>, k: nat): seq<string>
    requires k < |parts|
  {
    if parts[0] == "" then [] else parts[..k]
  }

  function LoParts(parts: seq<string>, k: nat): seq<string>
    requires k < |parts|
  {
    if parts[|parts| - 1] == "" then [] else parts[k + 1..]
  }

  /** The checks of the parser: `k` is the one empty part not at an end, and a leading or trailing colon is double. */
  ghost predicate Elided(parts: seq<string>, k: nat) {
    && 0 < k < |parts| - 1
    && (forall i :: 0 < i < |parts| - 1 ==> (parts[i] == "" <==> i == k))
    && (parts[0] == "" ==> k == 1) && (parts[|parts| - 1] == "" ==> k == |parts| - 2)
    && Groups(HiParts(parts, k)) && Groups(LoParts(parts, k))
    && |HiParts(parts, k)| + |LoParts(parts, k)| < HEXTET_COUNT
  }

  ghost function ElidedValue(parts: seq<string>, k: nat): nat
    requires Elided(parts, k)
  {
    var hi, lo := HiParts(parts, k), LoParts(parts, k);
    Value(hi + Zeros(HEXTET_COUNT - |hi| - |lo|) + lo)
  }

  lemma ElidedPlace(parts: seq<string>, hi: seq<string>, lo: seq<string>, n: nat)
    requires ElidedParts(parts, hi, lo, n)
    ensures var k := |Pad(hi)|;
      && 0 < k < |parts| - 1 && parts[..k] == Pad(hi) && parts[k] == "" && parts[k + 1..] == Pad(lo)
      && parts[0] == Pad(hi)[0] && parts[|parts| - 1] == Pad(lo)[|Pad(lo)| - 1]
  {
  }

  lemma ElidedEnds(parts: seq<string>, hi: seq<string>, lo: seq<string>, n: nat)
    requires ElidedParts(parts, hi, lo, n)
    ensures var k := |Pad(hi)|;
      && HiParts(parts, k) == hi && LoParts(parts, k) == lo
      && (parts[0] == "" ==> k == 1) && (parts[|parts| - 1] == "" ==> k == |parts| - 2)
  {
    ElidedPlace(parts, hi, lo, n);
    GroupsHaveNoColon(hi);
    GroupsHaveNoColon(lo);
  }

  lemma ElidedPartsAre(parts: seq<string>, hi: seq<string>, lo: seq<string>, n: nat)
    requires ElidedParts(parts, hi, lo, n)
    ensures Elided(parts, |Pad(hi)|) && n == ElidedValue(parts, |Pad(hi)|)
  {
    ElidedPlace(parts, hi, lo, n);
    ElidedEnds(parts, hi, lo, n);
    GroupsHaveNoColon(hi);
    GroupsHaveNoColon(lo);
    var k := |Pad(hi)|;
    forall i | 0 < i < |parts| - 1 ensures parts[i] == "" <==> i == k {
      if i < k {
        assert parts[i] == parts[..k][i];
      } else if k < i {
        assert parts[i] == parts[k + 1..][i - k - 1];
      }
    }
  }

  lemma PadHi(parts: seq<string>, k: nat)
    requires 0 < k < |parts|
    requires parts[0] == "" ==> k == 1
    ensures Pad(HiParts(parts, k)) == parts[..k]
  {
    if parts[0] == "" {
      assert parts[..1] == [""];
    } else {
      assert parts[..k] != [];
    }
  }

  lemma PadLo(parts: seq<string>, k: nat)
    requires k < |parts| - 1
    requires parts[|parts| - 1] == "" ==> k == |parts| - 2
    ensures Pad(LoParts(parts, k)) == parts[k + 1..]
  {
    if parts[|parts| - 1] == "" {
      assert parts[|parts| - 1..] == [""];
    } else {
      assert parts[k + 1..] != [];
    }
  }

  lemma AroundPart(parts: seq<string>, k: nat)
    requires k < |parts|
    ensures parts == parts[..k] + [parts[k]] + parts[k + 1..]
  {
  }

  lemma ElidedIsParts(parts: seq<string>, k: nat)
    requires Elided(parts, k)
    ensures ElidedParts(parts, HiParts(parts, k), LoParts(parts, k), ElidedValue(parts, k))
  {
    PadHi(parts, k);
    PadLo(parts, k);
    AroundPart(parts, k);
  }

  lemma DenotesPartsIff(parts: seq<string>, n: nat)
    ensures DenotesParts(parts, n) <==>
      FullParts(parts, n) || exists k: nat :: Elided(parts, k) && n == ElidedValue(parts, k)
  {
    if hi, lo :| ElidedParts(parts, hi, lo, n) {
      ElidedPartsAre(parts, hi, lo, n);
    }
    if k: nat :| Elided(parts, k) && n == ElidedValue(parts, k) {
      ElidedIsParts(parts, k);
    }
  }

  lemma NotBothForms(parts: seq<string>, k: nat)
    requires Elided(parts, k)
    ensures !Groups(parts)
  {
    assert !IsHextet(parts[k]);
  }

  lemma ElidedOnce(parts: seq<string>, j: nat, k: nat)
    requires Elided(parts, j) && Elided(parts, k)
    ensures j == k
  {
    assert parts[j] == "";
  }

  lemma DenotesPartsUnique(parts: seq<string>, n: nat, m: nat)
    requires DenotesParts(parts, n) && DenotesParts(parts, m)
    ensures n == m
  {
    DenotesPartsIff(parts, n);
    DenotesPartsIff(parts, m);
    if Groups(parts) {
      forall k: nat | Elided(parts, k) ensures false {
        NotBothForms(parts, k);
      }
    } else {
      var j: nat :| Elided(parts, j) && n == ElidedValue(parts, j);
      var k: nat :| Elided(parts, k) && m == ElidedValue(parts, k);
      ElidedOnce(parts, j, k);
    }
  }

  /** No text denotes two addresses. */
  lemma DenotesUnique(s: string, n: nat, m: nat)
    requires Denotes(s, n) && Denotes(s, m)
    ensures n == m
  {
    DenotesPartsUnique(SuffixExpanded(Split(s, ':')).value, n, m);
  }

  // ---------------------------------------------------------------- an IPv4 suffix

  lemma TwoGroups(high: nat, a: nat, b: nat)
    requires a < 65536 && b < 65536
    ensures ((high * 65536 + a) * 65536 + b) % 0x1_0000_0000 == 65536 * a + b
  {
    var n := 0x1_0000_0000 * high + (65536 * a + b);
    assert (high * 65536 + a) * 65536 + b == n;
    DivModUnique(n, 0x1_0000_0000, high, 65536 * a + b);
  }

  /** The last two groups of a list. */
  lemma LastTwo(xs: seq<string>)
    requires Groups(xs) && |xs| >= 2
    ensures Value(xs) % 0x1_0000_0000 == 65536 * Number(xs[|xs| - 2], 16) + Number(xs[|xs| - 1], 16)
  {
    var n := |xs| - 2;
    assert xs[..n + 1][..n] == xs[..n];
    HextetBound(xs[n]);
    HextetBound(xs[n + 1]);
    TwoGroups(Value(xs[..n]), Number(xs[n], 16), Number(xs[n + 1], 16));
  }

  lemma ElidedLastTwo(parts: seq<string>, hi: seq<string>, lo: seq<string>, xs: seq<string>)
    requires parts == Pad(hi) + [""] + Pad(lo) && |parts| >= 2 && parts[|parts| - 2] != "" && parts[|parts| - 1] != ""
    requires |hi| + |lo| <= |xs| && xs == hi + Zeros(|xs| - |hi| - |lo|) + lo
    ensures |xs| >= 2 && xs[|xs| - 2] == parts[|parts| - 2] && xs[|xs| - 1] == parts[|parts| - 1]
  {
    assert |lo| >= 2;
  }

  lemma LowBitsElided(parts: seq<string>, hi: seq<string>, lo: seq<string>, n: nat, a: string, b: string)
    requires ElidedParts(parts, hi, lo, n) && |parts| >= 2 && a != "" && b != ""
    requires parts[|parts| - 2] == a && parts[|parts| - 1] == b
    ensures IsHextet(a) && IsHextet(b) && n % 0x1_0000_0000 == 65536 * Number(a, 16) + Number(b, 16)
  {
    var xs := hi + Zeros(HEXTET_COUNT - |hi| - |lo|) + lo;
    ElidedLastTwo(parts, hi, lo, xs);
    LastTwo(xs);
  }

  /** The low bits of what a list of parts denotes that ends in two groups. */
  lemma LowBits(parts: seq<string>, n: nat, a: string, b: string)
    requires DenotesParts(parts, n) && |parts| >= 2 && parts[|parts| - 2] == a && parts[|parts| - 1] == b
    requires IsHextet(a) && IsHextet(b)
    ensures n % 0x1_0000_0000 == 65536 * Number(a, 16) + Number(b, 16)
  {
    if FullParts(parts, n) {
      LastTwo(parts);
    } else {
      var hi, lo :| ElidedParts(parts, hi, lo, n);
      LowBitsElided(parts, hi, lo, n, a, b);
    }
  }

  lemma SuffixGroups(v: nat)
    requires v < 0x1_0000_0000
    ensures var a, b := Hex((v / 65536) % 65536), Hex(v % 65536);
      IsHextet(a) && IsHextet(b) && 65536 * Number(a, 16) + Number(b, 16) == v
  {
    HexLength((v / 65536) % 65536);
    HexLength(v % 65536);
  }

  lemma SuffixValue(parts: seq<string>, v: nat, n: nat)
    requires parts != [] && '.' in parts[|parts| - 1] && ParseV4(parts[|parts| - 1]) == Some(v)
    requires v < 0x1_0000_0000 && DenotesParts(SuffixExpanded(parts).value, n)
    ensures n % 0x1_0000_0000 == v
  {
    SuffixGroups(v);
    LowBits(SuffixExpanded(parts).value, n, Hex((v / 65536) % 65536), Hex(v % 65536));
  }

  lemma DottedSuffix(parts: seq<string>, last: string, n: nat)
    requires parts != [] && last == parts[|parts| - 1] && '.' in last
    requires SuffixExpanded(parts).Some? && DenotesParts(SuffixExpanded(parts).value, n)
    ensures Dotted(Split(last, '.'), n % 0x1_0000_0000)
  {
    var v: nat := ParseV4(last).value;
    DottedIff(last, v);
    DottedBound(Split(last, '.'), v);
    SuffixValue(parts, v, n);
  }

  /** A dotted suffix is the low 32 bits of the address, the first of its numbers the highest eight of them. */
  lemma SuffixIsLow(s: string, n: nat)
    requires Denotes(s, n)
    ensures var last := Split(s, ':')[|Split(s, ':')| - 1];
      '.' in last ==> Dotted(Split(last, '.'), n % 0x1_0000_0000)
  {
    var parts := Split(s, ':');
    if '.' in parts[|parts| - 1] {
      DottedSuffix(parts, parts[|parts| - 1], n);
    }
  }

  lemma DottedBound(o: seq<string>, v: nat)
    requires Dotted(o, v)
    ensures v < 0x1_0000_0000
  {
  }

  /** The part that elides zeros: the only empty one that is not at an end, when it is the only one. */
  method SkipIndices(parts: seq<string>) returns (empties: seq<nat>)
    requires |parts| >= 2
    ensures forall i :: 0 <= i < |empties| ==> 0 < empties[i] < |parts| - 1
    ensures forall k :: 0 < k < |parts| - 1 && parts[k] == "" <==> k in empties
    ensures forall i, j :: 0 <= i < j < |empties| ==> empties[i] < empties[j]
  {
    empties := [];
    for i := 1 to |parts| - 1
      invariant forall k :: 0 < k < i && parts[k] == "" <==> k in empties
      invariant forall k :: 0 <= k < |empties| ==> 0 < empties[k] < i
      invariant forall k, m :: 0 <= k < m < |empties| ==> empties[k] < empties[m]
    {
      if parts[i] == "" {
        empties := empties + [i];
      }
    }
  }

  method ParseHextet(s: string) returns (r: Option<nat>)
    ensures r.Some? <==> IsHextet(s)
    ensures r.Some? ==> r.value == Number(s, 16) && r.value < 65536
  {
    if exists k :: 0 <= k < |s| && !IsHexDigit(s[k]) {
      return None;
    }
    if |s| > 4 || s == "" {
      return None;
    }
    HextetBound(s);
    return Some(Number(s, 16));
  }

  lemma HextetBound(s: string)
    requires IsHextet(s)
    ensures Number(s, 16) < 65536
  {
    NumberBound(s, 16);
    Pow2Monotone(4 * |s|, 16);
    Pow2Values();
  }

  lemma DigitBelow(n: nat, d: nat, p: nat)
    requires n < p && d < 16
    ensures n * 16 + d < 16 * p
  {
  }

  lemma {:induction false} NumberBound(s: string, base: nat)
    requires base == 16 && forall k :: 0 <= k < |s| ==> IsHexDigit(s[k])
    ensures Number(s, base) < Pow2(4 * |s|)
  {
    if s != "" {
      NumberBound(s[..|s| - 1], base);
      Pow2Add(4, 4 * (|s| - 1));
      Pow2Values();
      DigitBelow(Number(s[..|s| - 1], base), DigitValue(s[|s| - 1]), Pow2(4 * (|s| - 1)));
    }
  }

  /** Shifting in the groups of `parts` after those of `before`; `None` when one of them is not a group. */
  method ParseGroups(parts: seq<string>, start: nat, ghost before: seq<string>) returns (r: Option<nat>)
    requires Groups(before) && start == Value(before)
    ensures r.Some? <==> Groups(parts)
    ensures r.Some? ==> r.value == Value(before + parts)
  {
    var ipInt := start;
    assert before + parts[..0] == before;
    for i := 0 to |parts|
      invariant Groups(parts[..i]) && ipInt == Value(before + parts[..i])
    {
      var h := ParseHextet(parts[i]);
      if h.None? {
        return None;
      }
      ipInt := ipInt * 65536 + h.value;
      assert parts[..i + 1] == parts[..i] + [parts[i]];
      ValueAppend(before + parts[..i], parts[i]);
      assert before + parts[..i + 1] == (before + parts[..i]) + [parts[i]];
    }
    assert parts[..|parts|] == parts;
    return Some(ipInt);
  }

  lemma OneMoreZero(xs: seq<string>, k: nat)
    requires Groups(xs) && k > 0
    ensures Groups(xs + Zeros(k - 1)) && Value(xs + Zeros(k)) == Value(xs + Zeros(k - 1)) * 65536
  {
    ValueAppend(xs + Zeros(k - 1), "0");
    assert xs + Zeros(k) == xs + Zeros(k - 1) + ["0"];
    assert Number("0", 16) == 0;
  }

  lemma {:induction false} ValueZeros(xs: seq<string>, k: nat)
    requires Groups(xs)
    ensures Value(xs + Zeros(k)) == Value(xs) * Pow2(16 * k)
  {
    if k == 0 {
      assert xs + Zeros(0) == xs;
    } else {
      ValueZeros(xs, k - 1);
      OneMoreZero(xs, k);
      Pow2Values();
      Pow2Add(16 * (k - 1), 16);
      MulAssociates(Value(xs), Pow2(16 * (k - 1)), 65536);
    }
  }

  lemma MulAssociates(a: nat, b: nat, c: nat)
    ensures a * (b * c) == (a * b) * c
  {
  }

  lemma ValueAppend(xs: seq<string>, x: string)
    requires Groups(xs) && IsHextet(x)
    ensures Groups(xs + [x]) && Value(xs + [x]) == Value(xs) * 65536 + Number(x, 16)
  {
    assert (xs + [x])[..|xs|] == xs;
  }

  lemma ShortDenotesNothing(s: string)
    requires |Split(s, ':')| < 3
    ensures forall n :: !Denotes(s, n)
  {
    var parts := SuffixExpanded(Split(s, ':'));
    if parts.Some? {
      assert |parts.value| == 3 ==> parts.value[1] != "";
      OnlyFullParts(parts.value);
    }
  }

  /** The parser: it accepts exactly the texts that denote an address, and returns that address. */
  method IpIntFromString(ipStr: string) returns (r: Result<nat, ParseError>)
    ensures r.Success? ==> Denotes(ipStr, r.value)
    ensures r.Failure? ==> forall n :: !Denotes(ipStr, n)
  {
    var parts := Split(ipStr, ':');
    if |parts| < 3 {
      ShortDenotesNothing(ipStr);
      return Failure(AddressValueError);
    }
    if '.' in parts[|parts| - 1] {
      var v4 := ParseV4(parts[|parts| - 1]);
      if v4.None? {
        return Failure(AddressValueError);
      }
      parts := parts[..|parts| - 1] + [Hex((v4.value / 65536) % 65536), Hex(v4.value % 65536)];
    }
    var v := ParseParts(parts);
    return if v.None? then Failure(AddressValueError) else Success(v.value);
  }

  lemma OnlyFullParts(parts: seq<string>)
    requires forall k :: 0 < k < |parts| - 1 ==> parts[k] != ""
    ensures forall n :: DenotesParts(parts, n) <==> FullParts(parts, n)
  {
    forall n ensures DenotesParts(parts, n) <==> FullParts(parts, n) {
      NothingElided(parts, n);
    }
  }

  lemma NothingElided(parts: seq<string>, n: nat)
    requires forall k :: 0 < k < |parts| - 1 ==> parts[k] != ""
    ensures DenotesParts(parts, n) ==> FullParts(parts, n)
  {
    if hi, lo :| ElidedParts(parts, hi, lo, n) {
      ElidedPlace(parts, hi, lo, n);
    }
  }

  lemma OnlyElidedParts(parts: seq<string>, k: nat)
    requires 0 < k < |parts| - 1 && forall i :: 0 < i < |parts| - 1 ==> (parts[i] == "" <==> i == k)
    ensures forall n :: DenotesParts(parts, n) <==> Elided(parts, k) && n == ElidedValue(parts, k)
  {
    assert !IsHextet(parts[k]);
    forall n ensures DenotesParts(parts, n) <==> Elided(parts, k) && n == ElidedValue(parts, k) {
      DenotesPartsIff(parts, n);
    }
  }

  lemma TwiceElided(parts: seq<string>, i: nat, j: nat)
    requires 0 < i < j < |parts| - 1 && parts[i] == "" && parts[j] == ""
    ensures forall n :: !DenotesParts(parts, n)
  {
    assert !IsHextet(parts[i]);
    forall n ensures !DenotesParts(parts, n) {
      DenotesPartsIff(parts, n);
    }
  }

  lemma TooManyParts(parts: seq<string>)
    requires |parts| > HEXTET_COUNT + 1
    ensures forall n :: !DenotesParts(parts, n)
  {
  }

  method ParseParts(parts: seq<string>) returns (r: Option<nat>)
    requires |parts| >= 3
    ensures r.Some? ==> DenotesParts(parts, r.value)
    ensures r.None? ==> forall n :: !DenotesParts(parts, n)
  {
    if |parts| > HEXTET_COUNT + 1 {
      TooManyParts(parts);
      return None;
    }
    var empties := SkipIndices(parts);
    if |empties| > 1 {
      assert empties[0] in empties && empties[1] in empties;
      TwiceElided(parts, empties[0], empties[1]);
      return None;
    }
    if |empties| == 1 {
      assert forall k :: k in empties <==> k == empties[0];
      OnlyElidedParts(parts, empties[0]);
      ElidedIff(parts, empties[0]);
      r := ParseElided(parts, empties[0]);
    } else {
      assert forall k :: 0 < k < |parts| - 1 ==> (parts[k] == "" <==> k in empties);
      OnlyFullParts(parts);
      if |parts| != HEXTET_COUNT {
        return None;
      }
      r := ParseGroups(parts, 0, []);
      assert [] + parts == parts;
    }
  }

  ghost predicate CountsFit(parts: seq<string>, k: nat)
    requires 0 < k < |parts| - 1
  {
    && (parts[0] == "" ==> k == 1) && (parts[|parts| - 1] == "" ==> k == |parts| - 2)
    && |HiParts(parts, k)| + |LoParts(parts, k)| < HEXTET_COUNT
  }

  lemma ElidedIff(parts: seq<string>, k: nat)
    requires 0 < k < |parts| - 1
    requires forall i :: 0 < i < |parts| - 1 ==> (parts[i] == "" <==> i == k)
    ensures Elided(parts, k) <==> CountsFit(parts, k) && Groups(HiParts(parts, k)) && Groups(LoParts(parts, k))
  {
  }

  /** The numbers of groups before and after the elided place, and the checks on them. */
  method CountGroups(parts: seq<string>, skipIndex: nat) returns (r: Option<(nat, nat)>)
    requires 0 < skipIndex < |parts| - 1
    ensures r.Some? <==> CountsFit(parts, skipIndex)
    ensures r.Some? ==> r.value == (|HiParts(parts, skipIndex)|, |LoParts(parts, skipIndex)|)
  {
    var partsHi := skipIndex;
    var partsLo := |parts| - skipIndex - 1;
    if parts[0] == "" {
      partsHi := partsHi - 1;
      if partsHi != 0 {
        return None;
      }
    }
    if parts[|parts| - 1] == "" {
      partsLo := partsLo - 1;
      if partsLo != 0 {
        return None;
      }
    }
    if HEXTET_COUNT - (partsHi + partsLo) < 1 {
      return None;
    }
    return Some((partsHi, partsLo));
  }

  ghost predicate IsElidedValue(hi: seq<string>, lo: seq<string>, n: nat) {
    && |hi| + |lo| < HEXTET_COUNT && Groups(hi) && Groups(lo)
    && n == Value(hi + Zeros(HEXTET_COUNT - |hi| - |lo|) + lo)
  }

  method ParseElided(parts: seq<string>, skipIndex: nat) returns (r: Option<nat>)
    requires 0 < skipIndex < |parts| - 1
    ensures r.Some? <==>
      CountsFit(parts, skipIndex) && Groups(HiParts(parts, skipIndex)) && Groups(LoParts(parts, skipIndex))
    ensures r.Some? ==> IsElidedValue(HiParts(parts, skipIndex), LoParts(parts, skipIndex), r.value)
  {
    var counts := CountGroups(parts, skipIndex);
    if counts.None? {
      return None;
    }
    var (partsHi, partsLo) := counts.value;
    PartsAround(parts, skipIndex);
    r := ParseAround(parts[..partsHi], parts[|parts| - partsLo..]);
  }

  lemma PartsAround(parts: seq<string>, k: nat)
    requires 0 < k < |parts| - 1 && CountsFit(parts, k)
    ensures HiParts(parts, k) == parts[..|HiParts(parts, k)|]
    ensures LoParts(parts, k) == parts[|parts| - |LoParts(parts, k)|..]
  {
  }

  method ParseAround(hi: seq<string>, lo: seq<string>) returns (r: Option<nat>)
    requires |hi| + |lo| < HEXTET_COUNT
    ensures r.Some? <==> Groups(hi) && Groups(lo)
    ensures r.Some? ==> IsElidedValue(hi, lo, r.value)
  {
    var partsSkipped: nat := HEXTET_COUNT - (|hi| + |lo|);
    var v := ParseGroups(hi, 0, []);
    assert [] + hi == hi;
    if v.None? {
      return None;
    }
    ValueZeros(hi, partsSkipped);
    r := ParseGroups(lo, v.value * Pow2(16 * partsSkipped), hi + Zeros(partsSkipped));
  }
}
