/**
 Printing IPv6 addresses. The first longest run of at least two zero groups is elided and nothing else
 (section 4.2 of RFC 5952), and the text parses back to the address it was printed from.
 */
module Ipv6Print {
  import opened Wrappers
  import opened PowersOfTwo
  import opened Text
  import opened Ipv6Text

  datatype PrintError = AddressTooLarge

  ghost predicate ZeroRun(h: seq<string>, start: int, len: int) {
    0 <= start && 0 <= len && start + len <= |h| && forall k :: start <= k < start + len ==> h[k] == "0"
  }

  /** The run of `len` zeros at `start` is the longest of `h`, and the first that long. */
  ghost predicate FirstLongest(h: seq<string>, start: int, len: int) {
    && ZeroRun(h, start, len)
    && (forall s, l :: ZeroRun(h, s, l) ==> l <= len)
    && (forall s :: ZeroRun(h, s, len) ==> start <= s)
  }

  /** The list whose joining with colons elides the run: an end of the address gets one more empty part. */
  ghost function Elide(h: seq<string>, start: int, len: int): seq<string>
    requires 0 <= start && 0 <= len && start + len <= |h|
  {
    Pad(h[..start]) + [""] + Pad(h[start + len..])
  }

  ghost predicate Compressed(h: seq<string>, r: seq<string>) {
    if exists s :: ZeroRun(h, s, 2) then exists s, l :: l >= 2 && FirstLongest(h, s, l) && r == Elide(h, s, l)
    else r == h
  }

  lemma FirstLongestUnique(h: seq<string>, s: int, l: int, s': int, l': int)
    requires FirstLongest(h, s, l) && FirstLongest(h, s', l')
    ensures s == s' && l == l'
  {
  }

  lemma CompressedUnique(h: seq<string>, r: seq<string>, r': seq<string>)
    requires Compressed(h, r) && Compressed(h, r')
    ensures r == r'
  {
    if exists s :: ZeroRun(h, s, 2) {
      var s, l :| l >= 2 && FirstLongest(h, s, l) && r == Elide(h, s, l);
      var s', l' :| l' >= 2 && FirstLongest(h, s', l') && r' == Elide(h, s', l');
      FirstLongestUnique(h, s, l, s', l');
    }
  }

  /** The longest run of zeros that ends at or before `n`, and the run that ends at `n`. */
  ghost predicate ScanState(h: seq<string>, n: nat, bestStart: int, bestLen: int, start: int, len: int) {
    && n <= |h| && bestLen >= 0 && len >= 0
    && (if bestLen == 0 then bestStart == -1 else ZeroRun(h, bestStart, bestLen) && bestStart + bestLen <= n)
    && (forall s, l :: ZeroRun(h, s, l) && s + l <= n ==> l <= bestLen)
    && (forall s :: ZeroRun(h, s, bestLen) && s + bestLen <= n ==> bestStart <= s)
    && (if len == 0 then start == -1 && (n > 0 ==> h[n - 1] != "0")
        else start == n - len && ZeroRun(h, start, len) && (start > 0 ==> h[start - 1] != "0"))
  }

  lemma RunHas(h: seq<string>, s: int, l: int, k: int)
    requires ZeroRun(h, s, l) && s <= k < s + l
    ensures h[k] == "0"
  {
  }

  /** A run that ends at the zero just read is part of the current run. */
  lemma RunEndsHere(h: seq<string>, n: nat, start: int, len: int, s: int, l: int)
    requires 0 <= start <= n < |h| && start == n + 1 - len && (start > 0 ==> h[start - 1] != "0")
    requires ZeroRun(h, s, l) && s + l == n + 1 && l > 0
    ensures start <= s && l <= len
  {
    if s < start {
      RunHas(h, s, l, start - 1);
    }
  }

  lemma ScanZero(h: seq<string>, n: nat, bestStart: int, bestLen: int, start: int, len: int)
    requires ScanState(h, n, bestStart, bestLen, start, len) && n < |h| && h[n] == "0"
    ensures var start' := if start == -1 then n else start;
      if len + 1 > bestLen then ScanState(h, n + 1, start', len + 1, start', len + 1)
      else ScanState(h, n + 1, bestStart, bestLen, start', len + 1)
  {
    var start' := if start == -1 then n else start;
    assert ZeroRun(h, start', len + 1);
    forall s, l | ZeroRun(h, s, l) && s + l == n + 1 && l > 0 ensures start' <= s && l <= len + 1 {
      RunEndsHere(h, n, start', len + 1, s, l);
    }
  }

  lemma ScanOther(h: seq<string>, n: nat, bestStart: int, bestLen: int, start: int, len: int)
    requires ScanState(h, n, bestStart, bestLen, start, len) && n < |h| && h[n] != "0"
    ensures ScanState(h, n + 1, bestStart, bestLen, -1, 0)
  {
    forall s, l | ZeroRun(h, s, l) && s + l == n + 1 ensures l == 0 {
      if l > 0 {
        RunHas(h, s, l, n);
      }
    }
  }

  /** The best run becomes one empty part, with another one where it is at an end. */
  method ElideRun(hextets: seq<string>, start: int, len: int) returns (r: seq<string>)
    requires 0 <= start && 0 < len && start + len <= |hextets|
    ensures r == Elide(hextets, start, len)
  {
    r := hextets;
    if start + len == |hextets| {
      r := r + [""];
    }
    r := r[..start] + [""] + r[start + len..];
    if start == 0 {
      r := [""] + r;
    }
  }

  method CompressHextets(hextets: seq<string>) returns (r: seq<string>)
    ensures Compressed(hextets, r)
  {
    var bestDoublecolonStart, bestDoublecolonLen := -1, 0;
    var doublecolonStart, doublecolonLen := -1, 0;
    for index := 0 to |hextets|
      invariant ScanState(hextets, index, bestDoublecolonStart, bestDoublecolonLen, doublecolonStart, doublecolonLen)
    {
      if hextets[index] == "0" {
        ScanZero(hextets, index, bestDoublecolonStart, bestDoublecolonLen, doublecolonStart, doublecolonLen);
        doublecolonLen := doublecolonLen + 1;
        if doublecolonStart == -1 {
          doublecolonStart := index;
        }
        if doublecolonLen > bestDoublecolonLen {
          bestDoublecolonLen := doublecolonLen;
          bestDoublecolonStart := doublecolonStart;
        }
      } else {
        ScanOther(hextets, index, bestDoublecolonStart, bestDoublecolonLen, doublecolonStart, doublecolonLen);
        doublecolonLen := 0;
        doublecolonStart := -1;
      }
    }
    r := hextets;
    if bestDoublecolonLen > 1 {
      r := ElideRun(hextets, bestDoublecolonStart, bestDoublecolonLen);
      assert FirstLongest(hextets, bestDoublecolonStart, bestDoublecolonLen);
      assert ZeroRun(hextets, bestDoublecolonStart, 2);
    }
  }

  /** The `k` low groups of `n`, most significant first, each without leading zeros. */
  ghost function GroupsOf(n: nat, k: nat): (g: seq<string>)
    ensures |g| == k && Groups(g)
  {
    HexLength(n % 65536);
    if k == 0 then [] else GroupsOf(n / 65536, k - 1) + [Hex(n % 65536)]
  }

  lemma {:induction false} ValueOfGroups(n: nat, k: nat)
    requires n < Pow2(16 * k)
    ensures Value(GroupsOf(n, k)) == n
  {
    if k > 0 {
      Pow2Values();
      Pow2Add(16, 16 * (k - 1));
      ValueOfGroups(n / 65536, k - 1);
      HexLength(n % 65536);
      ValueAppend(GroupsOf(n / 65536, k - 1), Hex(n % 65536));
    }
  }

  lemma PaddedSplit(n: nat, w: nat)
    ensures HexPadded(n, w + 4) == HexPadded(n / 65536, w) + HexPadded(n, 4)
  {
    var a, b, c := n / 16, n / 16 / 16, n / 16 / 16 / 16;
    assert n / 65536 == c / 16;
    assert HexPadded(n, w + 4) == HexPadded(a, w + 3) + [DigitChar(n % 16)];
    assert HexPadded(a, w + 3) == HexPadded(b, w + 2) + [DigitChar(a % 16)];
    assert HexPadded(b, w + 2) == HexPadded(c, w + 1) + [DigitChar(b % 16)];
    assert HexPadded(c, w + 1) == HexPadded(c / 16, w) + [DigitChar(c % 16)];
    assert HexPadded(c, 1) == HexPadded(c / 16, 0) + [DigitChar(c % 16)] == [DigitChar(c % 16)];
    assert HexPadded(b, 2) == HexPadded(c, 1) + [DigitChar(b % 16)];
    assert HexPadded(a, 3) == HexPadded(b, 2) + [DigitChar(a % 16)];
    assert HexPadded(n, 4) == HexPadded(a, 3) + [DigitChar(n % 16)];
  }

  lemma SliceOfConcat(s: string, t: string, i: nat, j: nat)
    requires i <= j <= |s|
    ensures (s + t)[i..j] == s[i..j] && (s + t)[|s|..|s| + |t|] == t
  {
  }

  /** The `i`-th four digits of a number padded to `k` groups. */
  ghost function Slice(n: nat, k: nat, i: nat): (s: string)
    requires i < k
    ensures forall j :: 0 <= j < |s| ==> IsHexDigit(s[j])
  {
    HexPadded(n, 4 * k)[4 * i..4 * i + 4]
  }

  lemma SliceStep(n: nat, k: nat, i: nat)
    requires i < k
    ensures Slice(n, k, i) == if i == k - 1 then HexPadded(n, 4) else Slice(n / 65536, k - 1, i)
  {
    var w := 4 * (k - 1);
    PaddedSplit(n, w);
    if i == k - 1 {
      SliceOfConcat(HexPadded(n / 65536, w), HexPadded(n, 4), 0, 0);
    } else {
      SliceOfConcat(HexPadded(n / 65536, w), HexPadded(n, 4), 4 * i, 4 * i + 4);
    }
  }

  /** Each four digits of the padded number, read and printed again, are one group. */
  lemma {:induction false} SliceIsGroup(n: nat, k: nat, i: nat)
    requires i < k
    ensures Hex(Number(Slice(n, k, i), 16)) == GroupsOf(n, k)[i]
  {
    SliceStep(n, k, i);
    if i == k - 1 {
      FourDigits(n);
    } else {
      SliceIsGroup(n / 65536, k - 1, i);
    }
  }

  /** Text `s` is the printed form of `n`. */
  ghost predicate IsText(n: nat, s: string) {
    exists parts :: Compressed(GroupsOf(n, HEXTET_COUNT), parts) && s == Join(parts, ':')
  }

  method GroupStrings(ipInt: nat) returns (hextets: seq<string>)
    ensures hextets == GroupsOf(ipInt, HEXTET_COUNT)
  {
    var hexStr := HexPadded(ipInt, 4 * HEXTET_COUNT);
    hextets := [];
    for x := 0 to HEXTET_COUNT
      invariant |hextets| == x && forall i :: 0 <= i < x ==> hextets[i] == GroupsOf(ipInt, HEXTET_COUNT)[i]
    {
      SliceIsGroup(ipInt, HEXTET_COUNT, x);
      hextets := hextets + [Hex(Number(hexStr[4 * x..4 * x + 4], 16))];
    }
  }

  method StringFromIpInt(ipInt: nat) returns (r: Result<string, PrintError>)
    ensures r.Success? <==> ipInt < Pow2(16 * HEXTET_COUNT)
    ensures r.Success? ==> IsText(ipInt, r.value)
  {
    if ipInt > Pow2(16 * HEXTET_COUNT) - 1 {
      return Failure(AddressTooLarge);
    }
    var hextets := GroupStrings(ipInt);
    hextets := CompressHextets(hextets);
    return Success(Join(hextets, ':'));
  }

  /** Addresses are written in lower case (section 4.3 of RFC 5952). */
  lemma TextIsLower(n: nat, s: string)
    requires IsText(n, s)
    ensures forall c :: c in s ==> c == ':' || c in "0123456789abcdef"
  {
    var g := GroupsOf(n, HEXTET_COUNT);
    var parts :| Compressed(g, parts) && s == Join(parts, ':');
    GroupsAreLower(n, HEXTET_COUNT);
    forall k | 0 <= k < |parts| ensures parts[k] == "" || parts[k] in g {
      CompressedFrom(g, parts, k);
    }
    JoinHas(parts, ':');
  }

  lemma CompressedFrom(g: seq<string>, parts: seq<string>, k: nat)
    requires Compressed(g, parts) && k < |parts|
    ensures parts[k] == "" || parts[k] in g
  {
  }

  lemma {:induction false} GroupsAreLower(n: nat, k: nat)
    ensures forall x, c :: x in GroupsOf(n, k) && c in x ==> c in HEX_DIGITS
  {
    if k > 0 {
      GroupsAreLower(n / 65536, k - 1);
      HexIsLower(n % 65536);
    }
  }

  lemma {:induction false} JoinHas(parts: seq<string>, sep: char)
    ensures forall c :: c in Join(parts, sep) ==> c == sep || exists k :: 0 <= k < |parts| && c in parts[k]
  {
    if |parts| > 1 {
      JoinHas(parts[1..], sep);
      forall c | c in Join(parts, sep) && c != sep ensures exists k :: 0 <= k < |parts| && c in parts[k] {
        if c !in parts[0] {
          assert c in Join(parts[1..], sep);
          var k :| 0 <= k < |parts[1..]| && c in parts[1..][k];
          assert c in parts[k + 1];
        }
      }
    }
  }

  lemma AroundZeros(g: seq<string>, start: int, len: int)
    requires Groups(g) && ZeroRun(g, start, len)
    ensures g == g[..start] + Zeros(len) + g[start + len..] && Groups(g[..start]) && Groups(g[start + len..])
  {
  }

  lemma ZerosElided(hi: seq<string>, lo: seq<string>, len: nat, g: seq<string>)
    requires Groups(hi) && Groups(lo) && Groups(g) && len >= 1 && |hi| + len + |lo| == HEXTET_COUNT
    requires g == hi + Zeros(len) + lo
    ensures ElidedParts(Pad(hi) + [""] + Pad(lo), hi, lo, Value(g))
  {
  }

  /** Eliding a run of zeros keeps the value. */
  lemma ElideDenotes(g: seq<string>, start: int, len: int)
    requires Groups(g) && |g| == HEXTET_COUNT && ZeroRun(g, start, len) && len >= 1
    ensures ElidedParts(Elide(g, start, len), g[..start], g[start + len..], Value(g))
  {
    AroundZeros(g, start, len);
    ZerosElided(g[..start], g[start + len..], len, g);
  }

  lemma CompressedPlain(g: seq<string>, parts: seq<string>)
    requires Groups(g) && |g| == HEXTET_COUNT && Compressed(g, parts)
    ensures parts != [] && forall k :: 0 <= k < |parts| ==> ':' !in parts[k] && '.' !in parts[k]
  {
    GroupsHaveNoColon(g);
  }

  lemma CompressedDenotes(g: seq<string>, parts: seq<string>)
    requires Groups(g) && |g| == HEXTET_COUNT && Compressed(g, parts)
    ensures DenotesParts(parts, Value(g))
  {
    if exists z :: ZeroRun(g, z, 2) {
      var z, l :| l >= 2 && FirstLongest(g, z, l) && parts == Elide(g, z, l);
      ElideDenotes(g, z, l);
    }
  }

  /** The printed form of an address denotes it. */
  lemma TextDenotes(n: nat, s: string)
    requires n < Pow2(16 * HEXTET_COUNT) && IsText(n, s)
    ensures Denotes(s, n)
  {
    var g := GroupsOf(n, HEXTET_COUNT);
    var parts :| Compressed(g, parts) && s == Join(parts, ':');
    ValueOfGroups(n, HEXTET_COUNT);
    CompressedPlain(g, parts);
    CompressedDenotes(g, parts);
    SplitJoin(parts, ':');
  }

  /** Parsing a printed address gives the address back, and no other address prints the same. */
  lemma PrintParseRoundTrip(n: nat, s: string)
    requires n < Pow2(16 * HEXTET_COUNT) && IsText(n, s)
    ensures forall m :: Denotes(s, m) <==> m == n
    ensures forall m: nat, t :: m < Pow2(16 * HEXTET_COUNT) && IsText(m, t) && m != n ==> t != s
    ensures forall t :: IsText(n, t) ==> t == s
  {
    TextDenotes(n, s);
    forall m | Denotes(s, m) ensures m == n {
      DenotesUnique(s, n, m);
    }
    forall m: nat, t | m < Pow2(16 * HEXTET_COUNT) && IsText(m, t) && m != n ensures t != s {
      TextDenotes(m, t);
      if t == s {
        DenotesUnique(s, n, m);
      }
    }
    var parts :| Compressed(GroupsOf(n, HEXTET_COUNT), parts) && s == Join(parts, ':');
    forall t | IsText(n, t) ensures t == s {
      var parts' :| Compressed(GroupsOf(n, HEXTET_COUNT), parts') && t == Join(parts', ':');
      CompressedUnique(GroupsOf(n, HEXTET_COUNT), parts, parts');
    }
  }
}
