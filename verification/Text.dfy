/** Digits, numbers and separated lists as text: what Python's `%x`, `int`, `split` and `join` do here. */
module Text {
  import opened PowersOfTwo
  import opened Wrappers

  predicate IsHexDigit(c: char) {
    '0' <= c <= '9' || 'a' <= c <= 'f' || 'A' <= c <= 'F'
  }

  predicate IsDigit(c: char) {
    '0' <= c <= '9'
  }

  function DigitValue(c: char): (d: nat)
    requires IsHexDigit(c)
    ensures d < 16
    ensures IsDigit(c) ==> d < 10
  {
    if '0' <= c <= '9' then c as int - '0' as int
    else if 'a' <= c <= 'f' then c as int - 'a' as int + 10
    else c as int - 'A' as int + 10
  }

  function DigitChar(d: nat): (c: char)
    requires d < 16
    ensures IsHexDigit(c) && DigitValue(c) == d
  {
    if d < 10 then ('0' as int + d) as char else ('a' as int + d - 10) as char
  }

  const HEX_DIGITS: string := "0123456789abcdef"

  /** Digits are written in lower case, and read in either. */
  lemma DigitsAre(d: nat)
    requires d < 16
    ensures DigitChar(d) == HEX_DIGITS[d] && IsHexDigit(HEX_DIGITS[d]) && DigitValue(HEX_DIGITS[d]) == d
    ensures var upper := "0123456789ABCDEF"; IsHexDigit(upper[d]) && DigitValue(upper[d]) == d
  {
  }

  /** No other character is a digit. */
  lemma NoOtherDigits(c: char)
    ensures IsHexDigit(c) <==> c in "0123456789abcdefABCDEF"
    ensures IsDigit(c) <==> c in "0123456789"
  {
  }

  /** The value of a string of digits in the given base. */
  function Number(s: string, base: nat): nat
    requires forall k :: 0 <= k < |s| ==> IsHexDigit(s[k])
  {
    if s == "" then 0 else Number(s[..|s| - 1], base) * base + DigitValue(s[|s| - 1])
  }

  /** `%x`: no leading zeros, "0" for zero. */
  function Hex(v: nat): (s: string)
    ensures s != "" && forall k :: 0 <= k < |s| ==> IsHexDigit(s[k])
    ensures Number(s, 16) == v
    ensures s == "0" <==> v == 0
    ensures v < 16 ==> |s| == 1
  {
    if v < 16 then [DigitChar(v)]
    else
      var t := Hex(v / 16) + [DigitChar(v % 16)];
      assert t[..|t| - 1] == Hex(v / 16);
      t
  }

  lemma {:induction false} HexIsLower(v: nat)
    ensures forall c :: c in Hex(v) ==> c in HEX_DIGITS
  {
    DigitsAre(v % 16);
    if v >= 16 {
      HexIsLower(v / 16);
    }
  }

  lemma {:induction false} HexLength(v: nat)
    requires v < 65536
    ensures |Hex(v)| <= 4
  {
    if v >= 16 {
      if v >= 256 {
        if v >= 4096 {
          assert v / 16 / 16 / 16 < 16;
        }
        assert v / 16 / 16 < 256;
        assert |Hex(v / 16 / 16)| <= 2;
      }
      assert |Hex(v / 16)| <= 3;
    }
  }

  /** `%0wx` for numbers below 16^w. */
  function HexPadded(v: nat, w: nat): (s: string)
    ensures |s| == w && forall k :: 0 <= k < w ==> IsHexDigit(s[k])
  {
    if w == 0 then "" else HexPadded(v / 16, w - 1) + [DigitChar(v % 16)]
  }

  lemma PaddedStep(v: nat, w: nat)
    ensures Number(HexPadded(v, w + 1), 16) == Number(HexPadded(v / 16, w), 16) * 16 + v % 16
  {
    var s := HexPadded(v, w + 1);
    assert s[..|s| - 1] == HexPadded(v / 16, w);
  }

  lemma LastDigit(v: nat, high: nat, p: nat)
    requires p > 0 && high == (v / 16) % p
    ensures high * 16 + v % 16 == v % (16 * p)
  {
    var q := v / 16;
    assert q == p * (q / p) + high;
    assert v == 16 * q + v % 16;
    assert v == 16 * p * (q / p) + (high * 16 + v % 16);
    DivModUnique(v, 16 * p, q / p, high * 16 + v % 16);
  }

  lemma FourDigits(v: nat)
    ensures Number(HexPadded(v, 4), 16) == v % 65536
  {
    var a, b, c := v / 16, v / 16 / 16, v / 16 / 16 / 16;
    assert Number(HexPadded(c / 16, 0), 16) == 0;
    PaddedStep(c, 0);
    PaddedStep(b, 1);
    LastDigit(b, c % 16, 16);
    PaddedStep(a, 2);
    LastDigit(a, b % 256, 256);
    PaddedStep(v, 3);
    LastDigit(v, a % 4096, 4096);
  }

  /** `split` at every separator: a list with one more part than there are separators. */
  function Split(s: string, sep: char): (parts: seq<string>)
    ensures |parts| >= 1
    ensures forall k :: 0 <= k < |parts| ==> sep !in parts[k]
  {
    if s == "" then [""]
    else
      var rest := Split(s[1..], sep);
      if s[0] == sep then [""] + rest else [[s[0]] + rest[0]] + rest[1..]
  }

  function Join(parts: seq<string>, sep: char): string {
    if |parts| == 0 then ""
    else if |parts| == 1 then parts[0]
    else parts[0] + [sep] + Join(parts[1..], sep)
  }

  lemma {:induction false} SplitAt(p: string, rest: string, sep: char)
    requires sep !in p
    ensures Split(p + [sep] + rest, sep) == [p] + Split(rest, sep)
    ensures Split(p, sep) == [p]
  {
    if p == "" {
      assert p + [sep] + rest == [sep] + rest;
      assert ([sep] + rest)[1..] == rest;
    } else {
      SplitAt(p[1..], rest, sep);
      assert (p + [sep] + rest)[1..] == p[1..] + [sep] + rest;
      assert [p[0]] + p[1..] == p;
      assert ([p[1..]] + Split(rest, sep))[1..] == Split(rest, sep);
    }
  }

  /** Splitting undoes joining, when no part contains the separator. */
  lemma {:induction false} SplitJoin(parts: seq<string>, sep: char)
    requires parts != [] && forall k :: 0 <= k < |parts| ==> sep !in parts[k]
    ensures Split(Join(parts, sep), sep) == parts
  {
    if |parts| == 1 {
      SplitAt(parts[0], "", sep);
    } else {
      SplitJoin(parts[1..], sep);
      SplitAt(parts[0], Join(parts[1..], sep), sep);
    }
  }

  lemma JoinStep(parts: seq<string>, rest: string, sep: char)
    requires |parts| > 1
    ensures Join(parts, sep) + [sep] + rest == parts[0] + [sep] + (Join(parts[1..], sep) + [sep] + rest)
  {
    var p, t := parts[0] + [sep], Join(parts[1..], sep);
    assert (p + t) + ([sep] + rest) == p + (t + ([sep] + rest));
    assert (p + t) + [sep] + rest == (p + t) + ([sep] + rest);
    assert t + [sep] + rest == t + ([sep] + rest);
  }

  lemma FirstAndRest(parts: seq<string>, more: seq<string>)
    requires parts != []
    ensures [parts[0]] + (parts[1..] + more) == parts + more
  {
  }

  lemma {:induction false} SplitJoinThen(parts: seq<string>, rest: string, sep: char)
    requires parts != [] && forall k :: 0 <= k < |parts| ==> sep !in parts[k]
    ensures Split(Join(parts, sep) + [sep] + rest, sep) == parts + Split(rest, sep)
  {
    if |parts| == 1 {
      SplitAt(parts[0], rest, sep);
    } else {
      SplitJoinThen(parts[1..], rest, sep);
      JoinStep(parts, rest, sep);
      SplitAt(parts[0], Join(parts[1..], sep) + [sep] + rest, sep);
      FirstAndRest(parts, Split(rest, sep));
    }
  }

  lemma {:induction false} JoinSplit(s: string, sep: char)
    ensures Join(Split(s, sep), sep) == s
  {
    if s == "" {
    } else {
      JoinSplit(s[1..], sep);
      var rest := Split(s[1..], sep);
      assert s == [s[0]] + s[1..];
      if s[0] == sep {
        assert ([""] + rest)[1..] == rest;
        assert "" + [sep] + Join(rest, sep) == [sep] + Join(rest, sep);
      } else {
        var parts := [[s[0]] + rest[0]] + rest[1..];
        assert parts[1..] == rest[1..];
        if |rest| > 1 {
          assert Join(parts, sep) == [s[0]] + rest[0] + [sep] + Join(rest[1..], sep) == [s[0]] + Join(rest, sep);
        }
      }
    }
  }
}
