/**
 The Internet checksum of `tunslip` and its update in place when a packet from the tunnel gets an identification.
 `mem` is a packet together with whatever follows it in memory: `check_ip` looks behind the end of a packet whose
 header claims to be longer.
 */
module Checksum {
  import opened Bytes
  import opened Slip

  const ONES: nat := 65535
  /** The longest header and the largest 16-bit length behind it. */
  const REACH: nat := 60 + 65535

  // ---------------------------------------------------------------- sums of words

  function Weight(i: nat): nat {
    if i % 2 == 0 then 256 else 1
  }

  /** The sum of the big-endian words, an odd last byte filled up with zero. */
  function WordSum(bytes: seq<Byte>): nat {
    if bytes == [] then 0 else WordSum(bytes[..|bytes| - 1]) + Weight(|bytes| - 1) * bytes[|bytes| - 1]
  }

  /** A sum brought into sixteen bits by end-around carries: zero only for zero. */
  function Fold(n: nat): (r: nat)
    ensures r <= ONES
  {
    if n == 0 then 0 else (n - 1) % ONES + 1
  }

  /** A sum that is zero or all ones once folded. */
  predicate Good(total: nat) {
    total % ONES == 0
  }

  lemma FoldMeans(n: nat)
    ensures Fold(n) % ONES == n % ONES
    ensures Fold(n) == 0 <==> n == 0
    ensures Fold(n) == 0 || Fold(n) == 0xFFFF <==> Good(n)
  {
  }

  /** One step of the loop: a sum that became smaller than the summand has lost a carry. */
  function AddCarry(a: nat, b: nat): (r: nat)
    requires a <= ONES && b <= ONES
    ensures r <= ONES
    ensures r == a + b || r == a + b - ONES
  {
    var sum := (a + b) % 65536;
    if sum < b then sum + 1 else sum
  }

  lemma FoldAdd(n: nat, t: nat)
    requires t <= ONES
    ensures Fold(n + t) == AddCarry(Fold(n), t)
  {
  }

  lemma AddWord(sum: nat, bytes: seq<Byte>, i: nat)
    requires i + 2 <= |bytes| && i % 2 == 0
    ensures Fold(sum + WordSum(bytes[..i + 2])) ==
            AddCarry(Fold(sum + WordSum(bytes[..i])), 256 * bytes[i] as nat + bytes[i + 1])
  {
    WordSumTwo(bytes, i);
    FoldAdd(sum + WordSum(bytes[..i]), 256 * bytes[i] as nat + bytes[i + 1]);
  }

  lemma WordSumTwo(bytes: seq<Byte>, i: nat)
    requires i + 2 <= |bytes| && i % 2 == 0
    ensures WordSum(bytes[..i + 2]) == WordSum(bytes[..i]) + 256 * bytes[i] as nat + bytes[i + 1]
  {
    assert bytes[..i + 2][..i + 1] == bytes[..i + 1];
    assert bytes[..i + 1][..i] == bytes[..i];
    assert Weight(i) == 256 && Weight(i + 1) == 1;
  }

  lemma {:induction false} WordSumUpdate(bytes: seq<Byte>, i: nat, x: Byte)
    requires i < |bytes|
    ensures WordSum(bytes[i := x]) == WordSum(bytes) + Weight(i) * x - Weight(i) * bytes[i]
  {
    var front := bytes[..|bytes| - 1];
    if i == |bytes| - 1 {
      assert bytes[i := x][..|bytes| - 1] == front;
    } else {
      assert bytes[i := x][..|bytes| - 1] == front[i := x];
      WordSumUpdate(front, i, x);
    }
  }

  /** Sixteen-bit addition with the end-around carry. */
  method Add(sum: nat, t: nat) returns (r: nat)
    requires sum <= ONES && t <= ONES
    ensures r == AddCarry(sum, t)
  {
    r := (sum + t) % 65536;
    if r < t {
      r := r + 1;
    }
  }

  lemma AddLast(sum: nat, bytes: seq<Byte>)
    requires bytes != [] && Weight(|bytes| - 1) == 256
    ensures Fold(sum + WordSum(bytes)) ==
            AddCarry(Fold(sum + WordSum(bytes[..|bytes| - 1])), 256 * bytes[|bytes| - 1] as nat)
  {
    var n := |bytes| - 1;
    assert WordSum(bytes) == WordSum(bytes[..n]) + 256 * bytes[n] as nat;
    FoldAdd(sum + WordSum(bytes[..n]), 256 * bytes[n] as nat);
  }

  /** The loop over the whole words; `i` is where it stops. */
  method SumWords(sum: nat, mem: array<Byte>, at: nat, len: nat) returns (r: nat, i: nat)
    requires sum <= ONES && at + len <= mem.Length
    ensures len - 1 <= i <= len && Weight(i) == 256
    ensures r == Fold(sum + WordSum(mem[at..at + len][..i]))
  {
    ghost var bytes := mem[at..at + len];
    i, r := 0, sum;
    assert bytes[..0] == [];
    while i < len - 1
      invariant 0 <= i <= len && i % 2 == 0
      invariant r == Fold(sum + WordSum(bytes[..i]))
    {
      var t: nat := 256 * (mem[at + i] as nat) + mem[at + i + 1];
      assert mem[at + i] == bytes[i] && mem[at + i + 1] == bytes[i + 1];
      AddWord(sum, bytes, i);
      r := Add(r, t);
      i := i + 2;
    }
  }

  /** The one's-complement sum of memory, on top of `sum`. */
  method Ip4Sum(sum: nat, mem: array<Byte>, at: nat, len: nat) returns (r: nat)
    requires sum <= ONES && at + len <= mem.Length
    ensures r == Fold(sum + WordSum(mem[at..at + len]))
  {
    var i;
    r, i := SumWords(sum, mem, at, len);
    ghost var bytes := mem[at..at + len];
    if i < len {
      AddLast(sum, bytes);
      var last: nat := mem[at + i];
      assert last == bytes[|bytes| - 1];
      r := Add(r, 256 * last);
    } else {
      assert bytes[..i] == bytes;
    }
  }

  // ---------------------------------------------------------------- check_ip

  function WordAt(mem: seq<Byte>, at: nat): nat
    requires at + 2 <= |mem|
  {
    256 * mem[at] as nat + mem[at + 1]
  }

  /** The header length field, in words of four bytes. */
  function HeaderWords(mem: seq<Byte>): nat
    requires |mem| >= REACH
  {
    mem[0] % 16
  }

  predicate HeaderGood(mem: seq<Byte>)
    requires |mem| >= REACH
  {
    Good(WordSum(mem[..4 * HeaderWords(mem)]))
  }

  /** What follows the header, in a 16-bit length that wraps around when the header is longer than the packet. */
  function PayloadLength(mem: seq<Byte>, len: nat): nat
    requires |mem| >= REACH
  {
    (len - 4 * HeaderWords(mem)) % 65536
  }

  function PayloadSum(mem: seq<Byte>, len: nat): nat
    requires |mem| >= REACH
  {
    var start := 4 * HeaderWords(mem);
    WordSum(mem[start..start + PayloadLength(mem, len)])
  }

  function PayloadCode(mem: seq<Byte>, len: nat): int
    requires |mem| >= REACH
  {
    if mem[9] == 6 || mem[9] == 17 then
      var pseudo := (mem[9] + PayloadLength(mem, len)) % 65536 + WordSum(mem[12..20]);
      if Good(pseudo + PayloadSum(mem, len)) then 0
      else if mem[9] == 6 then -5
      else if WordAt(mem, 26) != 0 then -6
      else 0
    else if mem[9] == 1 && !Good(PayloadSum(mem, len)) then -7
    else 0
  }

  /** The result of `check_ip`: zero for a good packet, else which check failed. */
  function CheckCode(mem: seq<Byte>, len: nat): int
    requires |mem| >= REACH
  {
    if mem[0] / 16 != 4 then -1
    else if WordAt(mem, 2) > len then -2
    else if WordAt(mem, 2) < len then -3
    else if !HeaderGood(mem) then -4
    else PayloadCode(mem, len)
  }

  // ---------------------------------------------------------------- what the verdict means

  /** The segment that the code reads: the length is a 16-bit number. */
  function Segment(mem: seq<Byte>, len: nat): (s: seq<Byte>)
    requires |mem| >= REACH
    ensures |s| <= 65535
  {
    var start: nat := 4 * (mem[0] % 16);
    mem[start..start + (len - start) % 65536]
  }

  /**
   A segment is right if the words of the pseudo header, which are the addresses, the protocol and the length, and those
   of the segment sum up to 0 modulo 65535. The code adds the protocol to the length without a carry: for a segment of
   almost 65536 bytes, which a header of five words excludes, it asks for 1 instead.
   */
  predicate SegmentGood(mem: seq<Byte>, protocol: Byte, segment: seq<Byte>)
    requires |mem| >= REACH
  {
    (WordSum(mem[12..20]) + protocol + |segment| + WordSum(segment)) % 65535 ==
    if protocol as nat + |segment| < 65536 then 0 else 1
  }

  /** What a result of `check_ip` means (sections 3.1 of RFC 793 and of RFC 791, RFC 768, RFC 792). */
  ghost predicate IsVerdict(mem: seq<Byte>, len: nat, code: int)
    requires |mem| >= REACH
  {
    var segment := Segment(mem, len);
    if mem[0] / 16 != 4 then code == -1
    else if 256 * mem[2] as nat + mem[3] > len then code == -2
    else if 256 * mem[2] as nat + mem[3] < len then code == -3
    else if WordSum(mem[..4 * (mem[0] % 16)]) % 65535 != 0 then code == -4
    else if mem[9] == 6 then code == if SegmentGood(mem, 6, segment) then 0 else -5
    else if mem[9] == 17 then code == if SegmentGood(mem, 17, segment) || (mem[26] == 0 && mem[27] == 0) then 0 else -6
    else if mem[9] == 1 then code == if WordSum(segment) % 65535 == 0 then 0 else -7
    else code == 0
  }

  /** Words are big-endian, an odd last byte is the high one of its word, and sums are sums of the words. */
  lemma {:induction false} WordSumJoin(a: seq<Byte>, b: seq<Byte>)
    requires |a| % 2 == 0
    ensures WordSum(a + b) == WordSum(a) + WordSum(b)
    ensures |b| == 0 ==> WordSum(b) == 0
    ensures |b| == 1 ==> WordSum(b) == 256 * b[0] as nat
    ensures |b| == 2 ==> WordSum(b) == 256 * b[0] as nat + b[1]
  {
    if b == [] {
      assert a + b == a;
    } else {
      var n := |b| - 1;
      WordSumJoin(a, b[..n]);
      assert (a + b)[..|a| + n] == a + b[..n];
      assert Weight(|a| + n) == Weight(n);
    }
  }

  lemma LostCarry(a: nat, p: nat, n: nat, b: nat)
    requires p + n < 2 * 65536
    ensures ((p + n) % 65536 + a + b) % ONES == 0 <==> (a + p + n + b) % ONES == if p + n < 65536 then 0 else 1
  {
    if p + n >= 65536 {
      assert (p + n) % 65536 == p + n - 65536;
      var r := p + n - 65536 + a + b;
      assert a + p + n + b == r + 1 + ONES;
    }
  }

  lemma SegmentGoodIff(mem: seq<Byte>, protocol: Byte, segment: seq<Byte>)
    requires |mem| >= REACH && |segment| <= 65535
    ensures SegmentGood(mem, protocol, segment) <==>
            Good((protocol as nat + |segment|) % 65536 + WordSum(mem[12..20]) + WordSum(segment))
  {
    LostCarry(WordSum(mem[12..20]), protocol, |segment|, WordSum(segment));
  }

  /** Whatever the packet, the result says what is wrong with it. */
  lemma VerdictMeans(mem: seq<Byte>, len: nat)
    requires |mem| >= REACH
    ensures IsVerdict(mem, len, CheckCode(mem, len))
  {
    SegmentGoodIff(mem, mem[9], Segment(mem, len));
  }

  /** With a header of five words or more inside the packet no carry is lost. */
  lemma NoLostCarry(mem: seq<Byte>, len: nat, protocol: Byte)
    requires |mem| >= REACH && len <= 65535 && 20 <= 4 * (mem[0] % 16) <= len && protocol <= 17
    ensures protocol as nat + |Segment(mem, len)| < 65536
  {
  }

  lemma FoldTwice(n: nat, m: nat)
    ensures Fold(Fold(n) + m) == Fold(n + m)
  {
    if n != 0 {
      var r := Fold(n);
      assert n == r + (n - 1) / ONES * ONES;
      ModShift(r + m - 1, (n - 1) / ONES);
    }
  }

  lemma ModShift(a: nat, k: nat)
    ensures (a + k * ONES) % ONES == a % ONES
  {
  }

  /** The sums over the pseudo header and the payload. */
  method SumTransport(mem: array<Byte>, hl: nat, payload: nat) returns (sum: nat)
    requires mem.Length >= REACH && payload <= ONES && hl + payload <= mem.Length
    ensures sum == 0 || sum == 0xFFFF <==>
            Good((mem[9] + payload) % 65536 + WordSum(mem[12..20]) + WordSum(mem[hl..hl + payload]))
  {
    var first := ((mem[9] as nat) + payload) % 65536;
    sum := Ip4Sum(first, mem, 12, 8);
    ghost var pseudo := first + WordSum(mem[12..20]);
    ghost var rest := WordSum(mem[hl..hl + payload]);
    FoldTwice(pseudo, rest);
    FoldMeans(pseudo + rest);
    sum := Ip4Sum(sum, mem, hl, payload);
  }

  /** With the UDP checksum switched off the result is zero. */
  method CheckPayload(mem: array<Byte>, hl: nat, len: nat) returns (code: int)
    requires mem.Length >= REACH && hl == 4 * HeaderWords(mem[..])
    ensures code == PayloadCode(mem[..], len)
  {
    ghost var bytes := mem[..];
    var payload: nat := (len - hl) % 65536;
    assert mem[hl..hl + payload] == bytes[hl..hl + payload];
    assert mem[12..20] == bytes[12..20];
    if mem[9] == 6 || mem[9] == 17 {
      var sum := SumTransport(mem, hl, payload);
      if sum != 0xFFFF && sum != 0 {
        if mem[9] == 6 {
          return -5;
        } else if mem[26] != 0 || mem[27] != 0 {
          return -6;
        }
      }
    } else if mem[9] == 1 {
      var sum := Ip4Sum(0, mem, hl, payload);
      FoldMeans(PayloadSum(bytes, len));
      if sum != 0xFFFF && sum != 0 {
        return -7;
      }
    }
    return 0;
  }

  method CheckIp(mem: array<Byte>, len: nat) returns (code: int)
    requires mem.Length >= REACH
    ensures code == CheckCode(mem[..], len) && IsVerdict(mem[..], len, code)
  {
    VerdictMeans(mem[..], len);
    if mem[0] / 16 != 4 {
      return -1;
    }
    var total: nat := 256 * (mem[2] as nat) + mem[3];
    if total > len {
      return -2;
    }
    if total < len {
      return -3;
    }
    var hl: nat := 4 * (mem[0] % 16);
    var sum := Ip4Sum(0, mem, 0, hl);
    assert mem[0..hl] == mem[..][..hl];
    FoldMeans(WordSum(mem[..][..hl]));
    if sum != 0xFFFF && sum != 0 {
      return -4;
    }
    code := CheckPayload(mem, hl, len);
  }

  // ---------------------------------------------------------------- the identification

  /** A 16-bit field as the host sees it. */
  function Load(little: bool, high: Byte, low: Byte): nat {
    if little then high + 256 * low as nat else 256 * high as nat + low
  }

  /** Whether the packet gets an identification. */
  predicate NeedsId(little: bool, mem: seq<Byte>)
    requires |mem| >= REACH
  {
    mem[4] == 0 && mem[5] == 0 && Load(little, mem[6], mem[7]) / 0x4000 % 2 == 1
  }

  /** The field is tested in host order: a little-endian host looks into the fragment offset, not at the flag. */
  lemma FlagTestedIff(little: bool, high: Byte, low: Byte)
    ensures (Load(little, high, low) / 0x4000 % 2 == 1) == (high / 0x40 % 2 == 1) <==>
            !little || high / 0x40 % 2 == low / 0x40 % 2
  {
    TopBits(high, low);
    TopBits(low, high);
  }

  /** A little-endian host overlooks the flag, and takes a bit of the fragment offset for it. */
  lemma FlagOverlooked(mem: seq<Byte>)
    requires |mem| >= REACH
    ensures forall little :: NeedsId(little, mem) <==>
      mem[4] == 0 && mem[5] == 0 && (if little then mem[7] else mem[6]) / 0x40 % 2 == 1
    ensures mem[4] == 0 && mem[5] == 0 && mem[6] == 0x40 && mem[7] == 0 ==> NeedsId(false, mem) && !NeedsId(true, mem)
    ensures mem[4] == 0 && mem[5] == 0 && mem[6] == 0 && mem[7] == 0x40 ==> !NeedsId(false, mem) && NeedsId(true, mem)
  {
    FlagTestedIff(true, mem[6], mem[7]);
    TopBits(mem[6], mem[7]);
    TopBits(mem[7], mem[6]);
  }

  lemma TopBits(high: Byte, low: Byte)
    ensures (256 * high as nat + low) / 0x4000 % 2 == high / 0x40 % 2
  {
  }

  /** A big-endian host or a little-endian one, the checksum field moves by minus the identification. */
  lemma CarryInAnyOrder(little: bool, high: Byte, low: Byte, x0: Byte, x1: Byte, high1: Byte, low1: Byte)
    requires Load(little, high1, low1) == AddCarry(Load(little, high, low), ONES - Load(little, x0, x1))
    ensures (256 * high1 as int + low1 - 256 * high as int - low + 256 * x0 as int + x1) % ONES == 0
  {
    var moved: int := Load(little, high1, low1) - Load(little, high, low) + Load(little, x0, x1);
    assert moved == ONES || moved == 0;
    var h1: int, l1: int, h: int, l: int, y0: int, y1: int := high1, low1, high, low, x0, x1;
    if little {
      var k := moved / ONES;
      assert h1 + 256 * l1 - h - 256 * l + y0 + 256 * y1 == ONES * k;
      Multiple(256 * k - l1 + l - y1);
    }
  }

  lemma Multiple(k: int)
    ensures (ONES * k) % ONES == 0
  {
  }

  function StoredFirst(little: bool, v: nat): Byte
    requires v <= ONES
  {
    if little then v % 256 else v / 256
  }

  function StoredSecond(little: bool, v: nat): Byte
    requires v <= ONES
  {
    if little then v / 256 else v % 256
  }

  lemma LoadStored(little: bool, v: nat)
    requires v <= ONES
    ensures Load(little, StoredFirst(little, v), StoredSecond(little, v)) == v
  {
  }

  /** The checksum field after the identification `id` was subtracted in host order. */
  function NewSum(little: bool, mem: seq<Byte>, id: nat): nat
    requires |mem| >= REACH && id <= ONES
  {
    AddCarry(Load(little, mem[10], mem[11]), ONES - Load(little, id / 256, id % 256))
  }

  /** The packet with the identification filled in and the checksum updated. */
  function Renumbered(little: bool, mem: seq<Byte>, id: nat): (r: seq<Byte>)
    requires |mem| >= REACH && id <= ONES
    ensures |r| == |mem|
  {
    var sum := NewSum(little, mem, id);
    mem[4 := id / 256][5 := id % 256][10 := StoredFirst(little, sum)][11 := StoredSecond(little, sum)]
  }

  lemma TwoUpdates(bytes: seq<Byte>, i: nat, x0: Byte, x1: Byte)
    requires i + 2 <= |bytes| && i % 2 == 0
    ensures WordSum(bytes[i := x0][i + 1 := x1])
         == WordSum(bytes) + 256 * x0 as int + x1 - 256 * bytes[i] as int - bytes[i + 1]
  {
    WordSumUpdate(bytes, i, x0);
    WordSumUpdate(bytes[i := x0], i + 1, x1);
    assert Weight(i) == 256 && Weight(i + 1) == 1;
  }

  lemma RenumberedTake(little: bool, mem: seq<Byte>, id: nat, n: nat)
    requires |mem| >= REACH && id <= ONES && 12 <= n <= |mem|
    ensures var v := NewSum(little, mem, id);
            Renumbered(little, mem, id)[..n] ==
            mem[..n][4 := id / 256][5 := id % 256][10 := StoredFirst(little, v)][11 := StoredSecond(little, v)]
  {
  }

  lemma FourUpdates(header: seq<Byte>, x0: Byte, x1: Byte, y0: Byte, y1: Byte)
    requires |header| >= 12 && header[4] == 0 && header[5] == 0
    ensures WordSum(header[4 := x0][5 := x1][10 := y0][11 := y1]) - WordSum(header)
         == 256 * y0 as int + y1 - 256 * header[10] as int - header[11] + 256 * x0 as int + x1
  {
    TwoUpdates(header, 4, x0, x1);
    TwoUpdates(header[4 := x0][5 := x1], 10, y0, y1);
  }

  lemma LongHeaderSum(little: bool, mem: seq<Byte>, n: nat, id: nat)
    requires |mem| >= REACH && id <= ONES && mem[4] == 0 && mem[5] == 0 && 12 <= n <= |mem|
    ensures WordSum(Renumbered(little, mem, id)[..n]) % ONES == WordSum(mem[..n]) % ONES
  {
    var v := NewSum(little, mem, id);
    var y0: Byte, y1: Byte := StoredFirst(little, v), StoredSecond(little, v);
    RenumberedTake(little, mem, id, n);
    FourUpdates(mem[..n], id / 256, id % 256, y0, y1);
    LoadStored(little, v);
    CarryInAnyOrder(little, mem[10], mem[11], id / 256, id % 256, y0, y1);
    SameModulo(WordSum(Renumbered(little, mem, id)[..n]), WordSum(mem[..n]));
  }

  lemma RenumberedHeader(little: bool, mem: seq<Byte>, id: nat)
    requires |mem| >= REACH && id <= ONES && mem[4] == 0 && mem[5] == 0
    ensures var hl := 4 * HeaderWords(mem);
            var sum := WordSum(Renumbered(little, mem, id)[..hl]);
            && (hl <= 4 ==> sum == WordSum(mem[..hl]))
            && (hl == 8 ==> sum == WordSum(mem[..hl]) + id)
            && (hl >= 12 ==> sum % ONES == WordSum(mem[..hl]) % ONES)
  {
    var hl := 4 * HeaderWords(mem);
    var header: seq<Byte> := mem[..hl];
    if hl <= 4 {
      assert Renumbered(little, mem, id)[..hl] == header;
    } else if hl == 8 {
      TwoUpdates(header, 4, id / 256, id % 256);
      assert Renumbered(little, mem, id)[..hl] == header[4 := id / 256][5 := id % 256];
    } else {
      LongHeaderSum(little, mem, hl, id);
    }
  }

  lemma SameModulo(a: int, b: int)
    requires (a - b) % ONES == 0
    ensures a % ONES == b % ONES
  {
    var k := (a - b) / ONES;
    assert a == b + k * ONES;
  }

  lemma GoodShift(a: nat, id: nat)
    requires Good(a)
    ensures Good(a + id) <==> Good(id)
  {
  }

  /** A good header stays good unless it covers the identification and not the checksum. */
  lemma HeaderKeptIff(little: bool, mem: seq<Byte>, id: nat)
    requires |mem| >= REACH && id <= ONES && mem[4] == 0 && mem[5] == 0 && HeaderGood(mem)
    ensures HeaderGood(Renumbered(little, mem, id)) <==> HeaderWords(mem) != 2 || id % ONES == 0
  {
    RenumberedHeader(little, mem, id);
    GoodShift(WordSum(mem[..4 * HeaderWords(mem)]), id);
  }

  lemma EightBytes(bytes: seq<Byte>)
    requires |bytes| == 8
    ensures WordSum(bytes) == 256 * (bytes[0] as nat + bytes[2] + bytes[4] + bytes[6])
                            + bytes[1] as nat + bytes[3] + bytes[5] + bytes[7]
  {
    WordSumTwo(bytes, 0);
    WordSumTwo(bytes, 2);
    WordSumTwo(bytes, 4);
    WordSumTwo(bytes, 6);
    assert bytes[..8] == bytes;
  }

  /** A packet of 28 bytes with a header of two words passes, and fails once it has the identification 1. */
  lemma ShortHeaderSpoiled(mem: seq<Byte>)
    requires |mem| >= REACH && mem[..8] == [0x42, 0, 0, 28, 0, 0, 0xBD, 0xE3] && mem[9] == 0
    ensures CheckCode(mem, 28) == 0 && NeedsId(true, mem)
    ensures CheckCode(Renumbered(true, mem, 1), 28) == -4
  {
    var header := mem[..8];
    assert header[0] == mem[0] && header[2] == mem[2] && header[3] == mem[3] && header[4] == mem[4];
    assert header[5] == mem[5] && header[6] == mem[6] && header[7] == mem[7];
    EightBytes(header);
    HeaderKeptIff(true, mem, 1);
  }

  lemma RenumberedKeeps(little: bool, mem: seq<Byte>, id: nat, at: nat)
    requires |mem| >= REACH && id <= ONES && at < |mem| && at !in {4, 5, 10, 11}
    ensures Renumbered(little, mem, id)[at] == mem[at]
  {
  }

  lemma PayloadKept(a: seq<Byte>, b: seq<Byte>, len: nat)
    requires |a| >= REACH && |b| >= REACH
    requires a[0] == b[0] && a[9] == b[9] && a[26] == b[26] && a[27] == b[27]
    requires a[12..20] == b[12..20]
    requires var start := 4 * HeaderWords(a);
             a[start..start + PayloadLength(a, len)] == b[start..start + PayloadLength(a, len)]
    ensures PayloadCode(a, len) == PayloadCode(b, len)
  {
  }

  /** With both fields inside the header, every check has the result it had before. */
  lemma CheckKept(little: bool, mem: seq<Byte>, id: nat, len: nat)
    requires |mem| >= REACH && id <= ONES && mem[4] == 0 && mem[5] == 0 && HeaderWords(mem) >= 3
    ensures CheckCode(Renumbered(little, mem, id), len) == CheckCode(mem, len)
  {
    var after := Renumbered(little, mem, id);
    forall at | at in {0, 2, 3, 9, 26, 27} ensures after[at] == mem[at] {
      RenumberedKeeps(little, mem, id, at);
    }
    assert 0 in {0, 2, 3, 9, 26, 27} && 2 in {0, 2, 3, 9, 26, 27} && 3 in {0, 2, 3, 9, 26, 27};
    RenumberedHeader(little, mem, id);
    RenumberedBehind(little, mem, id, 12, 8);
    RenumberedBehind(little, mem, id, 4 * HeaderWords(mem), PayloadLength(mem, len));
    PayloadKept(mem, after, len);
  }

  lemma RenumberedBehind(little: bool, mem: seq<Byte>, id: nat, at: nat, len: nat)
    requires |mem| >= REACH && id <= ONES && 12 <= at && at + len <= |mem|
    ensures Renumbered(little, mem, id)[at..at + len] == mem[at..at + len]
  {
  }

  // ---------------------------------------------------------------- a lost carry

  lemma {:induction false} ZerosSum(bytes: seq<Byte>)
    requires forall k :: 0 <= k < |bytes| ==> bytes[k] == 0
    ensures WordSum(bytes) == 0
  {
    if bytes != [] {
      ZerosSum(bytes[..|bytes| - 1]);
    }
  }

  lemma SumSplit(bytes: seq<Byte>, n: nat)
    requires n <= |bytes| && n % 2 == 0
    ensures WordSum(bytes) == WordSum(bytes[..n]) + WordSum(bytes[n..])
  {
    assert bytes == bytes[..n] + bytes[n..];
    WordSumJoin(bytes[..n], bytes[n..]);
  }

  lemma ThreeParts(bytes: seq<Byte>, second: seq<Byte>, third: seq<Byte>, rest: seq<Byte>)
    requires |bytes| >= 24 && second == bytes[8..] && third == second[8..] && rest == third[8..]
    ensures WordSum(bytes) == WordSum(bytes[..8]) + WordSum(second[..8]) + WordSum(third[..8]) + WordSum(rest)
  {
    SumSplit(bytes, 8);
    SumSplit(second, 8);
    SumSplit(third, 8);
  }

  /** A packet of 65535 bytes without a header of its own, all zero but for a few. */
  ghost predicate IsHuge(mem: seq<Byte>) {
    && |mem| >= REACH
    && mem[..8] == [0x40, 0, 0xFF, 0xFF, 0, 0, 0, 0]
    && mem[8..16] == [0, 6, 0, 0, 0, 0, 0, 0]
    && mem[16..24] == [0, 0, 0, 0, 0xBF, 0xF3, 0, 0]
    && forall k :: 24 <= k < |mem| ==> mem[k] == 0
  }

  lemma HugeSum(mem: seq<Byte>)
    requires IsHuge(mem)
    ensures WordSum(mem[12..20]) == 0 && WordSum(mem[..65535]) == 0x4000 + 0xFFFF + 6 + 0xBFF3
  {
    var bytes := mem[..65535];
    var second := bytes[8..];
    var third := second[8..];
    var rest := third[8..];
    assert bytes[..8] == mem[..8] && second[..8] == mem[8..16] && third[..8] == mem[16..24];
    ThreeParts(bytes, second, third, rest);
    EightBytes(mem[..8]);
    EightBytes(mem[8..16]);
    EightBytes(mem[16..24]);
    ZerosSum(rest);
    assert mem[12..16] == mem[8..16][4..] && mem[16..20] == mem[16..24][..4];
    assert mem[12..20] == mem[12..16] + mem[16..20];
    ZerosSum(mem[12..20]);
  }

  /** Its words sum up to 0 modulo 65535 as TCP wants it, and it is rejected. */
  lemma HugeRejected(mem: seq<Byte>)
    requires IsHuge(mem)
    ensures (WordSum(mem[12..20]) + 6 + 65535 + WordSum(mem[..65535])) % 65535 == 0
    ensures CheckCode(mem, 65535) == -5
  {
    var first, second := mem[..8], mem[8..16];
    assert mem[0] == first[0] && mem[2] == first[2] && mem[3] == first[3] && mem[9] == second[1];
    HugeSum(mem);
    assert mem[0..65535] == mem[..65535];
    assert Segment(mem, 65535) == mem[..65535];
    assert mem[..0] == [];
    VerdictMeans(mem, 65535);
  }

  // ---------------------------------------------------------------- write_to_serial

  datatype Outcome = Sent | Dropped(code: int) | Overflow

  /**
   A packet that passes, has no identification and, in the byte that the host looks at, the flag gets the next one; only
   this and the checksum may change.
   */
  ghost predicate Filled(little: bool, before: seq<Byte>, len: nat, id: nat, after: seq<Byte>, next: nat)
    requires |before| == |after| >= REACH
  {
    && (forall i :: 0 <= i < |after| && i !in {4, 5, 10, 11} ==> after[i] == before[i])
    && if IsVerdict(before, len, 0) && before[4] == 0 && before[5] == 0 &&
          (if little then before[7] else before[6]) / 0x40 % 2 == 1
       then 256 * after[4] as nat + after[5] == id && next == (id + 1) % 65536
       else after == before && next == id
  }

  lemma PreparedIsFilled(little: bool, mem: seq<Byte>, len: nat, id: nat)
    requires |mem| >= REACH && id <= ONES
    ensures var needs := CheckCode(mem, len) == 0 && NeedsId(little, mem);
      Filled(little, mem, len, id, if needs then Renumbered(little, mem, id) else mem,
        if needs then (id + 1) % 65536 else id)
  {
    VerdictMeans(mem, len);
    FlagOverlooked(mem);
    RenumberedId(little, mem, id);
  }

  lemma RenumberedId(little: bool, mem: seq<Byte>, id: nat)
    requires |mem| >= REACH && id <= ONES
    ensures var after := Renumbered(little, mem, id);
      && 256 * after[4] as nat + after[5] == id
      && forall i :: 0 <= i < |after| && i !in {4, 5, 10, 11} ==> after[i] == mem[i]
  {
  }

  class Tunnel {
    const little: bool
    const sender: Sender
    var ipId: nat

    ghost predicate Valid()
      reads this, sender
    {
      ipId <= ONES && sender.Valid()
    }

    constructor (little: bool, seed: nat)
      ensures Valid() && fresh(sender) && fresh(sender.slipBuf) && this.little == little && ipId == seed % 65536
    {
      this.little := little;
      sender := new Sender();
      ipId := seed % 65536;
    }

    method Renumber(mem: array<Byte>)
      requires ipId <= ONES && mem.Length >= REACH
      modifies `ipId, mem
      ensures mem[..] == Renumbered(little, old(mem[..]), old(ipId))
      ensures 256 * mem[4] as nat + mem[5] == old(ipId)
      ensures forall i :: 0 <= i < mem.Length && i !in {4, 5, 10, 11} ==> mem[i] == old(mem[i])
      ensures ipId == (old(ipId) + 1) % 65536
    {
      var high: Byte, low: Byte := ipId / 256, ipId % 256;
      ipId := (ipId + 1) % 65536;
      mem[4], mem[5] := high, low;
      var nid := ONES - Load(little, high, low);
      var sum := Add(Load(little, mem[10], mem[11]), nid);
      mem[10], mem[11] := StoredFirst(little, sum), StoredSecond(little, sum);
    }

    /** The packet as `write_to_serial` would send it. */
    function Prepared(before: seq<Byte>, len: nat): seq<Byte>
      requires |before| >= REACH
      reads this
    {
      if CheckCode(before, len) == 0 && NeedsId(little, before) && ipId <= ONES
      then Renumbered(little, before, ipId) else before
    }

    method Prepare(mem: array<Byte>, len: nat) returns (code: int)
      requires ipId <= ONES && mem.Length >= REACH
      modifies `ipId, mem
      ensures mem[..] == old(Prepared(mem[..], len))
      ensures var needs := CheckCode(old(mem[..]), len) == 0 && NeedsId(little, old(mem[..]));
              ipId == if needs then (old(ipId) + 1) % 65536 else old(ipId)
      ensures code == CheckCode(mem[..], len) && IsVerdict(mem[..], len, code)
      ensures HeaderWords(old(mem[..])) >= 3 ==> code == CheckCode(old(mem[..]), len)
      ensures Filled(little, old(mem[..]), len, old(ipId), mem[..], ipId)
    {
      PreparedIsFilled(little, mem[..], len, ipId);
      code := CheckIp(mem, len);
      if code < 0 {
        return;
      }
      if mem[4] == 0 && mem[5] == 0 && Load(little, mem[6], mem[7]) / 0x4000 % 2 == 1 {
        ghost var before := mem[..];
        ghost var id := ipId;
        Renumber(mem);
        code := CheckIp(mem, len);
        if HeaderWords(before) >= 3 {
          CheckKept(little, before, id, len);
        }
      }
    }

    /**
     A packet is sent exactly when it passes the checks as it came, provided its header holds the checksum; the
     identification and the checksum are the only bytes that may change, and the packet sent passes the checks.
     */
    method WriteToSerial(mem: array<Byte>, len: nat) returns (outcome: Outcome)
      requires Valid() && mem.Length >= REACH && len <= BUFFER_SIZE
      requires mem != sender.slipBuf
      modifies `ipId, mem, sender, sender.slipBuf
      ensures Valid()
      ensures mem[..] == old(Prepared(mem[..], len))
      ensures Filled(little, old(mem[..]), len, old(ipId), mem[..], ipId)
      ensures IsVerdict(mem[..], len, if outcome.Dropped? then outcome.code else 0)
      ensures outcome.Dropped? <==> CheckCode(mem[..], len) != 0
      ensures HeaderWords(old(mem[..])) >= 3 ==> (outcome.Dropped? <==> CheckCode(old(mem[..]), len) != 0)
      ensures outcome.Dropped? ==> sender.Queued() == old(sender.Queued()) && outcome.code == CheckCode(mem[..], len)
      ensures outcome.Overflow? ==> old(sender.slipEnd) + |Encode(mem[..len])| > BUFFER_SIZE
      ensures outcome.Sent? ==> sender.Queued() == old(sender.Queued()) + Encode(mem[..len])
    {
      var code := Prepare(mem, len);
      if code < 0 {
        return Dropped(code);
      }
      var ok := sender.WriteToSerial(mem[..len]);
      return if ok then Sent else Overflow;
    }
  }
}
