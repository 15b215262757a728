/** Summarising a range of addresses into the fewest networks, as a greedy loop over aligned blocks. */
module Summarize {
  import opened Wrappers
  import opened PowersOfTwo
  import opened Networks

  datatype Error = LastBeforeFirst

  /** Siblings are the two halves of one network, the lower one first. */
  lemma SiblingsAdjacent(x: Network, y: Network)
    requires x.Valid() && y.Valid() && Siblings(x, y) && x.maxlen == y.maxlen && x.addr < y.addr
    ensures x.Broadcast() + 1 == y.addr && x.addr % (2 * x.Size()) == 0
  {
    SupernetBounds(x);
    SupernetBounds(y);
    assert Pow2(x.HostBits() + 1) == 2 * x.Size();
  }

  lemma AppendCovers(ns: seq<Network>, n: Network, a: int)
    requires n.Valid()
    ensures Covered(ns + [n], a) <==> Covered(ns, a) || n.Has(a)
  {
    var t := ns + [n];
    if Covered(ns, a) {
      var i :| 0 <= i < |ns| && ns[i].Valid() && ns[i].Has(a);
      assert t[i] == ns[i];
    }
    if n.Has(a) {
      assert t[|ns|].Has(a);
    }
  }

  /** A network that lies after a canonical list and is no sibling of its last member extends it. */
  lemma AppendCanonical(ns: seq<Network>, maxlen: nat, n: Network)
    requires Canonical(ns, maxlen) && n.Valid() && n.maxlen == maxlen
    requires |ns| > 0 ==> ns[|ns| - 1].Broadcast() < n.addr && !Siblings(ns[|ns| - 1], n)
    ensures Canonical(ns + [n], maxlen)
  {
    forall i | 0 <= i < |ns| ensures ns[i].Broadcast() < n.addr && !Siblings(ns[i], n) {
      if i < |ns| - 1 {
        assert ns[i].Broadcast() < ns[|ns| - 1].addr;
        if Siblings(ns[i], n) {
          SiblingsAdjacent(ns[i], n);
        }
      }
    }
  }

  method CountRighthandZeroBits(number: nat, bits: nat) returns (r: nat)
    requires number < Pow2(bits)
    ensures r <= bits && number % Pow2(r) == 0
    ensures r < bits ==> number % Pow2(r + 1) != 0
  {
    if number == 0 {
      return bits;
    }
    for i := 0 to bits
      invariant number % Pow2(i) == 0
    {
      EvenQuotient(number, Pow2(i));
      if (number / Pow2(i)) % 2 == 1 {
        return i;
      }
    }
    assert false by {
      MultiplesApart(0, number, Pow2(bits));
    }
    r := bits;
  }

  /** The length of the longest common prefix of two numbers, written in `bits` bits. */
  method GetPrefixLength(number1: nat, number2: nat, bits: nat) returns (r: nat)
    ensures r <= bits
    ensures r > 0 ==> number1 / Pow2(bits - r) == number2 / Pow2(bits - r)
    ensures forall j :: 0 <= j < bits - r ==> number1 / Pow2(j) != number2 / Pow2(j)
  {
    for i := 0 to bits
      invariant forall j :: 0 <= j < i ==> number1 / Pow2(j) != number2 / Pow2(j)
    {
      if number1 / Pow2(i) == number2 / Pow2(i) {
        return bits - i;
      }
    }
    return 0;
  }

  /** The first and last address of an aligned block of size 2^n agree above bit n and nowhere below. */
  lemma BlockPrefix(first: nat, n: nat, j: nat)
    requires first % Pow2(n) == 0
    ensures (first + Pow2(n) - 1) / Pow2(j) == first / Pow2(j) <==> n <= j
  {
    var s := Pow2(j);
    if n <= j {
      var r := RoundDown(first, s);
      DivMod(first, s);
      AlignedDown(r, n, j);
      Pow2Divides(n, j);
      MultiplesAdd(r, s, Pow2(n));
      MultiplesApart(first, r + s, Pow2(n));
      DivMod(r, s);
      DivModUnique(first, s, r / s, first - r);
      DivModUnique(first + Pow2(n) - 1, s, r / s, first + Pow2(n) - 1 - r);
    } else {
      AlignedDown(first, j, n);
      Pow2Monotone(j, n);
      DivMod(first, s);
      DivMod(first + Pow2(n) - 1, s);
      MulMonotone(s, (first + Pow2(n) - 1) / s, first / s);
    }
  }

  /** `n` is as long as an aligned block that starts at `n.addr` and ends by `last` can be. */
  ghost predicate Longest(n: Network, last: int)
    requires n.Valid()
  {
    n.prefixlen > 0 && n.addr % (2 * n.Size()) == 0 ==> last < n.addr + 2 * n.Size() - 1
  }

  /** The prefix length that `GetPrefixLength` finds for the first and last address of a block. */
  lemma BlockPrefixLength(first: nat, n: nat, bits: nat, r: nat)
    requires first % Pow2(n) == 0 && n <= bits && r <= bits
    requires r > 0 ==> first / Pow2(bits - r) == (first + Pow2(n) - 1) / Pow2(bits - r)
    requires forall j :: 0 <= j < bits - r ==> first / Pow2(j) != (first + Pow2(n) - 1) / Pow2(j)
    ensures r == bits - n
  {
    BlockPrefix(first, n, bits - r);
    BlockPrefix(first, n, n);
  }

  /** The block of `NextNetwork` is a network, and the doubled block would not do. */
  lemma BlockIsLongest(first: nat, last: nat, bits: nat, zeros: nat, n: nat)
    requires first <= last < Pow2(bits) && n <= zeros <= bits
    requires first % Pow2(zeros) == 0 && (zeros < bits ==> first % Pow2(zeros + 1) != 0)
    requires first + Pow2(n) - 1 <= last && (n < zeros ==> last < first + Pow2(n + 1) - 1)
    ensures var net := Network(bits, first, bits - n);
      net.Valid() && net.Broadcast() == first + Pow2(n) - 1 && Longest(net, last)
  {
    AlignedDown(first, n, zeros);
  }

  /** The one network that the loop of `SummarizeAddressRange` yields at `first`. */
  method NextNetwork(first: nat, last: nat, bits: nat) returns (net: Network)
    requires first <= last < Pow2(bits)
    ensures net.Valid() && net.maxlen == bits && net.addr == first
    ensures net.Broadcast() <= last && Longest(net, last)
  {
    var zeros := CountRighthandZeroBits(first, bits);
    var nbits: int := zeros;
    var current: int := -1;
    while nbits >= 0
      invariant -1 <= nbits <= zeros
      invariant nbits == -1 ==> current == first
      invariant nbits < zeros ==> last < first + Pow2(nbits + 1) - 1
    {
      var addend := Pow2(nbits) - 1;
      current := first + addend;
      nbits := nbits - 1;
      if current <= last {
        break;
      }
    }
    ghost var n := nbits + 1;
    BlockIsLongest(first, last, bits, zeros, n);
    var prefix := GetPrefixLength(first, current, bits);
    BlockPrefixLength(first, n, bits, prefix);
    net := Network(bits, first, prefix);
  }

  /**
   The networks that summarise `[first, last]`: exactly these addresses, in canonical form. By
   `CanonicalIsShortest` no list of networks with these addresses is shorter.
   */
  method SummarizeAddressRange(first: nat, last: nat, bits: nat) returns (r: Result<seq<Network>, Error>)
    requires first < Pow2(bits) && last < Pow2(bits)
    ensures r.Failure? <==> last < first
    ensures r.Success? ==> Canonical(r.value, bits)
    ensures r.Success? ==> forall a: int :: Covered(r.value, a) <==> first <= a <= last
  {
    if first > last {
      return Failure(LastBeforeFirst);
    }
    var nets: seq<Network> := [];
    var firstInt := first;
    ghost var next := first;
    while firstInt <= last
      invariant first <= firstInt <= last + 1 && next == firstInt
      invariant Canonical(nets, bits)
      invariant forall a: int :: Covered(nets, a) <==> first <= a < next
      invariant |nets| > 0 ==> nets[|nets| - 1].Broadcast() + 1 == next && Longest(nets[|nets| - 1], last)
    {
      var net := NextNetwork(firstInt, last, bits);
      if |nets| > 0 && Siblings(nets[|nets| - 1], net) {
        SiblingsAdjacent(nets[|nets| - 1], net);
      }
      AppendCanonical(nets, bits, net);
      forall a: int ensures Covered(nets + [net], a) <==> first <= a <= net.Broadcast() {
        AppendCovers(nets, net, a);
      }
      nets := nets + [net];
      next := net.Broadcast() + 1;
      if net.Broadcast() == Pow2(bits) - 1 {
        break;
      }
      firstInt := net.Broadcast() + 1;
      assert firstInt < Pow2(bits);
    }
    return Success(nets);
  }
}
