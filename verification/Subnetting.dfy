/** Splitting a network into equal subnets by stepping from one broadcast address to the next. */
module Subnetting {
  import opened Wrappers
  import opened PowersOfTwo
  import opened Networks

  datatype SubnetError = NegativePrefixDiff | PrefixTooLong

  /** The `i`-th of the Pow2(diff) networks of equal size that `n` splits into. */
  ghost function SubnetAt(n: Network, diff: nat, i: nat): Network
    requires n.prefixlen + diff <= n.maxlen
  {
    Network(n.maxlen, n.addr + Pow2(n.maxlen - n.prefixlen - diff) * i, n.prefixlen + diff)
  }

  ghost predicate Subdivision(n: Network, diff: nat, nets: seq<Network>)
    requires n.prefixlen + diff <= n.maxlen
  {
    |nets| == Pow2(diff) && forall i :: 0 <= i < |nets| ==> nets[i] == SubnetAt(n, diff, i)
  }

  lemma SubnetAligned(n: Network, diff: nat, i: nat)
    requires n.Valid() && n.prefixlen + diff <= n.maxlen && i < Pow2(diff)
    ensures SubnetAt(n, diff, i).addr % SubnetAt(n, diff, i).Size() == 0
  {
    var s := Pow2(n.maxlen - n.prefixlen - diff);
    Slots(s, Pow2(diff), i);
    AlignedDown(n.addr, n.maxlen - n.prefixlen - diff, n.HostBits());
    MultiplesAdd(n.addr, s * i, s);
  }

  /** Each subnet starts where the one before it ends, and only the last ends where `n` ends. */
  lemma SubnetEnds(n: Network, diff: nat, i: nat)
    requires n.Valid() && n.prefixlen + diff <= n.maxlen && i < Pow2(diff)
    ensures SubnetAt(n, diff, i + 1).addr == SubnetAt(n, diff, i).Broadcast() + 1
    ensures SubnetAt(n, diff, i).Broadcast() <= n.Broadcast()
    ensures SubnetAt(n, diff, i).Broadcast() == n.Broadcast() <==> i + 1 == Pow2(diff)
  {
    Pow2Add(n.maxlen - n.prefixlen - diff, diff);
    Slots(Pow2(n.maxlen - n.prefixlen - diff), Pow2(diff), i);
  }

  lemma SubnetValid(n: Network, diff: nat, i: nat)
    requires n.Valid() && n.prefixlen + diff <= n.maxlen && i < Pow2(diff)
    ensures SubnetAt(n, diff, i).Valid()
    ensures SubnetAt(n, diff, i + 1).addr == SubnetAt(n, diff, i).Broadcast() + 1
    ensures SubnetAt(n, diff, i).Broadcast() == n.Broadcast() <==> i + 1 == Pow2(diff)
  {
    SubnetAligned(n, diff, i);
    SubnetEnds(n, diff, i);
  }

  lemma Slots(s: nat, count: nat, i: nat)
    requires s > 0 && i < count
    ensures s * (i + 1) == s * i + s <= s * count && (s * i) % s == 0
    ensures s * i + s == s * count <==> i + 1 == count
  {
    ModOfProduct(i, s);
    MulMonotone(s, i + 1, count);
  }

  method Subnets(n: Network, prefixlenDiff: int) returns (r: Result<seq<Network>, SubnetError>)
    requires n.Valid()
    ensures n.prefixlen == n.maxlen ==> r == Success([n])
    ensures n.prefixlen < n.maxlen && prefixlenDiff < 0 ==> r == Failure(NegativePrefixDiff)
    ensures n.prefixlen < n.maxlen && n.maxlen - n.prefixlen < prefixlenDiff ==> r == Failure(PrefixTooLong)
    ensures n.prefixlen < n.maxlen && 0 <= prefixlenDiff <= n.maxlen - n.prefixlen ==>
      r.Success? && Subdivision(n, prefixlenDiff, r.value)
  {
    if n.prefixlen == n.maxlen {
      return Success([n]);
    }
    if prefixlenDiff < 0 {
      return Failure(NegativePrefixDiff);
    }
    var newPrefixlen := n.prefixlen + prefixlenDiff;
    if newPrefixlen > n.maxlen {
      return Failure(PrefixTooLong);
    }
    var current := Network(n.maxlen, n.addr, newPrefixlen);
    var nets := [current];
    SubnetValid(n, prefixlenDiff, 0);
    while current.Broadcast() != n.Broadcast()
      invariant 1 <= |nets| <= Pow2(prefixlenDiff)
      invariant forall i :: 0 <= i < |nets| ==> nets[i] == SubnetAt(n, prefixlenDiff, i)
      invariant current == nets[|nets| - 1] && current.Valid()
      decreases Pow2(prefixlenDiff) - |nets|
    {
      SubnetValid(n, prefixlenDiff, |nets| - 1);
      SubnetValid(n, prefixlenDiff, |nets|);
      current := Network(n.maxlen, current.Broadcast() + 1, newPrefixlen);
      nets := nets + [current];
    }
    SubnetValid(n, prefixlenDiff, |nets| - 1);
    return Success(nets);
  }

  /** The two subnets that one more prefix bit gives. */
  lemma TwoSubnets(n: Network, nets: seq<Network>)
    requires n.Valid() && n.prefixlen < n.maxlen && Subdivision(n, 1, nets)
    ensures nets == [LowerHalf(n), UpperHalf(n)]
  {
    assert Pow2(1) == 2 * Pow2(0) == 2;
  }
}
