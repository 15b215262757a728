/**
 Collapsing a list of addresses and networks. The result is the canonical list of the addresses in the
 input, so it does not depend on how the input was cut up (`CanonicalUnique`) and no list of networks
 with these addresses is shorter (`CanonicalIsShortest`).
 */
module Collapse {
  import opened Wrappers
  import opened PowersOfTwo
  import opened Networks
  import opened Subnetting
  import opened Summarize

  /** An item of the input: a single address or a network. */
  datatype Item = Address(ip: nat) | Net(net: Network)

  ghost predicate ValidItem(x: Item, bits: nat) {
    match x
    case Address(ip) => ip < Pow2(bits)
    case Net(n) => n.Valid() && n.maxlen == bits
  }

  ghost predicate ItemHas(x: Item, a: int) {
    match x
    case Address(ip) => a == ip
    case Net(n) => n.Valid() && n.Has(a)
  }

  ghost predicate ItemsHave(xs: seq<Item>, a: int) {
    exists i :: 0 <= i < |xs| && ItemHas(xs[i], a)
  }

  /** The order of `_get_networks_key`: by network address, then by netmask, that is by prefix length. */
  predicate KeyBelow(x: Network, y: Network) {
    x.addr < y.addr || (x.addr == y.addr && x.prefixlen <= y.prefixlen)
  }

  ghost predicate SortedNets(ns: seq<Network>) {
    forall i, j :: 0 <= i < j < |ns| ==> KeyBelow(ns[i], ns[j])
  }

  function InsertNet(n: Network, ns: seq<Network>): (r: seq<Network>)
    requires SortedNets(ns)
    ensures SortedNets(r)
    ensures forall x :: x in r <==> x == n || x in ns
  {
    if ns == [] || KeyBelow(n, ns[0]) then [n] + ns
    else
      assert ns == [ns[0]] + ns[1..];
      var t := InsertNet(n, ns[1..]);
      assert forall i :: 0 <= i < |t| ==> t[i] in t;
      [ns[0]] + t
  }

  function SortNets(ns: seq<Network>): (r: seq<Network>)
    ensures SortedNets(r)
    ensures forall x :: x in r <==> x in ns
  {
    if ns == [] then []
    else
      assert ns == [ns[0]] + ns[1..];
      InsertNet(ns[0], SortNets(ns[1..]))
  }

  ghost predicate Ascending(s: seq<nat>) {
    forall i, j :: 0 <= i < j < |s| ==> s[i] < s[j]
  }

  /** Sorting with duplicates removed, as `sorted(set(ips))` does. */
  function InsertIp(x: nat, s: seq<nat>): (r: seq<nat>)
    requires Ascending(s)
    ensures Ascending(r)
    ensures forall y :: y in r <==> y == x || y in s
  {
    if s == [] || x < s[0] then [x] + s
    else
      assert s == [s[0]] + s[1..];
      if x == s[0] then s
      else
        var t := InsertIp(x, s[1..]);
        assert forall i :: 0 <= i < |t| ==> t[i] in t;
        [s[0]] + t
  }

  function SortedIps(s: seq<nat>): (r: seq<nat>)
    ensures Ascending(r)
    ensures forall y :: y in r <==> y in s
  {
    if s == [] then []
    else
      assert s == [s[0]] + s[1..];
      InsertIp(s[0], SortedIps(s[1..]))
  }

  /** The longest run of consecutive addresses at the start of a sorted list. */
  method FindAddressRange(addresses: seq<nat>) returns (last: nat)
    requires addresses != [] && Ascending(addresses)
    ensures addresses[0] <= last && last in addresses
    ensures forall a :: addresses[0] <= a <= last ==> a in addresses
    ensures last + 1 !in addresses
  {
    last := addresses[0];
    for k := 1 to |addresses|
      invariant last == addresses[0] + k - 1 == addresses[k - 1]
      invariant forall a :: addresses[0] <= a <= last ==> a in addresses
    {
      if addresses[k] == last + 1 {
        last := addresses[k];
      } else {
        break;
      }
    }
  }

  /** Sorted, with each network wholly after the one before it. */
  ghost predicate Apart(ns: seq<Network>, maxlen: nat) {
    && AllValid(ns, maxlen)
    && forall i, j :: 0 <= i < j < |ns| ==> ns[i].Broadcast() < ns[j].addr
  }

  ghost predicate CoveredBelow(ns: seq<Network>, n: nat, a: int)
    requires n <= |ns|
  {
    exists i :: 0 <= i < n && ns[i].Valid() && ns[i].Has(a)
  }

  /** A later network of a sorted list that is not inside an earlier one lies after it. */
  lemma LaterIsNestedOrAfter(x: Network, y: Network)
    requires x.Valid() && y.Valid() && x.maxlen == y.maxlen && KeyBelow(x, y)
    ensures y.Within(x) || x.Broadcast() < y.addr
  {
    if y.addr <= x.Broadcast() {
      if x.prefixlen <= y.prefixlen {
        NestedOrDisjoint(y, x, y.addr);
      } else {
        NestedOrDisjoint(x, y, y.addr);
      }
    }
  }

  /** What the loop of `CollapsePass` knows when it has read `i` networks. */
  ghost predicate PassInvariant(ns: seq<Network>, i: nat, ret: seq<Network>, maxlen: nat)
    requires i <= |ns|
  {
    && Apart(ret, maxlen)
    && (i > 0 ==> ret != [] && forall k :: i <= k < |ns| ==> KeyBelow(ret[|ret| - 1], ns[k]))
    && (forall a: int :: Covered(ret, a) <==> CoveredBelow(ns, i, a))
  }

  lemma PassFirst(ns: seq<Network>, maxlen: nat)
    requires AllValid(ns, maxlen) && SortedNets(ns) && ns != []
    ensures PassInvariant(ns, 1, [ns[0]], maxlen)
  {
    forall a: int ensures Covered([ns[0]], a) <==> CoveredBelow(ns, 1, a) {
      AppendCovers([], ns[0], a);
      assert [] + [ns[0]] == [ns[0]];
    }
  }

  lemma PassNested(ns: seq<Network>, i: nat, ret: seq<Network>, maxlen: nat)
    requires AllValid(ns, maxlen) && 0 < i < |ns| && PassInvariant(ns, i, ret, maxlen)
    requires ns[i].Within(ret[|ret| - 1])
    ensures PassInvariant(ns, i + 1, ret, maxlen)
  {
    forall a: int ensures Covered(ret, a) <==> CoveredBelow(ns, i + 1, a) {
      assert CoveredBelow(ns, i + 1, a) <==> CoveredBelow(ns, i, a) || ns[i].Has(a);
      if ns[i].Has(a) {
        assert ret[|ret| - 1].Has(a);
      }
    }
  }

  lemma PassAppend(ns: seq<Network>, i: nat, ret: seq<Network>, maxlen: nat)
    requires AllValid(ns, maxlen) && SortedNets(ns) && 0 < i < |ns| && PassInvariant(ns, i, ret, maxlen)
    requires ret[|ret| - 1].Broadcast() < ns[i].addr
    ensures PassInvariant(ns, i + 1, ret + [ns[i]], maxlen)
  {
    forall a: int ensures Covered(ret + [ns[i]], a) <==> CoveredBelow(ns, i + 1, a) {
      AppendCovers(ret, ns[i], a);
      assert CoveredBelow(ns, i + 1, a) <==> CoveredBelow(ns, i, a) || ns[i].Has(a);
    }
  }

  /** Joining the last network with its upper sibling adds just the addresses of the sibling. */
  lemma PassJoin(ns: seq<Network>, i: nat, ret: seq<Network>, maxlen: nat)
    requires AllValid(ns, maxlen) && 0 < i < |ns| && PassInvariant(ns, i, ret, maxlen)
    requires ret[|ret| - 1].Supernet().prefixlen < maxlen && ns[i] == UpperHalf(ret[|ret| - 1].Supernet())
    requires !ns[i].Within(ret[|ret| - 1])
    ensures PassInvariant(ns, i + 1, ret[..|ret| - 1] + [ret[|ret| - 1].Supernet()], maxlen)
  {
    var init, last := ret[..|ret| - 1], ret[|ret| - 1];
    var s := last.Supernet();
    Halves(s);
    if last.prefixlen > 0 {
      SupernetBounds(last);
    }
    assert ret == init + [last];
    forall a: int ensures Covered(init + [s], a) <==> CoveredBelow(ns, i + 1, a) {
      AppendCovers(init, s, a);
      AppendCovers(init, last, a);
      assert CoveredBelow(ns, i + 1, a) <==> CoveredBelow(ns, i, a) || ns[i].Has(a);
    }
  }

  /** A sibling that comes later is the upper half of the common supernet. */
  lemma LaterSibling(x: Network, y: Network)
    requires x.Valid() && y.Valid() && x.maxlen == y.maxlen && Siblings(x, y) && x.addr < y.addr
    ensures y == UpperHalf(x.Supernet())
  {
    SupernetBounds(x);
    SupernetBounds(y);
  }

  /** One step of the pass: the list of networks so far, with `cur` dropped, joined or appended. */
  method CollapseStep(ghost ns: seq<Network>, ghost i: nat, ret: seq<Network>, cur: Network, maxlen: nat)
    returns (ret': seq<Network>, merged: bool)
    requires maxlen > 0 && AllValid(ns, maxlen) && SortedNets(ns) && i < |ns| && cur == ns[i]
    requires PassInvariant(ns, i, ret, maxlen) && (i == 0 ==> ret == [])
    ensures PassInvariant(ns, i + 1, ret', maxlen)
    ensures if merged then |ret'| == |ret| && ret' != [] else ret' == ret + [cur]
    ensures !merged && Canonical(ret, maxlen) ==> Canonical(ret', maxlen)
  {
    if ret == [] {
      PassFirst(ns, maxlen);
      return [cur], false;
    }
    var last := ret[|ret| - 1];
    LaterIsNestedOrAfter(last, cur);
    if last.addr <= cur.addr && cur.Broadcast() <= last.Broadcast() {
      PassNested(ns, i, ret, maxlen);
      return ret, true;
    }
    var supernet := last.Supernet();
    var halves := Subnets(supernet, 1);
    TwoSubnets(supernet, halves.value);
    if cur == halves.value[1] {
      PassJoin(ns, i, ret, maxlen);
      return ret[..|ret| - 1] + [supernet], true;
    }
    PassAppend(ns, i, ret, maxlen);
    if Canonical(ret, maxlen) {
      if Siblings(last, cur) {
        LaterSibling(last, cur);
      }
      AppendCanonical(ret, maxlen, cur);
    }
    return ret + [cur], false;
  }

  /** One pass over the list, joining nested networks and siblings that stand next to each other. */
  method CollapsePass(addresses: seq<Network>, maxlen: nat) returns (ret: seq<Network>, optimized: bool)
    requires maxlen > 0 && AllValid(addresses, maxlen) && SortedNets(addresses)
    ensures Apart(ret, maxlen) && SameAddresses(ret, addresses)
    ensures optimized ==> |ret| < |addresses|
    ensures !optimized ==> ret == addresses && Canonical(ret, maxlen)
  {
    ret := [];
    optimized := false;
    for i := 0 to |addresses|
      invariant PassInvariant(addresses, i, ret, maxlen) && (i == 0 ==> ret == [])
      invariant if optimized then |ret| < i else ret == addresses[..i] && Canonical(ret, maxlen)
    {
      var merged;
      ret, merged := CollapseStep(addresses, i, ret, addresses[i], maxlen);
      optimized := optimized || merged;
    }
  }

  /** Passes are repeated until one changes nothing; each pass that changes something shortens the list. */
  method CollapseRecursive(addresses: seq<Network>, maxlen: nat) returns (ret: seq<Network>)
    requires maxlen > 0 && AllValid(addresses, maxlen) && SortedNets(addresses)
    ensures Canonical(ret, maxlen) && SameAddresses(ret, addresses)
    decreases |addresses|
  {
    var optimized;
    ret, optimized := CollapsePass(addresses, maxlen);
    if optimized {
      ret := CollapseRecursive(ret, maxlen);
    }
  }

  /** Splitting the input into single addresses and networks. */
  method SplitItems(addresses: seq<Item>, bits: nat) returns (ips: seq<nat>, nets: seq<Network>)
    requires forall i :: 0 <= i < |addresses| ==> ValidItem(addresses[i], bits)
    ensures forall ip :: ip in ips ==> ip < Pow2(bits)
    ensures AllValid(nets, bits)
    ensures forall a: int :: ItemsHave(addresses, a) <==> a in ips || Covered(nets, a)
  {
    ips, nets := [], [];
    for i := 0 to |addresses|
      invariant forall ip :: ip in ips ==> ip < Pow2(bits)
      invariant AllValid(nets, bits)
      invariant forall a: int :: ItemsHave(addresses[..i], a) <==> a in ips || Covered(nets, a)
    {
      ghost var ips0, nets0 := ips, nets;
      match addresses[i] {
        case Address(ip) =>
          ips := ips + [ip];
        case Net(net) =>
          if net.prefixlen == net.maxlen {
            ips := ips + [net.addr];
          } else {
            nets := nets + [net];
          }
      }
      forall a: int ensures ItemsHave(addresses[..i + 1], a) <==> a in ips || Covered(nets, a) {
        ItemsHaveStep(addresses, i, a);
        if nets != nets0 {
          AppendCovers(nets0, addresses[i].net, a);
        }
      }
    }
    assert addresses[..|addresses|] == addresses;
  }

  lemma ItemsHaveStep(xs: seq<Item>, i: nat, a: int)
    requires i < |xs|
    ensures ItemsHave(xs[..i + 1], a) <==> ItemsHave(xs[..i], a) || ItemHas(xs[i], a)
  {
    var s, t := xs[..i], xs[..i + 1];
    assert forall k :: 0 <= k < i ==> s[k] == t[k];
    assert t[i] == xs[i];
    if ItemsHave(s, a) {
      var k :| 0 <= k < |s| && ItemHas(s[k], a);
      assert ItemHas(t[k], a);
    }
    if ItemHas(xs[i], a) {
      assert ItemHas(t[i], a);
    }
  }

  lemma ConcatCovers(xs: seq<Network>, ys: seq<Network>, a: int)
    ensures Covered(xs + ys, a) <==> Covered(xs, a) || Covered(ys, a)
  {
    var t := xs + ys;
    if Covered(xs, a) {
      var i :| 0 <= i < |xs| && xs[i].Valid() && xs[i].Has(a);
      assert t[i] == xs[i];
    }
    if Covered(ys, a) {
      var i :| 0 <= i < |ys| && ys[i].Valid() && ys[i].Has(a);
      assert t[|xs| + i] == ys[i];
    }
  }

  /** The networks that summarise a sorted list of addresses, run by run. */
  method SummarizeIps(ips: seq<nat>, bits: nat) returns (addrs: seq<Network>)
    requires Ascending(ips) && forall ip :: ip in ips ==> ip < Pow2(bits)
    ensures AllValid(addrs, bits)
    ensures forall a: int :: Covered(addrs, a) <==> a in ips
  {
    addrs := [];
    var i := 0;
    while i < |ips|
      invariant 0 <= i <= |ips|
      invariant AllValid(addrs, bits)
      invariant forall a: int :: Covered(addrs, a) <==> a in ips[..i]
    {
      var first := ips[i];
      assert ips[i..][0] in ips[i..];
      var last := FindAddressRange(ips[i..]);
      var j :| 0 <= j < |ips| && ips[j] == last;
      assert ips[i] in ips && ips[j] in ips;
      var nets := SummarizeAddressRange(first, last, bits);
      forall a: int ensures Covered(addrs + nets.value, a) <==> a in ips[..j + 1] {
        ConcatCovers(addrs, nets.value, a);
        RunOfIps(ips, i, j, a);
      }
      addrs := addrs + nets.value;
      i := j + 1;
    }
    assert ips[..|ips|] == ips;
  }

  lemma RunOfIps(ips: seq<nat>, i: nat, j: nat, a: int)
    requires Ascending(ips) && i <= j < |ips|
    requires forall b :: ips[i] <= b <= ips[j] ==> b in ips[i..]
    ensures a in ips[..j + 1] <==> a in ips[..i] || ips[i] <= a <= ips[j]
  {
    if ips[i] <= a <= ips[j] {
      assert a in ips[i..];
      var k :| 0 <= k < |ips[i..]| && ips[i..][k] == a;
      assert ips[i + k] == a;
      assert ips[..j + 1][i + k] == a;
    }
    if a in ips[..j + 1] {
      var k :| 0 <= k < |ips[..j + 1]| && ips[..j + 1][k] == a;
      if k < i {
        assert ips[..i][k] == a;
      }
    }
  }

  method CollapseAddresses(addresses: seq<Item>, bits: nat) returns (r: seq<Network>)
    requires bits > 0 && forall i :: 0 <= i < |addresses| ==> ValidItem(addresses[i], bits)
    ensures Canonical(r, bits)
    ensures forall a: int :: Covered(r, a) <==> ItemsHave(addresses, a)
  {
    var ips, nets := SplitItems(addresses, bits);
    var addrs := SummarizeIps(SortedIps(ips), bits);
    var sorted := SortNets(addrs + nets);
    forall i | 0 <= i < |sorted| ensures sorted[i].Valid() && sorted[i].maxlen == bits {
      assert sorted[i] in addrs + nets;
    }
    forall a: int ensures Covered(sorted, a) <==> ItemsHave(addresses, a) {
      ConcatCovers(addrs, nets, a);
      SameMembersCover(sorted, addrs + nets, a);
    }
    r := CollapseRecursive(sorted, bits);
  }

  /**
   Whatever `CollapseAddresses` may return for two inputs with the same addresses is the same list, and
   no list of networks with these addresses is shorter.
   */
  lemma CollapseIsCanonicalForm(xs: seq<Item>, ys: seq<Item>, rx: seq<Network>, ry: seq<Network>, bits: nat)
    requires Canonical(rx, bits) && forall a: int :: Covered(rx, a) <==> ItemsHave(xs, a)
    requires Canonical(ry, bits) && forall a: int :: Covered(ry, a) <==> ItemsHave(ys, a)
    requires forall a: int :: ItemsHave(xs, a) <==> ItemsHave(ys, a)
    ensures rx == ry
    ensures forall cs :: AllValid(cs, bits) && (forall a: int :: Covered(cs, a) <==> ItemsHave(xs, a)) ==> |rx| <= |cs|
  {
    CanonicalUnique(rx, ry, bits);
    forall cs | AllValid(cs, bits) && (forall a: int :: Covered(cs, a) <==> ItemsHave(xs, a)) ensures |rx| <= |cs| {
      CanonicalIsShortest(rx, cs, bits);
    }
  }

  lemma SameMembersCover(xs: seq<Network>, ys: seq<Network>, a: int)
    requires forall x :: x in xs <==> x in ys
    ensures Covered(xs, a) <==> Covered(ys, a)
  {
    if Covered(xs, a) {
      var i :| 0 <= i < |xs| && xs[i].Valid() && xs[i].Has(a);
      assert xs[i] in ys;
    }
    if Covered(ys, a) {
      var i :| 0 <= i < |ys| && ys[i].Valid() && ys[i].Has(a);
      assert ys[i] in xs;
    }
  }
}
