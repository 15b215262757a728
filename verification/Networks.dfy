/**
 IP networks as values: a width, an aligned network address and a prefix length.
 The module proves what the algorithms in `Summarize`, `Collapse` and `Exclude` share: two networks
 are nested or disjoint, and a list in canonical form (sorted, disjoint, no two siblings) is the
 one shortest list for its set of addresses.
 */
module Networks {
  import opened PowersOfTwo

  datatype Network = Network(maxlen: nat, addr: nat, prefixlen: nat) {

    ghost predicate Valid() {
      prefixlen <= maxlen && addr % Pow2(maxlen - prefixlen) == 0 && addr + Pow2(maxlen - prefixlen) <= Pow2(maxlen)
    }

    function HostBits(): nat
      requires prefixlen <= maxlen
    {
      maxlen - prefixlen
    }

    function Size(): nat
      requires prefixlen <= maxlen
    {
      Pow2(maxlen - prefixlen)
    }

    /** The network address with all host bits set. */
    function Broadcast(): nat
      requires prefixlen <= maxlen
    {
      addr + Size() - 1
    }

    predicate Has(a: int)
      requires prefixlen <= maxlen
    {
      addr <= a <= Broadcast()
    }

    predicate Within(other: Network)
      requires prefixlen <= maxlen && other.prefixlen <= other.maxlen
    {
      other.addr <= addr && Broadcast() <= other.Broadcast()
    }

    /** The network one bit shorter that contains this one; the whole space is its own supernet. */
    function Supernet(): (s: Network)
      requires Valid()
      ensures s.Valid() && s.maxlen == maxlen && Within(s)
      ensures prefixlen > 0 ==> s.prefixlen == prefixlen - 1
    {
      if prefixlen == 0 then this
      else
        SupernetBounds(this);
        Network(maxlen, RoundDown(addr, Pow2(maxlen - prefixlen + 1)), prefixlen - 1)
    }
  }

  lemma SupernetBounds(n: Network)
    requires n.Valid() && n.prefixlen > 0
    ensures var t := Network(n.maxlen, RoundDown(n.addr, Pow2(n.HostBits() + 1)), n.prefixlen - 1);
      t.Valid() && n.Within(t) && (t.addr == n.addr || t.addr == n.addr - n.Size())
  {
    var d := Pow2(n.HostBits() + 1);
    assert d == 2 * n.Size();
    RoundDownToDouble(n.addr, n.Size());
    Pow2Divides(n.HostBits() + 1, n.maxlen);
    MultiplesApart(RoundDown(n.addr, d), Pow2(n.maxlen), d);
  }

  ghost predicate AllValid(ns: seq<Network>, maxlen: nat) {
    forall i :: 0 <= i < |ns| ==> ns[i].Valid() && ns[i].maxlen == maxlen
  }

  /** Address `a` lies in some network of the list. */
  ghost predicate Covered(ns: seq<Network>, a: int) {
    exists i :: 0 <= i < |ns| && ns[i].Valid() && ns[i].Has(a)
  }

  ghost predicate SameAddresses(xs: seq<Network>, ys: seq<Network>) {
    forall a: int :: Covered(xs, a) <==> Covered(ys, a)
  }

  /** Two networks that share an address are nested, the longer prefix inside the shorter. */
  lemma NestedOrDisjoint(x: Network, y: Network, a: int)
    requires x.Valid() && y.Valid() && x.maxlen == y.maxlen
    requires x.Has(a) && y.Has(a) && x.prefixlen >= y.prefixlen
    ensures x.Within(y)
    ensures x.prefixlen == y.prefixlen ==> x == y
  {
    var s, t := x.Size(), y.Size();
    Pow2Monotone(x.HostBits(), y.HostBits());
    AlignedDown(y.addr, x.HostBits(), y.HostBits());
    Pow2Divides(x.HostBits(), y.HostBits());
    MultiplesAdd(y.addr, t, s);
    MultiplesApart(x.addr, y.addr + t, s);
    if x.addr < y.addr {
      MultiplesApart(x.addr, y.addr, s);
    }
  }

  ghost predicate Siblings(x: Network, y: Network)
    requires x.Valid() && y.Valid()
  {
    x.prefixlen == y.prefixlen && x.prefixlen > 0 && x.Supernet() == y.Supernet() && x != y
  }

  /** Sorted, pairwise disjoint, and no two networks that could be replaced by their supernet. */
  ghost predicate Canonical(ns: seq<Network>, maxlen: nat) {
    && AllValid(ns, maxlen)
    && (forall i, j :: 0 <= i < j < |ns| ==> ns[i].Broadcast() < ns[j].addr)
    && (forall i, j :: 0 <= i < j < |ns| ==> !Siblings(ns[i], ns[j]))
  }

  function LowerHalf(n: Network): (h: Network)
    requires n.prefixlen < n.maxlen
  {
    Network(n.maxlen, n.addr, n.prefixlen + 1)
  }

  function UpperHalf(n: Network): (h: Network)
    requires n.prefixlen < n.maxlen
  {
    Network(n.maxlen, n.addr + Pow2(n.maxlen - n.prefixlen - 1), n.prefixlen + 1)
  }

  lemma Halves(n: Network)
    requires n.Valid() && n.prefixlen < n.maxlen
    ensures LowerHalf(n).Valid() && UpperHalf(n).Valid()
    ensures LowerHalf(n).Supernet() == n && UpperHalf(n).Supernet() == n
    ensures LowerHalf(n).Broadcast() + 1 == UpperHalf(n).addr && UpperHalf(n).Broadcast() == n.Broadcast()
  {
    var h := Pow2(n.HostBits() - 1);
    AlignedDown(n.addr, n.HostBits() - 1, n.HostBits());
    MultiplesAdd(n.addr, h, h);
    RoundDownUnique(n.addr, n.Size(), n.addr);
    RoundDownUnique(n.addr + h, n.Size(), n.addr);
  }

  lemma EqualIfNested(x: Network, y: Network)
    requires x.Valid() && y.Valid() && x.maxlen == y.maxlen
    requires x.Within(y) && y.Within(x)
    ensures x == y
  {
    assert x.Size() == y.Size();
    if x.prefixlen < y.prefixlen {
      Pow2Monotone(y.HostBits(), x.HostBits());
    } else if y.prefixlen < x.prefixlen {
      Pow2Monotone(x.HostBits(), y.HostBits());
    }
  }

  /** Members of a canonical list that share an address are the same member. */
  lemma SameMember(ns: seq<Network>, maxlen: nat, i: nat, j: nat, a: int)
    requires Canonical(ns, maxlen) && i < |ns| && j < |ns| && ns[i].Has(a) && ns[j].Has(a)
    ensures i == j
  {
  }

  /** If two members of a canonical list contain the two halves of `b`, one of them contains `b`. */
  lemma NotBothHalves(ns: seq<Network>, maxlen: nat, b: Network, k: nat, m: nat)
    requires Canonical(ns, maxlen) && b.Valid() && b.maxlen == maxlen && b.prefixlen < maxlen
    requires LowerHalf(b).Valid() && UpperHalf(b).Valid()
    requires k < |ns| && LowerHalf(b).Within(ns[k]) && m < |ns| && UpperHalf(b).Within(ns[m])
    ensures ns[k].prefixlen <= b.prefixlen || ns[m].prefixlen <= b.prefixlen
  {
    Halves(b);
    var lo, hi := LowerHalf(b), UpperHalf(b);
    if b.prefixlen < ns[k].prefixlen && b.prefixlen < ns[m].prefixlen {
      NestedOrDisjoint(ns[k], lo, lo.addr);
      NestedOrDisjoint(ns[m], hi, hi.addr);
      EqualIfNested(ns[k], lo);
      EqualIfNested(ns[m], hi);
    }
  }

  /** In a canonical list each block of covered addresses lies inside one member. */
  lemma {:induction false} CanonicalIsMaximal(ns: seq<Network>, maxlen: nat, b: Network) returns (i: nat)
    requires Canonical(ns, maxlen) && b.Valid() && b.maxlen == maxlen
    requires forall a: int :: b.Has(a) ==> Covered(ns, a)
    ensures i < |ns| && b.Within(ns[i])
    decreases b.HostBits()
  {
    if b.prefixlen == maxlen {
      assert b.Has(b.addr);
      i :| 0 <= i < |ns| && ns[i].Has(b.addr);
    } else {
      Halves(b);
      var lo, hi := LowerHalf(b), UpperHalf(b);
      i := CanonicalIsMaximal(ns, maxlen, lo);
      var m := CanonicalIsMaximal(ns, maxlen, hi);
      NotBothHalves(ns, maxlen, b, i, m);
      if ns[i].prefixlen <= b.prefixlen {
        NestedOrDisjoint(b, ns[i], lo.addr);
      } else {
        NestedOrDisjoint(b, ns[m], hi.addr);
        i := m;
      }
    }
  }

  /** Two canonical lists with the same addresses have the same members. */
  lemma CanonicalMembers(xs: seq<Network>, ys: seq<Network>, maxlen: nat, i: nat) returns (j: nat)
    requires Canonical(xs, maxlen) && Canonical(ys, maxlen) && SameAddresses(xs, ys) && i < |xs|
    ensures j < |ys| && xs[i] == ys[j]
  {
    forall a: int | xs[i].Has(a) ensures Covered(ys, a) {
      assert Covered(xs, a);
    }
    j := CanonicalIsMaximal(ys, maxlen, xs[i]);
    forall a: int | ys[j].Has(a) ensures Covered(xs, a) {
      assert Covered(ys, a);
    }
    var k := CanonicalIsMaximal(xs, maxlen, ys[j]);
    SameMember(xs, maxlen, i, k, xs[i].addr);
    EqualIfNested(xs[i], ys[j]);
  }

  /** The canonical list of an address set is unique. */
  lemma CanonicalUnique(xs: seq<Network>, ys: seq<Network>, maxlen: nat)
    requires Canonical(xs, maxlen) && Canonical(ys, maxlen) && SameAddresses(xs, ys)
    ensures xs == ys
  {
    CanonicalPrefix(xs, ys, maxlen, |xs|);
    CanonicalPrefix(ys, xs, maxlen, |ys|);
  }

  lemma {:induction false} CanonicalPrefix(xs: seq<Network>, ys: seq<Network>, maxlen: nat, n: nat)
    requires Canonical(xs, maxlen) && Canonical(ys, maxlen) && SameAddresses(xs, ys)
    requires n <= |xs|
    ensures n <= |ys| && forall i :: 0 <= i < n ==> xs[i] == ys[i]
  {
    if n == 0 {
    } else {
      CanonicalPrefix(xs, ys, maxlen, n - 1);
      var j := CanonicalMembers(xs, ys, maxlen, n - 1);
      assert n - 1 <= j;
      var k := CanonicalMembers(ys, xs, maxlen, n - 1);
      assert n - 1 <= k;
      assert xs[n - 1].addr <= xs[k].addr && ys[n - 1].addr <= ys[j].addr;
      SameMember(ys, maxlen, j, n - 1, ys[j].addr);
    }
  }

  lemma {:induction false} DistinctBelow(s: seq<nat>, n: nat)
    requires forall i :: 0 <= i < |s| ==> s[i] < n
    requires forall i, j :: 0 <= i < j < |s| ==> s[i] != s[j]
    ensures |s| <= n
  {
    if |s| == 0 {
    } else if exists k :: 0 <= k < |s| && s[k] == n - 1 {
      var k :| 0 <= k < |s| && s[k] == n - 1;
      DistinctBelow(s[..k] + s[k + 1..], n - 1);
    } else {
      assert s[0] < n;
      DistinctBelow(s, n - 1);
    }
  }

  ghost function CoveringIndex(cs: seq<Network>, a: int): (k: nat)
    requires Covered(cs, a)
    ensures k < |cs| && cs[k].Valid() && cs[k].Has(a)
  {
    var k :| 0 <= k < |cs| && cs[k].Valid() && cs[k].Has(a);
    k
  }

  /** Two members of a canonical list cannot be covered by one block of another list of its addresses. */
  lemma CoveredApart(xs: seq<Network>, cs: seq<Network>, maxlen: nat, i: nat, j: nat)
    requires Canonical(xs, maxlen) && AllValid(cs, maxlen) && SameAddresses(xs, cs) && i < |xs| && j < |xs|
    requires Covered(cs, xs[i].addr) && Covered(cs, xs[j].addr)
    requires CoveringIndex(cs, xs[i].addr) == CoveringIndex(cs, xs[j].addr)
    ensures i == j
  {
    var c := cs[CoveringIndex(cs, xs[i].addr)];
    forall a: int | c.Has(a) ensures Covered(xs, a) {
      assert Covered(cs, a);
    }
    var k := CanonicalIsMaximal(xs, maxlen, c);
    SameMember(xs, maxlen, i, k, xs[i].addr);
    SameMember(xs, maxlen, j, k, xs[j].addr);
  }

  ghost function CoverIndices(xs: seq<Network>, cs: seq<Network>): (f: seq<nat>)
    requires forall i :: 0 <= i < |xs| ==> Covered(cs, xs[i].addr)
    ensures |f| == |xs| && forall i :: 0 <= i < |xs| ==> f[i] == CoveringIndex(cs, xs[i].addr)
  {
    seq(|xs|, i requires 0 <= i < |xs| => CoveringIndex(cs, xs[i].addr))
  }

  lemma MembersCovered(xs: seq<Network>, cs: seq<Network>)
    requires SameAddresses(xs, cs) && forall i :: 0 <= i < |xs| ==> xs[i].Valid()
    ensures forall i :: 0 <= i < |xs| ==> Covered(cs, xs[i].addr)
  {
    forall i | 0 <= i < |xs| ensures Covered(cs, xs[i].addr) {
      assert xs[i].Has(xs[i].addr);
      assert Covered(xs, xs[i].addr);
    }
  }

  lemma CoverIndicesDistinct(xs: seq<Network>, cs: seq<Network>, maxlen: nat)
    requires Canonical(xs, maxlen) && AllValid(cs, maxlen) && SameAddresses(xs, cs)
    requires forall i :: 0 <= i < |xs| ==> Covered(cs, xs[i].addr)
    ensures forall i, j :: 0 <= i < j < |xs| ==> CoverIndices(xs, cs)[i] != CoverIndices(xs, cs)[j]
  {
    var f := CoverIndices(xs, cs);
    forall i, j | 0 <= i < j < |xs| ensures f[i] != f[j] {
      if f[i] == f[j] {
        CoveredApart(xs, cs, maxlen, i, j);
      }
    }
  }

  /** No list of networks with the same addresses, sorted or not, overlapping or not, is shorter. */
  lemma CanonicalIsShortest(xs: seq<Network>, cs: seq<Network>, maxlen: nat)
    requires Canonical(xs, maxlen) && AllValid(cs, maxlen) && SameAddresses(xs, cs)
    ensures |xs| <= |cs|
  {
    MembersCovered(xs, cs);
    CoverIndicesDistinct(xs, cs, maxlen);
    DistinctBelow(CoverIndices(xs, cs), |cs|);
  }
}
