/**
 Removing networks from networks: `address_exclude` and, built on it, the list of unused private
 prefixes. The list returned is wrong for some inputs; `ExcludeAllCorrectIff` says for exactly which, and
 `EveryRoundCorrectIff` says when it is right after every single round.
 */
module Exclude {
  import opened Wrappers
  import opened PowersOfTwo
  import opened Networks
  import opened Subnetting
  import opened Summarize
  import opened Collapse

  datatype ExcludeError = NotContained

  ghost predicate Disjoint(ns: seq<Network>) {
    forall i, j, a: int :: 0 <= i < j < |ns| && ns[i].Valid() && ns[j].Valid() && ns[i].Has(a) ==> !ns[j].Has(a)
  }

  ghost predicate LiesIn(b: Network, ns: seq<Network>)
    requires b.Valid()
  {
    exists i :: 0 <= i < |ns| && ns[i].Valid() && b.Within(ns[i])
  }

  ghost predicate Clear(x: Network, y: Network)
    requires x.Valid() && y.Valid()
  {
    x.Broadcast() < y.addr || y.Broadcast() < x.addr
  }

  lemma NestedOrClear(x: Network, y: Network)
    requires x.Valid() && y.Valid() && x.maxlen == y.maxlen
    ensures x.Within(y) || y.Within(x) || Clear(x, y)
    ensures x.Within(y) ==> y.prefixlen <= x.prefixlen
    ensures x.Within(y) && x != y ==> y.prefixlen < x.prefixlen
  {
    if !Clear(x, y) {
      var a := if x.addr < y.addr then y.addr else x.addr;
      if x.prefixlen >= y.prefixlen {
        NestedOrDisjoint(x, y, a);
      } else {
        NestedOrDisjoint(y, x, a);
      }
    }
    if x.Within(y) && x.prefixlen <= y.prefixlen {
      NestedOrDisjoint(y, x, x.addr);
      EqualIfNested(x, y);
    }
  }

  /** A network strictly inside another lies in one of its halves. */
  lemma InOneHalf(x: Network, n: Network)
    requires x.Valid() && n.Valid() && x.maxlen == n.maxlen && x.Within(n) && x != n
    ensures n.prefixlen < n.maxlen && n.prefixlen < x.prefixlen
    ensures LowerHalf(n).Valid() && UpperHalf(n).Valid()
    ensures x.Within(LowerHalf(n)) || x.Within(UpperHalf(n))
  {
    NestedOrClear(x, n);
    Halves(n);
    if x.addr <= LowerHalf(n).Broadcast() {
      NestedOrDisjoint(x, LowerHalf(n), x.addr);
    } else {
      NestedOrDisjoint(x, UpperHalf(n), x.addr);
    }
  }

  /** The halves not taken on the way from `self` down to `other`. */
  ghost function CutList(self: Network, other: Network): seq<Network>
    requires self.Valid() && other.Valid() && self.maxlen == other.maxlen && other.Within(self)
    decreases other.maxlen - self.prefixlen
  {
    if other == self then []
    else
      InOneHalf(other, self);
      if other.Within(LowerHalf(self)) then [UpperHalf(self)] + CutList(LowerHalf(self), other)
      else [LowerHalf(self)] + CutList(UpperHalf(self), other)
  }

  /** `out` is `self` without `other`: disjoint, one network for each prefix length between the two. */
  ghost predicate CutOff(self: Network, other: Network, out: seq<Network>)
    requires self.Valid() && other.Valid()
  {
    && AllValid(out, self.maxlen)
    && |out| == other.prefixlen - self.prefixlen
    && (forall i :: 0 <= i < |out| ==> out[i].prefixlen == self.prefixlen + 1 + i)
    && Disjoint(out)
    && (forall a: int :: Covered(out, a) <==> self.Has(a) && !other.Has(a))
    && (forall b: Network ::
      b.Valid() && b.maxlen == self.maxlen && b.Within(self) && Clear(b, other) ==> LiesIn(b, out))
  }

  lemma LiesInConcat(b: Network, xs: seq<Network>, ys: seq<Network>)
    requires b.Valid() && (LiesIn(b, xs) || LiesIn(b, ys))
    ensures LiesIn(b, xs + ys)
  {
    var t := xs + ys;
    if LiesIn(b, xs) {
      var i :| 0 <= i < |xs| && xs[i].Valid() && b.Within(xs[i]);
      assert t[i] == xs[i];
    } else {
      var i :| 0 <= i < |ys| && ys[i].Valid() && b.Within(ys[i]);
      assert t[|xs| + i] == ys[i];
    }
  }

  lemma DisjointConcat(xs: seq<Network>, ys: seq<Network>)
    requires Disjoint(xs) && Disjoint(ys)
    requires forall a: int :: Covered(xs, a) ==> !Covered(ys, a)
    ensures Disjoint(xs + ys)
  {
    var t := xs + ys;
    forall i, j, a: int | 0 <= i < j < |t| && t[i].Valid() && t[j].Valid() && t[i].Has(a) ensures !t[j].Has(a) {
      if i < |xs| <= j {
        assert Covered(xs, a);
        assert t[j] == ys[j - |xs|];
      }
    }
  }

  /** Cutting off one half and then everything but `other` from the half kept. */
  lemma CutOffHalf(self: Network, other: Network, kept: Network, cut: Network, rest: seq<Network>)
    requires self.Valid() && other.Valid() && self.maxlen == other.maxlen && self.prefixlen < self.maxlen
    requires (kept == LowerHalf(self) && cut == UpperHalf(self)) || (kept == UpperHalf(self) && cut == LowerHalf(self))
    requires kept.Valid() && cut.Valid() && other.Within(kept) && CutOff(kept, other, rest)
    ensures CutOff(self, other, [cut] + rest)
  {
    Halves(self);
    forall a: int ensures Covered([cut] + rest, a) <==> self.Has(a) && !other.Has(a) {
      ConcatCovers([cut], rest, a);
      AppendCovers([], cut, a);
      assert [] + [cut] == [cut];
    }
    forall a: int | Covered([cut], a) ensures !Covered(rest, a) {
    }
    DisjointConcat([cut], rest);
    forall b: Network | b.Valid() && b.maxlen == self.maxlen && b.Within(self) && Clear(b, other)
      ensures LiesIn(b, [cut] + rest)
    {
      HalfHolds(b, self, other, kept, cut);
      assert b.Within(cut) ==> b.Within([cut][0]);
      LiesInConcat(b, [cut], rest);
    }
  }

  lemma HalfHolds(b: Network, self: Network, other: Network, kept: Network, cut: Network)
    requires b.Valid() && self.Valid() && other.Valid() && self.maxlen == other.maxlen == b.maxlen
    requires self.prefixlen < self.maxlen
    requires (kept == LowerHalf(self) && cut == UpperHalf(self)) || (kept == UpperHalf(self) && cut == LowerHalf(self))
    requires kept.Valid() && cut.Valid() && other.Within(kept) && b.Within(self) && Clear(b, other)
    ensures b.Within(cut) || b.Within(kept)
  {
    Halves(self);
    InOneHalf(b, self);
  }

  lemma {:induction false} CutListIsCutOff(self: Network, other: Network)
    requires self.Valid() && other.Valid() && self.maxlen == other.maxlen && other.Within(self)
    ensures CutOff(self, other, CutList(self, other))
    decreases other.maxlen - self.prefixlen
  {
    if other == self {
    } else {
      InOneHalf(other, self);
      if other.Within(LowerHalf(self)) {
        CutListIsCutOff(LowerHalf(self), other);
        CutOffHalf(self, other, LowerHalf(self), UpperHalf(self), CutList(LowerHalf(self), other));
      } else {
        CutListIsCutOff(UpperHalf(self), other);
        CutOffHalf(self, other, UpperHalf(self), LowerHalf(self), CutList(UpperHalf(self), other));
      }
    }
  }

  /** Descending one half appends the other to what has been yielded. */
  lemma YieldOther(self: Network, parent: Network, other: Network, out: seq<Network>, kept: Network, cut: Network)
    requires self.Valid() && parent.Valid() && other.Valid() && self.maxlen == other.maxlen == parent.maxlen
    requires other.Within(self) && other.Within(parent) && other != parent && parent.prefixlen < parent.maxlen
    requires CutList(self, other) == out + CutList(parent, other)
    requires (kept == LowerHalf(parent) && cut == UpperHalf(parent)) ||
      (kept == UpperHalf(parent) && cut == LowerHalf(parent))
    requires kept.Valid() && other.Within(kept)
    ensures CutList(self, other) == (out + [cut]) + CutList(kept, other)
  {
    Halves(parent);
    if kept == LowerHalf(parent) {
      assert CutList(parent, other) == [cut] + CutList(kept, other);
    } else {
      assert !other.Within(LowerHalf(parent));
      assert CutList(parent, other) == [cut] + CutList(kept, other);
    }
    Associate(out, [cut], CutList(kept, other));
  }

  lemma Associate(xs: seq<Network>, ys: seq<Network>, zs: seq<Network>)
    ensures xs + (ys + zs) == (xs + ys) + zs
  {
  }

  /**
   `self` without `other`, from the shortest prefix to the longest. For `other == self` the generator
   stops at once and yields nothing.
   */
  method AddressExclude(self: Network, other: Network) returns (r: Result<seq<Network>, ExcludeError>)
    requires self.Valid() && other.Valid() && self.maxlen == other.maxlen
    ensures r.Failure? <==> !other.Within(self)
    ensures r.Success? ==> r.value == CutList(self, other) && CutOff(self, other, r.value)
  {
    if !(other.addr >= self.addr && other.Broadcast() <= self.Broadcast()) {
      return Failure(NotContained);
    }
    CutListIsCutOff(self, other);
    if other == self {
      return Success([]);
    }
    InOneHalf(other, self);
    ghost var parent := self;
    var out := [];
    var halves := Subnets(self, 1);
    TwoSubnets(self, halves.value);
    var s1, s2 := halves.value[0], halves.value[1];
    while s1 != other && s2 != other
      invariant parent.Valid() && parent.maxlen == self.maxlen && parent.prefixlen < parent.maxlen
      invariant other.Within(parent) && other != parent
      invariant CutList(self, other) == out + CutList(parent, other)
      invariant s1 == LowerHalf(parent) && s2 == UpperHalf(parent)
      decreases other.maxlen - parent.prefixlen
    {
      InOneHalf(other, parent);
      var kept;
      if other.addr >= s1.addr && other.Broadcast() <= s1.Broadcast() {
        YieldOther(self, parent, other, out, s1, s2);
        out := out + [s2];
        kept := s1;
      } else {
        YieldOther(self, parent, other, out, s2, s1);
        out := out + [s1];
        kept := s2;
      }
      parent := kept;
      InOneHalf(other, parent);
      halves := Subnets(kept, 1);
      TwoSubnets(parent, halves.value);
      s1, s2 := halves.value[0], halves.value[1];
    }
    InOneHalf(other, parent);
    if s1 == other {
      YieldOther(self, parent, other, out, s1, s2);
      return Success(out + [s2]);
    } else {
      YieldOther(self, parent, other, out, s2, s1);
      return Success(out + [s1]);
    }
  }

  /** What one network of the current result becomes when `i` is to be excluded. */
  ghost function Piece(net: Network, i: Network): seq<Network>
    requires net.Valid() && i.Valid() && net.maxlen == i.maxlen
  {
    if i.Within(net) then CutList(net, i)
    else if net.Within(i) then CutList(i, net)
    else [net]
  }

  ghost function StepNets(result: seq<Network>, i: Network): seq<Network>
    requires i.Valid() && AllValid(result, i.maxlen)
  {
    if result == [] then [] else Piece(result[0], i) + StepNets(result[1..], i)
  }

  ghost predicate PieceHas(net: Network, i: Network, a: int)
    requires net.Valid() && i.Valid()
  {
    if i.Within(net) then net.Has(a) && !i.Has(a)
    else if net.Within(i) then i.Has(a) && !net.Has(a)
    else net.Has(a)
  }

  lemma PieceCovers(net: Network, i: Network)
    requires net.Valid() && i.Valid() && net.maxlen == i.maxlen
    ensures AllValid(Piece(net, i), i.maxlen) && Disjoint(Piece(net, i))
    ensures forall a: int :: Covered(Piece(net, i), a) <==> PieceHas(net, i, a)
  {
    if i.Within(net) {
      CutListIsCutOff(net, i);
    } else if net.Within(i) {
      CutListIsCutOff(i, net);
    } else {
      assert [net][0] == net;
    }
  }

  lemma {:induction false} StepCovers(result: seq<Network>, i: Network)
    requires i.Valid() && AllValid(result, i.maxlen)
    ensures AllValid(StepNets(result, i), i.maxlen)
    ensures forall a: int ::
      Covered(StepNets(result, i), a) <==> exists k :: 0 <= k < |result| && PieceHas(result[k], i, a)
  {
    if result == [] {
    } else {
      var net, rest := result[0], result[1..];
      PieceCovers(net, i);
      StepCovers(rest, i);
      forall a: int
        ensures Covered(StepNets(result, i), a) <==> exists k :: 0 <= k < |result| && PieceHas(result[k], i, a)
      {
        ConcatCovers(Piece(net, i), StepNets(rest, i), a);
        assert forall k :: 0 <= k < |rest| ==> rest[k] == result[k + 1];
        if exists k :: 0 <= k < |rest| && PieceHas(rest[k], i, a) {
          var k :| 0 <= k < |rest| && PieceHas(rest[k], i, a);
          assert PieceHas(result[k + 1], i, a);
        }
        if k :| 0 <= k < |result| && PieceHas(result[k], i, a) {
          assert k == 0 || PieceHas(rest[k - 1], i, a);
        }
      }
    }
  }

  /** Some network of the result lies strictly inside `i`: the guard of the second branch. */
  ghost predicate StrictInside(result: seq<Network>, i: Network)
    requires i.Valid() && AllValid(result, i.maxlen)
  {
    exists k :: 0 <= k < |result| && result[k].Within(i) && result[k] != i
  }

  ghost predicate Removes(result: seq<Network>, i: Network, next: seq<Network>)
    requires i.Valid()
  {
    forall a: int :: Covered(next, a) <==> Covered(result, a) && !i.Has(a)
  }

  /** One round of `exclude_all` removes just the addresses of `i` exactly when its second branch is not taken. */
  lemma StepCorrectIff(result: seq<Network>, i: Network)
    requires i.Valid() && AllValid(result, i.maxlen)
    ensures Removes(result, i, StepNets(result, i)) <==> !StrictInside(result, i)
  {
    StepCovers(result, i);
    if StrictInside(result, i) {
      var k :| 0 <= k < |result| && result[k].Within(i) && result[k] != i;
      if i.Within(result[k]) {
        EqualIfNested(i, result[k]);
      }
      var a := if i.addr < result[k].addr then i.addr else i.Broadcast();
      assert PieceHas(result[k], i, a);
    } else {
      forall a: int ensures Covered(StepNets(result, i), a) <==> Covered(result, a) && !i.Has(a) {
        forall k | 0 <= k < |result| ensures PieceHas(result[k], i, a) <==> result[k].Has(a) && !i.Has(a) {
          NestedOrClear(result[k], i);
        }
      }
    }
  }

  /** Every network whose addresses are all covered lies inside one member of the list. */
  ghost predicate Maximal(ns: seq<Network>, maxlen: nat) {
    forall b: Network ::
      b.Valid() && b.maxlen == maxlen && (forall a: int :: b.Has(a) ==> Covered(ns, a)) ==> LiesIn(b, ns)
  }

  lemma {:induction false} StepDisjoint(result: seq<Network>, i: Network)
    requires i.Valid() && AllValid(result, i.maxlen) && Disjoint(result) && !StrictInside(result, i)
    ensures Disjoint(StepNets(result, i))
  {
    if result == [] {
    } else {
      var net, rest := result[0], result[1..];
      PieceCovers(net, i);
      StepDisjoint(rest, i);
      StepCovers(rest, i);
      NestedOrClear(net, i);
      forall a: int | Covered(Piece(net, i), a) ensures !Covered(StepNets(rest, i), a) {
        forall k | 0 <= k < |rest| ensures !PieceHas(rest[k], i, a) {
          assert rest[k] == result[k + 1];
        }
      }
      DisjointConcat(Piece(net, i), StepNets(rest, i));
    }
  }

  lemma {:induction false} StepHolds(result: seq<Network>, i: Network, k: nat, b: Network)
    requires i.Valid() && AllValid(result, i.maxlen) && !StrictInside(result, i) && k < |result|
    requires b.Valid() && b.maxlen == i.maxlen && b.Within(result[k]) && Clear(b, i)
    ensures LiesIn(b, StepNets(result, i))
  {
    var net, rest := result[0], result[1..];
    if k == 0 {
      if i.Within(net) {
        CutListIsCutOff(net, i);
      } else {
        assert b.Within([net][0]);
      }
    } else {
      StepHolds(rest, i, k - 1, b);
    }
    LiesInConcat(b, Piece(net, i), StepNets(rest, i));
  }

  lemma StepHoldsCovered(result: seq<Network>, i: Network, b: Network)
    requires i.Valid() && AllValid(result, i.maxlen) && !StrictInside(result, i)
    requires b.Valid() && b.maxlen == i.maxlen && LiesIn(b, result)
    requires forall a: int :: b.Has(a) ==> !i.Has(a)
    ensures LiesIn(b, StepNets(result, i))
  {
    var k :| 0 <= k < |result| && result[k].Valid() && b.Within(result[k]);
    NestedOrClear(b, i);
    assert b.Has(b.addr) && i.Has(i.addr);
    assert !b.Within(i) && !i.Within(b);
    StepHolds(result, i, k, b);
  }

  lemma StepMaximal(result: seq<Network>, i: Network)
    requires i.Valid() && AllValid(result, i.maxlen) && !StrictInside(result, i) && Maximal(result, i.maxlen)
    ensures Maximal(StepNets(result, i), i.maxlen)
  {
    StepCorrectIff(result, i);
    var next := StepNets(result, i);
    forall b: Network | b.Valid() && b.maxlen == i.maxlen && (forall a: int :: b.Has(a) ==> Covered(next, a))
      ensures LiesIn(b, next)
    {
      assert forall a: int :: b.Has(a) ==> Covered(result, a);
      StepHoldsCovered(result, i, b);
    }
  }

  /** What `exclude_all` computes, one excluded prefix after the other. */
  ghost function Unused(base: Network, netlist: seq<Network>): (r: seq<Network>)
    requires base.Valid() && AllValid(netlist, base.maxlen)
    ensures AllValid(r, base.maxlen)
    decreases |netlist|
  {
    if netlist == [] then [base]
    else
      var init, i := netlist[..|netlist| - 1], netlist[|netlist| - 1];
      StepCovers(Unused(base, init), i);
      StepNets(Unused(base, init), i)
  }

  method ExcludeFrom(net: Network, i: Network) returns (piece: seq<Network>)
    requires net.Valid() && i.Valid() && net.maxlen == i.maxlen
    ensures piece == Piece(net, i)
  {
    if net.Has(i.addr) && net.Has(i.Broadcast()) {
      var r := AddressExclude(net, i);
      return r.value;
    } else if i.Has(net.addr) && i.Has(net.Broadcast()) {
      var r := AddressExclude(i, net);
      return r.value;
    }
    return [net];
  }

  lemma StepNetsSplit(result: seq<Network>, i: Network, k: nat)
    requires i.Valid() && AllValid(result, i.maxlen) && k < |result|
    ensures StepNets(result[k..], i) == Piece(result[k], i) + StepNets(result[k + 1..], i)
  {
    assert result[k..][1..] == result[k + 1..];
  }

  method ExcludeOne(result: seq<Network>, i: Network) returns (next: seq<Network>)
    requires i.Valid() && AllValid(result, i.maxlen)
    ensures next == StepNets(result, i)
  {
    next := [];
    for k := 0 to |result|
      invariant StepNets(result, i) == next + StepNets(result[k..], i)
    {
      var piece := ExcludeFrom(result[k], i);
      StepNetsSplit(result, i, k);
      Associate(next, piece, StepNets(result[k + 1..], i));
      next := next + piece;
    }
  }

  method ExcludeAll(netlist: seq<Network>) returns (result: seq<Network>)
    requires AllValid(netlist, 128)
    ensures result == Unused(Private(), netlist)
  {
    result := ExcludeFromBase(Private(), netlist);
  }

  method ExcludeFromBase(base: Network, netlist: seq<Network>) returns (result: seq<Network>)
    requires base.Valid() && AllValid(netlist, base.maxlen)
    ensures result == Unused(base, netlist)
  {
    result := [base];
    for n := 0 to |netlist|
      invariant result == Unused(base, netlist[..n])
    {
      assert netlist[..n + 1][..n] == netlist[..n];
      result := ExcludeOne(result, netlist[n]);
    }
    assert netlist[..|netlist|] == netlist;
  }

  /** fd00::/8, the prefixes for private use. */
  function Private(): (n: Network)
    ensures n.Valid() && n.maxlen == 128
  {
    assert Pow2(128) == 256 * Pow2(120) by {
      Pow2Add(8, 120);
      assert Pow2(8) == 256;
    }
    ModOfProduct(0xfd, Pow2(120));
    Network(128, Pow2(120) * 0xfd, 8)
  }

  /** Address `a` is private and in none of the listed prefixes. */
  ghost predicate Free(base: Network, netlist: seq<Network>, a: int)
    requires base.Valid()
  {
    base.Has(a) && !Covered(netlist, a)
  }

  /** The prefixes returned are just the unused private addresses. */
  ghost predicate Correct(base: Network, netlist: seq<Network>)
    requires base.Valid() && AllValid(netlist, base.maxlen)
  {
    forall a: int :: Covered(Unused(base, netlist), a) <==> Free(base, netlist, a)
  }

  /** When its turn comes, prefix `n` of the list is wholly unused so far, or wholly used or not private. */
  ghost predicate AllOrNone(base: Network, netlist: seq<Network>, n: nat)
    requires base.Valid() && AllValid(netlist, base.maxlen) && n < |netlist|
  {
    || (forall a: int :: netlist[n].Has(a) ==> Free(base, netlist[..n], a))
    || (forall a: int :: netlist[n].Has(a) ==> !Free(base, netlist[..n], a))
  }

  lemma FreeStep(base: Network, netlist: seq<Network>, n: nat, a: int)
    requires base.Valid() && AllValid(netlist, base.maxlen) && n < |netlist|
    ensures Free(base, netlist[..n + 1], a) <==> Free(base, netlist[..n], a) && !netlist[n].Has(a)
  {
    assert netlist[..n + 1] == netlist[..n] + [netlist[n]];
    AppendCovers(netlist[..n], netlist[n], a);
  }

  lemma InsideIsEqual(result: seq<Network>, i: Network, k: nat)
    requires i.Valid() && AllValid(result, i.maxlen) && Disjoint(result) && k < |result|
    requires result[k].Within(i) && LiesIn(i, result)
    ensures result[k] == i
  {
    var m :| 0 <= m < |result| && result[m].Valid() && i.Within(result[m]);
    assert result[m].Has(result[k].addr) && result[k].Has(result[k].addr);
    assert k == m;
    EqualIfNested(i, result[k]);
  }

  lemma StrictIsPartlyUsed(base: Network, netlist: seq<Network>, n: nat, k: nat)
    requires base.Valid() && AllValid(netlist, base.maxlen) && n < |netlist|
    requires Correct(base, netlist[..n]) && Disjoint(Unused(base, netlist[..n]))
    requires Maximal(Unused(base, netlist[..n]), base.maxlen)
    requires k < |Unused(base, netlist[..n])| && Unused(base, netlist[..n])[k].Within(netlist[n])
    requires Unused(base, netlist[..n])[k] != netlist[n]
    ensures !AllOrNone(base, netlist, n)
  {
    var result, i := Unused(base, netlist[..n]), netlist[n];
    assert result[k].Has(result[k].addr) && Covered(result, result[k].addr);
    assert i.Has(result[k].addr) && Free(base, netlist[..n], result[k].addr);
    if forall a: int :: i.Has(a) ==> Free(base, netlist[..n], a) {
      assert LiesIn(i, result);
      InsideIsEqual(result, i, k);
    }
  }

  lemma PartlyUsedIsStrict(base: Network, netlist: seq<Network>, n: nat)
    requires base.Valid() && AllValid(netlist, base.maxlen) && n < |netlist| && Correct(base, netlist[..n])
    requires !AllOrNone(base, netlist, n)
    ensures StrictInside(Unused(base, netlist[..n]), netlist[n])
  {
    var result, i := Unused(base, netlist[..n]), netlist[n];
    var a: int :| i.Has(a) && Free(base, netlist[..n], a);
    assert Covered(result, a);
    var k :| 0 <= k < |result| && result[k].Valid() && result[k].Has(a);
    NestedOrClear(i, result[k]);
    forall b: int | result[k].Has(b) ensures Free(base, netlist[..n], b) {
      assert Covered(result, b);
    }
  }

  /** From a correct, maximal result the second branch is taken exactly when the prefix is partly used. */
  lemma BranchIff(base: Network, netlist: seq<Network>, n: nat)
    requires base.Valid() && AllValid(netlist, base.maxlen) && n < |netlist|
    requires Correct(base, netlist[..n]) && Disjoint(Unused(base, netlist[..n]))
    requires Maximal(Unused(base, netlist[..n]), base.maxlen)
    ensures StrictInside(Unused(base, netlist[..n]), netlist[n]) <==> !AllOrNone(base, netlist, n)
  {
    if StrictInside(Unused(base, netlist[..n]), netlist[n]) {
      var k :| 0 <= k < |Unused(base, netlist[..n])| && Unused(base, netlist[..n])[k].Within(netlist[n]) &&
        Unused(base, netlist[..n])[k] != netlist[n];
      StrictIsPartlyUsed(base, netlist, n, k);
    } else if !AllOrNone(base, netlist, n) {
      PartlyUsedIsStrict(base, netlist, n);
    }
  }

  lemma OneNetwork(p: Network)
    requires p.Valid()
    ensures AllValid([p], p.maxlen) && Disjoint([p]) && Maximal([p], p.maxlen)
    ensures forall a: int :: Covered([p], a) <==> p.Has(a)
  {
    forall a: int ensures Covered([p], a) <==> p.Has(a) {
      assert [p][0] == p;
    }
    forall b: Network | b.Valid() && b.maxlen == p.maxlen && (forall a: int :: b.Has(a) ==> Covered([p], a))
      ensures LiesIn(b, [p])
    {
      assert b.Has(b.addr) && b.Has(b.Broadcast());
      assert b.Within([p][0]);
    }
  }

  lemma NothingExcluded(base: Network)
    requires base.Valid()
    ensures Correct(base, []) && Disjoint(Unused(base, [])) && Maximal(Unused(base, []), base.maxlen)
  {
    OneNetwork(base);
  }

  lemma CorrectStep(base: Network, netlist: seq<Network>, n: nat)
    requires base.Valid() && AllValid(netlist, base.maxlen) && n < |netlist| && Correct(base, netlist[..n])
    ensures Correct(base, netlist[..n + 1]) <==>
      Removes(Unused(base, netlist[..n]), netlist[n], Unused(base, netlist[..n + 1]))
  {
    forall a: int
      ensures Free(base, netlist[..n + 1], a) <==> Covered(Unused(base, netlist[..n]), a) && !netlist[n].Has(a)
    {
      FreeStep(base, netlist, n, a);
    }
  }

  lemma UnusedStep(base: Network, netlist: seq<Network>, n: nat)
    requires base.Valid() && AllValid(netlist, base.maxlen) && n < |netlist|
    ensures Unused(base, netlist[..n + 1]) == StepNets(Unused(base, netlist[..n]), netlist[n])
  {
    assert netlist[..n + 1][..n] == netlist[..n];
  }

  lemma UnusedStaysCorrect(base: Network, netlist: seq<Network>, n: nat)
    requires base.Valid() && AllValid(netlist, base.maxlen) && n < |netlist| && AllOrNone(base, netlist, n)
    requires Correct(base, netlist[..n]) && Disjoint(Unused(base, netlist[..n]))
    requires Maximal(Unused(base, netlist[..n]), base.maxlen)
    ensures Correct(base, netlist[..n + 1])
    ensures Disjoint(Unused(base, netlist[..n + 1])) && Maximal(Unused(base, netlist[..n + 1]), base.maxlen)
  {
    var result, i := Unused(base, netlist[..n]), netlist[n];
    UnusedStep(base, netlist, n);
    assert !StrictInside(result, i) by {
      BranchIff(base, netlist, n);
    }
    assert Correct(base, netlist[..n + 1]) by {
      StepCorrectIff(result, i);
      CorrectStep(base, netlist, n);
    }
    StepDisjoint(result, i);
    StepMaximal(result, i);
  }

  /** While every prefix is all or none, the result stays correct, disjoint and maximal. */
  lemma {:induction false} UnusedIsCorrect(base: Network, netlist: seq<Network>, n: nat)
    requires base.Valid() && AllValid(netlist, base.maxlen) && n <= |netlist|
    requires forall k :: 0 <= k < n ==> AllOrNone(base, netlist, k)
    ensures Correct(base, netlist[..n]) && Disjoint(Unused(base, netlist[..n]))
    ensures Maximal(Unused(base, netlist[..n]), base.maxlen)
  {
    if n == 0 {
      NothingExcluded(base);
    } else {
      UnusedIsCorrect(base, netlist, n - 1);
      UnusedStaysCorrect(base, netlist, n - 1);
    }
  }

  /**
   The list of unused prefixes is right after every round exactly when each excluded prefix, at its
   turn, is wholly unused, wholly used, or outside fd00::/8. That is enough for the list returned, but not needed:
   see `WrongInBetween`.
   */
  lemma {:induction false} EveryRoundCorrectIff(base: Network, netlist: seq<Network>)
    requires base.Valid() && AllValid(netlist, base.maxlen)
    ensures (forall n :: 0 <= n <= |netlist| ==> Correct(base, netlist[..n])) <==>
            (forall n :: 0 <= n < |netlist| ==> AllOrNone(base, netlist, n))
  {
    if forall n :: 0 <= n < |netlist| ==> AllOrNone(base, netlist, n) {
      forall n | 0 <= n <= |netlist| ensures Correct(base, netlist[..n]) {
        UnusedIsCorrect(base, netlist, n);
      }
    } else {
      var n := FirstPartlyUsed(base, netlist);
      CorrectFails(base, netlist, n);
    }
  }

  // ---------------------------------------------------------------- the list returned

  /** The round for `i` takes its second branch for a network without `a`, and so puts `a` into the result. */
  ghost predicate Spilled(result: seq<Network>, i: Network, a: int)
    requires i.Valid() && AllValid(result, i.maxlen)
  {
    i.Has(a) && exists k :: 0 <= k < |result| && result[k].Within(i) && result[k] != i && !result[k].Has(a)
  }

  /** After the round for `i` an address of `i` is in the result just if it was spilled; the others stay. */
  lemma RoundCovers(result: seq<Network>, i: Network, a: int)
    requires i.Valid() && AllValid(result, i.maxlen)
    ensures Covered(StepNets(result, i), a) <==> if i.Has(a) then Spilled(result, i, a) else Covered(result, a)
  {
    StepCovers(result, i);
    forall k | 0 <= k < |result|
      ensures PieceHas(result[k], i, a) <==>
              if i.Has(a) then result[k].Within(i) && result[k] != i && !result[k].Has(a) else result[k].Has(a)
    {
      NestedOrClear(result[k], i);
      if i.Within(result[k]) && result[k].Within(i) {
        EqualIfNested(i, result[k]);
      }
    }
  }

  lemma RestCovers(netlist: seq<Network>, n: nat, a: int)
    requires n < |netlist|
    ensures Covered(netlist[n..], a) <==> (netlist[n].Valid() && netlist[n].Has(a)) || Covered(netlist[n + 1..], a)
  {
    assert netlist[n..] == [netlist[n]] + netlist[n + 1..];
    ConcatCovers([netlist[n]], netlist[n + 1..], a);
    assert [netlist[n]][0] == netlist[n];
  }

  /** An address of none of the later prefixes stays in the result, or out of it. */
  lemma {:induction false} LaterRoundsKeep(base: Network, netlist: seq<Network>, n: nat, a: int)
    requires base.Valid() && AllValid(netlist, base.maxlen) && n <= |netlist| && !Covered(netlist[n..], a)
    ensures Covered(Unused(base, netlist), a) <==> Covered(Unused(base, netlist[..n]), a)
    decreases |netlist| - n
  {
    if n == |netlist| {
      assert netlist[..n] == netlist;
    } else {
      RestCovers(netlist, n, a);
      LaterRoundsKeep(base, netlist, n + 1, a);
      UnusedStep(base, netlist, n);
      RoundCovers(Unused(base, netlist[..n]), netlist[n], a);
    }
  }

  /** The last prefix that holds the address. */
  lemma {:induction false} LastHolder(netlist: seq<Network>, from: nat, a: int) returns (n: nat)
    requires from <= |netlist| && Covered(netlist[from..], a)
    ensures n < |netlist| && netlist[n].Valid() && netlist[n].Has(a) && !Covered(netlist[n + 1..], a)
    decreases |netlist| - from
  {
    RestCovers(netlist, from, a);
    if Covered(netlist[from + 1..], a) {
      n := LastHolder(netlist, from + 1, a);
    } else {
      n := from;
    }
  }

  /** The list returned is wrong about an address of the prefixes just if the last prefix with it spilled it. */
  lemma WrongIfSpilledLast(base: Network, netlist: seq<Network>, n: nat, a: int)
    requires base.Valid() && AllValid(netlist, base.maxlen) && n < |netlist|
    requires netlist[n].Has(a) && !Covered(netlist[n + 1..], a)
    ensures Covered(Unused(base, netlist), a) <==> Spilled(Unused(base, netlist[..n]), netlist[n], a)
    ensures !Free(base, netlist, a)
  {
    LaterRoundsKeep(base, netlist, n + 1, a);
    UnusedStep(base, netlist, n);
    RoundCovers(Unused(base, netlist[..n]), netlist[n], a);
  }

  lemma RightOutside(base: Network, netlist: seq<Network>, a: int)
    requires base.Valid() && AllValid(netlist, base.maxlen) && !Covered(netlist, a)
    ensures Covered(Unused(base, netlist), a) <==> Free(base, netlist, a)
  {
    assert netlist[0..] == netlist;
    LaterRoundsKeep(base, netlist, 0, a);
    assert netlist[..0] == [];
    OneNetwork(base);
  }

  /** Round `n` puts `a` into the result by its second branch, and no later prefix takes it out again. */
  ghost predicate SpillsForGood(base: Network, netlist: seq<Network>, n: nat, a: int)
    requires base.Valid() && AllValid(netlist, base.maxlen)
  {
    n < |netlist| && Spilled(Unused(base, netlist[..n]), netlist[n], a) && !Covered(netlist[n + 1..], a)
  }

  lemma SpilledIsWrong(base: Network, netlist: seq<Network>, n: nat, a: int)
    requires base.Valid() && AllValid(netlist, base.maxlen) && SpillsForGood(base, netlist, n, a)
    ensures !Correct(base, netlist)
  {
    WrongIfSpilledLast(base, netlist, n, a);
  }

  lemma RightUnlessSpilled(base: Network, netlist: seq<Network>, a: int)
    requires base.Valid() && AllValid(netlist, base.maxlen)
    requires forall n: nat :: !SpillsForGood(base, netlist, n, a)
    ensures Covered(Unused(base, netlist), a) <==> Free(base, netlist, a)
  {
    if Covered(netlist, a) {
      assert netlist[0..] == netlist;
      var n := LastHolder(netlist, 0, a);
      WrongIfSpilledLast(base, netlist, n, a);
      assert !SpillsForGood(base, netlist, n, a);
    } else {
      RightOutside(base, netlist, a);
    }
  }

  /**
   The list returned is right exactly when whatever a round puts back by its second branch (some network of the current
   result lies strictly inside the prefix to exclude) is in a later prefix of the list.
   */
  lemma ExcludeAllCorrectIff(base: Network, netlist: seq<Network>)
    requires base.Valid() && AllValid(netlist, base.maxlen)
    ensures Correct(base, netlist) <==> forall n: nat, a: int :: !SpillsForGood(base, netlist, n, a)
  {
    forall n: nat, a: int | SpillsForGood(base, netlist, n, a) ensures !Correct(base, netlist) {
      SpilledIsWrong(base, netlist, n, a);
    }
    if forall n: nat, a: int :: !SpillsForGood(base, netlist, n, a) {
      forall a: int ensures Covered(Unused(base, netlist), a) <==> Free(base, netlist, a) {
        RightUnlessSpilled(base, netlist, a);
      }
    }
  }

  lemma {:induction false} FirstPartlyUsed(base: Network, netlist: seq<Network>) returns (n: nat)
    requires base.Valid() && AllValid(netlist, base.maxlen) && exists k ::
      0 <= k < |netlist| && !AllOrNone(base, netlist, k)
    ensures n < |netlist| && !AllOrNone(base, netlist, n) && forall k :: 0 <= k < n ==> AllOrNone(base, netlist, k)
  {
    n := 0;
    while AllOrNone(base, netlist, n)
      invariant n < |netlist| && forall k :: 0 <= k < n ==> AllOrNone(base, netlist, k)
      decreases |netlist| - n
    {
      n := n + 1;
    }
  }

  /** Pairwise disjoint prefixes, none strictly containing fd00::/8, leave a partition of the rest of it. */
  lemma ExcludeAllPartitions(base: Network, netlist: seq<Network>)
    requires base.Valid() && AllValid(netlist, base.maxlen) && Disjoint(netlist)
    requires forall n :: 0 <= n < |netlist| && base.Within(netlist[n]) ==> netlist[n] == base
    ensures Correct(base, netlist) && Disjoint(Unused(base, netlist)) && Maximal(Unused(base, netlist), base.maxlen)
  {
    forall n | 0 <= n < |netlist| ensures AllOrNone(base, netlist, n) {
      NestedOrClear(netlist[n], base);
      assert forall k :: 0 <= k < n ==> netlist[..n][k] == netlist[k];
    }
    UnusedIsCorrect(base, netlist, |netlist|);
    assert netlist[..|netlist|] == netlist;
  }

  lemma CorrectFails(base: Network, netlist: seq<Network>, n: nat)
    requires base.Valid() && AllValid(netlist, base.maxlen) && n < |netlist| && !AllOrNone(base, netlist, n)
    requires forall k :: 0 <= k < n ==> AllOrNone(base, netlist, k)
    ensures !Correct(base, netlist[..n + 1])
  {
    UnusedIsCorrect(base, netlist, n);
    BranchIff(base, netlist, n);
    UnusedStep(base, netlist, n);
    StepCorrectIff(Unused(base, netlist[..n]), netlist[n]);
    CorrectStep(base, netlist, n);
  }

  lemma SupernetIsPartlyUsed(base: Network, sub: Network, net: Network)
    requires sub.Valid() && net.Valid() && sub.maxlen == net.maxlen == base.maxlen && base.Valid()
    requires sub.Within(net) && sub != net && net.Within(base)
    ensures AllOrNone(base, [sub, net], 0) && !AllOrNone(base, [sub, net], 1)
  {
    var netlist := [sub, net];
    assert netlist[..0] == [] && netlist[..1] == [sub];
    OneNetwork(sub);
    if net.Within(sub) {
      EqualIfNested(sub, net);
    }
    var a := if net.addr < sub.addr then net.addr else net.Broadcast();
    assert net.Has(a) && Free(base, [sub], a);
    assert net.Has(sub.addr) && !Free(base, [sub], sub.addr);
  }

  /** A private prefix followed by one that strictly contains it, such as fd00::/10 and then fd00::/9, goes wrong. */
  lemma SupernetAfterSubnetFails(base: Network, sub: Network, net: Network)
    requires sub.Valid() && net.Valid() && sub.maxlen == net.maxlen == base.maxlen && base.Valid()
    requires sub.Within(net) && sub != net && net.Within(base)
    ensures !Correct(base, [sub, net])
  {
    var netlist := [sub, net];
    SupernetIsPartlyUsed(base, sub, net);
    CorrectFails(base, netlist, 1);
    assert netlist[..2] == netlist;
  }

  lemma Inside(x: Network, y: Network)
    requires x.Valid() && y.Valid() && y.prefixlen < y.maxlen && (x == LowerHalf(y) || x == UpperHalf(y))
    ensures x.Within(y) && x != y && !y.Within(x)
    ensures forall a: int ::
      y.Has(a) && !x.Has(a) <==> if x == LowerHalf(y) then UpperHalf(y).Has(a) else LowerHalf(y).Has(a)
  {
    Halves(y);
  }

  /** One half cut off. */
  lemma HalfCut(x: Network)
    requires x.Valid() && x.prefixlen < x.maxlen
    ensures LowerHalf(x).Valid() && UpperHalf(x).Valid() && LowerHalf(x).Within(x) && UpperHalf(x).Within(x)
    ensures CutList(x, LowerHalf(x)) == [UpperHalf(x)] && CutList(x, UpperHalf(x)) == [LowerHalf(x)]
  {
    Halves(x);
    Inside(LowerHalf(x), x);
    Inside(UpperHalf(x), x);
    assert CutList(LowerHalf(x), LowerHalf(x)) == [] && CutList(UpperHalf(x), UpperHalf(x)) == [];
    assert !UpperHalf(x).Within(LowerHalf(x));
  }

  /** One quarter cut off. */
  lemma QuarterCut(base: Network, half: Network, quarter: Network)
    requires base.Valid() && base.prefixlen + 2 <= base.maxlen && half == LowerHalf(base) && quarter == LowerHalf(half)
    ensures half.Valid() && quarter.Valid() && quarter.Within(half) && half.Within(base) && quarter.Within(base)
    ensures UpperHalf(base).Valid() && UpperHalf(half).Valid() && quarter != base
    ensures CutList(base, quarter) == [UpperHalf(base), UpperHalf(half)]
  {
    Halves(base);
    Halves(half);
    HalfCut(half);
    Inside(half, base);
    Inside(quarter, half);
  }

  lemma StepTwo(x: Network, y: Network, i: Network)
    requires x.Valid() && y.Valid() && i.Valid() && x.maxlen == y.maxlen == i.maxlen
    ensures StepNets([x, y], i) == Piece(x, i) + Piece(y, i) && StepNets([x], i) == Piece(x, i)
  {
    assert [x, y][1..] == [y] && [y][1..] == [] && [x][1..] == [];
    assert StepNets([], i) == [];
  }

  /** The results of the rounds for a quarter, and then its half. */
  lemma QuarterRounds(base: Network, half: Network, quarter: Network)
    requires base.Valid() && base.prefixlen + 2 <= base.maxlen && half == LowerHalf(base) && quarter == LowerHalf(half)
    ensures half.Valid() && quarter.Valid() && AllValid([quarter, half], base.maxlen)
    ensures AllValid([quarter], base.maxlen)
    ensures Unused(base, [quarter]) == [UpperHalf(base), UpperHalf(half)]
    ensures Unused(base, [quarter, half]) == [UpperHalf(base), quarter]
  {
    QuarterCut(base, half, quarter);
    HalfCut(half);
    Inside(quarter, half);
    Inside(UpperHalf(half), half);
    Halves(base);
    assert [quarter][..0] == [] && [quarter, half][..1] == [quarter];
    StepTwo(base, base, quarter);
    StepTwo(UpperHalf(base), UpperHalf(half), half);
    assert !half.Within(UpperHalf(base)) && !UpperHalf(base).Within(half);
  }

  /** What they spill is in the quarter, and that comes once more. */
  lemma QuarterSpills(base: Network, half: Network, quarter: Network, a: int)
    requires base.Valid() && base.prefixlen + 2 <= base.maxlen && half == LowerHalf(base) && quarter == LowerHalf(half)
    requires half.Valid() && quarter.Valid() && UpperHalf(base).Valid() && UpperHalf(half).Valid()
    ensures !Spilled([base], quarter, a)
    ensures Spilled([UpperHalf(base), UpperHalf(half)], half, a) ==> quarter.Has(a)
    ensures !Spilled([UpperHalf(base), quarter], quarter, a)
  {
    Halves(base);
    Halves(half);
    Inside(quarter, half);
    Inside(half, base);
    Inside(UpperHalf(half), half);
  }

  /** fd00::/10, fd00::/9 and fd00::/10 again: wrong after the second round, right at the end. */
  lemma WrongInBetween(base: Network)
    requires base.Valid() && base.prefixlen + 2 <= base.maxlen
    ensures var half := LowerHalf(base);
            var netlist := [LowerHalf(half), half, LowerHalf(half)];
            && AllValid(netlist, base.maxlen) && Correct(base, netlist) && !Correct(base, netlist[..2])
  {
    var half := LowerHalf(base);
    var quarter := LowerHalf(half);
    var netlist := [quarter, half, quarter];
    QuarterCut(base, half, quarter);
    QuarterRounds(base, half, quarter);
    assert netlist[..0] == [] && netlist[..1] == [quarter] && netlist[..2] == [quarter, half];
    forall n: nat, a: int ensures !SpillsForGood(base, netlist, n, a) {
      QuarterSpills(base, half, quarter, a);
      assert netlist[2..][0] == quarter;
    }
    ExcludeAllCorrectIff(base, netlist);
    Inside(quarter, half);
    SupernetAfterSubnetFails(base, quarter, half);
  }
}
