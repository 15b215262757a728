/**
 The heap operations of the C++ standard library on a vector of elements with a deadline, under an order in which the
 earliest deadline comes first.
 */
module Heaps {
  datatype Entry<T> = Entry(deadline: int, value: T)

  function Parent(i: nat): nat
    requires i >= 1
  {
    (i - 1) / 2
  }

  /** The element at `i` is not earlier than its parent. */
  predicate InOrder<T>(s: seq<Entry<T>>, i: nat)
    requires 1 <= i < |s|
  {
    s[Parent(i)].deadline <= s[i].deadline
  }

  predicate Heap<T>(s: seq<Entry<T>>) {
    forall i {:trigger InOrder(s, i)} :: 1 <= i < |s| ==> InOrder(s, i)
  }

  lemma {:induction false} FrontIsEarliest<T>(s: seq<Entry<T>>, i: nat)
    requires Heap(s) && i < |s|
    ensures s[0].deadline <= s[i].deadline
  {
    if i != 0 {
      assert InOrder(s, i);
      FrontIsEarliest(s, Parent(i));
    }
  }

  function Swapped<T>(s: seq<Entry<T>>, i: nat, j: nat): (r: seq<Entry<T>>)
    requires i < |s| && j < |s|
    ensures |r| == |s|
  {
    s[i := s[j]][j := s[i]]
  }

  lemma SwappedSame<T>(s: seq<Entry<T>>, i: nat, j: nat)
    requires i < |s| && j < |s|
    ensures multiset(Swapped(s, i, j)) == multiset(s)
  {
  }

  lemma HeapTake<T>(s: seq<Entry<T>>, n: nat)
    requires n <= |s|
    ensures Heap(s[..n]) <==> forall i {:trigger InOrder(s, i)} :: 1 <= i < n ==> InOrder(s, i)
  {
    forall i | 1 <= i < n ensures InOrder(s[..n], i) == InOrder(s, i) {
      assert s[..n][Parent(i)] == s[Parent(i)];
    }
    if Heap(s[..n]) {
      forall i | 1 <= i < n ensures InOrder(s, i) {
        assert InOrder(s[..n], i);
      }
    }
  }

  // ---------------------------------------------------------------- sifting up

  /** Below `k` nothing is earlier than the parent of `k`. */
  predicate BelowFits<T>(s: seq<Entry<T>>, k: nat, n: nat)
    requires 1 <= k < n <= |s|
  {
    forall c | c in {2 * k + 1, 2 * k + 2} && c < n :: s[Parent(k)].deadline <= s[c].deadline
  }

  /** A heap but for the element at `k`, which may be earlier than its parent. */
  predicate HeapBut<T>(s: seq<Entry<T>>, k: nat)
    requires k < |s|
  {
    && (forall i {:trigger InOrder(s, i)} :: 1 <= i < |s| && i != k ==> InOrder(s, i))
    && (k >= 1 ==> BelowFits(s, k, |s|))
  }

  lemma SiftUpStep<T>(s: seq<Entry<T>>, k: nat)
    requires 1 <= k < |s| && HeapBut(s, k) && !InOrder(s, k)
    ensures HeapBut(Swapped(s, k, Parent(k)), Parent(k))
  {
    var p := Parent(k);
    var t := Swapped(s, k, p);
    forall i | 1 <= i < |t| && i != p ensures InOrder(t, i) {
      if i != k {
        assert InOrder(s, i);
        assert Parent(i) == k ==> i in {2 * k + 1, 2 * k + 2};
      }
    }
    if p >= 1 {
      assert InOrder(s, p);
      forall c | c in {2 * p + 1, 2 * p + 2} && c < |t| ensures t[Parent(p)].deadline <= t[c].deadline {
        if c != k {
          assert InOrder(s, c);
        }
      }
    }
  }

  /** `std::push_heap`: the last element finds its place among the others. */
  method PushHeap<T>(s: seq<Entry<T>>) returns (r: seq<Entry<T>>)
    requires s != [] && Heap(s[..|s| - 1])
    ensures Heap(r) && multiset(r) == multiset(s)
  {
    r := s;
    var k := |r| - 1;
    HeapTake(s, k);
    while k > 0 && r[k].deadline < r[(k - 1) / 2].deadline
      invariant 0 <= k < |r| == |s|
      invariant HeapBut(r, k)
      invariant multiset(r) == multiset(s)
    {
      SiftUpStep(r, k);
      SwappedSame(r, k, Parent(k));
      r := Swapped(r, k, Parent(k));
      k := (k - 1) / 2;
    }
  }

  // ---------------------------------------------------------------- sifting down

  /** The parents from `from` on are in order with their children, within the first `n`. */
  predicate HeapFrom<T>(s: seq<Entry<T>>, from: nat, n: nat)
    requires n <= |s|
  {
    forall i {:trigger InOrder(s, i)} :: 1 <= i < n && Parent(i) >= from ==> InOrder(s, i)
  }

  /** As `HeapFrom`, but the element at `k` may be later than its children. */
  predicate HeapFromBut<T>(s: seq<Entry<T>>, from: nat, n: nat, k: nat)
    requires k < n <= |s|
  {
    && (forall i {:trigger InOrder(s, i)} ::
          1 <= i < n && Parent(i) >= from && Parent(i) != k ==> InOrder(s, i))
    && (k >= 1 && Parent(k) >= from ==> BelowFits(s, k, n))
  }

  /** The child with the earlier deadline. */
  function EarlierChild<T>(s: seq<Entry<T>>, n: nat, k: nat): (c: nat)
    requires 2 * k + 1 < n <= |s|
    ensures k < c < n && Parent(c) == k
    ensures forall i | i in {2 * k + 1, 2 * k + 2} && i < n :: s[c].deadline <= s[i].deadline
  {
    if 2 * k + 2 < n && s[2 * k + 2].deadline < s[2 * k + 1].deadline then 2 * k + 2 else 2 * k + 1
  }

  lemma SiftDownStep<T>(s: seq<Entry<T>>, from: nat, n: nat, k: nat)
    requires n <= |s| && from <= k && 2 * k + 1 < n
    requires HeapFromBut(s, from, n, k)
    requires s[EarlierChild(s, n, k)].deadline < s[k].deadline
    ensures HeapFromBut(Swapped(s, k, EarlierChild(s, n, k)), from, n, EarlierChild(s, n, k))
  {
    var c := EarlierChild(s, n, k);
    var t := Swapped(s, k, c);
    forall i | 1 <= i < n && Parent(i) >= from && Parent(i) != c ensures InOrder(t, i) {
      if Parent(i) == k {
        assert i in {2 * k + 1, 2 * k + 2};
      } else if i == k {
        assert c in {2 * k + 1, 2 * k + 2};
      } else {
        assert InOrder(s, i);
      }
    }
    forall d | d in {2 * c + 1, 2 * c + 2} && d < n ensures t[Parent(c)].deadline <= t[d].deadline {
      assert Parent(d) == c && InOrder(s, d);
    }
  }

  method SiftDown<T>(s: seq<Entry<T>>, from: nat, n: nat) returns (r: seq<Entry<T>>)
    requires from < n <= |s| && HeapFrom(s, from + 1, n)
    ensures |r| == |s| && HeapFrom(r, from, n)
    ensures r[n..] == s[n..] && multiset(r) == multiset(s)
  {
    r := s;
    var k := from;
    while 2 * k + 1 < n
      invariant from <= k < n <= |r| == |s|
      invariant HeapFromBut(r, from, n, k)
      invariant r[n..] == s[n..] && multiset(r) == multiset(s)
      decreases n - k
    {
      var c := EarlierChild(r, n, k);
      if r[k].deadline <= r[c].deadline {
        Settled(r, from, n, k);
        return;
      }
      SiftDownStep(r, from, n, k);
      SwappedSame(r, k, c);
      assert Swapped(r, k, c)[n..] == r[n..];
      r := Swapped(r, k, c);
      k := c;
    }
  }

  lemma Settled<T>(s: seq<Entry<T>>, from: nat, n: nat, k: nat)
    requires n <= |s| && 2 * k + 1 < n && HeapFromBut(s, from, n, k)
    requires s[k].deadline <= s[EarlierChild(s, n, k)].deadline
    ensures HeapFrom(s, from, n)
  {
    forall i | 1 <= i < n && Parent(i) >= from ensures InOrder(s, i) {
      if Parent(i) == k {
        assert i in {2 * k + 1, 2 * k + 2};
      }
    }
  }

  /** `std::pop_heap`: the first element goes to the end, the others are a heap again. */
  method PopHeap<T>(s: seq<Entry<T>>) returns (r: seq<Entry<T>>)
    requires s != [] && Heap(s)
    ensures |r| == |s| && r[|r| - 1] == s[0]
    ensures Heap(r[..|r| - 1]) && multiset(r) == multiset(s)
  {
    var n := |s| - 1;
    r := Swapped(s, 0, n);
    SwappedSame(s, 0, n);
    if n > 0 {
      ghost var before := r;
      forall i | 1 <= i < n && Parent(i) >= 1 ensures InOrder(before, i) {
        assert InOrder(s, i);
      }
      r := SiftDown(r, 0, n);
      assert r[n..][0] == before[n..][0];
      HeapTake(r, n);
    }
  }

  /** `std::make_heap`. */
  method MakeHeap<T>(s: seq<Entry<T>>) returns (r: seq<Entry<T>>)
    ensures Heap(r) && multiset(r) == multiset(s)
  {
    r := s;
    var k := |s| / 2;
    while k > 0
      invariant 0 <= k <= |r| == |s|
      invariant HeapFrom(r, k, |r|)
      invariant multiset(r) == multiset(s)
    {
      k := k - 1;
      r := SiftDown(r, k, |r|);
    }
  }
}
