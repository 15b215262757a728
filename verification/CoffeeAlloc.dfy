/** Finding a run of free pages on the walk, and what writing a header at its start does to the walk. */
module CoffeeAlloc {
  import opened CoffeeLayout
  import opened CoffeeGc

  /** The walk goes from `p` to `e` over erased pages only. */
  ghost predicate FreeRun(f: Flash, p: nat, e: nat) {
    p <= e <= PAGE_COUNT && Walk(f, p, e) && forall k :: p <= k < e ==> f[k] == ERASED
  }

  /** From any page of a free run the walk arrives at its end. */
  lemma {:induction false} WalkFromFree(f: Flash, p: nat, e: nat, x: nat)
    requires FreeRun(f, p, e) && p <= x <= e
    ensures Walk(f, x, e) && ActiveStarts(f, x, e) == []
    decreases e - p
  {
    if p < e {
      var n := NextFile(p, f[p].hdr);
      assert n == NextSector(p);
      WalkFromFree(f, n, e, if n <= x then x else n);
      if x < n {
        SectorOfPage(p, SectorOf(p, 0));
        SectorBetween(p, x);
        assert NextFile(x, f[x].hdr) == n;
      }
    }
  }

  lemma SectorBetween(p: nat, x: nat)
    requires p <= x < NextSector(p)
    ensures NextSector(x) == NextSector(p)
  {
    SectorOfPage(x, SectorOf(p, 0));
  }

  /** `amount` free pages at `p`, as the walk from `from` sees them, the last page of storage not among them. */
  ghost predicate Fits(f: Flash, from: nat, amount: nat, p: nat) {
    from <= p && p + amount < PAGE_COUNT && forall k :: p <= k < p + amount ==> KindFrom(f, from, k) == Free
  }

  lemma FreeRunIsFree(f: Flash, from: nat, p: nat, e: nat, k: nat)
    requires Walk(f, from, p) && FreeRun(f, p, e) && p <= k < e
    ensures from <= k && KindFrom(f, from, k) == Free
  {
    KindAfterWalk(f, from, p, k);
    FreeRunKind(f, p, e, k);
  }

  lemma KindFromExtent(f: Flash, from: nat, h: nat, pg: nat)
    requires Walk(f, from, h) && Step(f, h) && h <= pg < NextFile(h, f[h].hdr)
    ensures from <= pg && KindFrom(f, from, pg) == KindOf(f[h].hdr)
  {
    KindAfterWalk(f, from, h, pg);
  }

  lemma {:induction false} FreeRunKind(f: Flash, p: nat, e: nat, k: nat)
    requires FreeRun(f, p, e) && p <= k < e
    ensures KindFrom(f, p, k) == Free
    decreases e - p
  {
    var n := NextFile(p, f[p].hdr);
    if n <= k {
      FreeRunKind(f, n, e, k);
    }
  }

  lemma FreeRunExtends(f: Flash, p: nat, e: nat)
    requires FreeRun(f, p, e) && Step(f, e) && f[e].hdr.Free()
    ensures FreeRun(f, p, NextFile(e, f[e].hdr))
  {
    var n := NextFile(e, f[e].hdr);
    assert Walk(f, n, n);
    WalkTransitive(f, p, e, n);
  }

  /** A page that is not free stops every run that would contain it. */
  lemma StopsRuns(f: Flash, from: nat, amount: nat, p: nat, k: nat)
    requires from <= p <= k < p + amount && k < PAGE_COUNT && KindFrom(f, from, k) != Free
    ensures !Fits(f, from, amount, p)
  {
  }

  /** What a search that began at `from` knows at `page`, with a run begun at `start` or none (-1). */
  ghost predicate Searched(f: Flash, amount: nat, from: nat, page: nat, start: int) {
    && from <= page <= PAGE_COUNT && Walk(f, from, page) && Walk(f, page, PAGE_COUNT)
    && -1 <= start
    && (start >= 0 ==>
          from <= start < page < start + amount < PAGE_COUNT && Walk(f, from, start) && FreeRun(f, start, page))
    && forall p: nat :: from <= p < (if start < 0 then page else start) ==> !Fits(f, from, amount, p)
  }

  lemma SearchPassesExtent(f: Flash, amount: nat, from: nat, page: nat, start: int)
    requires amount >= 1 && Searched(f, amount, from, page, start) && page < PAGE_COUNT && !f[page].hdr.Free()
    ensures page < NextFile(page, f[page].hdr) && Searched(f, amount, from, NextFile(page, f[page].hdr), -1)
  {
    var n := NextFile(page, f[page].hdr);
    assert Walk(f, n, n);
    WalkTransitive(f, from, page, n);
    forall p: nat | from <= p < n ensures !Fits(f, from, amount, p) {
      if page <= p {
        KindFromExtent(f, from, page, p);
        if p + amount < PAGE_COUNT {
          StopsRuns(f, from, amount, p, p);
        }
      } else if 0 <= start <= p {
        KindFromExtent(f, from, page, page);
        StopsRuns(f, from, amount, p, page);
      }
    }
  }

  lemma SearchPassesFree(f: Flash, amount: nat, from: nat, page: nat, start: int)
    requires amount >= 1 && Searched(f, amount, from, page, start) && page < PAGE_COUNT && f[page].hdr.Free()
    ensures var n, s := NextFile(page, f[page].hdr), if start < 0 then page else start;
      && page < n <= PAGE_COUNT && Walk(f, from, s) && FreeRun(f, s, n) && from <= s
      && (n < s + amount < PAGE_COUNT ==> Searched(f, amount, from, n, s))
      && (s + amount <= n && s + amount < PAGE_COUNT ==> Fits(f, from, amount, s))
  {
    var n, s := NextFile(page, f[page].hdr), if start < 0 then page else start;
    assert Walk(f, n, n);
    WalkTransitive(f, from, page, n);
    if start < 0 {
      assert FreeRun(f, page, page);
    }
    FreeRunExtends(f, s, page);
    if s + amount <= n && s + amount < PAGE_COUNT {
      forall k | s <= k < s + amount ensures KindFrom(f, from, k) == Free {
        FreeRunIsFree(f, from, s, n, k);
      }
    }
  }

  /** The flash with a new extent of `hdr.maxPages` pages reserved at `p`. */
  ghost function Reserved(f: Flash, p: nat, hdr: Header): Flash
    requires p < PAGE_COUNT
  {
    f[p := Page(hdr, f[p].body)]
  }

  /** From anywhere in a free run the walk sees the same active extents. */
  lemma FreeRunTail(f: Flash, p: nat, e: nat, m: nat)
    requires Tiled(f) && Walk(f, 0, p) && FreeRun(f, p, e) && p <= m <= e
    ensures Walk(f, p, PAGE_COUNT) && Walk(f, m, PAGE_COUNT)
    ensures ActiveStarts(f, p, PAGE_COUNT) == ActiveStarts(f, m, PAGE_COUNT)
  {
    WalkTransitive(f, 0, p, e);
    WalkSplits(f, 0, e, PAGE_COUNT);
    WalkFromFree(f, p, e, p);
    WalkFromFree(f, p, e, m);
    ActiveStartsTransitive(f, p, e, PAGE_COUNT);
    ActiveStartsTransitive(f, m, e, PAGE_COUNT);
  }

  lemma ReserveWalks(f: Flash, p: nat, e: nat, hdr: Header)
    requires Tiled(f) && Walk(f, 0, p) && FreeRun(f, p, e) && hdr.Active() && 1 <= hdr.maxPages && p + hdr.maxPages <= e
    ensures var g, m := Reserved(f, p, hdr), p + hdr.maxPages;
      && Walk(f, p, PAGE_COUNT) && Walk(f, m, PAGE_COUNT) &&
        ActiveStarts(f, p, PAGE_COUNT) == ActiveStarts(f, m, PAGE_COUNT)
      && Walk(g, m, PAGE_COUNT) && ActiveStarts(g, m, PAGE_COUNT) == ActiveStarts(f, m, PAGE_COUNT)
      && Walk(g, 0, p) && ActiveStarts(g, 0, p) == ActiveStarts(f, 0, p)
  {
    var g, m := Reserved(f, p, hdr), p + hdr.maxPages;
    FreeRunTail(f, p, e, m);
    ActiveStartsFrame(f, g, 0, p);
    ActiveStartsFrame(f, g, m, PAGE_COUNT);
  }

  /** The walk of `g` visits the active extents that the walk of `f` visits, and one at `p` besides. */
  ghost predicate OneMoreExtent(f: Flash, p: nat, g: Flash) {
    && Tiled(f) && Tiled(g) && Walk(f, 0, p) && Walk(f, p, PAGE_COUNT)
    && ActiveStarts(f, 0, PAGE_COUNT) == ActiveStarts(f, 0, p) + ActiveStarts(f, p, PAGE_COUNT)
    && ActiveStarts(g, 0, PAGE_COUNT) == ActiveStarts(f, 0, p) + [p] + ActiveStarts(f, p, PAGE_COUNT)
  }

  lemma ReserveVisits(f: Flash, p: nat, e: nat, hdr: Header)
    requires Tiled(f) && Walk(f, 0, p) && FreeRun(f, p, e) && hdr.Active() && 1 <= hdr.maxPages && p + hdr.maxPages <= e
    ensures var g, m := Reserved(f, p, hdr), p + hdr.maxPages;
      && Walk(f, m, PAGE_COUNT) && Walk(g, 0, p) && Walk(g, 0, m) && Walk(g, p, PAGE_COUNT)
      && ActiveStarts(g, p, PAGE_COUNT) == [p] + ActiveStarts(f, m, PAGE_COUNT)
  {
    var g, m := Reserved(f, p, hdr), p + hdr.maxPages;
    ReserveWalks(f, p, e, hdr);
    assert NextFile(p, g[p].hdr) == m && Step(g, p) && Walk(g, m, m) && Walk(g, p, m);
    WalkTransitive(g, 0, p, m);
  }

  /**
   Reserving pages at the start of a free run keeps the layout tiled: the walk visits what it visited
   before, and the new extent and the place after it.
   */
  lemma ReserveKeepsTiled(f: Flash, p: nat, e: nat, hdr: Header)
    requires Tiled(f) && Walk(f, 0, p) && FreeRun(f, p, e) && hdr.Active() && 1 <= hdr.maxPages && p + hdr.maxPages <= e
    ensures OneMoreExtent(f, p, Reserved(f, p, hdr)) && Walk(Reserved(f, p, hdr), 0, p + hdr.maxPages)
  {
    ReserveWalks(f, p, e, hdr);
    ReserveVisits(f, p, e, hdr);
    ActiveStartsTransitive(f, 0, p, PAGE_COUNT);
    ActiveStartsTransitive(Reserved(f, p, hdr), 0, p, PAGE_COUNT);
  }

  /** What the walk visited up to the new extent it visits still. */
  lemma ReserveKeepsVisited(f: Flash, p: nat, hdr: Header, x: nat)
    requires p < PAGE_COUNT && x <= p && Walk(f, 0, x)
    ensures Walk(Reserved(f, p, hdr), 0, x)
  {
    WalkFrame(f, Reserved(f, p, hdr), 0, x);
  }

  // ---------------------------------------------------------------- reserving at a place off the walk

  /** The search from `from` finds `p` first, at the start of a free run that ends at `e`. */
  ghost predicate FoundFirst(f: Flash, from: nat, amount: nat, p: nat, e: nat) {
    && Walk(f, from, p) && FreeRun(f, p, e) && p + amount <= e && Fits(f, from, amount, p)
    && forall q: nat :: from <= q < p ==> !Fits(f, from, amount, q)
  }

  lemma FitsEarlier(g: Flash, v: nat, m: nat, amount: nat, p: nat)
    requires FreeRun(g, v, m) && v <= p < m && Fits(g, v, amount, p)
    ensures Fits(g, v, amount, v)
  {
    forall k | v <= k < v + amount ensures KindFrom(g, v, k) == Free {
      if k < p {
        FreeRunIsFree(g, v, v, m, k);
      }
    }
  }

  /** Within the erased pages at `v` only `v` itself can be found. */
  lemma FoundAtStart(g: Flash, v: nat, m: nat, e: nat, amount: nat, p: nat, end: nat)
    requires Rejoins(g, v, m, e) && FoundFirst(g, v, amount, p, end) && p < m
    ensures p == v
  {
    FitsEarlier(g, v, m, amount, p);
  }

  /**
   From a place off the walk the search finds that place itself, and then what is reserved is off the walk as well,
   or a place on the walk.
   */
  lemma FoundOffWalkIff(g: Flash, v: nat, m: nat, e: nat, amount: nat, p: nat, end: nat)
    requires Rejoins(g, v, m, e) && FoundFirst(g, v, amount, p, end) && amount >= 1 && !Walk(g, 0, v)
    ensures !Walk(g, 0, p) <==> p == v
    ensures p == v <==> Fits(g, v, amount, v)
  {
    if p < m {
      FoundAtStart(g, v, m, e, amount, p, end);
    } else if Walk(g, 0, m) {
      WalkSplits(g, v, m, p);
      WalkTransitive(g, 0, m, p);
    } else {
      WalkIsolated(g, m, e);
      WalkTransitive(g, v, m, e);
      WalkSplits(g, v, e, p);
      WalkTransitive(g, 0, e, p);
    }
  }

  /** A header written inside an extent changes nothing for the walk, and is not visited. */
  lemma WriteInside(g: Flash, h: nat, v: nat, e: nat, hdr: Header)
    requires Tiled(g) && InsideExtent(g, h, v, e)
    ensures v < PAGE_COUNT && !Walk(g, 0, v)
    ensures var g' := Reserved(g, v, hdr);
      && Tiled(g') && !Walk(g', 0, v) && InsideExtent(g', h, v, e)
      && ActiveStarts(g', 0, PAGE_COUNT) == ActiveStarts(g, 0, PAGE_COUNT)
  {
    var g' := Reserved(g, v, hdr);
    WalkJumps(g, 0, h, v);
    WalkSplits(g, 0, h, PAGE_COUNT);
    ActiveStartsFrame(g, g', 0, h);
    ActiveStartsFrame(g, g', e, PAGE_COUNT);
    assert Walk(g, h, PAGE_COUNT) && Walk(g', h, PAGE_COUNT);
    ActiveStartsTransitive(g, 0, h, PAGE_COUNT);
    ActiveStartsTransitive(g', 0, h, PAGE_COUNT);
    WalkJumps(g', 0, h, v);
  }
}
