/**
 What a garbage collection pass makes of a flash, page by page, and why that is safe: active extents
 keep their bytes, and the walk afterwards is again a tiling that visits the same active extents.
 The next free page need not stay on the walk; `NextFreeStaysVisitedIff` says when it does.
 */
module CoffeeGc {
  import opened CoffeeLayout

  datatype Mode = Greedy | Reluctant

  /** How many of the pages `[lo, hi)` are of kind `kind`. */
  ghost function Count(f: Flash, lo: nat, hi: nat, kind: Kind): (n: nat)
    requires lo <= hi <= PAGE_COUNT
    ensures n <= hi - lo
  {
    if lo == hi then 0 else Count(f, lo, hi - 1, kind) + (if KindFrom(f, 0, hi - 1) == kind then 1 else 0)
  }

  lemma {:induction false} CountSplit(f: Flash, lo: nat, mid: nat, hi: nat, kind: Kind)
    requires lo <= mid <= hi <= PAGE_COUNT
    ensures Count(f, lo, hi, kind) == Count(f, lo, mid, kind) + Count(f, mid, hi, kind)
    decreases hi
  {
    if mid < hi {
      CountSplit(f, lo, mid, hi - 1, kind);
    }
  }

  lemma {:induction false} CountZero(f: Flash, lo: nat, hi: nat, kind: Kind, k: nat)
    requires lo <= k < hi <= PAGE_COUNT && Count(f, lo, hi, kind) == 0
    ensures KindFrom(f, 0, k) != kind
    decreases hi
  {
    if k < hi - 1 {
      CountZero(f, lo, hi - 1, kind, k);
    }
  }

  lemma {:induction false} CountUniform(f: Flash, lo: nat, hi: nat, kind: Kind, other: Kind)
    requires lo <= hi <= PAGE_COUNT && forall k :: lo <= k < hi ==> KindFrom(f, 0, k) == kind
    ensures Count(f, lo, hi, other) == if other == kind then hi - lo else 0
    decreases hi
  {
    if lo < hi {
      CountUniform(f, lo, hi - 1, kind, other);
    }
  }

  lemma {:induction false} CountKinds(f: Flash, lo: nat, hi: nat)
    requires lo <= hi <= PAGE_COUNT
    ensures Count(f, lo, hi, Active) + Count(f, lo, hi, Obsolete) + Count(f, lo, hi, Free) == hi - lo
    decreases hi
  {
    if lo < hi {
      CountKinds(f, lo, hi - 1);
    }
  }

  lemma SectorInFlash(s: nat)
    requires s <= SECTOR_COUNT
    ensures SectorStart(s) <= PAGE_COUNT
    ensures s < SECTOR_COUNT ==> SectorStart(s + 1) <= PAGE_COUNT
  {
    SectorStartMonotone(s, SECTOR_COUNT);
    if s < SECTOR_COUNT {
      SectorStartMonotone(s + 1, SECTOR_COUNT);
    }
  }

  /** A sector that the pass may erase: no active page, and enough to gain for the mode. */
  ghost predicate Erasable(f: Flash, mode: Mode, s: nat) {
    && s < SECTOR_COUNT && SectorStart(s + 1) <= PAGE_COUNT
    && Count(f, SectorStart(s), SectorStart(s + 1), Active) == 0
    && (mode == Reluctant ==> Count(f, SectorStart(s), SectorStart(s + 1), Free) == 0)
    && (mode == Greedy ==> Count(f, SectorStart(s), SectorStart(s + 1), Obsolete) > 0)
  }

  /** Where the extents that start before sector `s` end. */
  ghost function Carried(f: Flash, s: nat): (e: nat)
    requires Tiled(f) && s <= SECTOR_COUNT
    ensures SectorStart(s) <= e <= PAGE_COUNT && Walk(f, 0, e) && Walk(f, e, PAGE_COUNT)
  {
    SectorInFlash(s);
    FirstVisited(f, 0, SectorStart(s))
  }

  /** How many pages at the start of sector `s` are to be marked isolated when the sector before it is erased. */
  ghost function IsolationCount(f: Flash, s: nat): nat
    requires Tiled(f) && s <= SECTOR_COUNT
  {
    var n := Carried(f, s) - SectorStart(s);
    if n < PAGES_PER_SECTOR then n else 0
  }

  /** The page after a pass over the sectors below `limit`. */
  ghost function GcPage(f: Flash, mode: Mode, limit: nat, pg: nat): Page
    requires Tiled(f) && pg < PAGE_COUNT && limit <= SECTOR_COUNT
  {
    var s := SectorOf(pg, 0);
    if s < limit && Erasable(f, mode, s) then ERASED
    else if 0 < s <= limit && Erasable(f, mode, s - 1) && pg < SectorStart(s) + IsolationCount(f, s) then
      Page(ISOLATED_HEADER, f[pg].body)
    else f[pg]
  }

  /** The first `n` pages after the pass. */
  ghost function GcPages(f: Flash, mode: Mode, limit: nat, n: nat): (g: seq<Page>)
    requires Tiled(f) && limit <= SECTOR_COUNT && n <= PAGE_COUNT
    ensures |g| == n
  {
    if n == 0 then [] else GcPages(f, mode, limit, n - 1) + [GcPage(f, mode, limit, n - 1)]
  }

  ghost function GcImage(f: Flash, mode: Mode, limit: nat): Flash
    requires Tiled(f) && limit <= SECTOR_COUNT
  {
    GcPages(f, mode, limit, PAGE_COUNT)
  }

  lemma {:induction false} GcPagesAt(f: Flash, mode: Mode, limit: nat, n: nat, pg: nat)
    requires Tiled(f) && limit <= SECTOR_COUNT && pg < n <= PAGE_COUNT
    ensures GcPages(f, mode, limit, n)[pg] == GcPage(f, mode, limit, pg)
  {
    if pg < n - 1 {
      GcPagesAt(f, mode, limit, n - 1, pg);
    }
  }

  lemma GcImageAt(f: Flash, mode: Mode, limit: nat, pg: nat)
    requires Tiled(f) && limit <= SECTOR_COUNT && pg < PAGE_COUNT
    ensures GcImage(f, mode, limit)[pg] == GcPage(f, mode, limit, pg)
  {
    GcPagesAt(f, mode, limit, PAGE_COUNT, pg);
  }

  lemma SectorOfPage(pg: nat, s: nat)
    requires SectorStart(s) <= pg < SectorStart(s + 1)
    ensures SectorOf(pg, 0) == s
  {
    SectorApart(SectorOf(pg, 0), s + 1, pg);
    SectorApart(s, SectorOf(pg, 0) + 1, pg);
  }

  /** Beyond the extents carried into sector `limit` nothing has changed. */
  lemma GcAhead(f: Flash, mode: Mode, limit: nat, pg: nat)
    requires Tiled(f) && limit <= SECTOR_COUNT && Carried(f, limit) <= pg < PAGE_COUNT
    ensures GcPage(f, mode, limit, pg) == f[pg]
  {
    var s := SectorOf(pg, 0);
    if s < limit {
      SectorStartMonotone(s + 1, limit);
    }
  }

  /** The carried end moves only when the walk reaches past the sector. */
  lemma CarriedStep(f: Flash, s: nat)
    requires Tiled(f) && s < SECTOR_COUNT
    ensures Walk(f, Carried(f, s), Carried(f, s + 1))
    ensures SectorStart(s + 1) <= Carried(f, s) ==> Carried(f, s + 1) == Carried(f, s)
  {
    SectorInFlash(s);
    var x, y := SectorStart(s), SectorStart(s + 1);
    FirstVisitedIsFirst(f, 0, x, Carried(f, s + 1));
    WalkSplits(f, 0, Carried(f, s), Carried(f, s + 1));
    if y <= Carried(f, s) {
      FirstVisitedIsFirst(f, 0, y, Carried(f, s));
    }
  }

  /** Extents carried over the start of a sector hold its last page before, so they are of one kind. */
  lemma CarriedKind(f: Flash, s: nat, pg: nat)
    requires Tiled(f) && 0 < s <= SECTOR_COUNT && SectorStart(s) <= pg < Carried(f, s)
    ensures 0 < SectorStart(s) && KindFrom(f, 0, pg) == KindFrom(f, 0, SectorStart(s) - 1)
    ensures KindFrom(f, 0, pg) != Free
  {
    SectorInFlash(s);
    var x := SectorStart(s);
    var h := VisitedOrJumped(f, 0, s, x);
    KindInExtent(f, h, pg);
    KindInExtent(f, h, x - 1);
  }

  lemma ErasableHasNoActive(f: Flash, mode: Mode, s: nat, pg: nat)
    requires Erasable(f, mode, s) && SectorStart(s) <= pg < SectorStart(s + 1)
    ensures KindFrom(f, 0, pg) != Active
  {
    CountZero(f, SectorStart(s), SectorStart(s + 1), Active, pg);
  }

  /** A page of an active extent is not carried into the sector after an erasable one. */
  lemma ActiveNotCarried(f: Flash, mode: Mode, s: nat, pg: nat)
    requires Tiled(f) && 0 < s <= SECTOR_COUNT && Erasable(f, mode, s - 1) && SectorStart(s) <= pg < Carried(f, s)
    ensures KindFrom(f, 0, pg) != Active
  {
    CarriedKind(f, s, pg);
    ErasableHasNoActive(f, mode, s - 1, SectorStart(s) - 1);
  }

  lemma GcKeepsActive(f: Flash, mode: Mode, limit: nat, pg: nat)
    requires Tiled(f) && limit <= SECTOR_COUNT && pg < PAGE_COUNT && KindFrom(f, 0, pg) == Active
    ensures GcPage(f, mode, limit, pg) == f[pg]
  {
    var s := SectorOf(pg, 0);
    if Erasable(f, mode, s) {
      ErasableHasNoActive(f, mode, s, pg);
    } else if 0 < s <= limit && Erasable(f, mode, s - 1) && pg < Carried(f, s) {
      ActiveNotCarried(f, mode, s, pg);
    }
  }

  /** The start of sector `s` is reached; extents carried over it are isolated page by page, or await erasure. */
  ghost predicate Reached(f: Flash, mode: Mode, s: nat)
    requires Tiled(f) && s <= SECTOR_COUNT
  {
    var g, x, e := GcImage(f, mode, s), SectorStart(s), Carried(f, s);
    && Walk(g, 0, x) && ActiveStarts(g, 0, x) == ActiveStarts(f, 0, e)
    && (x < e ==> s > 0 && Erasable(f, mode, s - 1))
  }

  /** The extent carried over the start of sector `s` still has its header, at `h`. */
  ghost predicate Anchored(f: Flash, mode: Mode, s: nat, h: nat)
    requires Tiled(f) && s <= SECTOR_COUNT
  {
    var g, x, e := GcImage(f, mode, s), SectorStart(s), Carried(f, s);
    && h < x < e && Walk(f, 0, h) && Step(f, h) && NextFile(h, f[h].hdr) == e && !f[h].hdr.Free()
    && g[h] == f[h] && Walk(g, 0, h) && ActiveStarts(g, 0, h) == ActiveStarts(f, 0, h)
  }

  lemma GcBefore(f: Flash, mode: Mode, s: nat, pg: nat)
    requires Tiled(f) && s < SECTOR_COUNT && pg < SectorStart(s)
    ensures pg < PAGE_COUNT && GcImage(f, mode, s + 1)[pg] == GcImage(f, mode, s)[pg]
  {
    SectorInFlash(s);
    SectorApart(SectorOf(pg, 0), s, pg);
    GcImageAt(f, mode, s, pg);
    GcImageAt(f, mode, s + 1, pg);
  }

  lemma GcNotErased(f: Flash, mode: Mode, s: nat)
    requires Tiled(f) && s < SECTOR_COUNT && !Erasable(f, mode, s)
    ensures GcImage(f, mode, s + 1) == GcImage(f, mode, s)
  {
    forall k | 0 <= k < PAGE_COUNT ensures GcImage(f, mode, s + 1)[k] == GcImage(f, mode, s)[k] {
      GcImageAt(f, mode, s, k);
      GcImageAt(f, mode, s + 1, k);
      PageNotErased(f, mode, s, k);
    }
  }

  lemma PageNotErased(f: Flash, mode: Mode, s: nat, k: nat)
    requires Tiled(f) && s < SECTOR_COUNT && !Erasable(f, mode, s) && k < PAGE_COUNT
    ensures GcPage(f, mode, s + 1, k) == GcPage(f, mode, s, k)
  {
  }

  lemma GcErased(f: Flash, mode: Mode, s: nat, g: Flash)
    requires Tiled(f) && s < SECTOR_COUNT && Erasable(f, mode, s) && g == GcImage(f, mode, s + 1)
    ensures forall k :: SectorStart(s) <= k < SectorStart(s + 1) ==> g[k] == ERASED
  {
    forall k | SectorStart(s) <= k < SectorStart(s + 1) ensures g[k] == ERASED {
      GcImageAt(f, mode, s + 1, k);
      SectorOfPage(k, s);
    }
  }

  /** From anywhere in an erased sector the walk goes to the next sector and sees nothing active. */
  lemma WalkErased(g: Flash, s: nat, p: nat)
    requires s < SECTOR_COUNT && SectorStart(s) <= p < SectorStart(s + 1) <= PAGE_COUNT
    requires forall k :: SectorStart(s) <= k < SectorStart(s + 1) ==> g[k] == ERASED
    ensures Walk(g, p, SectorStart(s + 1)) && ActiveStarts(g, p, SectorStart(s + 1)) == []
  {
    SectorOfPage(p, s);
    assert NextFile(p, g[p].hdr) == SectorStart(s + 1);
    assert Walk(g, SectorStart(s + 1), SectorStart(s + 1));
  }

  /** Over isolated pages the walk goes page by page. */
  lemma {:induction false} WalkIsolated(g: Flash, p: nat, q: nat)
    requires p <= q <= PAGE_COUNT && forall k :: p <= k < q ==> g[k].hdr == ISOLATED_HEADER
    ensures Walk(g, p, q) && ActiveStarts(g, p, q) == []
    decreases q - p
  {
    if p < q {
      WalkIsolated(g, p + 1, q);
    }
  }

  /** The original walk between two carried ends sees nothing active when the sector has no active page. */
  lemma NoActiveInSector(f: Flash, mode: Mode, s: nat)
    requires Tiled(f) && s < SECTOR_COUNT && Erasable(f, mode, s)
    ensures Walk(f, Carried(f, s), Carried(f, s + 1))
    ensures ActiveStarts(f, 0, Carried(f, s + 1)) == ActiveStarts(f, 0, Carried(f, s))
  {
    var b, b' := Carried(f, s), Carried(f, s + 1);
    SectorInFlash(s);
    CarriedStep(f, s);
    forall k | b <= k < b' && k < PAGE_COUNT && Walk(f, b, k) ensures KindFrom(f, 0, k) != Active {
      WalkTransitive(f, 0, b, k);
      if k < SectorStart(s + 1) {
        ErasableHasNoActive(f, mode, s, k);
      } else {
        FirstVisitedIsFirst(f, 0, SectorStart(s + 1), k);
      }
    }
    NoActiveStarts(f, b, b');
    ActiveStartsTransitive(f, 0, b, b');
  }

  /** Erasing a sector that the walk can get to: the walk goes on to the next one. */
  lemma EraseReaches(f: Flash, mode: Mode, s: nat, p: nat)
    requires Tiled(f) && s < SECTOR_COUNT && Erasable(f, mode, s)
    requires SectorStart(s) <= p < SectorStart(s + 1)
    requires Walk(GcImage(f, mode, s + 1), 0, p)
    requires ActiveStarts(GcImage(f, mode, s + 1), 0, p) == ActiveStarts(f, 0, Carried(f, s))
    ensures Reached(f, mode, s + 1)
  {
    var g, y := GcImage(f, mode, s + 1), SectorStart(s + 1);
    SectorInFlash(s);
    GcErased(f, mode, s, g);
    WalkErased(g, s, p);
    ActiveStartsTransitive(g, 0, p, y);
    NoActiveInSector(f, mode, s);
  }

  lemma ReachedThenErased(f: Flash, mode: Mode, s: nat)
    requires Tiled(f) && s < SECTOR_COUNT && Erasable(f, mode, s) && Reached(f, mode, s)
    ensures Reached(f, mode, s + 1)
  {
    var g, g', x := GcImage(f, mode, s), GcImage(f, mode, s + 1), SectorStart(s);
    SectorInFlash(s);
    forall k | 0 <= k < x ensures g'[k] == g[k] {
      GcBefore(f, mode, s, k);
    }
    ActiveStartsFrame(g, g', 0, x);
    EraseReaches(f, mode, s, x);
  }

  /** The anchored extent is visited and then its end. */
  lemma AnchoredEnd(f: Flash, mode: Mode, s: nat, h: nat, g: Flash)
    requires Tiled(f) && s <= SECTOR_COUNT && Anchored(f, mode, s, h)
    requires forall k :: 0 <= k <= h ==> g[k] == GcImage(f, mode, s)[k]
    ensures Walk(g, 0, h) && ActiveStarts(g, 0, h) == ActiveStarts(f, 0, h)
    ensures Walk(g, 0, Carried(f, s)) && ActiveStarts(g, 0, Carried(f, s)) == ActiveStarts(f, 0, Carried(f, s))
  {
    var e := Carried(f, s);
    ActiveStartsFrame(GcImage(f, mode, s), g, 0, h);
    assert Walk(g, e, e) && Walk(f, e, e);
    assert Walk(g, h, e) && Walk(f, h, e);
    ActiveStartsTransitive(g, 0, h, e);
    ActiveStartsTransitive(f, 0, h, e);
  }

  /** The pass has kept the walk up to the extents carried into sector `s`. */
  ghost predicate Kept(f: Flash, mode: Mode, s: nat)
    requires Tiled(f) && s <= SECTOR_COUNT
  {
    Reached(f, mode, s) || exists h :: Anchored(f, mode, s, h)
  }

  lemma AnchoredThenErased(f: Flash, mode: Mode, s: nat, h: nat)
    requires Tiled(f) && s < SECTOR_COUNT && Erasable(f, mode, s) && Anchored(f, mode, s, h)
    ensures Kept(f, mode, s + 1)
  {
    var g, g', e, y := GcImage(f, mode, s), GcImage(f, mode, s + 1), Carried(f, s), SectorStart(s + 1);
    SectorInFlash(s);
    forall k | 0 <= k <= h ensures g'[k] == g[k] {
      GcBefore(f, mode, s, k);
    }
    AnchoredEnd(f, mode, s, h, g');
    CarriedStep(f, s);
    if y < e {
      assert Anchored(f, mode, s + 1, h);
    } else if e < y {
      EraseReaches(f, mode, s, e);
    }
  }

  /** A sector that a dead extent covers wholly is itself erasable. */
  lemma CoveredIsErasable(f: Flash, mode: Mode, s: nat)
    requires Tiled(f) && 0 < s <= SECTOR_COUNT && Erasable(f, mode, s - 1)
    requires SectorStart(s) + PAGES_PER_SECTOR <= Carried(f, s)
    ensures s < SECTOR_COUNT && Erasable(f, mode, s)
  {
    var x, y := SectorStart(s), SectorStart(s + 1);
    SectorInFlash(s);
    forall k | x <= k < y ensures KindFrom(f, 0, k) == Obsolete {
      CarriedKind(f, s, k);
    }
    CountUniform(f, x, y, Obsolete, Active);
    CountUniform(f, x, y, Obsolete, Obsolete);
    CountUniform(f, x, y, Obsolete, Free);
  }

  lemma GcIsolated(f: Flash, mode: Mode, s: nat, k: nat)
    requires Tiled(f) && 0 < s <= SECTOR_COUNT && Erasable(f, mode, s - 1)
    requires SectorStart(s) <= k < Carried(f, s) < SectorStart(s) + PAGES_PER_SECTOR
    ensures GcPage(f, mode, s, k).hdr == ISOLATED_HEADER
  {
    SectorOfPage(k, s);
  }

  /** Reaching a sector start, the walk goes on over the pages that were isolated there. */
  lemma ReachedGoesOn(f: Flash, mode: Mode, s: nat)
    requires Tiled(f) && s <= SECTOR_COUNT && Reached(f, mode, s) && Carried(f, s) < SectorStart(s) + PAGES_PER_SECTOR
    ensures var g, e := GcImage(f, mode, s), Carried(f, s);
      Walk(g, 0, e) && ActiveStarts(g, 0, e) == ActiveStarts(f, 0, e)
  {
    var g, x, e := GcImage(f, mode, s), SectorStart(s), Carried(f, s);
    forall k | x <= k < e ensures g[k].hdr == ISOLATED_HEADER {
      GcImageAt(f, mode, s, k);
      GcIsolated(f, mode, s, k);
    }
    WalkIsolated(g, x, e);
    ActiveStartsTransitive(g, 0, x, e);
  }

  /** Nothing being erased, the walk goes on as before to the next sector or into an extent that covers its start. */
  lemma GoesOn(f: Flash, mode: Mode, s: nat)
    requires Tiled(f) && s < SECTOR_COUNT && !Erasable(f, mode, s) && Carried(f, s) <= SectorStart(s + 1)
    requires var g, e := GcImage(f, mode, s), Carried(f, s);
      Walk(g, 0, e) && ActiveStarts(g, 0, e) == ActiveStarts(f, 0, e)
    ensures Kept(f, mode, s + 1)
  {
    var g, e, y := GcImage(f, mode, s), Carried(f, s), SectorStart(s + 1);
    SectorInFlash(s);
    GcNotErased(f, mode, s);
    forall k | e <= k < PAGE_COUNT ensures g[k] == f[k] {
      GcImageAt(f, mode, s, k);
      GcAhead(f, mode, s, k);
    }
    var h := VisitedOrJumped(f, 0, s + 1, y);
    var stop := if Walk(f, 0, y) then y else h;
    if !Walk(f, 0, y) && h < e {
      WalkSplits(f, 0, h, e);
    }
    WalkSplits(f, 0, e, stop);
    ActiveStartsFrame(f, g, e, stop);
    ActiveStartsTransitive(f, 0, e, stop);
    ActiveStartsTransitive(g, 0, e, stop);
    if !Walk(f, 0, y) {
      assert Anchored(f, mode, s + 1, h);
    }
  }

  lemma GcKeepsStart(f: Flash, mode: Mode)
    requires Tiled(f)
    ensures Kept(f, mode, 0)
  {
    assert SectorStart(0) == 0 && Carried(f, 0) == 0;
    assert Reached(f, mode, 0);
  }

  lemma {:induction false} GcKeepsWalkNext(f: Flash, mode: Mode, s: nat)
    requires Tiled(f) && 0 < s <= SECTOR_COUNT
    ensures Kept(f, mode, s)
    decreases s, 0
  {
    GcKeepsWalk(f, mode, s - 1);
    GcKeepsWalkStep(f, mode, s - 1);
  }

  lemma {:induction false} GcKeepsWalk(f: Flash, mode: Mode, s: nat)
    requires Tiled(f) && s <= SECTOR_COUNT
    ensures Kept(f, mode, s)
    decreases s, 1
  {
    if s == 0 {
      GcKeepsStart(f, mode);
    } else {
      GcKeepsWalkNext(f, mode, s);
    }
  }

  lemma GcKeepsWalkStep(f: Flash, mode: Mode, s: nat)
    requires Tiled(f) && s < SECTOR_COUNT && Kept(f, mode, s)
    ensures Kept(f, mode, s + 1)
  {
    if Reached(f, mode, s) {
      if Erasable(f, mode, s) {
        ReachedThenErased(f, mode, s);
      } else {
        if SectorStart(s) + PAGES_PER_SECTOR <= Carried(f, s) {
          CoveredIsErasable(f, mode, s);
        }
        ReachedGoesOn(f, mode, s);
        GoesOn(f, mode, s);
      }
    } else {
      var h :| Anchored(f, mode, s, h);
      if Erasable(f, mode, s) {
        AnchoredThenErased(f, mode, s, h);
      } else {
        GcNotErased(f, mode, s);
        AnchoredEnd(f, mode, s, h, GcImage(f, mode, s));
        CarriedStep(f, s);
        if SectorStart(s + 1) < Carried(f, s) {
          assert Anchored(f, mode, s + 1, h);
        } else {
          GoesOn(f, mode, s);
        }
      }
    }
  }

  /** The last sector processed was erased and pages after it were isolated. */
  ghost predicate Isolated(f: Flash, mode: Mode, limit: nat)
    requires Tiled(f) && limit <= SECTOR_COUNT
  {
    limit > 0 && Erasable(f, mode, limit - 1) && IsolationCount(f, limit) > 0
  }

  /** A pass may stop after the last sector, or once it has isolated pages. */
  ghost predicate MayStop(f: Flash, mode: Mode, limit: nat)
    requires Tiled(f) && limit <= SECTOR_COUNT
  {
    limit == SECTOR_COUNT || Isolated(f, mode, limit)
  }

  /** Garbage collection is safe: the result is tiled again, with the same active extents at the same places. */
  lemma GcIsSafe(f: Flash, mode: Mode, limit: nat)
    requires Tiled(f) && limit <= SECTOR_COUNT && MayStop(f, mode, limit)
    ensures Tiled(GcImage(f, mode, limit))
    ensures ActiveStarts(GcImage(f, mode, limit), 0, PAGE_COUNT) == ActiveStarts(f, 0, PAGE_COUNT)
    ensures forall pg :: 0 <= pg < PAGE_COUNT && KindFrom(f, 0, pg) == Active ==> GcImage(f, mode, limit)[pg] == f[pg]
  {
    var g, e := GcImage(f, mode, limit), Carried(f, limit);
    GcKeepsWalk(f, mode, limit);
    if Reached(f, mode, limit) {
      ReachedGoesOn(f, mode, limit);
    } else {
      var h :| Anchored(f, mode, limit, h);
      AnchoredEnd(f, mode, limit, h, g);
    }
    forall k | e <= k < PAGE_COUNT ensures g[k] == f[k] {
      GcImageAt(f, mode, limit, k);
      GcAhead(f, mode, limit, k);
    }
    ActiveStartsFrame(f, g, e, PAGE_COUNT);
    ActiveStartsTransitive(f, 0, e, PAGE_COUNT);
    ActiveStartsTransitive(g, 0, e, PAGE_COUNT);
    forall pg | 0 <= pg < PAGE_COUNT && KindFrom(f, 0, pg) == Active ensures g[pg] == f[pg] {
      GcImageAt(f, mode, limit, pg);
      GcKeepsActive(f, mode, limit, pg);
    }
  }

  /** The next free page after a pass over the sectors below `limit`: at most the start of the first erased sector. */
  ghost function NextFreeAfter(f: Flash, mode: Mode, limit: nat, nextFree: nat): nat
    requires Tiled(f) && limit <= SECTOR_COUNT
  {
    if limit == 0 then nextFree
    else
      var v := NextFreeAfter(f, mode, limit - 1, nextFree);
      if Erasable(f, mode, limit - 1) && SectorStart(limit - 1) < v then SectorStart(limit - 1) else v
  }

  lemma {:induction false} NextFreeBounds(f: Flash, mode: Mode, limit: nat, nextFree: nat)
    requires Tiled(f) && limit <= SECTOR_COUNT
    ensures var v := NextFreeAfter(f, mode, limit, nextFree);
      && v <= nextFree
      && (v == nextFree || exists s: nat :: s < limit && Erasable(f, mode, s) && v == SectorStart(s))
      && forall s: nat :: s < limit && Erasable(f, mode, s) ==> v <= SectorStart(s)
  {
    if limit > 0 {
      NextFreeBounds(f, mode, limit - 1, nextFree);
    }
  }

  lemma GcBelowNextFree(f: Flash, mode: Mode, limit: nat, nextFree: nat, pg: nat)
    requires Tiled(f) && limit <= SECTOR_COUNT && pg < PAGE_COUNT && pg < NextFreeAfter(f, mode, limit, nextFree)
    ensures GcPage(f, mode, limit, pg) == f[pg]
  {
    var s := SectorOf(pg, 0);
    NextFreeBounds(f, mode, limit, nextFree);
    if s > 0 {
      SectorStartMonotone(s - 1, s);
    }
  }

  lemma GcWalkBelow(f: Flash, mode: Mode, limit: nat, nextFree: nat)
    requires Tiled(f) && limit <= SECTOR_COUNT && nextFree <= PAGE_COUNT
    ensures var v := NextFreeAfter(f, mode, limit, nextFree);
      Walk(GcImage(f, mode, limit), 0, v) <==> Walk(f, 0, v)
  {
    var g, v := GcImage(f, mode, limit), NextFreeAfter(f, mode, limit, nextFree);
    NextFreeBounds(f, mode, limit, nextFree);
    forall k | 0 <= k < v ensures g[k] == f[k] {
      GcImageAt(f, mode, limit, k);
      GcBelowNextFree(f, mode, limit, nextFree, k);
    }
    if Walk(g, 0, v) {
      WalkFrame(g, f, 0, v);
    }
    if Walk(f, 0, v) {
      WalkFrame(f, g, 0, v);
    }
  }

  ghost predicate FirstErased(f: Flash, mode: Mode, limit: nat, t: nat) {
    t < limit && Erasable(f, mode, t) && forall s: nat :: s < t ==> !Erasable(f, mode, s)
  }

  /**
   The first sector that the pass erases lies below the next free page, and when the pass comes to it an extent that
   starts in an earlier sector still goes on: pages are to be skipped.
   */
  ghost predicate Stranded(f: Flash, mode: Mode, limit: nat, nextFree: nat)
    requires Tiled(f) && limit <= SECTOR_COUNT
  {
    exists t: nat :: FirstErased(f, mode, limit, t) && SectorStart(t) < nextFree && SectorStart(t) < Carried(f, t)
  }

  lemma NextFreeIs(f: Flash, mode: Mode, limit: nat, nextFree: nat, t: nat)
    requires Tiled(f) && limit <= SECTOR_COUNT && FirstErased(f, mode, limit, t) && SectorStart(t) < nextFree
    ensures NextFreeAfter(f, mode, limit, nextFree) == SectorStart(t)
  {
    NextFreeBounds(f, mode, limit, nextFree);
    var v := NextFreeAfter(f, mode, limit, nextFree);
    if v != nextFree {
      var s: nat :| s < limit && Erasable(f, mode, s) && v == SectorStart(s);
      SectorStartMonotone(t, s);
    }
  }

  lemma {:induction false} SomeFirstErased(f: Flash, mode: Mode, limit: nat, s: nat) returns (t: nat)
    requires s < limit && Erasable(f, mode, s)
    ensures FirstErased(f, mode, limit, t) && SectorStart(t) <= SectorStart(s)
    decreases s
  {
    if r: nat :| r < s && Erasable(f, mode, r) {
      t := SomeFirstErased(f, mode, limit, r);
      SectorStartMonotone(r, s);
    } else {
      t := s;
    }
  }

  lemma CarriedNowhereIff(f: Flash, s: nat)
    requires Tiled(f) && s <= SECTOR_COUNT
    ensures Carried(f, s) == SectorStart(s) <==> Walk(f, 0, SectorStart(s))
  {
    SectorInFlash(s);
    if Walk(f, 0, SectorStart(s)) {
      FirstVisitedIsFirst(f, 0, SectorStart(s), SectorStart(s));
    }
  }

  /**
   After a pass the walk still visits the next free page, unless the first erased sector below it begins inside an
   extent whose header, in an earlier sector, has stayed.
   */
  lemma NextFreeStaysVisitedIff(f: Flash, mode: Mode, limit: nat, nextFree: nat)
    requires Tiled(f) && limit <= SECTOR_COUNT && Walk(f, 0, nextFree)
    ensures var v := NextFreeAfter(f, mode, limit, nextFree);
      Walk(GcImage(f, mode, limit), 0, v) <==> !Stranded(f, mode, limit, nextFree)
  {
    var v := NextFreeAfter(f, mode, limit, nextFree);
    WalkBounded(f, 0, nextFree);
    GcWalkBelow(f, mode, limit, nextFree);
    forall t: nat | FirstErased(f, mode, limit, t) && SectorStart(t) < nextFree
      ensures v == SectorStart(t) && (Carried(f, t) == SectorStart(t) <==> Walk(f, 0, v))
    {
      NextFreeIs(f, mode, limit, nextFree, t);
      CarriedNowhereIff(f, t);
    }
    NextFreeBounds(f, mode, limit, nextFree);
    if v != nextFree {
      var s: nat :| s < limit && Erasable(f, mode, s) && v == SectorStart(s);
      var t := SomeFirstErased(f, mode, limit, s);
    }
  }

  // ---------------------------------------------------------------- what a pass reclaims, page by page

  predicate InSector(k: nat, s: nat) {
    SectorStart(s) <= k < SectorStart(s + 1) && k < PAGE_COUNT
  }

  /** No page of the sector is active; a greedy pass asks for an obsolete one, a reluctant pass for no other. */
  ghost predicate Dead(f: Flash, mode: Mode, s: nat) {
    && (forall k: nat :: InSector(k, s) ==> KindFrom(f, 0, k) != Active)
    && match mode
       case Greedy => exists k: nat :: InSector(k, s) && KindFrom(f, 0, k) == Obsolete
       case Reluctant => forall k: nat :: InSector(k, s) ==> KindFrom(f, 0, k) != Free
  }

  /** An extent that starts in an earlier sector ends at `e`, inside sector `s`. */
  ghost predicate EndsInside(f: Flash, s: nat, e: nat) {
    && SectorStart(s) < e < SectorStart(s) + PAGES_PER_SECTOR && Walk(f, 0, e)
    && forall x: nat :: SectorStart(s) <= x < e ==> !Walk(f, 0, x)
  }

  ghost predicate ExtentEndsIn(f: Flash, s: nat) {
    exists e: nat :: EndsInside(f, s, e)
  }

  /** Before sector `s` is reached the pass does not stop: a reluctant one does when it has split an extent. */
  ghost predicate Reaches(f: Flash, mode: Mode, s: nat) {
    mode == Reluctant ==> forall t: nat :: t < s && Dead(f, mode, t) ==> !ExtentEndsIn(f, t + 1)
  }

  ghost predicate Erases(f: Flash, mode: Mode, s: nat) {
    s < SECTOR_COUNT && Dead(f, mode, s) && Reaches(f, mode, s)
  }

  /** Page `k` belongs to an extent that starts before sector `s` and ends inside. */
  ghost predicate InOverhang(f: Flash, s: nat, k: nat) {
    exists e: nat :: EndsInside(f, s, e) && k < e
  }

  /** Page `k` of sector `s` is what is left of an extent of which the part before the sector was erased. */
  ghost predicate CutOff(f: Flash, mode: Mode, s: nat, k: nat) {
    s > 0 && Erases(f, mode, s - 1) && InOverhang(f, s, k)
  }

  /** Exactly the sectors that the mode asks for are erased, what is cut off is isolated, and nothing else changes. */
  ghost predicate Reclaimed(f: Flash, mode: Mode, g: Flash) {
    forall s: nat, k: nat :: s < SECTOR_COUNT && InSector(k, s) ==>
      g[k] ==
        if Erases(f, mode, s) then ERASED
        else if CutOff(f, mode, s, k) then Page(ISOLATED_HEADER, f[k].body)
        else f[k]
  }

  /** The next free page goes to the first sector erased, if that is below it. */
  ghost predicate NextFreeMoved(f: Flash, mode: Mode, from: nat, to: nat) {
    if exists s: nat :: Erases(f, mode, s) && SectorStart(s) < from then
      exists s: nat :: Erases(f, mode, s) && to == SectorStart(s) && forall t: nat :: t < s ==> !Erases(f, mode, t)
    else to == from
  }

  lemma {:induction false} CountSome(f: Flash, lo: nat, hi: nat, kind: Kind)
    requires lo <= hi <= PAGE_COUNT && Count(f, lo, hi, kind) > 0
    ensures exists k: nat :: lo <= k < hi && KindFrom(f, 0, k) == kind
    decreases hi
  {
    if KindFrom(f, 0, hi - 1) != kind {
      CountSome(f, lo, hi - 1, kind);
    }
  }

  lemma CountNoneIff(f: Flash, s: nat, kind: Kind)
    requires s < SECTOR_COUNT && SectorStart(s + 1) <= PAGE_COUNT
    ensures SectorStart(s) <= SectorStart(s + 1)
    ensures Count(f, SectorStart(s), SectorStart(s + 1), kind) == 0 <==>
            forall k: nat :: InSector(k, s) ==> KindFrom(f, 0, k) != kind
  {
    if Count(f, SectorStart(s), SectorStart(s + 1), kind) == 0 {
      forall k: nat | InSector(k, s) ensures KindFrom(f, 0, k) != kind {
        CountZero(f, SectorStart(s), SectorStart(s + 1), kind, k);
      }
    } else {
      CountSome(f, SectorStart(s), SectorStart(s + 1), kind);
      var k: nat :| SectorStart(s) <= k < SectorStart(s + 1) && KindFrom(f, 0, k) == kind;
      assert InSector(k, s);
    }
  }

  lemma DeadIsErasable(f: Flash, mode: Mode, s: nat)
    requires s < SECTOR_COUNT
    ensures Erasable(f, mode, s) <==> Dead(f, mode, s)
  {
    SectorInFlash(s);
    CountNoneIff(f, s, Active);
    CountNoneIff(f, s, Obsolete);
    CountNoneIff(f, s, Free);
  }

  lemma EndsInsideIs(f: Flash, s: nat, e: nat)
    requires Tiled(f) && s <= SECTOR_COUNT
    ensures EndsInside(f, s, e) <==> IsolationCount(f, s) > 0 && e == Carried(f, s)
  {
    SectorInFlash(s);
    if EndsInside(f, s, e) {
      WalkBounded(f, 0, e);
      FirstVisitedIsFirst(f, 0, SectorStart(s), e);
    }
    if IsolationCount(f, s) > 0 {
      forall x: nat | SectorStart(s) <= x < Carried(f, s) ensures !Walk(f, 0, x) {
        if Walk(f, 0, x) {
          FirstVisitedIsFirst(f, 0, SectorStart(s), x);
        }
      }
    }
  }

  // ---------------------------------------------------------------- what a stranded next free page leads to

  /** Where the pages of an extent that was erased in part end, coming from the erased part. */
  ghost predicate Rejoins(g: Flash, v: nat, m: nat, e: nat) {
    && v < m <= PAGE_COUNT && (forall k :: v <= k < m ==> g[k] == ERASED) && Walk(g, v, m)
    && (Walk(g, 0, m) ||
      (m < e <= PAGE_COUNT && Walk(g, 0, e) && forall k :: m <= k < e ==> g[k].hdr == ISOLATED_HEADER))
  }

  lemma NotErasedIsIsolated(f: Flash, mode: Mode, limit: nat, s: nat)
    requires Tiled(f) && s < limit <= SECTOR_COUNT && MayStop(f, mode, limit) && Erasable(f, mode, s)
    requires SectorStart(s + 1) < Carried(f, s + 1) && (s + 1 < limit ==> !Erasable(f, mode, s + 1))
    ensures Carried(f, s + 1) <= PAGE_COUNT
    ensures forall k :: SectorStart(s + 1) <= k < Carried(f, s + 1) ==>
              GcImage(f, mode, limit)[k].hdr == ISOLATED_HEADER
  {
    if SectorStart(s + 1) + PAGES_PER_SECTOR <= Carried(f, s + 1) {
      CoveredIsErasable(f, mode, s + 1);
    }
    forall k | SectorStart(s + 1) <= k < Carried(f, s + 1) ensures GcImage(f, mode, limit)[k].hdr == ISOLATED_HEADER {
      GcImageAt(f, mode, limit, k);
      IsolatedPage(f, mode, limit, s, k);
    }
  }

  lemma IsolatedPage(f: Flash, mode: Mode, limit: nat, s: nat, k: nat)
    requires Tiled(f) && s < limit <= SECTOR_COUNT && Erasable(f, mode, s)
    requires s + 1 < limit ==> !Erasable(f, mode, s + 1)
    requires SectorStart(s + 1) <= k < Carried(f, s + 1) < SectorStart(s + 1) + PAGES_PER_SECTOR
    ensures GcPage(f, mode, limit, k).hdr == ISOLATED_HEADER
  {
    SectorOfPage(k, s + 1);
  }

  ghost predicate ErasedSector(g: Flash, s: nat) {
    && s < SECTOR_COUNT && SectorStart(s + 1) <= PAGE_COUNT
    && forall k :: SectorStart(s) <= k < SectorStart(s + 1) ==> g[k] == ERASED
  }

  lemma RejoinsHere(g: Flash, s: nat, e: nat)
    requires ErasedSector(g, s) && SectorStart(s) <= e <= SectorStart(s + 1) && Walk(g, 0, e)
    ensures Rejoins(g, SectorStart(s), SectorStart(s + 1), e)
  {
    WalkErased(g, s, SectorStart(s));
    if e < SectorStart(s + 1) {
      WalkErased(g, s, e);
      WalkTransitive(g, 0, e, SectorStart(s + 1));
    }
  }

  lemma RejoinsLater(g: Flash, s: nat, m: nat, e: nat)
    requires ErasedSector(g, s) && Rejoins(g, SectorStart(s + 1), m, e)
    ensures Rejoins(g, SectorStart(s), m, e)
  {
    WalkErased(g, s, SectorStart(s));
    WalkTransitive(g, SectorStart(s), SectorStart(s + 1), m);
  }

  /** The walk from the start of an erased sector goes over erased pages, then back to where the walk from 0 goes. */
  lemma {:induction false} ErasedRejoins(f: Flash, mode: Mode, limit: nat, s: nat, e: nat) returns (m: nat)
    requires Tiled(f) && s < limit <= SECTOR_COUNT && MayStop(f, mode, limit) && Erasable(f, mode, s)
    requires e == Carried(f, s) && Walk(GcImage(f, mode, limit), 0, e)
    ensures Rejoins(GcImage(f, mode, limit), SectorStart(s), m, e)
    decreases SECTOR_COUNT - s
  {
    var g := GcImage(f, mode, limit);
    m := SectorStart(s + 1);
    ErasedAt(f, mode, limit, s);
    assert ErasedSector(g, s);
    CarriedStep(f, s);
    if e <= m {
      RejoinsHere(g, s, e);
    } else if s + 1 < limit && Erasable(f, mode, s + 1) {
      m := ErasedRejoins(f, mode, limit, s + 1, e);
      RejoinsLater(g, s, m, e);
    } else {
      NotErasedIsIsolated(f, mode, limit, s);
      WalkErased(g, s, SectorStart(s));
    }
  }

  lemma ErasedAt(f: Flash, mode: Mode, limit: nat, s: nat)
    requires Tiled(f) && s < limit <= SECTOR_COUNT && Erasable(f, mode, s)
    ensures forall k :: SectorStart(s) <= k < SectorStart(s + 1) ==> GcImage(f, mode, limit)[k] == ERASED
  {
    forall k | SectorStart(s) <= k < SectorStart(s + 1) ensures GcImage(f, mode, limit)[k] == ERASED {
      GcImageAt(f, mode, limit, k);
      SectorOfPage(k, s);
    }
  }

  /** The extent over the start of the first erased sector keeps its header and its end. */
  lemma OverhangKept(f: Flash, mode: Mode, limit: nat, nextFree: nat, t: nat)
    requires Tiled(f) && limit <= SECTOR_COUNT && FirstErased(f, mode, limit, t)
    requires SectorStart(t) < nextFree && SectorStart(t) < Carried(f, t)
    ensures exists h: nat :: InsideExtent(GcImage(f, mode, limit), h, SectorStart(t), Carried(f, t))
  {
    var g := GcImage(f, mode, limit);
    SectorInFlash(t);
    NextFreeIs(f, mode, limit, nextFree, t);
    CarriedNowhereIff(f, t);
    var h := VisitedOrJumped(f, 0, t, SectorStart(t));
    forall k | 0 <= k <= h ensures g[k] == f[k] {
      GcImageAt(f, mode, limit, k);
      GcBelowNextFree(f, mode, limit, nextFree, k);
    }
    WalkFrame(f, g, 0, h);
    assert InsideExtent(g, h, SectorStart(t), Carried(f, t));
  }

  /** The walk visits the extent at `h`, which ends at `e` and holds page `v`. */
  ghost predicate InsideExtent(g: Flash, h: nat, v: nat, e: nat) {
    h < v < e && Walk(g, 0, h) && Step(g, h) && NextFile(h, g[h].hdr) == e && !g[h].hdr.Free()
  }

  /** From a stranded next free page the search meets free pages, then pages that the walk visits. */
  lemma StrandedRejoins(f: Flash, mode: Mode, limit: nat, nextFree: nat) returns (h: nat, m: nat, e: nat)
    requires Tiled(f) && limit <= SECTOR_COUNT && MayStop(f, mode, limit) && Stranded(f, mode, limit, nextFree)
    ensures var g, v := GcImage(f, mode, limit), NextFreeAfter(f, mode, limit, nextFree);
      InsideExtent(g, h, v, e) && Rejoins(g, v, m, e)
  {
    var g := GcImage(f, mode, limit);
    var t: nat :| FirstErased(f, mode, limit, t) && SectorStart(t) < nextFree && SectorStart(t) < Carried(f, t);
    e := Carried(f, t);
    NextFreeIs(f, mode, limit, nextFree, t);
    OverhangKept(f, mode, limit, nextFree, t);
    h :| InsideExtent(g, h, SectorStart(t), e);
    assert Walk(g, e, e) && Walk(g, h, e);
    WalkTransitive(g, 0, h, e);
    m := ErasedRejoins(f, mode, limit, t, e);
  }

  // ---------------------------------------------------------------- an example

  /** An active page, an obsolete extent over the rest of its sector and the first page of the next, and free space. */
  ghost predicate Stranding(f: Flash) {
    && PAGES_PER_SECTOR >= 2 && SECTOR_COUNT >= 2 && PAGES_PER_SECTOR + 1 <= PAGE_COUNT
    && f[0].hdr == ZERO_HEADER.(allocatedFlag := true, maxPages := 1, validFlag := true)
    && f[1].hdr ==
       ZERO_HEADER.(allocatedFlag := true, obsoleteFlag := true, maxPages := PAGES_PER_SECTOR, validFlag := true)
    && forall k :: PAGES_PER_SECTOR < k < PAGE_COUNT ==> f[k] == ERASED
  }

  ghost function StrandingFlash(): (f: Flash)
    requires PAGES_PER_SECTOR >= 2 && SECTOR_COUNT >= 2
    ensures Stranding(f) && f[PAGES_PER_SECTOR] == ERASED
  {
    var live := ZERO_HEADER.(allocatedFlag := true, maxPages := 1, validFlag := true);
    var dead :=
      ZERO_HEADER.(allocatedFlag := true, obsoleteFlag := true, maxPages := PAGES_PER_SECTOR, validFlag := true);
    SectorInFlash(1);
    assert SectorStart(0) == 0 && SectorStart(2) == SectorStart(1) + PAGES_PER_SECTOR;
    seq(PAGE_COUNT, p => if p == 0 then Page(live, []) else if p == 1 then Page(dead, []) else ERASED)
  }

  lemma {:induction false} WalkFree(f: Flash, p: nat, s: nat)
    requires SectorStart(s) <= p && s < SECTOR_COUNT && p < SectorStart(s + 1)
    requires forall k :: p <= k < PAGE_COUNT ==> f[k] == ERASED
    ensures Walk(f, p, PAGE_COUNT)
    decreases SECTOR_COUNT - s
  {
    SectorInFlash(s);
    SectorOfPage(p, s);
    if s + 1 < SECTOR_COUNT {
      WalkFree(f, SectorStart(s + 1), s + 1);
    }
  }

  lemma StrandingWalk(f: Flash)
    requires Stranding(f)
    ensures SectorStart(1) == PAGES_PER_SECTOR && Tiled(f) && Walk(f, 0, 1) && Step(f, 1)
    ensures Walk(f, 0, PAGES_PER_SECTOR + 1) && NextFile(1, f[1].hdr) == PAGES_PER_SECTOR + 1
    ensures SectorStart(1) < Carried(f, 1) && !Walk(f, 0, PAGES_PER_SECTOR)
  {
    var n := PAGES_PER_SECTOR + 1;
    SectorInFlash(1);
    assert SectorStart(0) == 0 && SectorStart(1) == PAGES_PER_SECTOR;
    assert SectorStart(2) == SectorStart(1) + PAGES_PER_SECTOR;
    assert NextFile(0, f[0].hdr) == 1 && NextFile(1, f[1].hdr) == n;
    WalkFree(f, n, 1);
    assert Walk(f, n, n) && Walk(f, 1, n) && Walk(f, 1, PAGE_COUNT) && Walk(f, 1, 1) && Walk(f, 0, 1);
    WalkJumps(f, 0, 1, PAGES_PER_SECTOR);
    CarriedNowhereIff(f, 1);
  }

  lemma StrandingIsStranded(f: Flash)
    requires Stranding(f)
    ensures Tiled(f) && Walk(f, 0, PAGES_PER_SECTOR + 1) && !Walk(f, 0, PAGES_PER_SECTOR)
    ensures Erasable(f, Greedy, 1) && Stranded(f, Greedy, SECTOR_COUNT, PAGES_PER_SECTOR + 1)
    ensures NextFreeAfter(f, Greedy, SECTOR_COUNT, PAGES_PER_SECTOR + 1) == PAGES_PER_SECTOR
  {
    StrandingWalk(f);
    StrandingSectors(f);
    assert FirstErased(f, Greedy, SECTOR_COUNT, 1);
    NextFreeIs(f, Greedy, SECTOR_COUNT, PAGES_PER_SECTOR + 1, 1);
  }

  /** A tiled flash with its next free page on the walk, for which one greedy pass takes it off the walk. */
  lemma GcStrandsNextFree()
    requires PAGES_PER_SECTOR >= 2 && SECTOR_COUNT >= 2
    ensures var f, n := StrandingFlash(), PAGES_PER_SECTOR + 1;
      && Tiled(f) && Walk(f, 0, n)
      && !Walk(GcImage(f, Greedy, SECTOR_COUNT), 0, NextFreeAfter(f, Greedy, SECTOR_COUNT, n))
  {
    var f := StrandingFlash();
    StrandingIsStranded(f);
    NextFreeStaysVisitedIff(f, Greedy, SECTOR_COUNT, PAGES_PER_SECTOR + 1);
  }

  lemma StrandingSectors(f: Flash)
    requires Stranding(f)
    requires Tiled(f) && Walk(f, 0, 1) && Step(f, 1) && Walk(f, 0, PAGES_PER_SECTOR + 1)
    requires SectorStart(1) == PAGES_PER_SECTOR && NextFile(1, f[1].hdr) == PAGES_PER_SECTOR + 1
    ensures !Erasable(f, Greedy, 0) && Erasable(f, Greedy, 1)
  {
    SectorInFlash(1);
    var x, y := SectorStart(1), SectorStart(2);
    if Erasable(f, Greedy, 0) {
      ErasableHasNoActive(f, Greedy, 0, 0);
    }
    forall k | x <= k < y ensures KindFrom(f, 0, k) != Active && (k == x ==> KindFrom(f, 0, k) == Obsolete) {
      if k == x {
        KindInExtent(f, 1, k);
      } else {
        KindAfterWalk(f, 0, x + 1, k);
        KindOfFree(f, x + 1, k);
      }
    }
    CountNone(f, x, y, Active);
    if Count(f, x, y, Obsolete) == 0 {
      CountZero(f, x, y, Obsolete, x);
    }
  }

  lemma {:induction false} CountNone(f: Flash, lo: nat, hi: nat, kind: Kind)
    requires lo <= hi <= PAGE_COUNT && forall k :: lo <= k < hi ==> KindFrom(f, 0, k) != kind
    ensures Count(f, lo, hi, kind) == 0
    decreases hi
  {
    if lo < hi {
      CountNone(f, lo, hi - 1, kind);
    }
  }

  lemma {:induction false} KindOfFree(f: Flash, p: nat, k: nat)
    requires p <= k < PAGE_COUNT && forall j :: p <= j < PAGE_COUNT ==> f[j] == ERASED
    ensures KindFrom(f, p, k) == Free
    decreases PAGE_COUNT - p
  {
    var q := NextFile(p, f[p].hdr);
    if q <= k {
      KindOfFree(f, q, k);
    }
  }
}
