/**
 The Coffee flash as it is changed in place: counting a sector while streaming over it, collecting
 garbage, and finding and reserving free pages.
 */
module CoffeeStorage {
  import opened Wrappers
  import opened CoffeeLayout
  import opened CoffeeGc
  import opened CoffeeAlloc

  datatype SectorStatus = SectorStatus(active: int, obsolete: int, free: int)

  /** The status of sector `s` of layout `f`, counted page by page. */
  ghost predicate StatusOf(f: Flash, s: nat, stats: SectorStatus)
    requires s < SECTOR_COUNT && SectorStart(s + 1) <= PAGE_COUNT
  {
    && stats.active == Count(f, SectorStart(s), SectorStart(s + 1), Active)
    && stats.obsolete == Count(f, SectorStart(s), SectorStart(s + 1), Obsolete)
    && stats.free == Count(f, SectorStart(s), SectorStart(s + 1), Free)
  }

  /** What `get_sector_status` remembers from one sector to the next. */
  ghost predicate CarriedState(f: Flash, s: nat, skipPages: int, lastPagesAreActive: bool)
    requires Tiled(f) && s <= SECTOR_COUNT
  {
    && skipPages == Carried(f, s) - SectorStart(s)
    && (skipPages > 0 ==> (lastPagesAreActive <==> KindFrom(f, 0, SectorStart(s)) == Active))
  }

  lemma CarriedIs(f: Flash, s: nat, h: nat)
    requires Tiled(f) && s <= SECTOR_COUNT && Walk(f, 0, h) && Step(f, h) && h < SectorStart(s) <= NextFile(h, f[h].hdr)
    ensures Carried(f, s) == NextFile(h, f[h].hdr)
  {
    var n := NextFile(h, f[h].hdr);
    SectorInFlash(s);
    assert Walk(f, n, n);
    WalkTransitive(f, 0, h, n);
    FirstVisitedIsFirst(f, 0, SectorStart(s), n);
    WalkSplits(f, 0, h, Carried(f, s));
  }

  /** Counting one more extent or free stretch of the walk. */
  lemma CountExtent(f: Flash, lo: nat, h: nat, kind: Kind)
    requires Tiled(f) && lo <= h && Walk(f, 0, h) && Step(f, h)
    ensures var n := NextFile(h, f[h].hdr);
      Count(f, lo, n, kind) == Count(f, lo, h, kind) + if KindOf(f[h].hdr) == kind then n - h else 0
  {
    var n := NextFile(h, f[h].hdr);
    forall k | h <= k < n ensures KindFrom(f, 0, k) == KindOf(f[h].hdr) {
      KindInExtent(f, h, k);
    }
    CountSplit(f, lo, h, n, kind);
    CountUniform(f, h, n, KindOf(f[h].hdr), kind);
  }

  /** The pages of a sector that lie in an extent carried over its start. */
  lemma CountCarried(f: Flash, s: nat, hi: nat, kind: Kind)
    requires Tiled(f) && s <= SECTOR_COUNT && SectorStart(s) <= hi <= Carried(f, s)
    ensures Count(f, SectorStart(s), hi, kind) ==
      if SectorStart(s) < Carried(f, s) && KindFrom(f, 0, SectorStart(s)) == kind then hi - SectorStart(s) else 0
    ensures SectorStart(s) < Carried(f, s) ==> KindFrom(f, 0, SectorStart(s)) != Free
  {
    var x, e := SectorStart(s), Carried(f, s);
    if x < e {
      forall k | x <= k < hi ensures KindFrom(f, 0, k) == KindFrom(f, 0, x) {
        CarriedKind(f, s, k);
        CarriedKind(f, s, x);
      }
      CarriedKind(f, s, x);
      CountUniform(f, x, hi, KindFrom(f, 0, x), kind);
    }
  }

  /** What the loop over the headers of a sector has counted when it stands at `page`. */
  ghost predicate Counted(f: Flash, s: nat, page: nat, active: int, obsolete: int, lastPagesAreActive: bool)
    requires Tiled(f) && s < SECTOR_COUNT
  {
    && SectorStart(s) <= page <= PAGE_COUNT && Walk(f, 0, page)
    && active == Count(f, SectorStart(s), page, Active)
    && obsolete == Count(f, SectorStart(s), page, Obsolete)
    && Count(f, SectorStart(s), page, Free) == 0
    && (SectorStart(s + 1) <= page ==> Carried(f, s + 1) == page)
    && (SectorStart(s + 1) < page ==> (lastPagesAreActive <==> KindFrom(f, 0, SectorStart(s + 1)) == Active))
  }

  lemma CountStep(f: Flash, s: nat, page: nat, active: int, obsolete: int, last: bool)
    requires Tiled(f) && s < SECTOR_COUNT && page < SectorStart(s + 1) && page < PAGE_COUNT
    requires Counted(f, s, page, active, obsolete, last)
    requires !f[page].hdr.Free()
    ensures var n, isActive := NextFile(page, f[page].hdr), f[page].hdr.Active();
      page < n && Counted(f, s, n, if isActive then active + (n - page) else active, if isActive then obsolete
        else obsolete + (n - page), isActive)
  {
    WalkSplits(f, 0, page, PAGE_COUNT);
    var n := NextFile(page, f[page].hdr);
    assert Walk(f, n, n);
    WalkTransitive(f, 0, page, n);
    CountExtent(f, SectorStart(s), page, Active);
    CountExtent(f, SectorStart(s), page, Obsolete);
    CountExtent(f, SectorStart(s), page, Free);
    if SectorStart(s + 1) <= n {
      CarriedIs(f, s + 1, page);
      if SectorStart(s + 1) < n {
        KindInExtent(f, page, SectorStart(s + 1));
      }
    }
  }

  /** The sector ends with free pages: the rest of it is counted as free. */
  lemma CountFreeRest(f: Flash, s: nat, page: nat, active: int, obsolete: int, last: bool)
    requires Tiled(f) && s < SECTOR_COUNT && page < SectorStart(s + 1) <= PAGE_COUNT
    requires Counted(f, s, page, active, obsolete, last)
    requires f[page].hdr.Free()
    ensures StatusOf(f, s, SectorStatus(active, obsolete, SectorStart(s + 1) - page))
    ensures Carried(f, s + 1) == SectorStart(s + 1)
  {
    WalkSplits(f, 0, page, PAGE_COUNT);
    SectorOfPage(page, s);
    CountExtent(f, SectorStart(s), page, Active);
    CountExtent(f, SectorStart(s), page, Obsolete);
    CountExtent(f, SectorStart(s), page, Free);
    CarriedIs(f, s + 1, page);
  }

  /** What one round of the loop over headers counts, branch by branch. */
  lemma HeaderCounted(f: Flash, s: nat, page: nat, active: int, obsolete: int, last: bool)
    requires Tiled(f) && s < SECTOR_COUNT && page < SectorStart(s + 1) <= PAGE_COUNT
    requires Counted(f, s, page, active, obsolete, last)
    ensures var hdr := f[page].hdr;
      if hdr.Active() then hdr.maxPages > 0 && Counted(f, s, page + hdr.maxPages, active + hdr.maxPages, obsolete, true)
      else if hdr.isolatedFlag && !hdr.Free() then Counted(f, s, page + 1, active, obsolete + 1, false)
      else if hdr.obsoleteFlag && !hdr.Free() then
        hdr.maxPages > 0 && Counted(f, s, page + hdr.maxPages, active, obsolete + hdr.maxPages, false)
      else (hdr == ZERO_HEADER && Carried(f, s + 1) == SectorStart(s + 1) &&
            StatusOf(f, s, SectorStatus(active, obsolete, SectorStart(s + 1) - page)))
  {
    if f[page].hdr.Free() {
      WalkSplits(f, 0, page, PAGE_COUNT);
      CountFreeRest(f, s, page, active, obsolete, last);
    } else {
      CountStep(f, s, page, active, obsolete, last);
    }
  }

  lemma OverhangKind(f: Flash, s: nat, page: nat, kind: Kind)
    requires Tiled(f) && s < SECTOR_COUNT && SectorStart(s + 1) <= page == Carried(f, s + 1)
    ensures var x, y := SectorStart(s), SectorStart(s + 1);
      Count(f, x, page, kind) == Count(f, x, y, kind) + if y < page && KindFrom(f, 0, y) == kind then page - y else 0
  {
    SectorInFlash(s);
    CountSplit(f, SectorStart(s), SectorStart(s + 1), page, kind);
    CountCarried(f, s + 1, page, kind);
  }

  /** Past the end of the sector, the overhang belongs to the last extent. */
  lemma CountOverhang(f: Flash, s: nat, page: nat, active: int, obsolete: int, last: bool)
    requires Tiled(f) && s < SECTOR_COUNT && SectorStart(s + 1) <= page && Counted(f, s, page, active, obsolete, last)
    ensures SectorStart(s + 1) <= PAGE_COUNT
    ensures active + obsolete == page - SectorStart(s)
    ensures SectorStart(s + 1) == page ==> StatusOf(f, s, SectorStatus(active, obsolete, 0))
    ensures SectorStart(s + 1) < page ==>
      StatusOf(f, s, if last then SectorStatus(PAGES_PER_SECTOR - obsolete, obsolete, 0)
        else SectorStatus(active, PAGES_PER_SECTOR - active, 0))
    ensures SectorStart(s + 1) < page && last ==> PAGES_PER_SECTOR - obsolete > 0
  {
    CountKinds(f, SectorStart(s), page);
    CountKinds(f, SectorStart(s), SectorStart(s + 1));
    OverhangKind(f, s, page, Active);
    OverhangKind(f, s, page, Obsolete);
    OverhangKind(f, s, page, Free);
    if SectorStart(s + 1) < page {
      CarriedKind(f, s + 1, SectorStart(s + 1));
    }
  }

  lemma ErasedIsTiled(f: Flash)
    requires f == ErasedPages(PAGE_COUNT)
    ensures Tiled(f)
  {
    if PAGE_COUNT > 0 {
      WalkFree(f, 0, 0);
    }
  }

  lemma NothingPassed(f: Flash, mode: Mode)
    requires Tiled(f)
    ensures GcImage(f, mode, 0) == f
  {
    forall k | 0 <= k < PAGE_COUNT ensures GcImage(f, mode, 0)[k] == f[k] {
      GcImageAt(f, mode, 0, k);
    }
  }

  /** A pass over layout `f` in which `from` was the next free page. */
  datatype Pass = Pass(f: Flash, mode: Mode, from: nat)

  /** Where a search leaves the next free page: on the walk, behind the pages found, or off the walk. */
  ghost predicate NextFreeFound(f: Flash, nextFree: nat, r: Option<nat>, amount: nat, strands: bool, blind: bool) {
    match r
    case None => if strands then !Walk(f, 0, nextFree) else nextFree <= PAGE_COUNT && Walk(f, 0, nextFree)
    case Some(p) =>
      if strands then !blind ==> nextFree <= p && !Walk(f, 0, nextFree)
      else nextFree == p + amount || (nextFree <= p && Walk(f, 0, nextFree))
  }

  /** The next free page stays on the walk, or is taken off it. */
  ghost predicate NextFreeKept(f: Flash, nextFree: nat, r: Option<nat>, strands: bool, blind: bool) {
    match r
    case None => if strands then !Walk(f, 0, nextFree) else Walk(f, 0, nextFree)
    case Some(_) => if strands then !blind ==> !Walk(f, 0, nextFree) else Walk(f, 0, nextFree)
  }

  lemma KeptFound(f: Flash, nextFree: nat, p: nat, hdr: Header, strands: bool, blind: bool)
    requires p < PAGE_COUNT && NextFreeFound(f, nextFree, Some(p), hdr.maxPages, strands, blind)
    requires !strands ==> Walk(Reserved(f, p, hdr), 0, p + hdr.maxPages)
    ensures NextFreeKept(Reserved(f, p, hdr), nextFree, Some(p), strands, blind)
  {
    if nextFree <= p {
      ReservedBelow(f, p, hdr, nextFree);
    }
  }

  /** The search fails, so a pass is run, and it takes the next free page off the walk. */
  ghost predicate Strands(f: Flash, nextFree: nat, gcWait: bool, amount: nat)
    requires Tiled(f)
  {
    !HasRoom(f, nextFree, amount) && !gcWait && Stranded(f, Greedy, SECTOR_COUNT, nextFree)
  }

  /** And there is room at the place where the next free page then is. */
  ghost predicate Blind(f: Flash, nextFree: nat, gcWait: bool, amount: nat)
    requires Tiled(f)
  {
    var v := NextFreeAfter(f, Greedy, SECTOR_COUNT, nextFree);
    Strands(f, nextFree, gcWait, amount) && Fits(GcImage(f, Greedy, SECTOR_COUNT), v, amount, v)
  }

  /** Where the free pages are sought: the flash as it is, or after one greedy pass. */
  ghost function Searchable(f: Flash, nextFree: nat, gcWait: bool, amount: nat): (base: Flash)
    requires Tiled(f)
  {
    if HasRoom(f, nextFree, amount) || gcWait then f else GcImage(f, Greedy, SECTOR_COUNT)
  }

  /**
   What a reservation makes of a tiled layout `f`: nothing, or a header written at the start of erased pages, which
   the walk then visits, or jumps over as it did before.
   */
  ghost predicate ReserveResult(f: Flash, hdr: Header, r: Option<nat>, g: Flash) {
    match r
    case None => g == f && Tiled(f)
    case Some(p) =>
      && p < PAGE_COUNT && p + hdr.maxPages <= PAGE_COUNT && g == Reserved(f, p, hdr)
      && (forall k :: p <= k < p + hdr.maxPages ==> f[k] == ERASED)
      && (OneMoreExtent(f, p, g) || LostExtent(f, p, g))
  }

  lemma ReserveOutcome(f: Flash, p: nat, end: nat, hdr: Header)
    requires Tiled(f) && FreeRun(f, p, end) && (Walk(f, 0, p) || IsOffWalk(f, p))
    requires hdr.Active() && 1 <= hdr.maxPages && p + hdr.maxPages <= end
    ensures ReserveResult(f, hdr, Some(p), Reserved(f, p, hdr))
    ensures OneMoreExtent(f, p, Reserved(f, p, hdr)) <==> Walk(f, 0, p)
    ensures Walk(f, 0, p) ==> Walk(Reserved(f, p, hdr), 0, p + hdr.maxPages)
  {
    if Walk(f, 0, p) {
      ReserveKeepsTiled(f, p, end, hdr);
    } else {
      var h: nat, e: nat :| InsideExtent(f, h, p, e);
      WriteInside(f, h, p, e, hdr);
    }
  }

  lemma ReservedBelow(f: Flash, p: nat, hdr: Header, x: nat)
    requires p < PAGE_COUNT && x <= p
    ensures Walk(Reserved(f, p, hdr), 0, x) <==> Walk(f, 0, x)
  {
    var g := Reserved(f, p, hdr);
    if Walk(f, 0, x) {
      WalkFrame(f, g, 0, x);
    }
    if Walk(g, 0, x) {
      WalkFrame(g, f, 0, x);
    }
  }

  /** A header was written at `p`, and the walk of `g` does not visit it: it sees what the walk of `f` sees. */
  ghost predicate LostExtent(f: Flash, p: nat, g: Flash) {
    && Tiled(f) && Tiled(g) && !Walk(f, 0, p) && !Walk(g, 0, p)
    && ActiveStarts(g, 0, PAGE_COUNT) == ActiveStarts(f, 0, PAGE_COUNT)
  }

  /** Some run of `amount` free pages is there to be found from `from` on. */
  ghost predicate HasRoom(f: Flash, from: nat, amount: nat) {
    exists p: nat :: from <= p && Fits(f, from, amount, p)
  }

  /** The walk jumps over `p`, inside an extent. */
  ghost predicate IsOffWalk(g: Flash, p: nat) {
    !Walk(g, 0, p) && exists h: nat, e: nat :: InsideExtent(g, h, p, e)
  }

  /** After a greedy pass the search can be run from the next free page, be it on the walk or off it. */
  lemma BeforeSearch(f: Flash, nextFree: nat) returns (h: nat, m: nat, e: nat)
    requires Tiled(f) && Walk(f, 0, nextFree)
    ensures var g, v := GcImage(f, Greedy, SECTOR_COUNT), NextFreeAfter(f, Greedy, SECTOR_COUNT, nextFree);
      && v <= PAGE_COUNT && Tiled(g) && Walk(g, v, PAGE_COUNT)
      && if Stranded(f, Greedy, SECTOR_COUNT, nextFree)
         then !Walk(g, 0, v) && InsideExtent(g, h, v, e) && Rejoins(g, v, m, e)
         else Walk(g, 0, v)
  {
    var g, v := GcImage(f, Greedy, SECTOR_COUNT), NextFreeAfter(f, Greedy, SECTOR_COUNT, nextFree);
    WalkBounded(f, 0, nextFree);
    NextFreeBounds(f, Greedy, SECTOR_COUNT, nextFree);
    GcIsSafe(f, Greedy, SECTOR_COUNT);
    NextFreeStaysVisitedIff(f, Greedy, SECTOR_COUNT, nextFree);
    if Stranded(f, Greedy, SECTOR_COUNT, nextFree) {
      h, m, e := StrandedRejoins(f, Greedy, SECTOR_COUNT, nextFree);
      RejoinedWalk(g, v, m, e);
    } else {
      h, m, e := 0, 0, 0;
      WalkSplits(g, 0, v, PAGE_COUNT);
    }
  }

  lemma RejoinedWalk(g: Flash, v: nat, m: nat, e: nat)
    requires Tiled(g) && Rejoins(g, v, m, e)
    ensures Walk(g, v, PAGE_COUNT)
  {
    if Walk(g, 0, m) {
      WalkSplits(g, 0, m, PAGE_COUNT);
      WalkTransitive(g, v, m, PAGE_COUNT);
    } else {
      WalkIsolated(g, m, e);
      WalkSplits(g, 0, e, PAGE_COUNT);
      WalkTransitive(g, v, m, e);
      WalkTransitive(g, v, e, PAGE_COUNT);
    }
  }

  /** The next free page is inside an extent, at free pages from which the search comes back to the walk. */
  ghost predicate LeftInside(g: Flash, v: nat) {
    Tiled(g) && exists h: nat, m: nat, e: nat :: InsideExtent(g, h, v, e) && Rejoins(g, v, m, e)
  }

  /** That is where a pass leaves it that strands it. */
  lemma StrandedIsInside(f: Flash, mode: Mode, from: nat)
    requires Tiled(f) && Stranded(f, mode, Limit(f, mode), from)
    ensures LeftInside(Collected(f, mode), NextFreeAfter(f, mode, Limit(f, mode), from))
  {
    GcIsSafe(f, mode, Limit(f, mode));
    var h, m, e := StrandedRejoins(f, mode, Limit(f, mode), from);
  }

  lemma SearchFromInside(g: Flash, v: nat)
    requires LeftInside(g, v)
    ensures v <= PAGE_COUNT && Walk(g, v, PAGE_COUNT)
  {
    var h: nat, m: nat, e: nat :| InsideExtent(g, h, v, e) && Rejoins(g, v, m, e);
    WriteInside(g, h, v, e, ERASED.hdr);
    RejoinedWalk(g, v, m, e);
  }

  lemma FoundFromInside(g: Flash, v: nat, hdr: Header, p: nat, end: nat)
    requires LeftInside(g, v) && hdr.Active() && hdr.maxPages >= 1 && FoundFirst(g, v, hdr.maxPages, p, end)
    ensures ReserveResult(g, hdr, Some(p), Reserved(g, p, hdr))
    ensures OneMoreExtent(g, p, Reserved(g, p, hdr)) <==> !Fits(g, v, hdr.maxPages, v)
  {
    var h: nat, m: nat, e: nat :| InsideExtent(g, h, v, e) && Rejoins(g, v, m, e);
    WriteInside(g, h, v, e, hdr);
    FoundOffWalkIff(g, v, m, e, hdr.maxPages, p, end);
    ReserveOutcome(g, p, end, hdr);
  }

  /** The header of a newly reserved extent. */
  function NewHeader(name: string, amount: nat, log: bool): Header {
    ZERO_HEADER.(name := name, maxPages := amount, allocatedFlag := true, logFlag := log, validFlag := true)
  }

  /** The flash after a pass. */
  ghost function Collected(f: Flash, mode: Mode): Flash
    requires Tiled(f)
  {
    GcImage(f, mode, Limit(f, mode))
  }

  /** A reluctant pass stops when it has isolated pages. */
  ghost predicate Stops(f: Flash, mode: Mode, sector: nat)
    requires Tiled(f) && sector <= SECTOR_COUNT
  {
    mode == Reluctant && Isolated(f, mode, sector)
  }

  /** Where a pass ends that goes on from `sector`: after the last sector, or after the first where it stops. */
  ghost function LimitFrom(f: Flash, mode: Mode, sector: nat): (limit: nat)
    requires Tiled(f) && sector <= SECTOR_COUNT
    ensures sector <= limit <= SECTOR_COUNT
    ensures limit == SECTOR_COUNT || Stops(f, mode, limit)
    decreases SECTOR_COUNT - sector
  {
    if sector == SECTOR_COUNT then sector
    else if Stops(f, mode, sector + 1) then sector + 1
    else LimitFrom(f, mode, sector + 1)
  }

  ghost function Limit(f: Flash, mode: Mode): (limit: nat)
    requires Tiled(f)
    ensures limit <= SECTOR_COUNT && MayStop(f, mode, limit)
    ensures mode == Greedy ==> limit == SECTOR_COUNT
  {
    LimitFrom(f, mode, 0)
  }

  /** A pass stops at the first sector where it may. */
  lemma {:induction false} LimitIsFirst(f: Flash, mode: Mode, sector: nat, s: nat)
    requires Tiled(f) && sector < s <= SECTOR_COUNT && s < LimitFrom(f, mode, sector)
    ensures !Stops(f, mode, s)
    decreases SECTOR_COUNT - sector
  {
    if sector + 1 < s {
      LimitIsFirst(f, mode, sector + 1, s);
    }
  }

  lemma ExtentEndsIff(f: Flash, s: nat)
    requires Tiled(f) && s <= SECTOR_COUNT
    ensures ExtentEndsIn(f, s) <==> IsolationCount(f, s) > 0
  {
    EndsInsideIs(f, s, Carried(f, s));
    if e: nat :| EndsInside(f, s, e) {
      EndsInsideIs(f, s, e);
    }
  }

  lemma StopsIff(f: Flash, mode: Mode, t: nat)
    requires Tiled(f) && t < SECTOR_COUNT
    ensures Stops(f, mode, t + 1) <==>
            mode == Reluctant && Dead(f, mode, t) && ExtentEndsIn(f, t + 1)
  {
    DeadIsErasable(f, mode, t);
    ExtentEndsIff(f, t + 1);
  }

  lemma ReachedBelowLimit(f: Flash, mode: Mode, s: nat)
    requires Tiled(f) && s < Limit(f, mode)
    ensures Reaches(f, mode, s)
  {
    if mode == Reluctant {
      forall t: nat | t < s && Dead(f, mode, t) ensures !ExtentEndsIn(f, t + 1) {
        LimitIsFirst(f, mode, 0, t + 1);
        StopsIff(f, mode, t);
      }
    }
  }

  lemma NotReachedFromLimit(f: Flash, mode: Mode, s: nat)
    requires Tiled(f) && Limit(f, mode) <= s < SECTOR_COUNT
    ensures !Reaches(f, mode, s)
  {
    StopsIff(f, mode, Limit(f, mode) - 1);
  }

  lemma ReachesBelowLimit(f: Flash, mode: Mode, s: nat)
    requires Tiled(f) && s < SECTOR_COUNT
    ensures Reaches(f, mode, s) <==> s < Limit(f, mode)
  {
    if s < Limit(f, mode) {
      ReachedBelowLimit(f, mode, s);
    } else {
      NotReachedFromLimit(f, mode, s);
    }
  }

  lemma ErasesIff(f: Flash, mode: Mode, s: nat)
    requires Tiled(f)
    ensures Erases(f, mode, s) <==> s < Limit(f, mode) && Erasable(f, mode, s)
  {
    if s < SECTOR_COUNT {
      DeadIsErasable(f, mode, s);
      ReachesBelowLimit(f, mode, s);
    }
  }

  lemma OverhangIff(f: Flash, s: nat, k: nat)
    requires Tiled(f) && s < SECTOR_COUNT && InSector(k, s)
    ensures InOverhang(f, s, k) <==> k < SectorStart(s) + IsolationCount(f, s)
  {
    EndsInsideIs(f, s, Carried(f, s));
    if e: nat :| EndsInside(f, s, e) && k < e {
      EndsInsideIs(f, s, e);
    }
  }

  lemma CutOffIff(f: Flash, mode: Mode, s: nat, k: nat)
    requires Tiled(f) && s < SECTOR_COUNT && InSector(k, s)
    ensures CutOff(f, mode, s, k) <==>
            0 < s <= Limit(f, mode) && Erasable(f, mode, s - 1) && k < SectorStart(s) + IsolationCount(f, s)
  {
    if s > 0 {
      ErasesIff(f, mode, s - 1);
    }
    OverhangIff(f, s, k);
  }

  /** What a pass reclaims, by the kinds of the pages alone. */
  lemma PassReclaims(f: Flash, mode: Mode)
    requires Tiled(f)
    ensures Reclaimed(f, mode, Collected(f, mode))
  {
    forall s: nat, k: nat | s < SECTOR_COUNT && InSector(k, s)
      ensures Collected(f, mode)[k] ==
        if Erases(f, mode, s) then ERASED
        else if CutOff(f, mode, s, k) then Page(ISOLATED_HEADER, f[k].body)
        else f[k]
    {
      SectorOfPage(k, s);
      GcImageAt(f, mode, Limit(f, mode), k);
      ErasesIff(f, mode, s);
      CutOffIff(f, mode, s, k);
    }
  }

  lemma PassMovesNextFree(f: Flash, mode: Mode, from: nat)
    requires Tiled(f)
    ensures NextFreeMoved(f, mode, from, NextFreeAfter(f, mode, Limit(f, mode), from))
  {
    var limit := Limit(f, mode);
    NextFreeBounds(f, mode, limit, from);
    forall s: nat ensures Erases(f, mode, s) <==> s < limit && Erasable(f, mode, s) {
      ErasesIff(f, mode, s);
    }
    if s: nat :| Erases(f, mode, s) && SectorStart(s) < from {
      var t := SomeFirstErased(f, mode, limit, s);
      NextFreeIs(f, mode, limit, from, t);
    }
  }

  /** A page after its flash sector `s` was erased and `n` pages from the next sector on were isolated. */
  ghost function Processed(p: Page, k: nat, s: nat, n: nat): Page {
    if SectorStart(s) <= k < SectorStart(s + 1) then ERASED
    else if SectorStart(s + 1) <= k < SectorStart(s + 1) + n then Page(ISOLATED_HEADER, p.body)
    else p
  }

  lemma SectorsFit(f: Flash, s: nat)
    requires Tiled(f) && s < SECTOR_COUNT
    ensures SectorStart(s + 1) + IsolationCount(f, s + 1) <= PAGE_COUNT
  {
    SectorInFlash(s);
  }

  /** Processing an erasable sector takes the image for `s` sectors to the image for one more. */
  lemma GcImageStep(f: Flash, mode: Mode, s: nat, g: Flash, g': Flash)
    requires Tiled(f) && s < SECTOR_COUNT && Erasable(f, mode, s) && g == GcImage(f, mode, s)
    requires forall k :: 0 <= k < PAGE_COUNT ==> g'[k] == Processed(g[k], k, s, IsolationCount(f, s + 1))
    ensures g' == GcImage(f, mode, s + 1)
  {
    forall k | 0 <= k < PAGE_COUNT ensures g'[k] == GcImage(f, mode, s + 1)[k] {
      GcImageAt(f, mode, s, k);
      GcImageAt(f, mode, s + 1, k);
      GcStepPage(f, mode, s, k);
    }
  }

  lemma GcStepPage(f: Flash, mode: Mode, s: nat, k: nat)
    requires Tiled(f) && s < SECTOR_COUNT && Erasable(f, mode, s) && k < PAGE_COUNT
    ensures GcPage(f, mode, s + 1, k) == Processed(GcPage(f, mode, s, k), k, s, IsolationCount(f, s + 1))
  {
    if k < SectorStart(s) {
      GcStepBefore(f, mode, s, k);
    } else if k < SectorStart(s + 1) {
      GcStepInside(f, mode, s, k);
    } else {
      GcStepLater(f, mode, s, k);
    }
  }

  lemma GcStepBefore(f: Flash, mode: Mode, s: nat, k: nat)
    requires Tiled(f) && s < SECTOR_COUNT && k < SectorStart(s) && k < PAGE_COUNT
    ensures GcPage(f, mode, s + 1, k) == GcPage(f, mode, s, k) && k < SectorStart(s + 1)
  {
    SectorStartMonotone(s, s + 1);
    SectorApart(SectorOf(k, 0), s, k);
  }

  lemma GcStepInside(f: Flash, mode: Mode, s: nat, k: nat)
    requires Tiled(f) && s < SECTOR_COUNT && Erasable(f, mode, s) && SectorStart(s) <= k < SectorStart(s + 1)
    requires k < PAGE_COUNT
    ensures GcPage(f, mode, s + 1, k) == ERASED
  {
    SectorOfPage(k, s);
  }

  lemma GcStepLater(f: Flash, mode: Mode, s: nat, k: nat)
    requires Tiled(f) && s < SECTOR_COUNT && Erasable(f, mode, s) && SectorStart(s + 1) <= k < PAGE_COUNT
    ensures GcPage(f, mode, s, k) == f[k]
    ensures GcPage(f, mode, s + 1, k) ==
      if k < SectorStart(s + 1) + IsolationCount(f, s + 1) then Page(ISOLATED_HEADER, f[k].body) else f[k]
  {
    var t := SectorOf(k, 0);
    SectorApart(s + 1, t + 1, k);
    if t > s + 1 {
      SectorStartMonotone(s + 2, t);
    }
  }

  /** The count starts with the pages of the extent carried over the sector start. */
  lemma CarriedCounted(f: Flash, s: nat, skipPages: int, last: bool)
    requires Tiled(f) && s < SECTOR_COUNT && CarriedState(f, s, skipPages, last) && skipPages < PAGES_PER_SECTOR
    ensures Carried(f, s) < SectorStart(s + 1)
    ensures Counted(f, s, Carried(f, s), if last then skipPages else 0, if last then 0 else skipPages, last)
  {
    CountCarried(f, s, Carried(f, s), Active);
    CountCarried(f, s, Carried(f, s), Obsolete);
    CountCarried(f, s, Carried(f, s), Free);
  }

  /** A sector that one carried extent covers, and what is carried on from it. */
  lemma CoveredStatus(f: Flash, s: nat, skipPages: int, last: bool)
    requires Tiled(f) && s < SECTOR_COUNT && CarriedState(f, s, skipPages, last) && skipPages >= PAGES_PER_SECTOR
    ensures SectorStart(s + 1) <= PAGE_COUNT
    ensures StatusOf(f, s, if last then SectorStatus(PAGES_PER_SECTOR, 0, 0) else SectorStatus(0, PAGES_PER_SECTOR, 0))
    ensures CarriedState(f, s + 1, skipPages - PAGES_PER_SECTOR, last)
  {
    SectorInFlash(s);
    CountCarried(f, s, SectorStart(s + 1), Active);
    CountCarried(f, s, SectorStart(s + 1), Obsolete);
    CountCarried(f, s, SectorStart(s + 1), Free);
    StillCarried(f, s);
  }

  /** An extent that covers a whole sector is carried on, and its kind with it. */
  lemma StillCarried(f: Flash, s: nat)
    requires Tiled(f) && s < SECTOR_COUNT && SectorStart(s + 1) <= Carried(f, s)
    ensures Carried(f, s + 1) == Carried(f, s)
    ensures SectorStart(s + 1) < Carried(f, s) ==> KindFrom(f, 0, SectorStart(s + 1)) == KindFrom(f, 0, SectorStart(s))
  {
    CarriedStep(f, s);
    if SectorStart(s + 1) < Carried(f, s) {
      CarriedKind(f, s, SectorStart(s));
      CarriedKind(f, s, SectorStart(s + 1));
    }
  }

  class Storage {
    const pages: array<Page>
    var nextFree: nat
    var gcWait: bool
    var skipPages: int
    var lastPagesAreActive: bool

    ghost predicate Valid()
      reads this
    {
      pages.Length == PAGE_COUNT
    }

    /** A formatted flash. */
    constructor ()
      ensures Valid() && fresh(pages) && pages[..] == ErasedPages(PAGE_COUNT)
      ensures Tiled(pages[..]) && nextFree == 0 && Walk(pages[..], 0, nextFree) && !gcWait
    {
      pages := new Page[PAGE_COUNT](_ => ERASED);
      nextFree, gcWait, skipPages, lastPagesAreActive := 0, false, 0, false;
      new;
      assert pages[..] == ErasedPages(PAGE_COUNT);
      ErasedIsTiled(pages[..]);
    }

    /** The headers of the sector from `start` on: pages by kind, with the last extent in full. */
    method CountHeaders(sector: nat, start: nat, active0: int, obsolete0: int, ghost f: Flash)
      returns (active: int, obsolete: int, free: int)
      requires Valid() && Tiled(f) && sector < SECTOR_COUNT && start == Carried(f, sector) < SectorStart(sector + 1)
      requires forall k :: start <= k < PAGE_COUNT ==> pages[k] == f[k]
      requires Counted(f, sector, start, active0, obsolete0, lastPagesAreActive)
      modifies this`lastPagesAreActive
      ensures free == 0 ==> exists page: nat ::
        SectorStart(sector + 1) <= page && Counted(f, sector, page, active, obsolete, lastPagesAreActive)
      ensures free != 0 ==> !lastPagesAreActive && Carried(f, sector + 1) == SectorStart(sector + 1) <= PAGE_COUNT
      ensures free != 0 ==> StatusOf(f, sector, SectorStatus(active, obsolete, free))
    {
      SectorInFlash(sector);
      active, obsolete, free := active0, obsolete0, 0;
      var page := start;
      var sectorEnd := SectorStart(sector) + PAGES_PER_SECTOR;
      while page < sectorEnd
        invariant free == 0 && Counted(f, sector, page, active, obsolete, lastPagesAreActive)
        invariant start <= page
        invariant forall k :: start <= k < PAGE_COUNT ==> pages[k] == f[k]
        decreases sectorEnd - page
      {
        var hdr := pages[page].hdr;
        HeaderCounted(f, sector, page, active, obsolete, lastPagesAreActive);
        lastPagesAreActive := false;
        if hdr.Active() {
          lastPagesAreActive := true;
          page := page + hdr.maxPages;
          active := active + hdr.maxPages;
        } else if hdr.isolatedFlag {
          page := page + 1;
          obsolete := obsolete + 1;
        } else if hdr.obsoleteFlag {
          page := page + hdr.maxPages;
          obsolete := obsolete + hdr.maxPages;
        } else {
          free := sectorEnd - page;
          break;
        }
      }
    }

    /**
     The status of one sector of layout `f`, which this flash still shows from the end of the carried
     extents on. Called for the sectors in order; the result is the page-by-page count.
     */
    method GetSectorStatus(sector: nat, ghost f: Flash) returns (stats: SectorStatus, isolationCount: int)
      requires Valid() && Tiled(f) && sector < SECTOR_COUNT
      requires forall k :: Carried(f, sector) <= k < PAGE_COUNT ==> pages[k] == f[k]
      requires sector > 0 ==> CarriedState(f, sector, skipPages, lastPagesAreActive)
      modifies this`skipPages, this`lastPagesAreActive
      ensures SectorStart(sector + 1) <= PAGE_COUNT && StatusOf(f, sector, stats)
      ensures CarriedState(f, sector + 1, skipPages, lastPagesAreActive)
      ensures stats.active == 0 ==> isolationCount == IsolationCount(f, sector + 1)
    {
      SectorInFlash(sector);
      var active, obsolete := 0, 0;
      if sector == 0 {
        skipPages := 0;
        lastPagesAreActive := false;
      }
      if skipPages >= PAGES_PER_SECTOR {
        CoveredStatus(f, sector, skipPages, lastPagesAreActive);
      } else {
        CarriedCounted(f, sector, skipPages, lastPagesAreActive);
      }
      if lastPagesAreActive {
        if skipPages >= PAGES_PER_SECTOR {
          stats := SectorStatus(PAGES_PER_SECTOR, 0, 0);
          skipPages := skipPages - PAGES_PER_SECTOR;
          return stats, 0;
        }
        active := skipPages;
      } else {
        if skipPages >= PAGES_PER_SECTOR {
          stats := SectorStatus(0, PAGES_PER_SECTOR, 0);
          skipPages := skipPages - PAGES_PER_SECTOR;
          return stats, if skipPages >= PAGES_PER_SECTOR then 0 else skipPages;
        }
        obsolete := skipPages;
      }

      var free;
      active, obsolete, free := CountHeaders(sector, SectorStart(sector) + skipPages, active, obsolete, f);
      if free == 0 {
        ghost var page: nat :|
          SectorStart(sector + 1) <= page && Counted(f, sector, page, active, obsolete, lastPagesAreActive);
        CountOverhang(f, sector, page, active, obsolete, lastPagesAreActive);
      } else {
        CountKinds(f, SectorStart(sector), SectorStart(sector + 1));
      }
      skipPages := active + obsolete + free - PAGES_PER_SECTOR;
      if skipPages > 0 {
        if lastPagesAreActive {
          active := PAGES_PER_SECTOR - obsolete;
        } else {
          obsolete := PAGES_PER_SECTOR - active;
        }
      }
      stats := SectorStatus(active, obsolete, free);
      isolationCount := if lastPagesAreActive || skipPages >= PAGES_PER_SECTOR then 0 else skipPages;
    }

    method WriteHeader(hdr: Header, page: nat)
      requires Valid() && page < PAGE_COUNT
      modifies pages
      ensures pages[..] == old(pages[..])[page := Page(hdr.(validFlag := true), old(pages[page]).body)]
    {
      pages[page] := Page(hdr.(validFlag := true), pages[page].body);
    }

    method IsolatePages(start: nat, skip: nat)
      requires Valid() && start + skip <= PAGE_COUNT
      modifies pages
      ensures forall k :: 0 <= k < PAGE_COUNT ==>
        pages[k] == if start <= k < start + skip then Page(ISOLATED_HEADER, old(pages[k]).body) else old(pages[k])
    {
      var hdr := ZERO_HEADER.(allocatedFlag := true, isolatedFlag := true);
      for page := 0 to skip
        invariant forall k :: 0 <= k < PAGE_COUNT ==>
          pages[k] == if start <= k < start + page then Page(ISOLATED_HEADER, old(pages[k]).body) else old(pages[k])
      {
        WriteHeader(hdr, start + page);
      }
    }

    /** COFFEE_ERASE: all bytes of the sector become zero. */
    method EraseSector(sector: nat)
      requires Valid() && sector < SECTOR_COUNT && SectorStart(sector + 1) <= PAGE_COUNT
      modifies pages
      ensures forall k :: 0 <= k < PAGE_COUNT ==>
        pages[k] == if SectorStart(sector) <= k < SectorStart(sector + 1) then ERASED else old(pages[k])
    {
      for i := 0 to PAGES_PER_SECTOR
        invariant forall k :: 0 <= k < PAGE_COUNT ==>
          pages[k] == if SectorStart(sector) <= k < SectorStart(sector) + i then ERASED else old(pages[k])
      {
        pages[SectorStart(sector) + i] := ERASED;
      }
    }

    /** The pass has done the sectors below `sector`. */
    ghost predicate PassedSectors(pass: Pass, sector: nat)
      requires Tiled(pass.f) && sector <= SECTOR_COUNT
      reads this, pages
    {
      match pass
      case Pass(f, mode, from) =>
        && Valid() && pages[..] == GcImage(f, mode, sector)
        && nextFree == NextFreeAfter(f, mode, sector, from)
        && (sector > 0 ==> CarriedState(f, sector, skipPages, lastPagesAreActive))
    }

    /** One round of the pass: a sector without active pages is erased, if the mode gains by it. */
    method CollectSector(mode: Mode, sector: nat, ghost pass: Pass) returns (stop: bool)
      requires Tiled(pass.f) && mode == pass.mode && sector < SECTOR_COUNT && PassedSectors(pass, sector)
      modifies this`nextFree, this`skipPages, this`lastPagesAreActive, pages
      ensures PassedSectors(pass, sector + 1)
      ensures stop == Stops(pass.f, mode, sector + 1)
    {
      ghost var f := pass.f;
      forall k | Carried(f, sector) <= k < PAGE_COUNT ensures pages[k] == f[k] {
        GcImageAt(f, mode, sector, k);
        GcAhead(f, mode, sector, k);
        assert pages[k] == pages[..][k];
      }
      var stats, isolationCount := GetSectorStatus(sector, f);
      stop := false;
      if stats.active > 0 {
        GcNotErased(f, mode, sector);
        return;
      }
      if (mode == Reluctant && stats.free == 0) || (mode == Greedy && stats.obsolete > 0) {
        assert Erasable(f, mode, sector);
        SectorsFit(f, sector);
        var firstPage := SectorStart(sector);
        if firstPage < nextFree {
          nextFree := firstPage;
        }
        EraseAndIsolate(sector, isolationCount);
        GcImageStep(f, mode, sector, old(pages[..]), pages[..]);
        stop := mode == Reluctant && isolationCount > 0;
      } else {
        GcNotErased(f, mode, sector);
      }
    }

    method PassSector(mode: Mode, sector: nat, ghost pass: Pass) returns (stop: bool)
      requires Tiled(pass.f) && mode == pass.mode && sector < SECTOR_COUNT && PassedSectors(pass, sector)
      modifies this`nextFree, this`skipPages, this`lastPagesAreActive, pages
      ensures PassedSectors(pass, sector + 1)
      ensures LimitFrom(pass.f, mode, sector) == if stop then sector + 1 else LimitFrom(pass.f, mode, sector + 1)
    {
      stop := CollectSector(mode, sector, pass);
    }

    method EraseAndIsolate(sector: nat, isolationCount: nat)
      requires Valid() && sector < SECTOR_COUNT && SectorStart(sector + 1) + isolationCount <= PAGE_COUNT
      modifies pages
      ensures forall k :: 0 <= k < PAGE_COUNT ==> pages[k] == Processed(old(pages[k]), k, sector, isolationCount)
    {
      if isolationCount > 0 {
        IsolatePages(SectorStart(sector) + PAGES_PER_SECTOR, isolationCount);
      }
      EraseSector(sector);
    }

    /** The loop over the sectors. */
    method RunRounds(mode: Mode, ghost pass: Pass)
      requires Tiled(pass.f) && mode == pass.mode && PassedSectors(pass, 0)
      modifies this`nextFree, this`skipPages, this`lastPagesAreActive, pages
      ensures PassedSectors(pass, Limit(pass.f, mode))
    {
      var sector := 0;
      var stop := false;
      ghost var limit := Limit(pass.f, mode);
      while sector < SECTOR_COUNT && !stop
        invariant sector <= SECTOR_COUNT && PassedSectors(pass, sector)
        invariant limit == if stop then sector else LimitFrom(pass.f, mode, sector)
        decreases SECTOR_COUNT - sector
      {
        stop := PassSector(mode, sector, pass);
        sector := sector + 1;
      }
    }

    method RunPass(mode: Mode, ghost f: Flash, ghost from: nat)
      requires Tiled(f) && Valid() && pages[..] == f && nextFree == from
      modifies this`nextFree, this`skipPages, this`lastPagesAreActive, pages
      ensures pages[..] == Collected(f, mode) && nextFree == NextFreeAfter(f, mode, Limit(f, mode), from)
    {
      NothingPassed(f, mode);
      RunRounds(mode, Pass(f, mode, from));
    }

    /**
     One pass. The flash becomes `GcImage` of what it was; in greedy mode over all sectors, in reluctant
     mode up to the first erased sector after which pages had to be isolated.
     */
    method CollectGarbage(mode: Mode)
      requires Valid() && Tiled(pages[..])
      modifies this`nextFree, this`skipPages, this`lastPagesAreActive, pages
      ensures pages[..] == old(Collected(pages[..], mode))
      ensures nextFree == NextFreeAfter(old(pages[..]), mode, Limit(old(pages[..]), mode), old(nextFree))
      ensures Reclaimed(old(pages[..]), mode, pages[..]) && NextFreeMoved(old(pages[..]), mode, old(nextFree), nextFree)
    {
      PassReclaims(pages[..], mode);
      PassMovesNextFree(pages[..], mode, nextFree);
      RunPass(mode, pages[..], nextFree);
    }

    /**
     The first run of `amount` free pages from the next free page on. Failing means there is none that
     leaves the last page of storage free.
     */
    method FindContiguousPages(amount: nat) returns (r: Option<nat>, ghost end: nat)
      requires Valid() && nextFree <= PAGE_COUNT && Walk(pages[..], nextFree, PAGE_COUNT) && amount >= 1
      modifies this`nextFree
      ensures r.Some? ==> FoundFirst(pages[..], old(nextFree), amount, r.value, end)
      ensures r.Some? ==> nextFree == if r.value == old(nextFree) then r.value + amount else old(nextFree)
      ensures r.None? ==> nextFree == old(nextFree)
      ensures r.None? ==> forall p: nat :: old(nextFree) <= p ==> !Fits(pages[..], old(nextFree), amount, p)
    {
      ghost var f: Flash := pages[..];
      var start := -1;
      var page := nextFree;
      end := 0;
      while page < PAGE_COUNT
        invariant nextFree == old(nextFree) && Searched(f, amount, nextFree, page, start)
        decreases PAGE_COUNT - page
      {
        var hdr := pages[page].hdr;
        assert f[page].hdr == hdr;
        if hdr.Free() {
          SearchPassesFree(f, amount, nextFree, page, start);
          if start == -1 {
            start := page;
            if start + amount >= PAGE_COUNT {
              break;
            }
          }
          page := NextFile(page, hdr);
          if start + amount <= page {
            end := page;
            r := Some(start);
            if start == nextFree {
              nextFree := start + amount;
            }
            return;
          }
        } else {
          SearchPassesExtent(f, amount, nextFree, page, start);
          start := -1;
          page := NextFile(page, hdr);
        }
      }
      return None, end;
    }

    /** The search from a next free page on the walk. */
    method FindOnWalk(amount: nat) returns (r: Option<nat>, ghost end: nat)
      requires Valid() && Tiled(pages[..]) && Walk(pages[..], 0, nextFree) && amount >= 1
      modifies this`nextFree
      ensures r.Some? <==> HasRoom(pages[..], old(nextFree), amount)
      ensures r.Some? ==> FoundFirst(pages[..], old(nextFree), amount, r.value, end) && Walk(pages[..], 0, r.value)
      ensures NextFreeFound(pages[..], nextFree, r, amount, false, false) && (r.None? ==> nextFree == old(nextFree))
    {
      ghost var f: Flash := pages[..];
      WalkBounded(f, 0, nextFree);
      WalkSplits(f, 0, nextFree, PAGE_COUNT);
      ghost var from := nextFree;
      r, end := FindContiguousPages(amount);
      if r.Some? {
        WalkTransitive(f, 0, from, r.value);
      }
    }

    /** The search after a greedy pass over `f`, which may have left the next free page off the walk. */
    method FindAfterPass(amount: nat, ghost f: Flash, ghost nextFree0: nat) returns (r: Option<nat>, ghost end: nat)
      requires Valid() && Tiled(f) && Walk(f, 0, nextFree0) && amount >= 1
      requires pages[..] == GcImage(f, Greedy, SECTOR_COUNT)
      requires nextFree == NextFreeAfter(f, Greedy, SECTOR_COUNT, nextFree0)
      modifies this`nextFree
      ensures r.Some? ==> FreeRun(pages[..], r.value, end) && r.value + amount <= end
      ensures r.Some? ==>
        if Stranded(f, Greedy, SECTOR_COUNT, nextFree0) && Fits(pages[..], old(nextFree), amount, old(nextFree))
        then IsOffWalk(pages[..], r.value)
        else Walk(pages[..], 0, r.value)
      ensures var strands := Stranded(f, Greedy, SECTOR_COUNT, nextFree0);
        NextFreeFound(pages[..], nextFree, r, amount, strands, strands &&
          Fits(pages[..], old(nextFree), amount, old(nextFree)))
    {
      ghost var g: Flash := pages[..];
      ghost var v := nextFree;
      ghost var h, m, e := BeforeSearch(f, nextFree0);
      r, end := FindContiguousPages(amount);
      if r.Some? {
        if Stranded(f, Greedy, SECTOR_COUNT, nextFree0) {
          FoundOffWalkIff(g, v, m, e, amount, r.value, end);
        } else {
          WalkTransitive(g, 0, v, r.value);
        }
      }
    }

    /** The free pages, found at once or after one greedy collection. */
    method FindOrCollect(amount: nat, ghost f: Flash, ghost from: nat, ghost wait: bool)
      returns (r: Option<nat>, ghost end: nat)
      requires Tiled(f) && Walk(f, 0, from) && amount >= 1
      requires Valid() && pages[..] == f && nextFree == from && gcWait == wait
      modifies this, pages
      ensures gcWait == (r.None? || wait) && pages[..] == Searchable(f, from, wait, amount)
      ensures Tiled(pages[..])
      ensures r.Some? ==> FreeRun(pages[..], r.value, end) && r.value + amount <= end
      ensures r.Some? ==>
        if Blind(f, from, wait, amount) then IsOffWalk(pages[..], r.value) else Walk(pages[..], 0, r.value)
      ensures NextFreeFound(pages[..], nextFree, r, amount, Strands(f, from, wait, amount),
        Blind(f, from, wait, amount))
    {
      r, end := FindOnWalk(amount);
      if r.Some? || gcWait {
        return;
      }
      GcIsSafe(f, Greedy, SECTOR_COUNT);
      RunPass(Greedy, f, from);
      r, end := FindAfterPass(amount, f, from);
      if r.None? {
        gcWait := true;
      }
    }

    /** The header is written at the pages found. */
    method WriteFound(hdr: Header, r: Option<nat>, ghost end: nat, ghost base: Flash, ghost strands: bool,
                      ghost blind: bool)
      requires Tiled(base) && hdr.maxPages >= 1 && hdr.Active() && hdr.validFlag && (blind ==> strands)
      requires Valid() && pages[..] == base && NextFreeFound(base, nextFree, r, hdr.maxPages, strands, blind)
      requires r.Some? ==> FreeRun(base, r.value, end) && r.value + hdr.maxPages <= end
      requires r.Some? ==> if blind then IsOffWalk(base, r.value) else Walk(base, 0, r.value)
      modifies pages
      ensures ReserveResult(base, hdr, r, pages[..])
      ensures r.Some? ==> (OneMoreExtent(base, r.value, pages[..]) <==> !blind)
      ensures NextFreeKept(pages[..], nextFree, r, strands, blind)
    {
      if r.Some? {
        ReserveOutcome(base, r.value, end, hdr);
        KeptFound(base, nextFree, r.value, hdr, strands, blind);
        WriteHeader(hdr, r.value);
      }
    }

    method ReserveFrom(hdr: Header, ghost f: Flash, ghost from: nat, ghost wait: bool) returns (r: Option<nat>)
      requires Tiled(f) && Walk(f, 0, from) && hdr.maxPages >= 1 && hdr.Active() && hdr.validFlag
      requires Valid() && pages[..] == f && nextFree == from && gcWait == wait
      modifies this, pages
      ensures gcWait == (r.None? || wait)
      ensures ReserveResult(Searchable(f, from, wait, hdr.maxPages), hdr, r, pages[..])
      ensures r.Some? ==>
        (OneMoreExtent(Searchable(f, from, wait, hdr.maxPages), r.value, pages[..]) <==>
         !Blind(f, from, wait, hdr.maxPages))
      ensures NextFreeKept(pages[..], nextFree, r, Strands(f, from, wait, hdr.maxPages),
                           Blind(f, from, wait, hdr.maxPages))
    {
      ghost var end;
      r, end := FindOrCollect(hdr.maxPages, f, from, wait);
      WriteFound(hdr, r, end, pages[..], Strands(f, from, wait, hdr.maxPages), Blind(f, from, wait, hdr.maxPages));
    }

    /**
     Reserving an extent, from a tiled layout with the next free page on the walk. The layout stays tiled, and all
     active extents stay. The new extent is one more that the walk visits, in pages that were free, if and only if the
     reservation is not blind; a blind one is put where no walk comes.
     */
    method Reserve(name: string, amount: nat, log: bool) returns (r: Option<nat>)
      requires Valid() && Tiled(pages[..]) && Walk(pages[..], 0, nextFree) && amount >= 1
      modifies this, pages
      ensures gcWait == (r.None? || old(gcWait))
      ensures ReserveResult(old(Searchable(pages[..], nextFree, gcWait, amount)), NewHeader(name, amount, log), r,
                            pages[..])
      ensures r.Some? ==>
        (OneMoreExtent(old(Searchable(pages[..], nextFree, gcWait, amount)), r.value, pages[..]) <==>
         !old(Blind(pages[..], nextFree, gcWait, amount)))
      ensures NextFreeKept(pages[..], nextFree, r, old(Strands(pages[..], nextFree, gcWait, amount)),
                           old(Blind(pages[..], nextFree, gcWait, amount)))
    {
      r := ReserveFrom(NewHeader(name, amount, log), pages[..], nextFree, gcWait);
    }

    /**
     Reserving an extent when an earlier pass has stranded the next free page and there is room from there on. The new
     extent is one more that the walk visits if and only if there is no room at the stranded place itself.
     */
    method ReserveFromInside(name: string, amount: nat, log: bool) returns (p: nat)
      requires Valid() && LeftInside(pages[..], nextFree) && amount >= 1 && HasRoom(pages[..], nextFree, amount)
      modifies this`nextFree, pages
      ensures ReserveResult(old(pages[..]), NewHeader(name, amount, log), Some(p), pages[..])
      ensures OneMoreExtent(old(pages[..]), p, pages[..]) <==>
              !Fits(old(pages[..]), old(nextFree), amount, old(nextFree))
    {
      p := ReserveAhead(NewHeader(name, amount, log), pages[..], nextFree);
    }

    method ReserveAhead(hdr: Header, ghost g: Flash, ghost v: nat) returns (p: nat)
      requires Valid() && pages[..] == g && nextFree == v && LeftInside(g, v) && HasRoom(g, v, hdr.maxPages)
      requires hdr.maxPages >= 1 && hdr.Active() && hdr.validFlag
      modifies this`nextFree, pages
      ensures ReserveResult(g, hdr, Some(p), pages[..])
      ensures OneMoreExtent(g, p, pages[..]) <==> !Fits(g, v, hdr.maxPages, v)
    {
      ghost var end;
      var r;
      SearchFromInside(g, v);
      r, end := FindContiguousPages(hdr.maxPages);
      p := r.value;
      FoundFromInside(g, v, hdr, p, end);
      WriteHeader(hdr, p);
    }
  }

  // ---------------------------------------------------------------- a file that gets lost

  lemma StrandingImage(f: Flash)
    requires Stranding(f) && f[PAGES_PER_SECTOR] == ERASED
    ensures Tiled(f)
    ensures var g := GcImage(f, Greedy, SECTOR_COUNT);
      && g[0] == f[0] && g[1] == f[1]
      && forall k :: PAGES_PER_SECTOR <= k < PAGE_COUNT ==> g[k] == ERASED
  {
    StrandingWalk(f);
    StrandingSectors(f);
    assert FirstErased(f, Greedy, SECTOR_COUNT, 1);
    NextFreeIs(f, Greedy, SECTOR_COUNT, PAGES_PER_SECTOR + 1, 1);
    forall k | 0 <= k < 2 ensures GcImage(f, Greedy, SECTOR_COUNT)[k] == f[k] {
      GcImageAt(f, Greedy, SECTOR_COUNT, k);
      GcBelowNextFree(f, Greedy, SECTOR_COUNT, PAGES_PER_SECTOR + 1, k);
    }
    forall k | PAGES_PER_SECTOR <= k < PAGE_COUNT ensures GcImage(f, Greedy, SECTOR_COUNT)[k] == ERASED {
      GcImageAt(f, Greedy, SECTOR_COUNT, k);
      StrandingPage(f, k);
    }
  }

  lemma StrandingPage(f: Flash, k: nat)
    requires Stranding(f) && f[PAGES_PER_SECTOR] == ERASED && PAGES_PER_SECTOR <= k < PAGE_COUNT
    requires Tiled(f) && Erasable(f, Greedy, 1) && Walk(f, 0, PAGES_PER_SECTOR + 1)
    requires SectorStart(1) == PAGES_PER_SECTOR
    ensures GcPage(f, Greedy, SECTOR_COUNT, k) == ERASED
  {
    var s := SectorOf(k, 0);
    if k == PAGES_PER_SECTOR {
      SectorOfPage(k, 1);
    } else {
      KindAfterWalk(f, 0, PAGES_PER_SECTOR + 1, k);
      KindOfFree(f, PAGES_PER_SECTOR + 1, k);
      if s <= SECTOR_COUNT && k < Carried(f, s) {
        CarriedKind(f, s, k);
      }
    }
  }

  lemma FitsErased(g: Flash, v: nat, amount: nat)
    requires v + amount < PAGE_COUNT && forall k :: v <= k < PAGE_COUNT ==> g[k] == ERASED
    ensures Fits(g, v, amount, v)
  {
    forall k | v <= k < v + amount ensures KindFrom(g, v, k) == Free {
      KindOfFree(g, v, k);
    }
  }

  /** What is written at the second page of the obsolete extent is erased by the next greedy pass. */
  lemma StrandedIsErased(g: Flash)
    requires Stranding(g)
    ensures Tiled(g) && !Walk(g, 0, PAGES_PER_SECTOR)
    ensures GcImage(g, Greedy, SECTOR_COUNT)[PAGES_PER_SECTOR] == ERASED
  {
    StrandingIsStranded(g);
    StrandingWalk(g);
    ErasedAt(g, Greedy, SECTOR_COUNT, 1);
  }

  /** A tiled flash with its next free page on the walk, from which a reservation is blind. */
  lemma StrandingIsBlind(f: Flash, v: nat)
    requires Stranding(f) && v == PAGES_PER_SECTOR && f[v] == ERASED
    ensures v + 1 < PAGE_COUNT && Tiled(f) && Walk(f, 0, v + 1)
    ensures Blind(f, v + 1, false, PAGE_COUNT - v - 1) && NextFreeAfter(f, Greedy, SECTOR_COUNT, v + 1) == v
  {
    SectorInFlash(1);
    assert SectorStart(0) == 0 && SectorStart(1) == v && SectorStart(2) == v + v;
    StrandingIsStranded(f);
    StrandingImage(f);
    FitsErased(GcImage(f, Greedy, SECTOR_COUNT), v, PAGE_COUNT - v - 1);
  }

  lemma StrandingAgain(f: Flash, hdr: Header)
    requires Stranding(f) && f[PAGES_PER_SECTOR] == ERASED
    ensures Tiled(f) && Stranding(Reserved(GcImage(f, Greedy, SECTOR_COUNT), PAGES_PER_SECTOR, hdr))
  {
    StrandingImage(f);
  }

  /** A blind reservation: the walk does not visit the new file, and the next greedy pass erases it. */
  lemma BlindReservationIsLost(hdr: Header)
    requires PAGES_PER_SECTOR >= 2 && SECTOR_COUNT >= 2
    ensures var f, v := StrandingFlash(), PAGES_PER_SECTOR;
      && v + 1 < PAGE_COUNT && Tiled(f) && Walk(f, 0, v + 1) && Blind(f, v + 1, false, PAGE_COUNT - v - 1)
      && NextFreeAfter(f, Greedy, SECTOR_COUNT, v + 1) == v
    ensures var g := Reserved(GcImage(StrandingFlash(), Greedy, SECTOR_COUNT), PAGES_PER_SECTOR, hdr);
      && Tiled(g) && !Walk(g, 0, PAGES_PER_SECTOR)
      && GcImage(g, Greedy, SECTOR_COUNT)[PAGES_PER_SECTOR] == ERASED
  {
    StrandingIsBlind(StrandingFlash(), PAGES_PER_SECTOR);
    StrandingAgain(StrandingFlash(), hdr);
    StrandedIsErased(Reserved(GcImage(StrandingFlash(), Greedy, SECTOR_COUNT), PAGES_PER_SECTOR, hdr));
  }
}
