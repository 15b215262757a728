/**
 The page layout of the Coffee file system: headers, the walk from one extent to the next, and which
 pages a walk says are active, obsolete or free. All sizes are configuration constants.
 */
module CoffeeLayout {
  import opened Bytes

  type Positive = n: nat | n >= 1 witness 1

  const PAGES_PER_SECTOR: Positive

  /** Pages are numbered in a signed 16-bit type. */
  type SectorCount = n: nat | SectorStart(n) <= 32767 witness 0

  const SECTOR_COUNT: SectorCount
  const PAGE_COUNT: nat := SectorStart(SECTOR_COUNT)

  datatype Header = Header(
    logPage: nat, logRecords: nat, logRecordSize: nat, maxPages: nat,
    validFlag: bool, allocatedFlag: bool, obsoleteFlag: bool, modifiedFlag: bool, logFlag: bool, isolatedFlag: bool,
    name: string)
  {
    predicate Active() { allocatedFlag && !obsoleteFlag && !isolatedFlag }

    predicate Free() { !allocatedFlag }
  }

  const ZERO_HEADER: Header := Header(0, 0, 0, 0, false, false, false, false, false, false, "")

  /** The header that `isolate_pages` writes; `write_header` marks it as completely written. */
  const ISOLATED_HEADER: Header := ZERO_HEADER.(allocatedFlag := true, isolatedFlag := true, validFlag := true)

  /** A page: the header that is stored at its start, or would be read there, and its other bytes. */
  datatype Page = Page(hdr: Header, body: seq<Byte>)

  const BODY_SIZE: nat
  const ERASED: Page := Page(ZERO_HEADER, ZeroBytes(BODY_SIZE))

  function ZeroBytes(n: nat): (z: seq<Byte>)
    ensures |z| == n && forall i :: 0 <= i < n ==> z[i] == 0
  {
    seq(n, _ => 0)
  }

  function ErasedPages(n: nat): (f: seq<Page>)
    ensures |f| == n
  {
    seq(n, _ => ERASED)
  }

  type Flash = f: seq<Page> | |f| == PAGE_COUNT witness ErasedPages(PAGE_COUNT)

  function SectorStart(s: nat): nat {
    if s == 0 then 0 else SectorStart(s - 1) + PAGES_PER_SECTOR
  }

  /** The sector that holds `page`, counting from a sector at or before it. */
  function SectorOf(page: nat, from: nat): (s: nat)
    requires SectorStart(from) <= page
    ensures SectorStart(s) <= page < SectorStart(s + 1)
    decreases page - SectorStart(from)
  {
    if page < SectorStart(from + 1) then from else SectorOf(page, from + 1)
  }

  /** The start of the sector after the one that holds `page`. */
  function NextSector(page: nat): (q: nat)
    ensures page < q <= page + PAGES_PER_SECTOR
  {
    SectorStart(SectorOf(page, 0) + 1)
  }

  /** The next sector starts no later than any sector after `page`. */
  lemma NextSectorAtMost(page: nat, t: nat)
    requires page < SectorStart(t)
    ensures NextSector(page) <= SectorStart(t)
  {
    SectorApart(SectorOf(page, 0), t, page);
  }

  lemma {:induction false} SectorStartMonotone(s: nat, t: nat)
    requires s <= t
    ensures SectorStart(s) <= SectorStart(t) && (s < t ==> SectorStart(s) + PAGES_PER_SECTOR <= SectorStart(t))
    decreases t
  {
    if s < t {
      SectorStartMonotone(s, t - 1);
    }
  }

  lemma SectorApart(s: nat, t: nat, page: nat)
    requires SectorStart(s) <= page < SectorStart(t)
    ensures s + 1 <= t && SectorStart(s + 1) <= SectorStart(t)
  {
    if s + 1 <= t {
      SectorStartMonotone(s + 1, t);
    } else {
      SectorStartMonotone(t, s);
    }
  }

  /** Where the walk goes after the header at `page`: past free space, one isolated page, or an extent. */
  function NextFile(page: nat, hdr: Header): nat {
    if hdr.Free() then NextSector(page)
    else if hdr.isolatedFlag then page + 1
    else page + hdr.maxPages
  }

  /** A step of the walk makes progress, stays inside storage, and skips only erased pages when it skips free space. */
  ghost predicate Step(f: Flash, p: nat) {
    && p < PAGE_COUNT && p < NextFile(p, f[p].hdr) <= PAGE_COUNT
    && (f[p].hdr.Free() ==> forall k :: p <= k < NextFile(p, f[p].hdr) ==> f[k] == ERASED)
  }

  /** The walk from `p` arrives at `q`. */
  ghost predicate Walk(f: Flash, p: nat, q: nat)
    decreases PAGE_COUNT - p
  {
    p == q || (p < q && Step(f, p) && NextFile(p, f[p].hdr) <= q && Walk(f, NextFile(p, f[p].hdr), q))
  }

  ghost predicate Tiled(f: Flash) {
    Walk(f, 0, PAGE_COUNT)
  }

  lemma {:induction false} WalkTransitive(f: Flash, p: nat, q: nat, r: nat)
    requires Walk(f, p, q) && Walk(f, q, r)
    ensures Walk(f, p, r)
    decreases PAGE_COUNT - p
  {
    if p < q {
      WalkTransitive(f, NextFile(p, f[p].hdr), q, r);
    }
  }

  /** The walk visits its places in order. */
  lemma {:induction false} WalkSplits(f: Flash, p: nat, q: nat, r: nat)
    requires Walk(f, p, q) && Walk(f, p, r) && q <= r
    ensures Walk(f, q, r)
    decreases PAGE_COUNT - p
  {
    if p < q {
      WalkSplits(f, NextFile(p, f[p].hdr), q, r);
    }
  }

  /** No place strictly inside an extent is visited. */
  lemma WalkJumps(f: Flash, p: nat, h: nat, x: nat)
    requires Walk(f, p, h) && Step(f, h) && h < x < NextFile(h, f[h].hdr)
    ensures !Walk(f, p, x)
  {
    if Walk(f, p, x) {
      WalkSplits(f, p, h, x);
    }
  }

  lemma {:induction false} WalkFrame(f: Flash, f': Flash, p: nat, q: nat)
    requires Walk(f, p, q) && q <= PAGE_COUNT && forall k :: p <= k < q ==> f'[k] == f[k]
    ensures Walk(f', p, q)
    decreases PAGE_COUNT - p
  {
    if p < q {
      WalkFrame(f, f', NextFile(p, f[p].hdr), q);
    }
  }

  lemma {:induction false} WalkBounded(f: Flash, p: nat, q: nat)
    requires Walk(f, p, q) && p <= PAGE_COUNT
    ensures p <= q <= PAGE_COUNT
    decreases PAGE_COUNT - p
  {
    if p < q {
      WalkBounded(f, NextFile(p, f[p].hdr), q);
    }
  }

  datatype Kind = Active | Obsolete | Free

  function KindOf(hdr: Header): Kind {
    if hdr.Active() then Active else if hdr.Free() then Free else Obsolete
  }

  /** What a walk from `p` says about page `pg`: the kind of the extent or free stretch that holds it. */
  ghost function KindFrom(f: Flash, p: nat, pg: nat): Kind
    requires p <= pg < PAGE_COUNT
    decreases PAGE_COUNT - p
  {
    var q := NextFile(p, f[p].hdr);
    if pg < q || q <= p then KindOf(f[p].hdr) else KindFrom(f, q, pg)
  }

  lemma {:induction false} KindAfterWalk(f: Flash, p: nat, q: nat, pg: nat)
    requires Walk(f, p, q) && q <= pg < PAGE_COUNT
    ensures p <= pg && KindFrom(f, p, pg) == KindFrom(f, q, pg)
    decreases PAGE_COUNT - p
  {
    if p < q {
      KindAfterWalk(f, NextFile(p, f[p].hdr), q, pg);
    }
  }

  /** All pages of one extent or free stretch are of its kind. */
  lemma KindInExtent(f: Flash, h: nat, pg: nat)
    requires Walk(f, 0, h) && Step(f, h) && h <= pg < NextFile(h, f[h].hdr)
    ensures KindFrom(f, 0, pg) == KindOf(f[h].hdr)
  {
    KindAfterWalk(f, 0, h, pg);
  }

  /** The starts of the active extents that a walk visits, in order. */
  ghost function ActiveStarts(f: Flash, p: nat, q: nat): seq<nat>
    requires Walk(f, p, q)
    decreases PAGE_COUNT - p
  {
    if p == q then []
    else (if f[p].hdr.Active() then [p] else []) + ActiveStarts(f, NextFile(p, f[p].hdr), q)
  }

  lemma {:induction false} ActiveStartsTransitive(f: Flash, p: nat, q: nat, r: nat)
    requires Walk(f, p, q) && Walk(f, q, r)
    ensures Walk(f, p, r) && ActiveStarts(f, p, r) == ActiveStarts(f, p, q) + ActiveStarts(f, q, r)
    decreases PAGE_COUNT - p
  {
    WalkTransitive(f, p, q, r);
    if p < q {
      var n := NextFile(p, f[p].hdr);
      var first := if f[p].hdr.Active() then [p] else [];
      ActiveStartsTransitive(f, n, q, r);
      assert ActiveStarts(f, p, r) == first + ActiveStarts(f, n, r);
      assert first + (ActiveStarts(f, n, q) + ActiveStarts(f, q, r)) ==
        (first + ActiveStarts(f, n, q)) + ActiveStarts(f, q, r);
    }
  }

  lemma {:induction false} ActiveStartsFrame(f: Flash, f': Flash, p: nat, q: nat)
    requires Walk(f, p, q) && q <= PAGE_COUNT && forall k :: p <= k < q ==> f'[k] == f[k]
    ensures Walk(f', p, q) && ActiveStarts(f', p, q) == ActiveStarts(f, p, q)
    decreases PAGE_COUNT - p
  {
    WalkFrame(f, f', p, q);
    if p < q {
      ActiveStartsFrame(f, f', NextFile(p, f[p].hdr), q);
    }
  }

  /** A walk over pages of which none is active visits no active extent. */
  lemma {:induction false} NoActiveStarts(f: Flash, p: nat, q: nat)
    requires Walk(f, 0, p) && Walk(f, p, q)
    requires forall k :: p <= k < q && k < PAGE_COUNT && Walk(f, p, k) ==> KindFrom(f, 0, k) != Active
    ensures ActiveStarts(f, p, q) == []
    decreases PAGE_COUNT - p
  {
    if p < q {
      var n := NextFile(p, f[p].hdr);
      KindInExtent(f, p, p);
      WalkTransitive(f, 0, p, n);
      NoActiveStarts(f, n, q);
    }
  }

  /** The first place at or after `x` that a walk from `p` visits. */
  ghost function FirstVisited(f: Flash, p: nat, x: nat): (q: nat)
    requires p <= PAGE_COUNT && x <= PAGE_COUNT && Walk(f, p, PAGE_COUNT)
    ensures x <= q <= PAGE_COUNT && p <= q && Walk(f, p, q) && Walk(f, q, PAGE_COUNT)
    decreases PAGE_COUNT - p
  {
    if x <= p then p else FirstVisited(f, NextFile(p, f[p].hdr), x)
  }

  lemma {:induction false} FirstVisitedIsFirst(f: Flash, p: nat, x: nat, k: nat)
    requires p <= PAGE_COUNT && x <= PAGE_COUNT && Walk(f, p, PAGE_COUNT)
    requires p <= k && x <= k && Walk(f, p, k)
    ensures FirstVisited(f, p, x) <= k
    decreases PAGE_COUNT - p
  {
    if p < x {
      FirstVisitedIsFirst(f, NextFile(p, f[p].hdr), x, k);
    }
  }

  /** The walk arrives at `x`, or jumps over it inside one extent that is neither free nor isolated. */
  lemma {:induction false} VisitedOrJumped(f: Flash, p: nat, s: nat, x: nat) returns (h: nat)
    requires p <= x <= PAGE_COUNT && Walk(f, p, PAGE_COUNT) && x == SectorStart(s)
    ensures Walk(f, p, x) ||
      (h < x && Walk(f, p, h) && Step(f, h) && x < NextFile(h, f[h].hdr) && !f[h].hdr.Free() &&
      !f[h].hdr.isolatedFlag)
    ensures Walk(f, p, x) ==> FirstVisited(f, p, x) == x
    ensures !Walk(f, p, x) ==> FirstVisited(f, p, x) == NextFile(h, f[h].hdr)
    decreases PAGE_COUNT - p
  {
    h := p;
    if p < x {
      var n := NextFile(p, f[p].hdr);
      if n <= x {
        h := VisitedOrJumped(f, n, s, x);
      } else {
        NextSectorAtMost(p, s);
      }
    }
  }
}
