/**
 The files of a flash: what the page layout looks like to the operations on files. A pass of the garbage collector does
 not change the files, a reservation adds one empty extent unless it is blind, and changes to one extent are seen as
 changes to that extent only.
 */
module CoffeeDisk {
  import opened Bytes
  import opened Wrappers
  import opened PowersOfTwo
  import opened CoffeeLayout
  import opened CoffeeLog
  import opened CoffeeGc
  import opened CoffeeAlloc
  import opened CoffeeStorage
  import opened CoffeeFiles
  import opened CoffeeUpdates

  const NAME_LENGTH: nat

  // ---------------------------------------------------------------- bytes of pages

  function Flag(raised: bool, weight: Byte): Byte {
    if raised then weight else 0
  }

  function Flags(hdr: Header): Byte {
    Flag(hdr.validFlag, 1) + Flag(hdr.allocatedFlag, 2) + Flag(hdr.obsoleteFlag, 4) + Flag(hdr.modifiedFlag, 8) +
    Flag(hdr.logFlag, 16) + Flag(hdr.isolatedFlag, 32)
  }

  function NameBytes(name: string, n: nat): (b: seq<Byte>)
    ensures |b| == n
  {
    seq(n, i requires 0 <= i < n => if i < |name| then name[i] as int % 256 else 0)
  }

  function NumberBytes(hdr: Header): (b: seq<Byte>)
    ensures |b| == 8
  {
    U16Bytes(hdr.logPage % 65536) + U16Bytes(hdr.logRecords % 65536) + U16Bytes(hdr.logRecordSize % 65536) +
    U16Bytes(hdr.maxPages % 65536)
  }

  /** The header as it is stored. */
  function HeaderBytes(hdr: Header): (b: seq<Byte>)
    ensures |b| == 10 + NAME_LENGTH
  {
    NumberBytes(hdr) + [0, Flags(hdr)] + NameBytes(hdr.name, NAME_LENGTH)
  }

  function PageBytes(page: Page): seq<Byte> {
    HeaderBytes(page.hdr) + page.body
  }

  predicate AllZero(s: seq<Byte>) {
    forall i :: 0 <= i < |s| ==> s[i] == 0
  }

  lemma ZeroJoined(s: seq<Byte>, t: seq<Byte>)
    requires AllZero(s) && AllZero(t)
    ensures AllZero(s + t)
  {
  }

  lemma ZeroIs(s: seq<Byte>, n: nat)
    requires AllZero(s) && |s| == n
    ensures s == ZeroBytes(n)
  {
  }

  lemma ZeroNumbers()
    ensures AllZero(NumberBytes(ZERO_HEADER))
  {
  }

  lemma ErasedBytes()
    ensures AllZero(PageBytes(ERASED))
  {
    ZeroNumbers();
    ZeroJoined(NumberBytes(ZERO_HEADER), [0, 0]);
    ZeroJoined(NumberBytes(ZERO_HEADER) + [0, 0], NameBytes("", NAME_LENGTH));
    ZeroJoined(HeaderBytes(ZERO_HEADER), ERASED.body);
  }

  /** The sizes agree: a page holds a header, and all pages are of one size. */
  ghost predicate Sized(f: Flash) {
    && HDR_SIZE == 10 + NAME_LENGTH && PAGE_SIZE == HDR_SIZE + BODY_SIZE
    && forall k :: 0 <= k < PAGE_COUNT ==> |f[k].body| == BODY_SIZE
  }

  /** The bytes of the first `n` of the pages `ps`. */
  ghost function Joined(ps: seq<Page>, n: nat): seq<Byte>
    requires n <= |ps|
  {
    if n == 0 then [] else Joined(ps, n - 1) + PageBytes(ps[n - 1])
  }

  /** The bytes behind the header of the extent that these pages are. */
  ghost function DataOf(ps: seq<Page>): seq<Byte>
    requires ps != []
  {
    ps[0].body + Joined(ps[1..], |ps| - 1)
  }

  lemma {:induction false} JoinedSize(ps: seq<Page>, n: nat, size: nat)
    requires n <= |ps| && size == 10 + NAME_LENGTH + BODY_SIZE && forall k :: 0 <= k < n ==> |ps[k].body| == BODY_SIZE
    ensures |Joined(ps, n)| == n * size
  {
    if n > 0 {
      JoinedSize(ps, n - 1, size);
      assert n * size == (n - 1) * size + size;
    }
  }

  lemma {:induction false} JoinedZero(ps: seq<Page>, n: nat)
    requires n <= |ps| && forall k :: 0 <= k < n ==> AllZero(PageBytes(ps[k]))
    ensures AllZero(Joined(ps, n))
  {
    if n > 0 {
      JoinedZero(ps, n - 1);
      ZeroJoined(Joined(ps, n - 1), PageBytes(ps[n - 1]));
    }
  }

  // ---------------------------------------------------------------- the files of a flash

  /** The extent at page `p` of `n` pages, with its header. */
  ghost function ExtentOf(ps: seq<Page>): Extent
    requires ps != []
  {
    var hdr := ps[0].hdr;
    Extent(hdr.name, |ps|, hdr.logFlag, hdr.modifiedFlag, hdr.logPage, hdr.logRecords, hdr.logRecordSize, DataOf(ps))
  }

  /** The walk visits an active extent at `p`. */
  ghost predicate HasExtent(f: Flash, p: int) {
    0 <= p < PAGE_COUNT && Walk(f, 0, p) && f[p].hdr.Active()
  }

  lemma ExtentInside(f: Flash, p: int)
    requires Tiled(f) && HasExtent(f, p)
    ensures Step(f, p) && 1 <= f[p].hdr.maxPages && p + f[p].hdr.maxPages <= PAGE_COUNT
    ensures NextFile(p, f[p].hdr) == p + f[p].hdr.maxPages
  {
    WalkSplits(f, 0, p, PAGE_COUNT);
  }

  ghost function PagesOf(f: Flash, p: int): (ps: seq<Page>)
    requires Tiled(f) && HasExtent(f, p)
    ensures ps != []
  {
    ExtentInside(f, p);
    f[p..p + f[p].hdr.maxPages]
  }

  /** The active extents that the walk visits. */
  ghost function DiskOf(f: Flash): Disk
    requires Tiled(f)
  {
    map p | 0 <= p < PAGE_COUNT && HasExtent(f, p) :: ExtentOf(PagesOf(f, p))
  }

  lemma {:induction false} ActiveStartsAre(f: Flash, p: nat, q: nat, x: nat)
    requires Walk(f, p, q) && q <= PAGE_COUNT
    ensures x in ActiveStarts(f, p, q) <==> p <= x < q && Walk(f, p, x) && f[x].hdr.Active()
    decreases PAGE_COUNT - p
  {
    if p < q {
      var n := NextFile(p, f[p].hdr);
      ActiveStartsAre(f, n, q, x);
      if p < x < n {
        WalkJumps(f, p, p, x);
      }
    }
  }

  /** What the walk visits is what it lists. */
  lemma Listed(f: Flash, p: int)
    requires Tiled(f)
    ensures HasExtent(f, p) <==> p in ActiveStarts(f, 0, PAGE_COUNT)
  {
    if 0 <= p {
      ActiveStartsAre(f, 0, PAGE_COUNT, p);
    } else {
      OnlyPages(f, 0, PAGE_COUNT);
    }
  }

  lemma {:induction false} OnlyPages(f: Flash, p: nat, q: nat)
    requires Walk(f, p, q)
    ensures forall x :: x in ActiveStarts(f, p, q) ==> x >= 0
  {
  }

  lemma DiskSize(f: Flash, p: int)
    requires Tiled(f) && Sized(f) && HasExtent(f, p)
    ensures |DiskOf(f)[p].data| == Room(DiskOf(f)[p].pages)
  {
    var ps := PagesOf(f, p);
    ExtentInside(f, p);
    JoinedSize(ps[1..], |ps| - 1, PAGE_SIZE);
    RoomIs(|ps|);
  }

  lemma RoomIs(n: nat)
    requires n >= 1 && PAGE_SIZE == HDR_SIZE + BODY_SIZE
    ensures Room(n) == BODY_SIZE + (n - 1) * PAGE_SIZE
  {
    assert n * PAGE_SIZE == (n - 1) * PAGE_SIZE + PAGE_SIZE;
  }

  // ---------------------------------------------------------------- what changes to the flash do to the files

  /** The pages of an active extent are active pages. */
  lemma ExtentKind(f: Flash, p: int, k: nat)
    requires Tiled(f) && HasExtent(f, p) && p <= k < p + f[p].hdr.maxPages
    ensures k < PAGE_COUNT && KindFrom(f, 0, k) == Active
  {
    ExtentInside(f, p);
    KindInExtent(f, p, k);
  }

  lemma SamePages(f: Flash, g: Flash, p: int)
    requires Tiled(f) && Tiled(g) && HasExtent(f, p) && HasExtent(g, p)
    requires forall k :: p <= k < p + f[p].hdr.maxPages && k < PAGE_COUNT ==> g[k] == f[k]
    ensures PagesOf(g, p) == PagesOf(f, p)
  {
    ExtentInside(f, p);
    ExtentInside(g, p);
  }

  lemma CollectionKeepsExtents(f: Flash, mode: Mode, p: int)
    requires Tiled(f) && Tiled(Collected(f, mode))
    ensures HasExtent(Collected(f, mode), p) <==> HasExtent(f, p)
  {
    GcIsSafe(f, mode, Limit(f, mode));
    Listed(f, p);
    Listed(Collected(f, mode), p);
  }

  lemma CollectionKeepsPages(f: Flash, mode: Mode, p: int)
    requires Tiled(f) && Tiled(Collected(f, mode)) && HasExtent(f, p)
    ensures HasExtent(Collected(f, mode), p) && PagesOf(Collected(f, mode), p) == PagesOf(f, p)
  {
    var g := Collected(f, mode);
    CollectionKeepsExtents(f, mode, p);
    GcIsSafe(f, mode, Limit(f, mode));
    forall k: nat | p <= k < p + f[p].hdr.maxPages ensures k < PAGE_COUNT && g[k] == f[k] {
      ExtentKind(f, p, k);
    }
    SamePages(f, g, p);
  }

  /** A pass of the garbage collector leaves every file and every log as it is. */
  lemma CollectionKeepsDisk(f: Flash, mode: Mode)
    requires Tiled(f)
    ensures Tiled(Collected(f, mode)) && DiskOf(Collected(f, mode)) == DiskOf(f)
  {
    GcIsSafe(f, mode, Limit(f, mode));
    forall p: int ensures HasExtent(Collected(f, mode), p) <==> HasExtent(f, p) {
      CollectionKeepsExtents(f, mode, p);
    }
    forall p: int | HasExtent(f, p) ensures PagesOf(Collected(f, mode), p) == PagesOf(f, p) {
      CollectionKeepsPages(f, mode, p);
    }
  }

  /** The sizes of a page agree. */
  ghost predicate SizesAgree() {
    HDR_SIZE == 10 + NAME_LENGTH && PAGE_SIZE == HDR_SIZE + BODY_SIZE
  }

  lemma ErasedJoined(ps: seq<Page>, n: nat)
    requires SizesAgree() && n <= |ps| && forall k :: 0 <= k < n ==> ps[k] == ERASED
    ensures AllZero(Joined(ps, n)) && |Joined(ps, n)| == n * PAGE_SIZE
  {
    ErasedBytes();
    JoinedZero(ps, n);
    JoinedSize(ps, n, PAGE_SIZE);
  }

  lemma FreshData(ps: seq<Page>)
    requires SizesAgree() && ps != [] && ps[0].body == ERASED.body && forall k :: 1 <= k < |ps| ==> ps[k] == ERASED
    ensures Room(|ps|) >= 0 && DataOf(ps) == ZeroBytes(Room(|ps|))
  {
    var rest := ps[1..];
    ErasedJoined(rest, |ps| - 1);
    RoomIs(|ps|);
    ZeroJoined(ps[0].body, Joined(rest, |ps| - 1));
    ZeroIs(ps[0].body + Joined(rest, |ps| - 1), Room(|ps|));
  }

  /** A header in front of erased pages makes an empty extent. */
  lemma FreshPages(ps: seq<Page>, name: string, log: bool)
    requires SizesAgree() && ps != [] && ps[0] == Page(NewHeader(name, |ps|, log), ERASED.body)
    requires forall k :: 1 <= k < |ps| ==> ps[k] == ERASED
    ensures Room(|ps|) >= 0 && ExtentOf(ps) == FreshExtent(name, |ps|, log)
  {
    FreshData(ps);
  }

  lemma ReservedPages(f: Flash, p: nat, name: string, amount: nat, log: bool)
    requires amount >= 1 && p + amount <= PAGE_COUNT && forall k :: p <= k < p + amount ==> f[k] == ERASED
    ensures var ps := Reserved(f, p, NewHeader(name, amount, log))[p..p + amount];
      && |ps| == amount && ps[0] == Page(NewHeader(name, amount, log), ERASED.body)
      && forall k :: 1 <= k < |ps| ==> ps[k] == ERASED
  {
  }

  lemma OneMoreHas(f: Flash, p: nat, g: Flash)
    requires OneMoreExtent(f, p, g)
    ensures forall q: int :: HasExtent(g, q) <==> HasExtent(f, q) || q == p
  {
    forall q: int ensures HasExtent(g, q) <==> HasExtent(f, q) || q == p {
      Listed(f, q);
      Listed(g, q);
    }
  }

  lemma OthersUntouched(f: Flash, p: nat, hdr: Header, q: int)
    requires p < PAGE_COUNT && Tiled(f) && Tiled(Reserved(f, p, hdr)) && Walk(f, 0, p) && f[p] == ERASED
    requires HasExtent(f, q) && HasExtent(Reserved(f, p, hdr), q)
    ensures PagesOf(Reserved(f, p, hdr), q) == PagesOf(f, q)
  {
    WalkSplits(f, 0, p, PAGE_COUNT);
    KindInExtent(f, p, p);
    if q <= p < q + f[q].hdr.maxPages {
      ExtentKind(f, q, p);
    }
    SamePages(f, Reserved(f, p, hdr), q);
  }

  /** A reservation that the walk visits adds one empty extent, and nothing else is different. */
  lemma ReservationAdds(f: Flash, p: nat, name: string, amount: nat, log: bool, g: Flash)
    requires SizesAgree() && amount >= 1 && p + amount <= PAGE_COUNT
    requires g == Reserved(f, p, NewHeader(name, amount, log)) && OneMoreExtent(f, p, g)
    requires forall k :: p <= k < p + amount ==> f[k] == ERASED
    ensures OneMore(DiskOf(f), DiskOf(g), p, name, amount, log)
  {
    OneMoreHas(f, p, g);
    forall q: int | HasExtent(f, q) ensures PagesOf(g, q) == PagesOf(f, q) {
      OthersUntouched(f, p, NewHeader(name, amount, log), q);
    }
    ReservedPages(f, p, name, amount, log);
    FreshPages(PagesOf(g, p), name, log);
    DisksAre(f, g, p);
  }

  lemma DisksAre(f: Flash, g: Flash, p: nat)
    requires Tiled(f) && Tiled(g) && HasExtent(g, p) && forall q: int :: HasExtent(g, q) <==> HasExtent(f, q) || q == p
    requires forall q: int :: HasExtent(f, q) && q != p ==> PagesOf(g, q) == PagesOf(f, q)
    ensures DiskOf(g) == DiskOf(f)[p := ExtentOf(PagesOf(g, p))]
  {
  }

  /** The header of the extent at `p` marked obsolete. */
  ghost function Obsoleted(f: Flash, p: nat): Flash
    requires p < PAGE_COUNT
  {
    f[p := Page(f[p].hdr.(obsoleteFlag := true), f[p].body)]
  }

  /** When only the pages of the extent at `p` differ, and its size does not, the walk goes the same way. */
  lemma {:induction false} SameWalk(f: Flash, g: Flash, p: nat, from: nat, q: nat)
    requires Tiled(f) && HasExtent(f, p) && Walk(f, 0, from) && q <= PAGE_COUNT
    requires forall k :: 0 <= k < PAGE_COUNT && !(p <= k < p + f[p].hdr.maxPages) ==> g[k] == f[k]
    requires NextFile(p, g[p].hdr) == NextFile(p, f[p].hdr) && !g[p].hdr.Free()
    ensures Walk(g, from, q) <==> Walk(f, from, q)
    decreases PAGE_COUNT - from
  {
    ExtentInside(f, p);
    if from < q {
      WalkBounded(f, 0, from);
      WalkSplits(f, 0, from, PAGE_COUNT);
      var n := NextFile(from, f[from].hdr);
      SameStep(f, g, p, from);
      assert Walk(f, n, n);
      WalkTransitive(f, 0, from, n);
      SameWalk(f, g, p, n, q);
    }
  }

  lemma SameStep(f: Flash, g: Flash, p: nat, from: nat)
    requires Tiled(f) && HasExtent(f, p) && Walk(f, 0, from) && Step(f, from)
    requires forall k :: 0 <= k < PAGE_COUNT && !(p <= k < p + f[p].hdr.maxPages) ==> g[k] == f[k]
    requires NextFile(p, g[p].hdr) == NextFile(p, f[p].hdr) && !g[p].hdr.Free()
    ensures Step(g, from) && NextFile(from, g[from].hdr) == NextFile(from, f[from].hdr)
  {
    ExtentInside(f, p);
    if from != p {
      forall k | from <= k < NextFile(from, f[from].hdr) ensures g[k] == f[k] {
        ApartExtents(f, p, from, k);
      }
    }
  }

  /** Two places that the walk visits share no page. */
  lemma ApartExtents(f: Flash, p: nat, h: nat, k: nat)
    requires Tiled(f) && HasExtent(f, p) && Walk(f, 0, h) && Step(f, h) && h != p
    requires h <= k < NextFile(h, f[h].hdr)
    ensures !(p <= k < p + f[p].hdr.maxPages)
  {
    ExtentInside(f, p);
    if h < p < NextFile(h, f[h].hdr) {
      WalkJumps(f, 0, h, p);
    }
    if p < h < p + f[p].hdr.maxPages {
      WalkJumps(f, 0, p, h);
    }
  }

  /** Marking an extent obsolete removes it, and nothing else is different. */
  lemma ObsoleteDrops(f: Flash, p: nat)
    requires Tiled(f) && HasExtent(f, p)
    ensures Tiled(Obsoleted(f, p)) && DiskOf(Obsoleted(f, p)) == Without(DiskOf(f), {p})
  {
    var g := Obsoleted(f, p);
    ExtentInside(f, p);
    SameWalk(f, g, p, 0, PAGE_COUNT);
    OthersSame(f, g, p);
  }

  lemma OthersSame(f: Flash, g: Flash, p: nat)
    requires Tiled(f) && HasExtent(f, p) && Tiled(g)
    requires forall k :: 0 <= k < PAGE_COUNT && !(p <= k < p + f[p].hdr.maxPages) ==> g[k] == f[k]
    requires NextFile(p, g[p].hdr) == NextFile(p, f[p].hdr) && !g[p].hdr.Free()
    ensures HasExtent(g, p) <==> g[p].hdr.Active()
    ensures forall q: int :: q != p ==> (HasExtent(g, q) <==> HasExtent(f, q))
    ensures forall q: int :: q != p && HasExtent(f, q) ==> HasExtent(g, q) && PagesOf(g, q) == PagesOf(f, q)
  {
    SameWalk(f, g, p, 0, p);
    forall q: int | q != p ensures HasExtent(g, q) <==> HasExtent(f, q) {
      if 0 <= q < PAGE_COUNT {
        SameWalk(f, g, p, 0, q);
        if Walk(f, 0, q) {
          WalkSplits(f, 0, q, PAGE_COUNT);
          ApartExtents(f, p, q, q);
        }
      }
    }
    forall q: int | q != p && HasExtent(f, q) ensures PagesOf(g, q) == PagesOf(f, q) {
      ExtentInside(f, q);
      forall k: nat | q <= k < q + f[q].hdr.maxPages ensures g[k] == f[k] {
        ApartExtents(f, p, q, k);
      }
      SamePages(f, g, q);
    }
  }

  /** Writing to the pages of an extent, its header included, changes that extent alone. */
  lemma RewriteChangesOne(f: Flash, p: nat, g: Flash)
    requires Tiled(f) && HasExtent(f, p) && g[p].hdr.Active() && g[p].hdr.maxPages == f[p].hdr.maxPages
    requires forall k :: 0 <= k < PAGE_COUNT && !(p <= k < p + f[p].hdr.maxPages) ==> g[k] == f[k]
    ensures Tiled(g) && HasExtent(g, p) && DiskOf(g) == DiskOf(f)[p := ExtentOf(PagesOf(g, p))]
  {
    ExtentInside(f, p);
    SameWalk(f, g, p, 0, PAGE_COUNT);
    OthersSame(f, g, p);
  }

  // ---------------------------------------------------------------- the storage refines the operations on files

  /**
   Reserving on the storage is what reserving a file assumes: one new empty extent, or no change. It fails to be so
   exactly when the reservation is blind.
   */
  method ReserveExtent(storage: Storage, name: string, pages: nat, isLog: bool) returns (r: Option<nat>)
    requires SizesAgree() && pages >= 1
    requires storage.Valid() && Tiled(storage.pages[..]) && Walk(storage.pages[..], 0, storage.nextFree)
    modifies storage, storage.pages
    ensures storage.Valid() && Tiled(storage.pages[..])
    ensures r.None? ==> DiskOf(storage.pages[..]) == old(DiskOf(storage.pages[..]))
    ensures r.Some? ==>
      (OneMore(old(DiskOf(storage.pages[..])), DiskOf(storage.pages[..]), r.value, name, pages, isLog) <==>
       !old(Blind(storage.pages[..], storage.nextFree, storage.gcWait, pages)))
    ensures !old(Strands(storage.pages[..], storage.nextFree, storage.gcWait, pages)) ==>
      Walk(storage.pages[..], 0, storage.nextFree)
  {
    ghost var f: Flash := storage.pages[..];
    ghost var base: Flash := Searchable(f, storage.nextFree, storage.gcWait, pages);
    r := storage.Reserve(name, pages, isLog);
    SearchableKeepsDisk(f, old(storage.nextFree), old(storage.gcWait), pages);
    if r.Some? {
      ReservationRefines(base, r.value, name, pages, isLog, storage.pages[..]);
    }
  }

  lemma SearchableKeepsDisk(f: Flash, nextFree: nat, gcWait: bool, amount: nat)
    requires Tiled(f)
    ensures var base := Searchable(f, nextFree, gcWait, amount);
      Tiled(base) && DiskOf(base) == DiskOf(f)
  {
    CollectionKeepsDisk(f, Greedy);
  }

  /** A header at `p` gives one more extent exactly when the walk visits it. */
  lemma ReservationRefines(f: Flash, p: nat, name: string, amount: nat, log: bool, g: Flash)
    requires SizesAgree() && amount >= 1 && ReserveResult(f, NewHeader(name, amount, log), Some(p), g)
    ensures Tiled(f) && Tiled(g)
    ensures OneMore(DiskOf(f), DiskOf(g), p, name, amount, log) <==> OneMoreExtent(f, p, g)
  {
    if OneMoreExtent(f, p, g) {
      ReservationAdds(f, p, name, amount, log, g);
    } else {
      assert !HasExtent(g, p);
      assert p !in DiskOf(g);
    }
  }

  /** A pass on the storage is not noticed by the operations on files. */
  method CollectUnseen(storage: Storage, mode: Mode)
    requires storage.Valid() && Tiled(storage.pages[..])
    modifies storage, storage.pages
    ensures storage.Valid() && Tiled(storage.pages[..])
    ensures DiskOf(storage.pages[..]) == old(DiskOf(storage.pages[..]))
  {
    CollectionKeepsDisk(storage.pages[..], mode);
    storage.CollectGarbage(mode);
  }
}
