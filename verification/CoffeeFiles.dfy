/**
 The state of Coffee above the page layout: the active extents, the cached file objects and the open
 descriptors, what a descriptor sees of its file, and how single updates of the state preserve that.
 */
module CoffeeFiles {
  import opened Bytes
  import opened Wrappers
  import opened PowersOfTwo
  import opened CoffeeLayout
  import opened CoffeeLog

  const PAGE_SIZE: Positive
  const HDR_SIZE: Positive
  const DYN_SIZE: nat
  const LOG_TABLE_LIMIT: Positive
  const MAX_OPEN_FILES: nat
  const FD_SET_SIZE: nat

  /** A log of the default configuration has between one record and as many as one batch can read. */
  type LogSize = n: nat | 1 <= n / PAGE_SIZE <= LOG_TABLE_LIMIT witness PAGE_SIZE

  const LOG_SIZE: LogSize

  /** An active extent: its header and the bytes after the header. */
  datatype Extent = Extent(name: string, pages: nat, log: bool, modified: bool, logPage: int, logRecords: nat,
    logRecordSize: nat, data: seq<Byte>)

  /** The active extents by their first pages. */
  type Disk = map<int, Extent>

  const INVALID_PAGE: int := -1
  const UNKNOWN_OFFSET: int := -1

  datatype File = File(end: int, page: int, maxPages: nat, recordCount: int, references: int, modified: bool)

  datatype Fd = Fd(offset: nat, file: Option<nat>, read: bool, write: bool, append: bool)
  {
    predicate Free() { !read && !write && !append }

    predicate Uses(s: nat) { !Free() && file == Some(s) }
  }

  /** What the holder of a descriptor can observe. */
  datatype Handle = Closed | Open(name: string, view: seq<Byte>, offset: nat, read: bool, write: bool, append: bool)

  // ---------------------------------------------------------------- extents

  function Size(e: Extent): Positive {
    if e.logRecordSize == 0 then PAGE_SIZE else e.logRecordSize
  }

  function Records(e: Extent): nat {
    if e.logRecords == 0 then LOG_SIZE / Size(e) else e.logRecords
  }

  /** The bytes of an extent that come after its header. */
  function Room(pages: nat): int {
    pages * PAGE_SIZE - HDR_SIZE
  }

  function PageCount(size: nat): nat {
    (size + HDR_SIZE + PAGE_SIZE - 1) / PAGE_SIZE
  }

  lemma PageCountHolds(size: nat)
    ensures Room(PageCount(size)) >= size && PageCount(size) >= 1
  {
    var a := size + HDR_SIZE + PAGE_SIZE - 1;
    DivMod(a, PAGE_SIZE);
    MulMonotone(PAGE_SIZE, PageCount(size), 0);
  }

  /** The pages that are asked for are just enough. */
  lemma PageCountIff(size: nat, pages: nat)
    ensures pages >= PageCount(size) <==> pages * PAGE_SIZE >= HDR_SIZE + size
  {
    var a := size + HDR_SIZE + PAGE_SIZE - 1;
    DivMod(a, PAGE_SIZE);
    MulMonotone(PAGE_SIZE, pages, PageCount(size));
    MulMonotone(PAGE_SIZE, PageCount(size), pages + 1);
    MulMonotone(PAGE_SIZE, PageCount(size), pages);
  }

  lemma RoomMonotone(p: nat, q: nat)
    requires p <= q
    ensures Room(p) <= Room(q)
  {
    MulMonotone(PAGE_SIZE, p, q);
  }

  /** Every region of the flash has a number that fits an entry of the index table. */
  ghost predicate RegionsFit(e: Extent) {
    Room(PAGE_COUNT) <= 65535 * Size(e)
  }

  lemma RegionFits(e: Extent, i: nat)
    requires RegionsFit(e) && i < Room(PAGE_COUNT)
    ensures i / Size(e) < 65535
  {
    DivMod(i, Size(e));
    if i / Size(e) >= 65535 {
      MulMonotone(Size(e), 65535, i / Size(e));
    }
  }

  lemma DefaultRegionsFit(e: Extent)
    requires Size(e) == PAGE_SIZE
    ensures RegionsFit(e)
  {
    MulMonotone(PAGE_SIZE, PAGE_COUNT, 65535);
  }

  ghost predicate LogOk(disk: Disk, e: Extent) {
    && e.logPage in disk && disk[e.logPage].log
    && LogFits(disk[e.logPage].data, Records(e), Size(e))
    && exists c: nat :: LogCount(disk[e.logPage].data, Records(e), c)
  }

  ghost predicate ExtentOk(disk: Disk, e: Extent) {
    && 1 <= e.pages <= PAGE_COUNT && |e.data| == Room(e.pages)
    && (e.log ==> !e.modified)
    && (!e.log ==> 1 <= Records(e) <= LOG_TABLE_LIMIT && RegionsFit(e))
    && (e.modified ==> LogOk(disk, e))
  }

  ghost predicate DiskOk(disk: Disk) {
    && (forall p :: p in disk ==> 0 <= p < PAGE_COUNT && ExtentOk(disk, disk[p]))
    && (forall p, q :: p in disk && q in disk && p != q && disk[p].modified && disk[q].modified ==>
      disk[p].logPage != disk[q].logPage)
  }

  /** The bytes of the file of extent `e`. */
  ghost function Content(disk: Disk, e: Extent): (c: seq<Byte>)
    ensures |c| == |e.data|
  {
    if e.modified && LogOk(disk, e) then LoggedBytes(e.data, disk[e.logPage].data, Records(e), Size(e)) else e.data
  }

  // ---------------------------------------------------------------- file objects and descriptors

  ghost predicate SlotOk(disk: Disk, f: File) {
    f.maxPages > 0 ==>
      && f.page in disk && disk[f.page].pages == f.maxPages && disk[f.page].modified == f.modified
      && UNKNOWN_OFFSET <= f.end <= |disk[f.page].data|
      && f.recordCount >= -1
      && (f.recordCount >= 0 ==>
        f.modified && LogOk(disk, disk[f.page]) &&
        LogCount(disk[disk[f.page].logPage].data, Records(disk[f.page]), f.recordCount))
  }

  ghost predicate SlotsOk(disk: Disk, files: seq<File>) {
    && |files| == MAX_OPEN_FILES
    && (forall i :: 0 <= i < |files| ==> SlotOk(disk, files[i]))
    && (forall i, j ::
      0 <= i < |files| && 0 <= j < |files| && i != j && files[i].maxPages > 0 && files[j].maxPages > 0 ==>
      files[i].page != files[j].page)
  }

  /** The name of the file in a slot; logs and free slots have none. */
  ghost function SlotName(disk: Disk, f: File): Option<string> {
    if f.maxPages > 0 && f.page in disk && !disk[f.page].log then Some(disk[f.page].name) else None
  }

  ghost predicate Holds(disk: Disk, files: seq<File>, i: nat, name: string) {
    i < |files| && SlotName(disk, files[i]) == Some(name)
  }

  /** No file is cached twice. */
  ghost predicate NamesDistinct(disk: Disk, files: seq<File>) {
    forall i, j ::
      (0 <= i < |files| && 0 <= j < |files| && SlotName(disk, files[i]).Some? &&
       SlotName(disk, files[i]) == SlotName(disk, files[j])) ==> i == j
  }

  /** No file is cached twice, apart from slot `t`. */
  ghost predicate OtherNames(disk: Disk, files: seq<File>, t: nat) {
    forall i, j ::
      0 <= i < |files| && 0 <= j < |files| && i != t && j != t && i != j && SlotName(disk, files[i]).Some? ==>
      SlotName(disk, files[i]) != SlotName(disk, files[j])
  }

  ghost predicate FdOk(disk: Disk, files: seq<File>, d: Fd) {
    && (d.file.Some? ==> d.file.value < |files|)
    && (!d.Free() ==>
      && d.file.Some?
      && var f := files[d.file.value];
      f.maxPages > 0 && f.page in disk && !disk[f.page].log && d.offset <= f.end <= |disk[f.page].data|)
  }

  ghost predicate FdsOk(disk: Disk, files: seq<File>, fds: seq<Fd>) {
    |fds| == FD_SET_SIZE && forall i :: 0 <= i < |fds| ==> FdOk(disk, files, fds[i])
  }

  /** The number of open descriptors of slot `s`. */
  ghost function Refs(fds: seq<Fd>, s: nat): nat {
    if fds == [] then 0 else Refs(fds[..|fds| - 1], s) + if fds[|fds| - 1].Uses(s) then 1 else 0
  }

  ghost predicate RefsOk(files: seq<File>, fds: seq<Fd>) {
    forall s :: 0 <= s < |files| ==> files[s].references == Refs(fds, s)
  }

  ghost predicate Consistent(disk: Disk, files: seq<File>, fds: seq<Fd>) {
    DiskOk(disk) && SlotsOk(disk, files) && FdsOk(disk, files, fds) && RefsOk(files, fds)
  }

  /** `Consistent`, where it is only passed on. */
  ghost predicate Sealed(seal: nat, disk: Disk, files: seq<File>, fds: seq<Fd>) {
    if seal == 0 then Consistent(disk, files, fds) else Sealed(seal - 1, disk, files, fds)
  }

  lemma {:induction false} SealedMeans(seal: nat, disk: Disk, files: seq<File>, fds: seq<Fd>)
    ensures Sealed(seal, disk, files, fds) <==> Consistent(disk, files, fds)
  {
    if seal > 0 {
      SealedMeans(seal - 1, disk, files, fds);
    }
  }

  /** File objects and descriptors point to something. */
  ghost predicate Linked(disk: Disk, files: seq<File>, fds: seq<Fd>) {
    && |files| == MAX_OPEN_FILES && |fds| == FD_SET_SIZE
    && (forall i :: 0 <= i < |files| && files[i].maxPages > 0 ==> files[i].page in disk)
    && (forall k :: 0 <= k < |fds| && fds[k].file.Some? ==> fds[k].file.value < |files|)
    && (forall k :: 0 <= k < |fds| && !fds[k].Free() ==> fds[k].file.Some?)
  }

  ghost predicate Core(disk: Disk, files: seq<File>, fds: seq<Fd>) {
    Sealed(SEAL, disk, files, fds) && Linked(disk, files, fds)
  }

  lemma CoreMeans(disk: Disk, files: seq<File>, fds: seq<Fd>)
    ensures Core(disk, files, fds) <==> Consistent(disk, files, fds)
  {
    SealedMeans(SEAL, disk, files, fds);
    if Consistent(disk, files, fds) {
      assert forall i :: 0 <= i < |files| ==> SlotOk(disk, files[i]);
      assert forall k :: 0 <= k < |fds| ==> FdOk(disk, files, fds[k]);
    }
  }

  /** What consistency says about one descriptor, one file object and the extents. */
  lemma FdFine(disk: Disk, files: seq<File>, fds: seq<Fd>, k: nat)
    requires Core(disk, files, fds) && k < |fds|
    ensures FdOk(disk, files, fds[k])
  {
    CoreMeans(disk, files, fds);

  }

  lemma SlotFine(disk: Disk, files: seq<File>, fds: seq<Fd>, i: nat)
    requires Core(disk, files, fds) && i < |files|
    ensures SlotOk(disk, files[i]) && files[i].references == Refs(fds, i)
  {
    CoreMeans(disk, files, fds);

  }

  lemma SlotsFine(disk: Disk, files: seq<File>, fds: seq<Fd>)
    requires Core(disk, files, fds)
    ensures DiskOk(disk) && SlotsOk(disk, files)
  {
    CoreMeans(disk, files, fds);
  }

  lemma RefsFine(disk: Disk, files: seq<File>, fds: seq<Fd>)
    requires Core(disk, files, fds)
    ensures RefsOk(files, fds)
  {
    CoreMeans(disk, files, fds);
  }

  lemma DiskFine(disk: Disk, files: seq<File>, fds: seq<Fd>)
    requires Core(disk, files, fds)
    ensures DiskOk(disk)
  {
    CoreMeans(disk, files, fds);

  }

  ghost function HandleOf(disk: Disk, files: seq<File>, d: Fd): Handle {
    if d.Free() || !FdOk(disk, files, d) then Closed
    else
      var f := files[d.file.value];
      Open(disk[f.page].name, Content(disk, disk[f.page])[..f.end], d.offset, d.read, d.write, d.append)
  }

  ghost function Handles(disk: Disk, files: seq<File>, fds: seq<Fd>): (h: seq<Handle>)
    ensures |h| == |fds| && forall i :: 0 <= i < |fds| ==> h[i] == HandleOf(disk, files, fds[i])
  {
    seq(|fds|, i requires 0 <= i < |fds| => HandleOf(disk, files, fds[i]))
  }

  /** An active file has this name. */
  ghost predicate Exists(disk: Disk, name: string) {
    exists p :: p in disk && !disk[p].log && disk[p].name == name
  }

  // ---------------------------------------------------------------- counting references

  lemma {:induction false} RefsUpdate(fds: seq<Fd>, i: nat, d: Fd, s: nat)
    requires i < |fds|
    ensures Refs(fds[i := d], s) == Refs(fds, s) - (if fds[i].Uses(s) then 1 else 0) + if d.Uses(s) then 1 else 0
  {
    var n := |fds| - 1;
    if i < n {
      RefsUpdate(fds[..n], i, d, s);
      assert fds[i := d][..n] == fds[..n][i := d];
    } else {
      assert fds[i := d][..n] == fds[..n];
    }
  }

  lemma {:induction false} RefsZero(fds: seq<Fd>, s: nat)
    ensures Refs(fds, s) == 0 <==> forall i :: 0 <= i < |fds| ==> !fds[i].Uses(s)
  {
    if fds != [] {
      var n := |fds| - 1;
      RefsZero(fds[..n], s);
      assert forall i :: 0 <= i < n ==> fds[..n][i] == fds[i];
    }
  }

  /** An open descriptor keeps its slot referenced. */
  lemma ReferencedSlot(files: seq<File>, fds: seq<Fd>, i: nat, s: nat)
    requires RefsOk(files, fds) && i < |fds| && s < |files| && fds[i].Uses(s)
    ensures files[s].references > 0
  {
    RefsZero(fds, s);
  }

  // ---------------------------------------------------------------- single updates

  /** Another extent appears. */
  lemma NewExtent(disk: Disk, files: seq<File>, fds: seq<Fd>, p: int, e: Extent)
    requires Core(disk, files, fds) && p !in disk && 0 <= p < PAGE_COUNT && !e.modified && ExtentOk(disk, e)
    ensures Core(disk[p := e], files, fds)
    ensures Handles(disk[p := e], files, fds) == Handles(disk, files, fds)
    ensures forall q :: q in disk ==> Content(disk[p := e], disk[q]) == Content(disk, disk[q])
    ensures forall i :: 0 <= i < |files| ==> SlotName(disk[p := e], files[i]) == SlotName(disk, files[i])
  {
    CoreMeans(disk, files, fds);
    var disk' := disk[p := e];
    forall q | q in disk ensures ExtentOk(disk', disk[q]) && Content(disk', disk[q]) == Content(disk, disk[q]) {
      assert LogOk(disk, disk[q]) ==> LogOk(disk', disk[q]);
    }
    forall i: nat | i < |files|
      ensures SlotOk(disk', files[i]) && SlotName(disk', files[i]) == SlotName(disk, files[i])
    {
      assert SlotOk(disk, files[i]);
    }
    forall i: nat | i < |fds| ensures FdOk(disk', files, fds[i]) {
      assert FdOk(disk, files, fds[i]);
    }
    CoreMeans(disk[p := e], files, fds);
  }

  /** A slot without references is given another extent. */
  lemma LoadSlot(disk: Disk, files: seq<File>, fds: seq<Fd>, i: nat, f: File)
    requires Core(disk, files, fds) && i < |files| && files[i].references == 0 == f.references
    requires f.maxPages > 0 && SlotOk(disk, f) && forall j ::
      0 <= j < |files| && j != i && files[j].maxPages > 0 ==> files[j].page != f.page
    ensures Core(disk, files[i := f], fds)
    ensures Handles(disk, files[i := f], fds) == Handles(disk, files, fds)
  {
    CoreMeans(disk, files, fds);
    var files' := files[i := f];
    RefsZero(fds, i);
    forall k: nat | k < |fds|
      ensures FdOk(disk, files', fds[k]) && HandleOf(disk, files', fds[k]) == HandleOf(disk, files, fds[k])
    {
      assert FdOk(disk, files, fds[k]);
      assert !fds[k].Uses(i);
    }
    forall j: nat | j < |files'| ensures SlotOk(disk, files'[j]) {
      assert SlotOk(disk, files[j]);
    }
    CoreMeans(disk, files[i := f], fds);
  }

  /** A file object gets another end, not before any descriptor's offset. */
  lemma SetEnd(disk: Disk, files: seq<File>, fds: seq<Fd>, s: nat, end: int)
    requires Core(disk, files, fds) && s < |files| && files[s].maxPages > 0 && files[s].end <= end
    requires files[s].page in disk && end <= |disk[files[s].page].data|
    ensures Core(disk, files[s := files[s].(end := end)], fds)
    ensures forall k :: 0 <= k < |fds| && !fds[k].Uses(s) ==>
      HandleOf(disk, files[s := files[s].(end := end)], fds[k]) == HandleOf(disk, files, fds[k])
  {
    CoreMeans(disk, files, fds);
    var files' := files[s := files[s].(end := end)];
    forall k: nat | k < |fds|
      ensures FdOk(disk, files', fds[k])
      ensures (!fds[k].Uses(s) ==> HandleOf(disk, files', fds[k]) == HandleOf(disk, files, fds[k]))
    {
      assert FdOk(disk, files, fds[k]);
    }
    forall j: nat | j < |files'| ensures SlotOk(disk, files'[j]) {
      assert SlotOk(disk, files[j]);
    }
    CoreMeans(disk, files[s := files[s].(end := end)], fds);
  }

  /** One descriptor changes and the reference counts follow. */
  lemma ChangeFd(disk: Disk, files: seq<File>, fds: seq<Fd>, files': seq<File>, i: nat, d: Fd)
    requires Core(disk, files, fds) && i < |fds| && FdOk(disk, files, d) && |files'| == |files|
    requires forall s: nat :: s < |files| ==>
      files'[s] == files[s].(references := files[s].references - (if fds[i].Uses(s) then 1 else 0) +
        (if d.Uses(s) then 1 else 0))
    ensures Core(disk, files', fds[i := d])
    ensures Handles(disk, files', fds[i := d]) == Handles(disk, files, fds)[i := HandleOf(disk, files, d)]
    ensures forall s :: 0 <= s < |files| ==> SlotName(disk, files'[s]) == SlotName(disk, files[s])
    ensures NamesDistinct(disk, files) ==> NamesDistinct(disk, files')
  {
    CoreMeans(disk, files, fds);
    var fds' := fds[i := d];
    forall s: nat | s < |files| ensures SlotOk(disk, files'[s]) && files'[s].references == Refs(fds', s) {
      assert SlotOk(disk, files[s]);
      RefsUpdate(fds, i, d, s);
    }
    forall k: nat | k < |fds'|
      ensures FdOk(disk, files', fds'[k]) && HandleOf(disk, files', fds'[k]) == HandleOf(disk, files, fds'[k])
    {
      assert FdOk(disk, files, fds[k]);
    }
    CoreMeans(disk, files', fds[i := d]);
  }

  /** A free descriptor is opened on slot `s`. */
  lemma OpenFd(disk: Disk, files: seq<File>, fds: seq<Fd>, fd: nat, s: nat, d: Fd)
    requires Valid(disk, files, fds) && fd < |fds| && fds[fd].Free() && s < |files| && d.Uses(s) && FdOk(disk, files, d)
    ensures var files' := files[s := files[s].(references := files[s].references + 1)];
      && Valid(disk, files', fds[fd := d])
      && Handles(disk, files', fds[fd := d]) == Handles(disk, files, fds)[fd := HandleOf(disk, files', d)]
  {
    var files' := files[s := files[s].(references := files[s].references + 1)];
    ChangeFd(disk, files, fds, files', fd, d);
  }

  /** The bytes of an extent without a log change. */
  lemma ChangeData(disk: Disk, files: seq<File>, fds: seq<Fd>, p: int, data: seq<Byte>)
    requires Core(disk, files, fds) && p in disk && !disk[p].log && !disk[p].modified && |data| == |disk[p].data|
    ensures var disk' := disk[p := disk[p].(data := data)];
      && Core(disk', files, fds) && Content(disk', disk'[p]) == data
      && (forall q :: q in disk && q != p ==> Content(disk', disk'[q]) == Content(disk, disk[q]))
      && (forall i :: 0 <= i < |files| ==> SlotName(disk', files[i]) == SlotName(disk, files[i]))
      && (forall i :: 0 <= i < |fds| && (fds[i].Free() || files[fds[i].file.value].page != p) ==>
        HandleOf(disk', files, fds[i]) == HandleOf(disk, files, fds[i]))
  {
    CoreMeans(disk, files, fds);
    var disk' := disk[p := disk[p].(data := data)];
    DiskFine(disk, files, fds);
    ChangedDisk(disk, p, data);
    forall i: nat | i < |files|
      ensures SlotOk(disk', files[i]) && SlotName(disk', files[i]) == SlotName(disk, files[i])
    {
      SlotFine(disk, files, fds, i);
    }
    forall i: nat | i < |fds| ensures FdOk(disk', files, fds[i]) {
      FdFine(disk, files, fds, i);
    }
    CoreMeans(disk', files, fds);
  }

  lemma ChangedDisk(disk: Disk, p: int, data: seq<Byte>)
    requires DiskOk(disk) && p in disk && !disk[p].log && !disk[p].modified && |data| == |disk[p].data|
    ensures var disk' := disk[p := disk[p].(data := data)];
      && DiskOk(disk') && Content(disk', disk'[p]) == data
      && forall q :: q in disk && q != p ==> Content(disk', disk'[q]) == Content(disk, disk[q])
  {
    var disk' := disk[p := disk[p].(data := data)];
    forall q | q in disk
      ensures ExtentOk(disk', disk'[q]) && (q != p ==> Content(disk', disk'[q]) == Content(disk, disk[q]))
    {
      assert LogOk(disk, disk[q]) ==> LogOk(disk', disk[q]);
    }
  }

  function Appended(disk: Disk, e: Extent, count: nat, region: nat, rec: seq<Byte>): Disk
    requires e.logPage in disk && LogFits(disk[e.logPage].data, Records(e), Size(e)) && count < Records(e)
    requires region < 65535 && |rec| == Size(e)
  {
    disk[e.logPage := disk[e.logPage].(data := WithRecord(disk[e.logPage].data, Records(e), Size(e), count, region,
      rec))]
  }

  /** A record is appended to the log of the file in slot `s`. */
  lemma AppendRecord(disk: Disk, files: seq<File>, fds: seq<Fd>, s: nat, count: nat, region: nat, rec: seq<Byte>)
    requires Core(disk, files, fds) && s < |files| && files[s].maxPages > 0 && files[s].modified
    requires var e := disk[files[s].page];
      e.modified && LogOk(disk, e) && LogCount(disk[e.logPage].data, Records(e), count) && count < Records(e) &&
      region < 65535 && |rec| == Size(e)
    ensures var p, e := files[s].page, disk[files[s].page];
      var disk', files' := Appended(disk, e, count, region, rec), files[s := files[s].(recordCount := count + 1)];
      && Core(disk', files', fds) && p in disk' && disk'[p] == e && LogOk(disk', e)
      && (forall q :: q in disk && q != p && q != e.logPage ==> Content(disk', disk[q]) == Content(disk, disk[q]))
      && (forall i :: 0 <= i < |files| ==> SlotName(disk', files'[i]) == SlotName(disk, files[i]))
      && (forall i :: 0 <= i < |fds| && !fds[i].Uses(s) ==>
        HandleOf(disk', files', fds[i]) == HandleOf(disk, files, fds[i]))
  {
    CoreMeans(disk, files, fds);
    var p, e := files[s].page, disk[files[s].page];
    var disk', files' := Appended(disk, e, count, region, rec), files[s := files[s].(recordCount := count + 1)];
    DiskFine(disk, files, fds);
    SlotFine(disk, files, fds, s);
    WithRecordIndex(disk[e.logPage].data, Records(e), Size(e), count, region, rec);
    assert LogOk(disk', e);
    AppendedDisk(disk, p, count, region, rec);
    forall i: nat | i < |files|
      ensures SlotOk(disk', files'[i]) && SlotName(disk', files'[i]) == SlotName(disk, files[i])
    {
      AppendedSlot(disk, files, fds, s, count, region, rec, i);
    }
    forall i: nat | i < |fds|
      ensures FdOk(disk', files', fds[i])
      ensures (!fds[i].Uses(s) ==> HandleOf(disk', files', fds[i]) == HandleOf(disk, files, fds[i]))
    {
      FdFine(disk, files, fds, i);
      if !fds[i].Free() && !fds[i].Uses(s) {
        OtherPage(disk, files, fds, s, fds[i].file.value);
      }
    }
    CoreMeans(disk', files', fds);
  }

  lemma OtherPage(disk: Disk, files: seq<File>, fds: seq<Fd>, s: nat, u: nat)
    requires Core(disk, files, fds) && s < |files| && u < |files| && u != s && files[s].maxPages > 0
    requires files[u].maxPages > 0
    ensures files[u].page != files[s].page
  {
    CoreMeans(disk, files, fds);

  }

  lemma AppendedDisk(disk: Disk, p: int, count: nat, region: nat, rec: seq<Byte>)
    requires DiskOk(disk) && p in disk
    requires var e := disk[p];
      e.modified && LogOk(disk, e) && LogCount(disk[e.logPage].data, Records(e), count) && count < Records(e) &&
      region < 65535 && |rec| == Size(e)
    ensures var e := disk[p];
      var disk' := Appended(disk, e, count, region, rec);
      && DiskOk(disk') && p in disk' && disk'[p] == e
      && (forall q :: q in disk && q != p && q != e.logPage ==> Content(disk', disk[q]) == Content(disk, disk[q]))
  {
    var e := disk[p];
    var disk' := Appended(disk, e, count, region, rec);
    WithRecordIndex(disk[e.logPage].data, Records(e), Size(e), count, region, rec);
    assert LogOk(disk', e);
    forall q | q in disk
      ensures ExtentOk(disk', disk'[q])
      ensures (q != p && q != e.logPage ==> Content(disk', disk[q]) == Content(disk, disk[q]))
    {
      assert q != p && LogOk(disk, disk[q]) && disk[q].modified ==> LogOk(disk', disk[q]);
    }
  }

  lemma AppendedSlot(disk: Disk, files: seq<File>, fds: seq<Fd>, s: nat, count: nat, region: nat, rec: seq<Byte>,
        i: nat)
    requires Core(disk, files, fds) && s < |files| && files[s].maxPages > 0 && files[s].modified && i < |files|
    requires var e := disk[files[s].page];
      e.modified && LogOk(disk, e) && LogCount(disk[e.logPage].data, Records(e), count) && count < Records(e) &&
      region < 65535 && |rec| == Size(e)
    ensures var disk', f := Appended(disk, disk[files[s].page], count, region, rec),
      files[s := files[s].(recordCount := count + 1)][i];
      SlotOk(disk', f) && SlotName(disk', f) == SlotName(disk, files[i])
  {
    CoreMeans(disk, files, fds);
    var e := disk[files[s].page];
    WithRecordIndex(disk[e.logPage].data, Records(e), Size(e), count, region, rec);
    SlotFine(disk, files, fds, i);
    SlotFine(disk, files, fds, s);
  }

  /** An unmodified file is given an empty log. */
  lemma AttachLog(disk: Disk, files: seq<File>, fds: seq<Fd>, s: nat, lp: int)
    requires Core(disk, files, fds) && s < |files| && SlotName(disk, files[s]).Some? && !files[s].modified
    requires forall q :: q in disk && disk[q].modified ==> disk[q].logPage != lp
    requires var e := disk[files[s].page];
      lp in disk && disk[lp].log && LogFits(disk[lp].data, Records(e), Size(e)) &&
      LogCount(disk[lp].data, Records(e), 0)
    ensures var p := files[s].page;
      var e := disk[p].(modified := true, logPage := lp);
      var disk', files' := disk[p := e], files[s := files[s].(modified := true)];
      && Core(disk', files', fds) && LogOk(disk', e) && Content(disk', e) == disk[p].data
      && (forall i :: 0 <= i < |files| ==> SlotName(disk', files'[i]) == SlotName(disk, files[i]))
      && Handles(disk', files', fds) == Handles(disk, files, fds)
  {
    CoreMeans(disk, files, fds);
    var p := files[s].page;
    var e := disk[p].(modified := true, logPage := lp);
    var disk', files' := disk[p := e], files[s := files[s].(modified := true)];
    DiskFine(disk, files, fds);
    SlotFine(disk, files, fds, s);
    AttachedDisk(disk, p, lp);
    forall i: nat | i < |files|
      ensures SlotOk(disk', files'[i]) && SlotName(disk', files'[i]) == SlotName(disk, files[i])
    {
      AttachedSlot(disk, files, fds, s, lp, i);
    }
    forall i: nat | i < |fds|
      ensures FdOk(disk', files', fds[i]) && HandleOf(disk', files', fds[i]) == HandleOf(disk, files, fds[i])
    {
      FdFine(disk, files, fds, i);
    }
    CoreMeans(disk', files', fds);
  }

  lemma AttachedSlot(disk: Disk, files: seq<File>, fds: seq<Fd>, s: nat, lp: int, i: nat)
    requires Core(disk, files, fds) && s < |files| && SlotName(disk, files[s]).Some? && !files[s].modified
    requires i < |files|
    requires forall q :: q in disk && disk[q].modified ==> disk[q].logPage != lp
    requires var e := disk[files[s].page];
      lp in disk && disk[lp].log && LogFits(disk[lp].data, Records(e), Size(e)) &&
      LogCount(disk[lp].data, Records(e), 0)
    ensures var p := files[s].page;
      var disk', f := disk[p := disk[p].(modified := true, logPage := lp)], files[s := files[s].(modified := true)][i];
      SlotOk(disk', f) && SlotName(disk', f) == SlotName(disk, files[i])
  {
    SlotFine(disk, files, fds, i);
    if i != s && files[i].maxPages > 0 {
      OtherPage(disk, files, fds, s, i);
    }
  }

  lemma AttachedDisk(disk: Disk, p: int, lp: int)
    requires DiskOk(disk) && p in disk && !disk[p].log && !disk[p].modified
    requires forall q :: q in disk && disk[q].modified ==> disk[q].logPage != lp
    requires var e := disk[p];
      lp in disk && disk[lp].log && LogFits(disk[lp].data, Records(e), Size(e)) &&
      LogCount(disk[lp].data, Records(e), 0)
    ensures var e := disk[p].(modified := true, logPage := lp);
      var disk' := disk[p := e];
      && DiskOk(disk') && LogOk(disk', e) && Content(disk', e) == disk[p].data
      && forall q :: q in disk && q != p ==> Content(disk', disk[q]) == Content(disk, disk[q])
  {
    var e := disk[p].(modified := true, logPage := lp);
    var disk' := disk[p := e];
    assert Records(e) == Records(disk[p]) && Size(e) == Size(disk[p]);
    EmptyLog(e.data, disk[lp].data, Records(e), Size(e));
    assert LogOk(disk', e);
    forall q | q in disk && q != p
      ensures ExtentOk(disk', disk[q]) && Content(disk', disk[q]) == Content(disk, disk[q])
    {
      assert LogOk(disk, disk[q]) ==> LogOk(disk', disk[q]);
    }
  }

  /** The extents that are left when those at `gone` become obsolete. */
  function Without(disk: Disk, gone: set<int>): Disk {
    map q | q in disk && q !in gone :: disk[q]
  }

  /** A file object whose extent is gone is free again. */
  function Reset(f: File): File {
    f.(page := INVALID_PAGE, references := 0, maxPages := 0)
  }

  function ResetSlots(files: seq<File>, gone: set<int>): (files': seq<File>)
    ensures |files'| == |files| && forall i ::
      0 <= i < |files| ==> files'[i] == if files[i].page in gone then Reset(files[i]) else files[i]
  {
    seq(|files|, i requires 0 <= i < |files| => if files[i].page in gone then Reset(files[i]) else files[i])
  }

  /** Extents without open descriptors become obsolete, with all logs and no more than the logs of their own. */
  lemma DropExtents(disk: Disk, files: seq<File>, fds: seq<Fd>, gone: set<int>)
    requires Core(disk, files, fds) && INVALID_PAGE !in gone
    requires forall q :: q in disk && q !in gone && disk[q].modified ==> disk[q].logPage !in gone
    requires forall i :: 0 <= i < |fds| && !fds[i].Free() ==> files[fds[i].file.value].page !in gone
    ensures Core(Without(disk, gone), ResetSlots(files, gone), fds)
    ensures Handles(Without(disk, gone), ResetSlots(files, gone), fds) == Handles(disk, files, fds)
    ensures forall q :: q in Without(disk, gone) ==> Content(Without(disk, gone), disk[q]) == Content(disk, disk[q])
    ensures forall i :: 0 <= i < |files| ==>
      SlotName(Without(disk, gone), ResetSlots(files, gone)[i]) == if files[i].page in gone then None
      else SlotName(disk, files[i])
  {
    CoreMeans(disk, files, fds);
    var disk', files' := Without(disk, gone), ResetSlots(files, gone);
    DiskFine(disk, files, fds);
    DroppedDisk(disk, gone);
    forall i: nat | i < |files| ensures SlotOk(disk', files'[i]) && files'[i].references == Refs(fds, i)
      && SlotName(disk', files'[i]) == if files[i].page in gone then None else SlotName(disk, files[i])
    {
      DroppedSlot(disk, files, fds, gone, i);
    }
    forall i: nat | i < |fds|
      ensures FdOk(disk', files', fds[i]) && HandleOf(disk', files', fds[i]) == HandleOf(disk, files, fds[i])
    {
      FdFine(disk, files, fds, i);
    }
    CoreMeans(Without(disk, gone), ResetSlots(files, gone), fds);
  }

  lemma DroppedDisk(disk: Disk, gone: set<int>)
    requires DiskOk(disk) && forall q :: q in disk && q !in gone && disk[q].modified ==> disk[q].logPage !in gone
    ensures var disk' := Without(disk, gone);
      DiskOk(disk') && forall q :: q in disk' ==> Content(disk', disk[q]) == Content(disk, disk[q])
  {
    var disk' := Without(disk, gone);
    forall q | q in disk' ensures ExtentOk(disk', disk'[q]) && Content(disk', disk'[q]) == Content(disk, disk[q]) {
      assert disk[q].modified ==> LogOk(disk', disk[q]);
    }
  }

  lemma DroppedSlot(disk: Disk, files: seq<File>, fds: seq<Fd>, gone: set<int>, i: nat)
    requires Core(disk, files, fds) && INVALID_PAGE !in gone && i < |files|
    requires forall q :: q in disk && q !in gone && disk[q].modified ==> disk[q].logPage !in gone
    requires forall k :: 0 <= k < |fds| && !fds[k].Free() ==> files[fds[k].file.value].page !in gone
    ensures var disk', f := Without(disk, gone), ResetSlots(files, gone)[i];
      && SlotOk(disk', f) && f.references == Refs(fds, i)
      && SlotName(disk', f) == if files[i].page in gone then None else SlotName(disk, files[i])
  {
    SlotFine(disk, files, fds, i);
    if files[i].page in gone {
      RefsZero(fds, i);
    }
  }

  // ---------------------------------------------------------------- all descriptors of a file

  /** The descriptors of slot `s` now use slot `t`. */
  function MoveFds(fds: seq<Fd>, s: nat, t: nat): (fds': seq<Fd>)
    ensures |fds'| == |fds| && forall k ::
      0 <= k < |fds| ==> fds'[k] == if fds[k].Uses(s) then fds[k].(file := Some(t)) else fds[k]
  {
    seq(|fds|, k requires 0 <= k < |fds| => if fds[k].Uses(s) then fds[k].(file := Some(t)) else fds[k])
  }

  function Close(d: Fd): Fd {
    d.(read := false, write := false, append := false)
  }

  /** The descriptors of slot `s` are closed. */
  function CloseFds(fds: seq<Fd>, s: nat): (fds': seq<Fd>)
    ensures |fds'| == |fds| && forall k ::
      0 <= k < |fds| ==> fds'[k] == if fds[k].Uses(s) then Close(fds[k]) else fds[k]
  {
    seq(|fds|, k requires 0 <= k < |fds| => if fds[k].Uses(s) then Close(fds[k]) else fds[k])
  }

  ghost predicate PointersInside(fds: seq<Fd>, files: seq<File>) {
    forall k :: 0 <= k < |fds| && fds[k].file.Some? ==> fds[k].file.value < |files|
  }

  /** The descriptors whose file object is at `page` are closed. */
  function CloseFdsAt(fds: seq<Fd>, files: seq<File>, page: int): (fds': seq<Fd>)
    requires PointersInside(fds, files)
    ensures |fds'| == |fds| && forall k :: 0 <= k < |fds| ==>
      fds'[k] == (if fds[k].file.Some? && files[fds[k].file.value].page == page then Close(fds[k]) else fds[k])
  {
    seq(|fds|, k requires 0 <= k < |fds| => if fds[k].file.Some? && files[fds[k].file.value].page == page then
      Close(fds[k]) else fds[k])
  }

  /** Those are the open descriptors of the slot of that page. */
  lemma CloseAtIsClose(disk: Disk, files: seq<File>, fds: seq<Fd>, s: nat)
    requires Core(disk, files, fds) && s < |files| && files[s].maxPages > 0
    ensures PointersInside(fds, files) && CloseFdsAt(fds, files, files[s].page) == CloseFds(fds, s)
  {
    CoreMeans(disk, files, fds);
    forall k: nat | k < |fds| && fds[k].file.Some? ensures fds[k].file.value < |files|
      && (if files[fds[k].file.value].page == files[s].page then Close(fds[k]) else fds[k]) == if fds[k].Uses(s) then
        Close(fds[k]) else fds[k]
    {
      assert FdOk(disk, files, fds[k]);
    }
  }

  lemma {:induction false} MovedRefs(fds: seq<Fd>, s: nat, t: nat, u: nat)
    requires s != t
    ensures Refs(MoveFds(fds, s, t), u) == if u == s then 0 else if u == t then Refs(fds, t) + Refs(fds, s)
      else Refs(fds, u)
  {
    if fds != [] {
      var n := |fds| - 1;
      MovedRefs(fds[..n], s, t, u);
      assert MoveFds(fds, s, t)[..n] == MoveFds(fds[..n], s, t);
    }
  }

  lemma {:induction false} ClosedRefs(fds: seq<Fd>, s: nat, u: nat)
    ensures Refs(CloseFds(fds, s), u) == if u == s then 0 else Refs(fds, u)
  {
    if fds != [] {
      var n := |fds| - 1;
      ClosedRefs(fds[..n], s, u);
      assert CloseFds(fds, s)[..n] == CloseFds(fds[..n], s);
    }
  }

  lemma CloseAll(disk: Disk, files: seq<File>, fds: seq<Fd>, s: nat)
    requires Core(disk, files, fds) && s < |files|
    ensures var files', fds' := files[s := files[s].(references := 0)], CloseFds(fds, s);
      && Core(disk, files', fds')
      && (forall k :: 0 <= k < |fds| ==>
        HandleOf(disk, files', fds'[k]) == if fds[k].Uses(s) then Closed else HandleOf(disk, files, fds[k]))
  {
    CoreMeans(disk, files, fds);
    var files', fds' := files[s := files[s].(references := 0)], CloseFds(fds, s);
    forall u: nat | u < |files| ensures SlotOk(disk, files'[u]) && files'[u].references == Refs(fds', u) {
      assert SlotOk(disk, files[u]);
      ClosedRefs(fds, s, u);
    }
    forall k: nat | k < |fds|
      ensures FdOk(disk, files', fds'[k]) && HandleOf(disk, files', fds'[k]) == if fds[k].Uses(s) then Closed
        else HandleOf(disk, files, fds[k])
    {
      assert FdOk(disk, files, fds[k]);
    }
    CoreMeans(disk, files', fds');
  }

  /** Slot `t` holds a copy of the file in slot `s`, as far as its end. */
  ghost predicate CopyOf(disk: Disk, files: seq<File>, s: nat, t: nat) {
    && s < |files| && t < |files| && s != t && SlotName(disk, files[s]).Some? &&
      SlotName(disk, files[t]) == SlotName(disk, files[s])
    && 0 <= files[s].end <= |disk[files[s].page].data| && files[s].end <= |disk[files[t].page].data|
    && Content(disk, disk[files[t].page])[..files[s].end] == Content(disk, disk[files[s].page])[..files[s].end]
  }

  lemma MoveAll(disk: Disk, files: seq<File>, fds: seq<Fd>, s: nat, t: nat)
    requires Core(disk, files, fds) && CopyOf(disk, files, s, t) && files[t].references == 0
    ensures var files' := files[s := files[s].(references := 0)][t := files[t].(references := files[s].references,
      end := files[s].end)];
      && Core(disk, files', MoveFds(fds, s, t))
      && Handles(disk, files', MoveFds(fds, s, t)) == Handles(disk, files, fds)
  {
    CoreMeans(disk, files, fds);
    var files', fds' := files[s := files[s].(references := 0)][t := files[t].(references := files[s].references,
      end := files[s].end)], MoveFds(fds, s, t);
    forall u: nat | u < |files| ensures SlotOk(disk, files'[u]) && files'[u].references == Refs(fds', u) {
      MovedSlot(disk, files, fds, s, t, u);
    }
    forall k: nat | k < |fds|
      ensures FdOk(disk, files', fds'[k]) && HandleOf(disk, files', fds'[k]) == HandleOf(disk, files, fds[k])
    {
      MovedFd(disk, files, fds, s, t, k);
    }
    CoreMeans(disk, files', MoveFds(fds, s, t));
  }

  lemma MovedSlot(disk: Disk, files: seq<File>, fds: seq<Fd>, s: nat, t: nat, u: nat)
    requires Core(disk, files, fds) && CopyOf(disk, files, s, t) && files[t].references == 0 && u < |files|
    ensures var files' := files[s := files[s].(references := 0)][t := files[t].(references := files[s].references,
      end := files[s].end)];
      SlotOk(disk, files'[u]) && files'[u].references == Refs(MoveFds(fds, s, t), u)
  {
    SlotFine(disk, files, fds, u);
    SlotFine(disk, files, fds, s);
    SlotFine(disk, files, fds, t);
    MovedRefs(fds, s, t, u);
  }

  lemma MovedFd(disk: Disk, files: seq<File>, fds: seq<Fd>, s: nat, t: nat, k: nat)
    requires Core(disk, files, fds) && CopyOf(disk, files, s, t) && files[t].references == 0 && k < |fds|
    ensures var files' := files[s := files[s].(references := 0)][t := files[t].(references := files[s].references,
      end := files[s].end)];
      FdOk(disk, files', MoveFds(fds, s, t)[k]) &&
        HandleOf(disk, files', MoveFds(fds, s, t)[k]) == HandleOf(disk, files, fds[k])
  {
    FdFine(disk, files, fds, k);
    SlotFine(disk, files, fds, t);
    RefsZero(fds, t);
  }

  /** An unmodified file takes over the log configuration of another extent. */
  lemma CopyConfig(disk: Disk, files: seq<File>, fds: seq<Fd>, p: int, records: nat, size: nat)
    requires Core(disk, files, fds) && p in disk && !disk[p].log && !disk[p].modified
    requires var e := disk[p].(logRecords := records, logRecordSize := size);
      1 <= Records(e) <= LOG_TABLE_LIMIT && RegionsFit(e)
    ensures var disk' := disk[p := disk[p].(logRecords := records, logRecordSize := size)];
      && Core(disk', files, fds) && Handles(disk', files, fds) == Handles(disk, files, fds)
      && (forall i :: 0 <= i < |files| ==> SlotName(disk', files[i]) == SlotName(disk, files[i]))
  {
    CoreMeans(disk, files, fds);
    var disk' := disk[p := disk[p].(logRecords := records, logRecordSize := size)];
    DiskFine(disk, files, fds);
    ConfiguredDisk(disk, p, records, size);
    forall i: nat | i < |files|
      ensures SlotOk(disk', files[i]) && SlotName(disk', files[i]) == SlotName(disk, files[i])
    {
      SlotFine(disk, files, fds, i);
    }
    forall i: nat | i < |fds| ensures FdOk(disk', files, fds[i]) {
      FdFine(disk, files, fds, i);
    }
    CoreMeans(disk', files, fds);
  }

  lemma ConfiguredDisk(disk: Disk, p: int, records: nat, size: nat)
    requires DiskOk(disk) && p in disk && !disk[p].log && !disk[p].modified
    requires var e := disk[p].(logRecords := records, logRecordSize := size);
      1 <= Records(e) <= LOG_TABLE_LIMIT && RegionsFit(e)
    ensures var disk' := disk[p := disk[p].(logRecords := records, logRecordSize := size)];
      DiskOk(disk') && forall q :: q in disk ==> Content(disk', disk'[q]) == Content(disk, disk[q])
  {
    var disk' := disk[p := disk[p].(logRecords := records, logRecordSize := size)];
    forall q | q in disk ensures ExtentOk(disk', disk'[q]) && Content(disk', disk'[q]) == Content(disk, disk[q]) {
      assert LogOk(disk, disk[q]) ==> LogOk(disk', disk[q]);
    }
  }

  /** The extent at `p` and its log. */
  function WithLog(disk: Disk, p: int): set<int> {
    if p in disk && disk[p].modified then {p, disk[p].logPage} else {p}
  }

  /** A log belongs to one file. */
  lemma LogIsOwn(disk: Disk, p: int)
    requires DiskOk(disk) && p in disk && !disk[p].log
    ensures forall q :: q in disk && q !in WithLog(disk, p) && disk[q].modified ==> disk[q].logPage !in WithLog(disk, p)
    ensures forall q :: q in WithLog(disk, p) && q != p ==> q in disk && disk[q].log
  {
    forall q | q in disk && q !in WithLog(disk, p) && disk[q].modified ensures disk[q].logPage !in WithLog(disk, p) {
      assert LogOk(disk, disk[q]);
    }
  }

  ghost predicate Valid(disk: Disk, files: seq<File>, fds: seq<Fd>) {
    Core(disk, files, fds) && NamesDistinct(disk, files)
  }

  /** The extents after a merge: the old one and its log are gone, the new one is configured like the old. */
  function MergedDisk(disk: Disk, p: int, q: int): Disk
    requires p in disk && q in disk
  {
    Without(disk, WithLog(disk, p))[q := disk[q].(logRecords := disk[p].logRecords,
      logRecordSize := disk[p].logRecordSize)]
  }

  function MergedFiles(disk: Disk, files: seq<File>, s: nat, t: nat): seq<File>
    requires s < |files| && t < |files|
  {
    ResetSlots(files, WithLog(disk, files[s].page))[t := files[t].(references := files[s].references,
      end := files[s].end)]
  }

  /** The extent of another slot is not the one of slot `s`, and a file's extent is not a log. */
  lemma PagesApart(disk: Disk, files: seq<File>, fds: seq<Fd>, s: nat, u: nat)
    requires Core(disk, files, fds) && s < |files| && u < |files| && u != s
    requires SlotName(disk, files[s]).Some? && SlotName(disk, files[u]).Some?
    ensures files[u].page !in WithLog(disk, files[s].page)
  {
    CoreMeans(disk, files, fds);
    LogIsOwn(disk, files[s].page);
  }

  lemma DropMerged(disk: Disk, files: seq<File>, fds: seq<Fd>, s: nat, t: nat)
    requires Core(disk, files, fds) && CopyOf(disk, files, s, t) && files[t].references == 0
    ensures var gone := WithLog(disk, files[s].page);
      && files[t].page !in gone
      && Core(Without(disk, gone), MergedFiles(disk, files, s, t), MoveFds(fds, s, t))
      && Handles(Without(disk, gone), MergedFiles(disk, files, s, t), MoveFds(fds, s, t)) == Handles(disk, files, fds)
      && (forall i :: 0 <= i < |files| ==>
        SlotName(Without(disk, gone), MergedFiles(disk, files, s, t)[i]) == if files[i].page in gone then None
        else SlotName(disk, files[i]))
  {
    CoreMeans(disk, files, fds);
    var p, q := files[s].page, files[t].page;
    var gone := WithLog(disk, p);
    var fds' := MoveFds(fds, s, t);
    DiskFine(disk, files, fds);
    SlotFine(disk, files, fds, s);
    assert p != q by { CoreMeans(disk, files, fds); }
    var files1 := files[s := files[s].(references := 0)][t := files[t].(references := files[s].references,
      end := files[s].end)];
    MoveAll(disk, files, fds, s, t);
    LogIsOwn(disk, p);
    forall i: nat | i < |fds| && !fds'[i].Free() ensures files1[fds'[i].file.value].page !in gone {
      FdFine(disk, files1, fds', i);
      PagesApart(disk, files, fds, s, fds'[i].file.value);
    }
    DropExtents(disk, files1, fds', gone);
    assert ResetSlots(files1, gone) == MergedFiles(disk, files, s, t);
    CoreMeans(Without(disk, gone), MergedFiles(disk, files, s, t), MoveFds(fds, s, t));
  }

  /** The descriptors of `s` move to its copy `t`; `s` and its log become obsolete and `t` is configured like `s`. */
  lemma Merged(disk: Disk, files: seq<File>, fds: seq<Fd>, s: nat, t: nat)
    requires Core(disk, files, fds) && CopyOf(disk, files, s, t) && files[t].references == 0
    requires !disk[files[t].page].modified
    requires OtherNames(disk, files, t)
    ensures var disk', files', fds' := MergedDisk(disk, files[s].page, files[t].page), MergedFiles(disk, files, s, t),
      MoveFds(fds, s, t);
      Valid(disk', files', fds') && Handles(disk', files', fds') == Handles(disk, files, fds)
  {
    CoreMeans(disk, files, fds);
    var p, q := files[s].page, files[t].page;
    DropMerged(disk, files, fds, s, t);
    CopyConfig(Without(disk, WithLog(disk, p)), MergedFiles(disk, files, s, t), MoveFds(fds, s, t), q,
      disk[p].logRecords, disk[p].logRecordSize);
  }
}
