/**
 What the operations on Coffee files promise their callers, and the steps that keep those promises: how the handles
 follow the offsets, the extents and the logs.
 */
module CoffeeUpdates {
  import opened Bytes
  import opened Wrappers
  import opened PowersOfTwo
  import opened CoffeeLayout
  import opened CoffeeLog
  import opened CoffeeFiles

  function FreshExtent(name: string, pages: nat, isLog: bool): Extent
    requires Room(pages) >= 0
  {
    Extent(name, pages, isLog, false, 0, 0, 0, ZeroBytes(Room(pages)))
  }

  /** One new, empty extent appeared. */
  ghost predicate OneMore(disk: Disk, disk': Disk, p: int, name: string, pages: nat, isLog: bool) {
    Room(pages) >= 0 && p !in disk && disk' == disk[p := FreshExtent(name, pages, isLog)]
  }

  // ---------------------------------------------------------------- names

  /** Every name has at most one file. */
  ghost predicate NamesUnique(disk: Disk) {
    forall p, q :: p in disk && q in disk && !disk[p].log && !disk[q].log && disk[p].name == disk[q].name ==> p == q
  }

  /** The allocator cannot give `pages` pages at `page`. */
  predicate Refused(disk: Disk, pages: nat, page: int) {
    page == INVALID_PAGE || pages > PAGE_COUNT || !(0 <= page < PAGE_COUNT) || page in disk
  }

  ghost predicate FdLeft(fds: seq<Fd>) {
    exists k :: 0 <= k < |fds| && fds[k].Free()
  }

  /** No file object can be given to another file. */
  ghost predicate SlotsTaken(files: seq<File>) {
    forall i :: 0 <= i < |files| ==> files[i].maxPages > 0 && files[i].references > 0
  }

  /** The extent that a search in page order finds. */
  ghost predicate FirstNamed(disk: Disk, name: string, p: int) {
    && p in disk && !disk[p].log && disk[p].name == name
    && forall q :: q in disk && !disk[q].log && disk[q].name == name ==> p <= q
  }

  /** After a merge exactly the same names exist, and exactly one extent has the name of the file merged. */
  lemma MergeKeepsNames(disk: Disk, disk': Disk, p: int, q: int, end: int, pages: nat)
    requires DiskOk(disk) && MergeOf(disk, disk', p, q, end, pages) && !disk[p].log && q !in disk
    ensures NamesUnique(disk) ==> NamesUnique(disk')
    ensures forall name :: Exists(disk', name) <==> Exists(disk, name)
    ensures !disk'[q].log && disk'[q].name == disk[p].name
    ensures NamesUnique(disk) ==>
      forall x :: x in disk' && !disk'[x].log && disk'[x].name == disk[p].name ==> x == q
  {
    LogIsOwn(disk, p);
    forall name ensures Exists(disk', name) <==> Exists(disk, name) {
      if x :| x in disk && !disk[x].log && disk[x].name == name {
        assert x == p || x in disk';
        assert q in disk';
      }
    }
  }

  /** A new extent leaves the names unique just if it is a log or its name is new. */
  lemma NewNameIff(disk: Disk, disk': Disk, p: int, name: string, pages: nat, isLog: bool)
    requires OneMore(disk, disk', p, name, pages, isLog) && NamesUnique(disk)
    ensures NamesUnique(disk') <==> isLog || !Exists(disk, name)
  {
    if !isLog {
      if q :| q in disk && !disk[q].log && disk[q].name == name {
        assert disk'[q] == disk[q] && disk'[p].name == name;
      }
    }
  }

  /** No file object but `s` can be given to another file. */
  ghost predicate OthersTaken(files: seq<File>, s: nat) {
    forall i :: 0 <= i < |files| && i != s ==> files[i].maxPages > 0 && files[i].references > 0
  }

  lemma OneMoreReference(files: seq<File>, files': seq<File>, s: nat)
    requires s < |files| && files[s].references >= 0 && files[s].maxPages > 0
    requires files' == files[s := files[s].(references := files[s].references + 1)]
    ensures SlotsTaken(files') <==> OthersTaken(files, s)
  {
    if OthersTaken(files, s) {
      forall i | 0 <= i < |files'| ensures files'[i].maxPages > 0 && files'[i].references > 0 {
      }
    }
    if SlotsTaken(files') {
      forall i | 0 <= i < |files| && i != s ensures files[i].maxPages > 0 && files[i].references > 0 {
        assert files'[i] == files[i];
      }
    }
  }

  function MergedPages(f: File, extend: bool): nat {
    if extend then 2 * f.maxPages else f.maxPages
  }

  /** A file of this name can be found and has a file object, or can be given one. */
  ghost predicate Findable(disk: Disk, files: seq<File>, name: string) {
    (exists i: nat :: Holds(disk, files, i, name)) || (Exists(disk, name) && !SlotsTaken(files))
  }

  /** A failed reservation left an empty extent of this name. */
  ghost predicate LeftBehind(disk: Disk, disk': Disk, name: string) {
    exists p, pages :: OneMore(disk, disk', p, name, pages, false)
  }

  lemma LeftBehindKeeps(disk: Disk, disk': Disk, name: string)
    requires LeftBehind(disk, disk', name)
    ensures forall q :: q in disk ==> q in disk' && disk'[q] == disk[q]
  {
  }

  /** An extent at `q` was added, and the file at `p` reads as before. */
  ghost predicate AddedTo(disk: Disk, disk': Disk, q: int, p: int) {
    && q !in disk && q in disk' && disk' == disk[q := disk'[q]] && p in disk
    && Content(disk', disk[p]) == Content(disk, disk[p])
  }

  lemma LeftBehindIff(disk: Disk, disk': Disk, name: string)
    requires LeftBehind(disk, disk', name) && NamesUnique(disk)
    ensures NamesUnique(disk') <==> !Exists(disk, name)
  {
    var p, pages :| OneMore(disk, disk', p, name, pages, false);
    NewNameIff(disk, disk', p, name, pages, false);
  }

  /** A second extent of the name of a file that is there. */
  lemma NameTwice(disk: Disk, p: int, name: string, pages: nat)
    requires NamesUnique(disk) && Exists(disk, name) && p !in disk && Room(pages) >= 0
    ensures !NamesUnique(disk[p := FreshExtent(name, pages, false)])
  {
    NewNameIff(disk, disk[p := FreshExtent(name, pages, false)], p, name, pages, false);
  }

  lemma LeftBehindNames(disk: Disk, disk': Disk, files: seq<File>, s: nat)
    requires s < |files| && SlotName(disk, files[s]).Some? && LeftBehind(disk, disk', disk[files[s].page].name)
    ensures NamesUnique(disk) ==> !NamesUnique(disk')
  {
    var name := disk[files[s].page].name;
    assert Exists(disk, name);
    if NamesUnique(disk) {
      LeftBehindIff(disk, disk', name);
    }
  }

  /** An extent left behind by a failed reservation is empty; if it comes first, it is found instead of the file. */
  lemma OrphanShadows(disk: Disk, disk': Disk, p: int, name: string, pages: nat, q: int)
    requires OneMore(disk, disk', p, name, pages, false) && FirstNamed(disk, name, q)
    ensures FirstNamed(disk', name, if p < q then p else q)
    ensures !disk'[p].modified && forall i :: 0 <= i < |disk'[p].data| ==> disk'[p].data[i] == 0
  {
  }

  // ---------------------------------------------------------------- finding files

  /** Slot `slot` was given to a file of this name found on the flash. */
  ghost predicate LoadedInto(disk: Disk, files: seq<File>, slot: nat, name: string, files': seq<File>) {
    && slot < |files| && files[slot].references == 0
    && exists p ::
      FirstNamed(disk, name, p) &&
        files' == files[slot := File(UNKNOWN_OFFSET, p, disk[p].pages, -1, 0, disk[p].modified)]
  }

  lemma LoadedIsNew(disk: Disk, files: seq<File>, slot: nat, name: string, p: int)
    requires NamesDistinct(disk, files) && slot < |files| && files[slot].references == 0
    requires FirstNamed(disk, name, p) && disk[p].pages > 0
    requires forall i: nat :: !Holds(disk, files, i, name)
    ensures var files' := files[slot := File(UNKNOWN_OFFSET, p, disk[p].pages, -1, 0, disk[p].modified)];
      NamesDistinct(disk, files') && Holds(disk, files', slot, name) && LoadedInto(disk, files, slot, name, files')
  {
    var files' := files[slot := File(UNKNOWN_OFFSET, p, disk[p].pages, -1, 0, disk[p].modified)];
    assert SlotName(disk, files'[slot]) == Some(name);
    forall i, j | 0 <= i < |files'| && 0 <= j < |files'| && i != j && SlotName(disk, files'[i]).Some?
      ensures SlotName(disk, files'[i]) != SlotName(disk, files'[j])
    {
      assert !Holds(disk, files, i, name) && !Holds(disk, files, j, name);
    }
  }

  /** `end` is behind the last byte that is not zero. */
  ghost predicate EndsAt(data: seq<Byte>, end: nat) {
    && end <= |data| && (end > 0 ==> data[end - 1] != 0)
    && forall k :: end <= k < |data| ==> data[k] == 0
  }

  /**
   Where a file is that is there: in a slot that knows its end, or
     else at the page of its slot or at the first extent of
   the name, and then it ends behind its last byte that is not zero.
   */
  ghost predicate FileAt(disk: Disk, files: seq<File>, name: string, p: int, end: nat) {
    && p in disk
    && (forall s: nat :: Holds(disk, files, s, name) ==>
          p == files[s].page && if files[s].end >= 0 then end == files[s].end else EndsAt(disk[p].data, end))
    && ((forall s: nat :: !Holds(disk, files, s, name)) ==> FirstNamed(disk, name, p) && EndsAt(disk[p].data, end))
  }

  /** The bytes of the file in a slot. */
  ghost function BytesOf(disk: Disk, f: File): seq<Byte> {
    if f.page in disk && 0 <= f.end <= |Content(disk, disk[f.page])| then Content(disk, disk[f.page])[..f.end] else []
  }

  /** These are the bytes of the file of this name. */
  ghost predicate Shows(disk: Disk, files: seq<File>, name: string, view: seq<Byte>) {
    exists p, end: nat ::
      FileAt(disk, files, name, p, end) && end <= |Content(disk, disk[p])| && view == Content(disk, disk[p])[..end]
  }

  /** Slot `s` was found for the name, and its end is known now. */
  lemma FoundAt(disk: Disk, files: seq<File>, s: nat, name: string, found: seq<File>, end: nat)
    requires NamesDistinct(disk, files)
    requires s < |found| && 0 <= found[s].page && Holds(disk, found, s, name)
    requires if exists i: nat :: Holds(disk, files, i, name) then found == files
             else LoadedInto(disk, files, s, name, found)
    requires if found[s].end >= 0 then end == found[s].end else EndsAt(disk[found[s].page].data, end)
    requires end <= |disk[found[s].page].data|
    ensures Shows(disk, files, name, BytesOf(disk, found[s].(end := end)))
  {
    assert FileAt(disk, files, name, found[s].page, end);
  }

  lemma EndsOnce(data: seq<Byte>, m: nat, n: nat)
    requires EndsAt(data, m) && EndsAt(data, n)
    ensures m == n
  {
  }

  /** No slot knows where the file of this name, at page `p`, ends. */
  ghost predicate EndForgotten(disk: Disk, files: seq<File>, name: string, p: int) {
    && p in disk && NamedAt(disk, files, name, p)
    && forall s: nat :: Holds(disk, files, s, name) ==> files[s].end < 0
  }

  /** A file whose end no slot knows is opened with all its bytes up to `end` exactly if the last one is not zero. */
  lemma ReopenedIff(disk: Disk, files: seq<File>, name: string, p: int, end: nat, view: seq<Byte>)
    requires EndForgotten(disk, files, name, p) && end <= |disk[p].data|
    requires Shows(disk, files, name, view)
    ensures view == Content(disk, disk[p])[..end] <==> EndsAt(disk[p].data, end)
  {
    var q, n: nat :| FileAt(disk, files, name, q, n) && n <= |Content(disk, disk[q])| &&
      view == Content(disk, disk[q])[..n];
    assert q == p && EndsAt(disk[p].data, n) by {
      SamePlace(disk, files, name, p, q, n);
    }
    if EndsAt(disk[p].data, end) {
      EndsOnce(disk[p].data, n, end);
    }
    if view == Content(disk, disk[p])[..end] {
      assert |view| == n == end;
    }
  }

  lemma SamePlace(disk: Disk, files: seq<File>, name: string, p: int, q: int, n: nat)
    requires EndForgotten(disk, files, name, p) && FileAt(disk, files, name, q, n)
    ensures q == p && EndsAt(disk[p].data, n)
  {
    if s: nat :| Holds(disk, files, s, name) {
      assert q == files[s].page == p;
    } else {
      assert FirstNamed(disk, name, p) && FirstNamed(disk, name, q);
    }
  }

  /** A file of zeros is empty when it is opened again. */
  lemma ZerosForgotten(disk: Disk, files: seq<File>, name: string, p: int, view: seq<Byte>)
    requires EndForgotten(disk, files, name, p) && (forall k :: 0 <= k < |disk[p].data| ==> disk[p].data[k] == 0)
    requires Shows(disk, files, name, view)
    ensures view == []
  {
    ReopenedIff(disk, files, name, p, 0, view);
  }

  datatype Whence = SeekSet | SeekEnd | SeekCur | OtherWhence

  ghost function SeekTarget(h: Handle, offset: int, whence: Whence): int {
    if h.Closed? then -1
    else match whence
      case SeekSet => offset
      case SeekEnd => |h.view| + offset
      case SeekCur => h.offset + offset
      case OtherWhence => -1
  }

  /** Only the descriptor's own offset moves; behind the end the file becomes longer and keeps its bytes. */
  ghost predicate AfterSeek(h: Handle, h': Handle, w: Handle, self: bool, target: nat) {
    if h.Closed? || w.Closed? || h.name != w.name then h' == h
    else
      && h' == h.(offset := if self then target else h.offset, view := if h'.Open? then h'.view else [])
      && |h'.view| == (if target > |h.view| then target else |h.view|)
      && h'.view[..|h.view|] == h.view
  }

  lemma HandlesSought(disk: Disk, files: seq<File>, fds: seq<Fd>, fd: nat, s: nat, at: nat)
    requires Valid(disk, files, fds) && fd < |fds| && fds[fd].Uses(s) && s < |files|
    requires Valid(disk, WithEnd(files, s, at), fds[fd := fds[fd].(offset := at)])
    ensures forall k :: 0 <= k < |fds| ==>
      AfterSeek(Handles(disk, files, fds)[k],
        Handles(disk, WithEnd(files, s, at), fds[fd := fds[fd].(offset := at)])[k], Handles(disk, files, fds)[fd],
        k == fd, at)
  {
    CoreMeans(disk, files, fds);
    CoreMeans(disk, WithEnd(files, s, at), fds[fd := fds[fd].(offset := at)]);
    forall k | 0 <= k < |fds|
      ensures AfterSeek(Handles(disk, files, fds)[k],
        Handles(disk, WithEnd(files, s, at), fds[fd := fds[fd].(offset := at)])[k], Handles(disk, files, fds)[fd],
        k == fd, at)
    {
      HandleSought(disk, files, fds, fd, s, at, k);
    }
  }

  lemma HandleSought(disk: Disk, files: seq<File>, fds: seq<Fd>, fd: nat, s: nat, at: nat, k: nat)
    requires Valid(disk, files, fds) && fd < |fds| && fds[fd].Uses(s) && s < |files| && k < |fds|
    requires Valid(disk, WithEnd(files, s, at), fds[fd := fds[fd].(offset := at)])
    ensures AfterSeek(Handles(disk, files, fds)[k],
      Handles(disk, WithEnd(files, s, at), fds[fd := fds[fd].(offset := at)])[k], Handles(disk, files, fds)[fd], k ==
      fd, at)
  {
    var files'', fds' := WithEnd(files, s, at), fds[fd := fds[fd].(offset := at)];
    FdFine(disk, files, fds, fd);
    FdFine(disk, files, fds, k);
    FdFine(disk, files'', fds', k);
    if !fds[k].Uses(s) && !fds[k].Free() {
      assert SlotName(disk, files[fds[k].file.value]).Some?;
    }
  }

  function ExtentAfter(disk: Disk, p: int, offset: nat, bytes: seq<Byte>): Disk
    requires p in disk && offset + |bytes| <= |disk[p].data|
  {
    disk[p := disk[p].(data := Write(disk[p].data, offset, bytes))]
  }

  lemma RoomOfOpen(disk: Disk, files: seq<File>, fds: seq<Fd>, fd: nat)
    requires Core(disk, files, fds) && fd < |fds| && !fds[fd].Free()
    ensures fds[fd].file.Some? && fds[fd].file.value < |files|
    ensures var f := files[fds[fd].file.value];
      f.page in disk && |disk[f.page].data| == Room(f.maxPages) && SlotName(disk, f).Some?
  {
    OpenFile(disk, files, fds, fd);
  }

  lemma ExtentWritten(disk: Disk, files: seq<File>, fds: seq<Fd>, s: nat, offset: nat, bytes: seq<Byte>)
    requires Valid(disk, files, fds) && s < |files| && SlotName(disk, files[s]).Some? && !files[s].modified
    requires offset + |bytes| <= |disk[files[s].page].data|
    ensures Written(disk, files, fds, ExtentAfter(disk, files[s].page, offset, bytes), files, s, offset, bytes)
  {
    CoreMeans(disk, files, fds);
    var p := files[s].page;
    var disk' := ExtentAfter(disk, p, offset, bytes);
    assert SlotOk(disk, files[s]);
    ChangeData(disk, files, fds, p, Write(disk[p].data, offset, bytes));
    forall i | 0 <= i < |fds| && !fds[i].Uses(s) ensures Handles(disk', files, fds)[i] == Handles(disk, files, fds)[i] {
      assert FdOk(disk, files, fds[i]);
    }
    CoreMeans(ExtentAfter(disk, files[s].page, offset, bytes), files, fds);
  }

  lemma RoomGrows(pages: nat)
    requires pages >= 1
    ensures Room(2 * pages) > Room(pages)
  {
    MulMonotone(PAGE_SIZE, pages, 2 * pages);
  }

  /** `v` with `bytes` in place of what was at `at`, longer if they reach behind its end. */
  function Splice(v: seq<Byte>, at: nat, bytes: seq<Byte>): (r: seq<Byte>)
    requires at <= |v|
    ensures |r| == if at + |bytes| > |v| then at + |bytes| else |v|
    ensures forall i :: 0 <= i < |r| ==> r[i] == if at <= i < at + |bytes| then bytes[i - at] else v[i]
  {
    v[..at] + bytes + if at + |bytes| < |v| then v[at + |bytes|..] else []
  }

  /** What handle `h` is after `bytes` were written through handle `w`. */
  ghost function AfterWrite(h: Handle, w: Handle, self: bool, bytes: seq<Byte>): Handle
    requires w.Open? && w.offset <= |w.view|
  {
    if h.Closed? || h.name != w.name then h
    else h.(view := Splice(w.view, w.offset, bytes), offset := h.offset + if self then |bytes| else 0)
  }

  /** Every handle of the file sees the written range and the writer moved behind it; no other handle changed. */
  ghost function AfterWrites(h: seq<Handle>, fd: nat, bytes: seq<Byte>): (h': seq<Handle>)
    requires fd < |h| && h[fd].Open? && h[fd].offset <= |h[fd].view|
    ensures |h'| == |h| && forall k :: 0 <= k < |h| ==> h'[k] == AfterWrite(h[k], h[fd], k == fd, bytes)
  {
    seq(|h|, k requires 0 <= k < |h| => AfterWrite(h[k], h[fd], k == fd, bytes))
  }

  ghost predicate WroteThrough(h: seq<Handle>, h': seq<Handle>, fd: nat, bytes: seq<Byte>) {
    fd < |h| && h[fd].Open? && h[fd].offset <= |h[fd].view| && h' == AfterWrites(h, fd, bytes)
  }

  /** Two writes in a row are one write. */
  lemma SpliceTwice(v: seq<Byte>, at: nat, b: seq<Byte>, c: seq<Byte>)
    requires at <= |v|
    ensures at + |b| <= |Splice(v, at, b)|
    ensures Splice(Splice(v, at, b), at + |b|, c) == Splice(v, at, b + c)
  {
  }

  lemma WroteTwice(h: seq<Handle>, h': seq<Handle>, h'': seq<Handle>, fd: nat, b: seq<Byte>, c: seq<Byte>)
    requires WroteThrough(h, h', fd, b) && WroteThrough(h', h'', fd, c)
    ensures WroteThrough(h, h'', fd, b + c)
  {
    SpliceTwice(h[fd].view, h[fd].offset, b, c);
  }

  lemma WroteNothing(disk: Disk, files: seq<File>, fds: seq<Fd>, fd: nat)
    requires Valid(disk, files, fds) && fd < |fds| && !fds[fd].Free()
    ensures WroteThrough(Handles(disk, files, fds), Handles(disk, files, fds), fd, [])
  {
    OpenFile(disk, files, fds, fd);
    var w := Handles(disk, files, fds)[fd];
    var s := fds[fd].file.value;
    assert Holds(disk, files, s, w.name);
    SharedView(disk, files, fds, s, w.name);
    assert Splice(w.view, w.offset, []) == w.view;
    forall k | 0 <= k < |fds|
      ensures Handles(disk, files, fds)[k] == AfterWrite(Handles(disk, files, fds)[k], w, k == fd, [])
    {
      assert Handles(disk, files, fds)[k] in Handles(disk, files, fds);
    }
  }

  /** A write within the content is a splice of what is seen of it. */
  lemma WriteIsSplice(c: seq<Byte>, end: nat, at: nat, bytes: seq<Byte>)
    requires at <= end <= |c| && at + |bytes| <= |c|
    ensures Write(c, at, bytes)[..if at + |bytes| > end then at + |bytes| else end] == Splice(c[..end], at, bytes)
  {
  }

  /** What a record written through slot `s` leaves: its bytes in place of the old, and all else as it was. */
  ghost predicate Written(disk: Disk, files: seq<File>, fds: seq<Fd>, disk': Disk, files': seq<File>, s: nat,
        offset: nat, bytes: seq<Byte>) {
    && Valid(disk, files, fds) && Valid(disk', files', fds) && s < |files| && s < |files'| && files[s].page in disk &&
      files[s].page in disk'
    && files'[s].page == files[s].page && files'[s].end == files[s].end && files'[s].maxPages == files[s].maxPages > 0
    && offset + |bytes| <= |disk[files[s].page].data| == |disk'[files[s].page].data|
    && Content(disk', disk'[files[s].page]) == Write(Content(disk, disk[files[s].page]), offset, bytes)
    && disk'[files[s].page].name == disk[files[s].page].name && SlotName(disk, files[s]).Some?
    && files'[s].references == files[s].references
    && forall i :: 0 <= i < |fds| && !fds[i].Uses(s) ==> Handles(disk', files', fds)[i] == Handles(disk, files, fds)[i]
  }

  /** The file object after a write up to `at`. */
  function WithEnd(files': seq<File>, s: nat, at: nat): seq<File>
    requires s < |files'|
  {
    if at > files'[s].end then files'[s := files'[s].(end := at)] else files'
  }

  lemma EndMoves(disk': Disk, files': seq<File>, fds: seq<Fd>, fd: nat, s: nat, at: nat)
    requires Valid(disk', files', fds) && fd < |fds| && fds[fd].Uses(s) && s < |files'|
    requires files'[s].page in disk' && files'[s].end >= 0 && at <= |disk'[files'[s].page].data|
    ensures Valid(disk', WithEnd(files', s, at), fds[fd := fds[fd].(offset := at)])
    ensures SlotName(disk', WithEnd(files', s, at)[s]) == SlotName(disk', files'[s])
  {
    CoreMeans(disk', files', fds);
    var files'' := WithEnd(files', s, at);
    assert FdOk(disk', files', fds[fd]);
    if at > files'[s].end {
      SetEnd(disk', files', fds, s, at);
    }
    ChangeFd(disk', files'', fds, files'', fd, fds[fd].(offset := at));
    assert forall i :: 0 <= i < |files'| ==> SlotName(disk', files''[i]) == SlotName(disk', files'[i]);
    CoreMeans(disk', WithEnd(files', s, at), fds[fd := fds[fd].(offset := at)]);
  }

  lemma ContentSpliced(disk: Disk, files: seq<File>, disk': Disk, files': seq<File>, fds: seq<Fd>, fd: nat, s: nat,
        bytes: seq<Byte>, at: nat)
    requires fd < |fds| && fds[fd].Uses(s)
    requires Written(disk, files, fds, disk', files', s, fds[fd].offset, bytes)
    requires at == fds[fd].offset + |bytes|
    ensures fds[fd].offset <= files[s].end <= |disk[files[s].page].data| && SlotName(disk', files'[s]).Some?
    ensures Content(disk', disk'[files[s].page])[..if at > files[s].end then at else files[s].end] ==
      Splice(Content(disk, disk[files[s].page])[..files[s].end], fds[fd].offset, bytes)
  {
    CoreMeans(disk, files, fds);
    CoreMeans(disk', files', fds);
    assert FdOk(disk, files, fds[fd]) && FdOk(disk', files', fds[fd]);
    WriteIsSplice(Content(disk, disk[files[s].page]), files[s].end, fds[fd].offset, bytes);
  }

  lemma SlotStays(disk: Disk, files: seq<File>, disk': Disk, files': seq<File>, fds: seq<Fd>, fd: nat, s: nat,
        bytes: seq<Byte>)
    requires fd < |fds| && fds[fd].Uses(s) && Written(disk, files, fds, disk', files', s, fds[fd].offset, bytes)
    ensures files'[s].page in disk' && files'[s].end >= 0
    ensures fds[fd].offset + |bytes| <= |disk'[files'[s].page].data| && SlotName(disk', files'[s]).Some?
  {
    CoreMeans(disk, files, fds);
    CoreMeans(disk', files', fds);
    assert FdOk(disk', files', fds[fd]);
  }

  lemma HandlesWritten(disk: Disk, files: seq<File>, disk': Disk, files': seq<File>, fds: seq<Fd>, fd: nat, s: nat,
        bytes: seq<Byte>, at: nat)
    requires fd < |fds| && fds[fd].Uses(s)
    requires Written(disk, files, fds, disk', files', s, fds[fd].offset, bytes)
    requires at == fds[fd].offset + |bytes|
    ensures Valid(disk', WithEnd(files', s, at), fds[fd := fds[fd].(offset := at)])
    ensures SlotName(disk', WithEnd(files', s, at)[s]).Some?
    ensures WroteThrough(Handles(disk, files, fds),
      Handles(disk', WithEnd(files', s, at), fds[fd := fds[fd].(offset := at)]), fd, bytes)
  {
    var files'', fds' := WithEnd(files', s, at), fds[fd := fds[fd].(offset := at)];
    SlotStays(disk, files, disk', files', fds, fd, s, bytes);
    EndMoves(disk', files', fds, fd, s, at);
    ContentSpliced(disk, files, disk', files', fds, fd, s, bytes, at);
    OpenFile(disk, files, fds, fd);
    var h, h' := Handles(disk, files, fds), Handles(disk', files'', fds');
    forall k | 0 <= k < |fds| ensures h'[k] == AfterWrite(h[k], h[fd], k == fd, bytes) {
      HandleWritten(disk, files, disk', files', fds, fd, s, bytes, at, k);
    }
  }

  lemma HandleWritten(disk: Disk, files: seq<File>, disk': Disk, files': seq<File>, fds: seq<Fd>, fd: nat, s: nat,
        bytes: seq<Byte>, at: nat, k: nat)
    requires fd < |fds| && fds[fd].Uses(s)
    requires Written(disk, files, fds, disk', files', s, fds[fd].offset, bytes)
    requires at == fds[fd].offset + |bytes|
    requires Valid(disk', WithEnd(files', s, at), fds[fd := fds[fd].(offset := at)])
    requires fds[fd].offset <= files[s].end <= |disk[files[s].page].data| && k < |fds|
    requires Content(disk', disk'[files[s].page])[..if at > files[s].end then at else files[s].end] ==
      Splice(Content(disk, disk[files[s].page])[..files[s].end], fds[fd].offset, bytes)
    ensures var w := Handles(disk, files, fds)[fd];
      w.Open? && w.offset <= |w.view| &&
      Handles(disk', WithEnd(files', s, at), fds[fd := fds[fd].(offset := at)])[k] ==
        AfterWrite(Handles(disk, files, fds)[k], w, k == fd, bytes)
  {
    var files'', fds' := WithEnd(files', s, at), fds[fd := fds[fd].(offset := at)];
    FdFine(disk, files, fds, fd);
    FdFine(disk, files, fds, k);
    FdFine(disk', files'', fds', k);
    FdFine(disk', files', fds, k);
    if !fds[k].Uses(s) {
      assert Handles(disk', files'', fds')[k] == Handles(disk', files', fds)[k];
      assert !fds[k].Free() ==> SlotName(disk, files[fds[k].file.value]).Some?;
    }
  }

  /** The log of a slot, of which the count of records is known or can be found. */
  lemma LogOfSlot(disk: Disk, files: seq<File>, s: nat)
    requires DiskOk(disk) && SlotsOk(disk, files) && s < |files| && SlotName(disk, files[s]).Some?
    ensures var e := disk[files[s].page];
      && files[s].modified == e.modified && 1 <= Records(e) <= LOG_TABLE_LIMIT
      && (e.modified ==> LogOk(disk, e))
      && (e.modified && files[s].recordCount >= 0 ==> LogCount(disk[e.logPage].data, Records(e), files[s].recordCount))
      && (!e.modified ==> Content(disk, e) == e.data)
  {
    assert SlotOk(disk, files[s]) && ExtentOk(disk, disk[files[s].page]);
  }

  lemma SameSize(e: Extent, e': Extent)
    requires e'.logRecords == e.logRecords && e'.logRecordSize == e.logRecordSize
    ensures Size(e') == Size(e) && Records(e') == Records(e)
  {
  }

  lemma MergedSlot(disk': Disk, files': seq<File>, fds': seq<Fd>, t: nat, disk: Disk, p: int, end: int, pages: nat)
    requires Core(disk', files', fds') && t < |files'| && files'[t].maxPages > 0
    requires MergeOf(disk, disk', p, files'[t].page, end, pages)
    ensures files'[t].maxPages == pages && !files'[t].modified
  {
    CoreMeans(disk', files', fds');
    assert SlotOk(disk', files'[t]);
  }

  lemma RegionsOfSlot(disk: Disk, files: seq<File>, s: nat, offset: nat)
    requires DiskOk(disk) && SlotsOk(disk, files) && s < |files| && SlotName(disk, files[s]).Some?
    requires offset < |disk[files[s].page].data|
    ensures offset / Size(disk[files[s].page]) < 65535
  {
    var e := disk[files[s].page];
    assert ExtentOk(disk, e);
    RoomMonotone(e.pages, PAGE_COUNT);
    RegionFits(e, offset);
  }

  lemma LogPages(records: nat, size: Positive)
    ensures records * (2 + size) == RecordStart(records, size, records)
  {
  }

  lemma EmptyLogFits(d: seq<Byte>, records: nat, size: Positive)
    requires RecordStart(records, size, records) <= |d| && forall k :: 0 <= k < |d| ==> d[k] == 0
    ensures LogFits(d, records, size) && LogCount(d, records, 0)
  {
    assert RecordStart(records, size, records) >= 2 * records;
  }

  lemma SameNames(disk: Disk, files: seq<File>, disk': Disk, files': seq<File>, slot: Option<nat>)
    requires NamesDistinct(disk, files) && |files'| == |files|
    requires forall i :: 0 <= i < |files| && slot != Some(i) ==> SlotName(disk', files'[i]) == SlotName(disk, files[i])
    requires slot.Some? ==> slot.value < |files'| && SlotName(disk', files'[slot.value]) == None
    ensures NamesDistinct(disk', files')
  {
  }

  /** A page that was not in use is not the log of any file. */
  lemma NoOwner(disk: Disk, disk': Disk, p: int)
    requires DiskOk(disk) && p !in disk && p in disk' && disk' == disk[p := disk'[p]] && !disk'[p].modified
    ensures forall q :: q in disk' && disk'[q].modified ==> disk'[q].logPage != p
  {
    forall q | q in disk' && disk'[q].modified ensures disk'[q].logPage != p {
      assert ExtentOk(disk, disk[q]);
    }
  }

  /** Slot `t` has a new extent for the file of slot `s`, which is open at `fd` for copying. */
  ghost predicate Mergeable(disk: Disk, files: seq<File>, fds: seq<Fd>, s: nat, t: nat, fd: nat) {
    && Core(disk, files, fds) && s < |files| && t < |files| && s != t && fd < |fds|
    && SlotName(disk, files[s]).Some? && files[s].end >= 0 && fds[fd] == Fd(0, Some(s), true, false, false)
    && files[t].page in disk && files[t] == File(0, files[t].page, files[t].maxPages, -1, 0, false) &&
      files[t].maxPages >= files[s].maxPages
    && Room(files[t].maxPages) >= 0 &&
      disk[files[t].page] == FreshExtent(disk[files[s].page].name, files[t].maxPages, false)
    && OtherNames(disk, files, t)
  }

  /** The file at `p` and its log are replaced by an extent at `q` that reads the same and has no log. */
  ghost predicate MergeOf(disk: Disk, disk': Disk, p: int, q: int, end: int, pages: nat) {
    && p in disk && q in disk' && 0 <= end <= |disk'[q].data| && end <= |disk[p].data|
    && disk' == Without(disk,
      WithLog(disk, p))[q := Extent(disk[p].name, pages, false, false, 0, disk[p].logRecords, disk[p].logRecordSize,
      disk'[q].data)]
    && disk'[q].data[..end] == Content(disk, disk[p])[..end]
  }

  /** A descriptor that moves with the others and is closed then. */
  lemma ClosedMove(fds: seq<Fd>, fd: nat, s: nat, t: nat, offset: nat)
    requires fd < |fds| && fds[fd].Uses(s) && fds[fd].read && !fds[fd].write && !fds[fd].append
    ensures var moved := MoveFds(fds[fd := fds[fd].(offset := offset)], s, t);
      && moved[fd] == Fd(offset, Some(t), true, false, false)
      && moved[fd := Close(moved[fd]).(file := None)] == MoveFds(fds, s, t)[fd := Fd(offset, None, false, false, false)]
  {
  }

  /** The open descriptors of slot `s` are the ones whose file object is at `page`. */
  ghost predicate UsersAreAt(files: seq<File>, fds: seq<Fd>, s: nat, page: int) {
    forall k :: 0 <= k < |fds| && !fds[k].Free() ==>
      fds[k].file.Some? && fds[k].file.value < |files| && (fds[k].Uses(s) <==> files[fds[k].file.value].page == page)
  }

  lemma PagesOfUsers(disk: Disk, files: seq<File>, fds: seq<Fd>, s: nat)
    requires Core(disk, files, fds) && s < |files| && files[s].maxPages > 0
    ensures UsersAreAt(files, fds, s, files[s].page) && PointersInside(MoveFds(fds, s, s), files)
    ensures files[s].references == Refs(fds, s)
  {
    CoreMeans(disk, files, fds);
    forall k | 0 <= k < |fds| ensures (fds[k].file.Some? ==> fds[k].file.value < |files|)
      && (!fds[k].Free() ==> fds[k].file.Some? && (fds[k].Uses(s) <==> files[fds[k].file.value].page == files[s].page))
    {
      assert FdOk(disk, files, fds[k]);
    }
  }

  lemma CopyStays(disk: Disk, files: seq<File>, s: nat, t: nat)
    requires DiskOk(disk) && SlotsOk(disk, files) && CopyOf(disk, files, s, t)
    ensures files[t].page in disk && files[t].page !in WithLog(disk, files[s].page)
  {
    LogIsOwn(disk, files[s].page);
  }

  lemma RoomOfSlot(disk: Disk, files: seq<File>, s: nat)
    requires DiskOk(disk) && SlotsOk(disk, files) && s < |files| && files[s].maxPages > 0
    ensures files[s].page in disk && disk[files[s].page].pages == files[s].maxPages
    ensures Room(files[s].maxPages) == |disk[files[s].page].data|
  {
    assert SlotOk(disk, files[s]) && ExtentOk(disk, disk[files[s].page]);
  }

  lemma ReadyToMerge(disk: Disk, files: seq<File>, disk': Disk, files': seq<File>, fds: seq<Fd>, s: nat, t: nat,
        fd: nat)
    requires NamesDistinct(disk, files) && Core(disk', files', fds) && s < |files| && t < |files|
    requires |files'| == |files| && fd < |fds| && fds[fd] == Fd(0, Some(s), true, false, false)
    requires files[s].references > 0 && files[t].references == 0
    requires files' == files[t := File(0, files'[t].page, files'[t].maxPages, -1, 0, false)]
    requires SlotName(disk, files[s]).Some? && files[s].end >= 0
    requires disk'[files'[s].page] == disk[files[s].page] && files'[t].maxPages >= files[s].maxPages
    requires files'[t].page in disk' && Room(files'[t].maxPages) >= 0
    requires disk'[files'[t].page] == FreshExtent(disk[files[s].page].name, files'[t].maxPages, false)
    requires forall i :: 0 <= i < |files| && i != t ==> SlotName(disk', files'[i]) == SlotName(disk, files[i])
    ensures Mergeable(disk', files', fds, s, t, fd)
  {
    CoreMeans(disk', files', fds);

  }

  /** Whether the new extent counts among the old ones makes no difference. */
  lemma MergeOfOlder(disk: Disk, disk': Disk, p: int, q: int)
    requires p in disk && q !in disk && q in disk' && disk' == disk[q := disk'[q]]
    requires Content(disk', disk[p]) == Content(disk, disk[p])
    ensures forall disk'': Disk, end, pages ::
      MergeOf(disk', disk'', p, q, end, pages) ==> MergeOf(disk, disk'', p, q, end, pages)
  {
    forall disk'': Disk, end, pages | MergeOf(disk', disk'', p, q, end, pages)
      ensures MergeOf(disk, disk'', p, q, end, pages)
    {
      var e := Extent(disk[p].name, pages, false, false, 0, disk[p].logRecords, disk[p].logRecordSize, disk''[q].data);
      assert Without(disk', WithLog(disk', p))[q := e] == Without(disk, WithLog(disk, p))[q := e];
    }
  }

  lemma NotOpenYet(disk: Disk, files: seq<File>, fds: seq<Fd>, t: nat)
    requires Core(disk, files, fds) && t < |files| && files[t].maxPages > 0 && files[t].references == 0
    ensures NotOpen(files, fds, files[t].page)
  {
    CoreMeans(disk, files, fds);
    RefsZero(fds, t);
    forall k | 0 <= k < |fds| && !fds[k].Free() ensures files[fds[k].file.value].page != files[t].page {
      assert FdOk(disk, files, fds[k]) && !fds[k].Uses(t);
    }
  }

  /** What copying leaves is a copy of the file in slot `t`. */
  lemma CopyIsMade(disk: Disk, fds: seq<Fd>, disk': Disk, fds': seq<Fd>, files: seq<File>, s: nat, t: nat, fd: nat)
    requires Mergeable(disk, files, fds, s, t, fd) && Copyable(disk, files, fds, fd, files[t].page)
    requires Copied(disk, fds, disk', fds', files, fd, files[t].page, 0, |Handles(disk, files, fds)[fd].view|)
    ensures CopyOf(disk', files, s, t) && !disk'[files[t].page].modified
    ensures |Handles(disk, files, fds)[fd].view| == files[s].end
    ensures forall i, j ::
      0 <= i < |files| && 0 <= j < |files| && i != t && j != t && i != j && SlotName(disk', files[i]).Some? ==>
      SlotName(disk', files[i]) != SlotName(disk', files[j])
    ensures MergeOf(disk, MergedDisk(disk', files[s].page, files[t].page), files[s].page, files[t].page, files[s].end,
      files[t].maxPages)
  {
    var p, q := files[s].page, files[t].page;
    OpenFile(disk, files, fds, fd);
    var view := Handles(disk, files, fds)[fd].view;
    assert Content(disk', disk'[p]) == Content(disk, disk[p]);
    assert disk'[q].data[..files[s].end] == view;
    assert forall i :: 0 <= i < |files| ==> SlotName(disk', files[i]) == SlotName(disk, files[i]);
    assert Without(disk',
      WithLog(disk', p))[q := disk'[q].(logRecords := disk[p].logRecords, logRecordSize := disk[p].logRecordSize)]
      == Without(disk, WithLog(disk, p))[q := disk'[q].(logRecords := disk[p].logRecords,
        logRecordSize := disk[p].logRecordSize)];
  }

  lemma CanCopy(disk: Disk, files: seq<File>, fds: seq<Fd>, s: nat, t: nat, fd: nat)
    requires Mergeable(disk, files, fds, s, t, fd)
    ensures Copyable(disk, files, fds, fd, files[t].page)
  {
    CoreMeans(disk, files, fds);
    assert SlotOk(disk, files[s]) && SlotOk(disk, files[t]);
    OpenFile(disk, files, fds, fd);
    NotOpenYet(disk, files, fds, t);
    RoomMonotone(files[s].maxPages, files[t].maxPages);
  }

  /** Extent `q`, which nobody has open, has room for what descriptor `fd` sees. */
  ghost predicate Copyable(disk: Disk, files: seq<File>, fds: seq<Fd>, fd: nat, q: int) {
    && Core(disk, files, fds) && fd < |fds| && fds[fd].read && NotOpen(files, fds, q)
    && q in disk && !disk[q].log && !disk[q].modified && Handles(disk, files, fds)[fd].Open? &&
      |Handles(disk, files, fds)[fd].view| <= |disk[q].data|
  }

  /** The bytes from `lo` to `hi` that descriptor `fd` sees were copied to extent `q`, and nothing else changed. */
  ghost predicate Copied(disk: Disk, fds: seq<Fd>, disk': Disk, fds': seq<Fd>, files: seq<File>, fd: nat, q: int,
        lo: nat, hi: nat)
    requires Copyable(disk, files, fds, fd, q)
  {
    var h := Handles(disk, files, fds)[fd];
    && lo <= hi <= |h.view|
    && fds' == fds[fd := fds[fd].(offset := hi)]
    && OnlyData(disk, disk', q) && disk'[q].data == Write(disk[q].data, lo, h.view[lo..hi])
    && Core(disk', files, fds') && Handles(disk', files, fds') == Handles(disk, files, fds)[fd := h.(offset := hi)]
  }

  lemma NothingCopied(disk: Disk, files: seq<File>, fds: seq<Fd>, fd: nat, q: int)
    requires Copyable(disk, files, fds, fd, q) && fds[fd].offset == 0
    ensures Copied(disk, fds, disk, fds, files, fd, q, 0, 0)
  {
    assert Write(disk[q].data, 0, []) == disk[q].data;
    assert !fds[fd].Free();
    assert disk == disk[q := disk[q].(data := disk[q].data)];
    assert fds == fds[fd := fds[fd].(offset := 0)];
  }

  lemma CopyAgain(disk: Disk, fds: seq<Fd>, disk': Disk, files: seq<File>, fds': seq<Fd>, fd: nat, q: int, n: nat)
    requires Copyable(disk, files, fds, fd, q) && Copied(disk, fds, disk', fds', files, fd, q, 0, n)
    ensures Copyable(disk', files, fds', fd, q)
  {
    NotOpenMoved(files, fds, fds', fd, q);
  }

  lemma CopiedMore(disk: Disk, fds: seq<Fd>, disk': Disk, fds': seq<Fd>, disk'': Disk, fds'': seq<Fd>,
        files: seq<File>, fd: nat, q: int, n: nat, m: nat)
    requires Copyable(disk, files, fds, fd, q) && Copied(disk, fds, disk', fds', files, fd, q, 0, n)
    requires Copyable(disk', files, fds', fd, q) && Copied(disk', fds', disk'', fds'', files, fd, q, n, n + m)
    ensures Copied(disk, fds, disk'', fds'', files, fd, q, 0, n + m)
  {
    OnlyDataTwice(disk, disk', disk'', q);
    WriteNext(disk[q].data, Handles(disk, files, fds)[fd].view, n, m);
  }

  /** Nothing but the bytes of extent `q` changed, and no other file's content. */
  ghost predicate OnlyData(disk: Disk, disk': Disk, q: int) {
    && q in disk && q in disk' && disk' == disk[q := disk[q].(data := disk'[q].data)]
    && forall r :: r in disk && r != q ==> Content(disk', disk[r]) == Content(disk, disk[r])
  }

  lemma OnlyDataTwice(disk: Disk, disk': Disk, disk'': Disk, q: int)
    requires OnlyData(disk, disk', q) && OnlyData(disk', disk'', q)
    ensures OnlyData(disk, disk'', q)
  {
    forall r | r in disk && r != q ensures Content(disk'', disk[r]) == Content(disk, disk[r]) {
      assert disk'[r] == disk[r];
    }
  }

  ghost predicate NotOpen(files: seq<File>, fds: seq<Fd>, q: int) {
    forall k :: 0 <= k < |fds| && !fds[k].Free() ==>
      fds[k].file.Some? && fds[k].file.value < |files| && files[fds[k].file.value].page != q
  }

  lemma NotOpenMoved(files: seq<File>, fds: seq<Fd>, fds': seq<Fd>, fd: nat, q: int)
    requires NotOpen(files, fds, q) && fd < |fds| && |fds'| == |fds|
    requires fds' == fds[fd := fds[fd].(offset := fds'[fd].offset)]
    ensures NotOpen(files, fds', q)
  {
  }

  lemma ChangeUnopened(disk: Disk, files: seq<File>, fds: seq<Fd>, q: int, data: seq<Byte>)
    requires Core(disk, files, fds) && q in disk && !disk[q].log && !disk[q].modified
    requires |data| == |disk[q].data| && NotOpen(files, fds, q)
    ensures var disk' := disk[q := disk[q].(data := data)];
      Core(disk', files, fds) && Handles(disk', files, fds) == Handles(disk, files, fds) && OnlyData(disk, disk', q)
  {
    ChangeData(disk, files, fds, q, data);
  }

  /** Exactly one file of this name and its log are gone. */
  ghost predicate RemovedFrom(disk: Disk, disk': Disk, name: string) {
    exists p :: p in disk && !disk[p].log && disk[p].name == name && disk' == Without(disk, WithLog(disk, p))
  }

  /** The file of this name: that of its slot, else the first on the flash. */
  ghost predicate NamedAt(disk: Disk, files: seq<File>, name: string, p: int) {
    && (forall s: nat :: Holds(disk, files, s, name) ==> p == files[s].page)
    && ((forall s: nat :: !Holds(disk, files, s, name)) ==> FirstNamed(disk, name, p))
  }

  lemma FoundNamed(disk: Disk, files: seq<File>, s: nat, name: string, found: seq<File>)
    requires NamesDistinct(disk, files) && s < |found| && Holds(disk, found, s, name)
    requires if exists i: nat :: Holds(disk, files, i, name) then found == files
             else LoadedInto(disk, files, s, name, found)
    ensures NamedAt(disk, files, name, found[s].page)
  {
  }

  /** The file of this name and its log are gone, and nothing else. */
  ghost predicate RemovedOne(disk: Disk, files: seq<File>, disk': Disk, name: string) {
    exists p :: NamedAt(disk, files, name, p) && p in disk && disk' == Without(disk, WithLog(disk, p))
  }

  ghost function ClosedIfNamed(h: Handle, name: string): Handle {
    if h.Open? && h.name == name then Closed else h
  }

  lemma LogInside(disk: Disk, p: int)
    requires DiskOk(disk) && p in disk && !disk[p].log
    ensures INVALID_PAGE !in WithLog(disk, p) && forall q :: q in WithLog(disk, p) ==> q in disk
    ensures disk[p].modified ==> disk[p].logPage in disk && disk[p].logPage != p && disk[p].logPage != INVALID_PAGE
  {
    assert ExtentOk(disk, disk[p]);
  }

  lemma SlotsDropped(disk: Disk, files: seq<File>, fds: seq<Fd>, s: nat, name: string)
    requires Valid(disk, files, fds) && Holds(disk, files, s, name)
    ensures var gone := WithLog(disk, files[s].page);
      var disk', files', fds' := Without(disk, gone), ResetSlots(files, gone), CloseFds(fds, s);
      && Valid(disk', files', fds') && RemovedFrom(disk, disk', name)
      && forall k :: 0 <= k < |fds| ==>
        Handles(disk', files', fds')[k] == ClosedIfNamed(Handles(disk, files, fds)[k], name)
  {
    var p := files[s].page;
    var gone := WithLog(disk, p);
    DiskFine(disk, files, fds);
    var files1, fds' := files[s := files[s].(references := 0)], CloseFds(fds, s);
    CloseAll(disk, files, fds, s);
    LogIsOwn(disk, p);
    LogInside(disk, p);
    forall i | 0 <= i < |fds'| && !fds'[i].Free() ensures files1[fds'[i].file.value].page !in gone {
      FdFine(disk, files, fds, i);
      PagesApart(disk, files, fds, s, fds[i].file.value);
    }
    DropExtents(disk, files1, fds', gone);
    assert ResetSlots(files1, gone) == ResetSlots(files, gone);
    forall k | 0 <= k < |fds|
      ensures fds[k].Uses(s) <==> Handles(disk, files, fds)[k].Open? && Handles(disk, files, fds)[k].name == name
    {
      FdFine(disk, files, fds, k);
      assert !fds[k].Free() ==> SlotName(disk, files[fds[k].file.value]).Some?;
    }
  }

  lemma WriteNext(data: seq<Byte>, view: seq<Byte>, offset: nat, n: nat)
    requires offset + n <= |view| <= |data|
    ensures Write(Write(data, 0, view[..offset]), offset, view[offset..offset + n]) ==
      Write(data, 0, view[..offset + n])
  {
  }

  /** What is known of the file of an open descriptor. */
  lemma OpenFile(disk: Disk, files: seq<File>, fds: seq<Fd>, fd: nat)
    requires Core(disk, files, fds) && fd < |fds| && !fds[fd].Free()
    ensures fds[fd].file.Some? && fds[fd].file.value < |files|
    ensures var f := files[fds[fd].file.value];
      && f.page in disk && !disk[f.page].log && f.maxPages == disk[f.page].pages && f.modified == disk[f.page].modified
      && |disk[f.page].data| == Room(f.maxPages) && fds[fd].offset <= f.end <= |disk[f.page].data|
      && (f.modified ==> LogOk(disk, disk[f.page])) &&
        (!f.modified ==> Content(disk, disk[f.page]) == disk[f.page].data)
      && (f.modified && f.recordCount >= 0 ==>
        LogCount(disk[disk[f.page].logPage].data, Records(disk[f.page]), f.recordCount))
      && Handles(disk, files, fds)[fd] ==
        Open(disk[f.page].name, Content(disk, disk[f.page])[..f.end], fds[fd].offset, fds[fd].read, fds[fd].write,
        fds[fd].append)
  {
    CoreMeans(disk, files, fds);
    assert FdOk(disk, files, fds[fd]);
    var f := files[fds[fd].file.value];
    assert SlotOk(disk, f) && ExtentOk(disk, disk[f.page]);
  }

  lemma OffsetInView(disk: Disk, files: seq<File>, fds: seq<Fd>, fd: nat)
    requires Core(disk, files, fds) && fd < |fds| && !fds[fd].Free()
    ensures fds[fd].file.Some? && fds[fd].file.value < |files|
    ensures var h := Handles(disk, files, fds)[fd];
      h.Open? && h.offset == fds[fd].offset && |h.view| == files[fds[fd].file.value].end
  {
    OpenFile(disk, files, fds, fd);
  }

  /** `buf` is what a read of `size` bytes through handle `h` must give. */
  ghost predicate ReadOf(h: Handle, size: nat, n: int, buf: seq<Byte>) {
    && h.Open? && h.offset <= |h.view|
    && n == (if size < |h.view| - h.offset then size else |h.view| - h.offset)
    && buf == h.view[h.offset..h.offset + n]
  }

  /** The pages of a log for extent `e`: the index and the records. */
  function LogPageCount(e: Extent): nat {
    PageCount(Records(e) * (2 + Size(e)))
  }

  /** A log has pages for just an index of two bytes and a region for each record. */
  lemma LogPagesIff(e: Extent, pages: nat)
    ensures var size := if e.logRecordSize == 0 then PAGE_SIZE else e.logRecordSize;
      var records := if e.logRecords == 0 then LOG_SIZE / size else e.logRecords;
      pages >= LogPageCount(e) <==> pages * PAGE_SIZE >= HDR_SIZE + records * (2 + size)
  {
    PageCountIff(Records(e) * (2 + Size(e)), pages);
  }

  /** What is left of `size` bytes from `offset` within the region of `offset`. */
  function Trimmed(e: Extent, offset: nat, size: nat): (t: nat)
    ensures t <= size && (size > 0 ==> t > 0) && offset % Size(e) + t <= Size(e)
  {
    if size > Size(e) - offset % Size(e) then Size(e) - offset % Size(e) else size
  }

  /** The log of extent `e` has `free` records left. */
  ghost predicate FreeRecords(disk: Disk, e: Extent, free: nat) {
    && e.modified && LogOk(disk, e) && free <= Records(e)
    && LogCount(disk[e.logPage].data, Records(e), Records(e) - free)
  }

  /** How many of `n` bytes from `offset` lie in the first `k` regions touched. */
  ghost function Reach(e: Extent, offset: nat, n: nat, k: nat): (r: nat)
    ensures r <= n
    decreases n
  {
    if n == 0 || k == 0 then 0
    else
      var t := Trimmed(e, offset, n);
      t + Reach(e, offset + t, n - t, k - 1)
  }

  /** The number of regions that `n` bytes from `offset` touch. */
  ghost function Regions(e: Extent, offset: nat, n: nat): nat
    decreases n
  {
    if n == 0 then 0
    else
      var t := Trimmed(e, offset, n);
      1 + Regions(e, offset + t, n - t)
  }

  lemma {:induction false} RegionsAre(e: Extent, offset: nat, n: nat)
    requires n > 0
    ensures Regions(e, offset, n) == (offset + n - 1) / Size(e) - offset / Size(e) + 1
    decreases n
  {
    var size: Positive := Size(e);
    var t := Trimmed(e, offset, n);
    DivMod(offset, size);
    if t < n {
      NextRegionStarts(offset, size, t);
      RegionsAre(e, offset + t, n - t);
    } else {
      InSameRegion(offset, size, n - 1);
    }
  }

  lemma NextRegionStarts(offset: nat, size: Positive, t: nat)
    requires t == size - offset % size
    ensures (offset + t) / size == offset / size + 1
  {
    DivMod(offset, size);
    DivModUnique(offset + t, size, offset / size + 1, 0);
  }

  /** All bytes are in the first `k` regions touched just if there are no more regions. */
  lemma {:induction false} ReachesAllIff(e: Extent, offset: nat, n: nat, k: nat)
    ensures Reach(e, offset, n, k) == n <==> Regions(e, offset, n) <= k
    decreases n
  {
    if n > 0 && k > 0 {
      var t := Trimmed(e, offset, n);
      ReachesAllIff(e, offset + t, n - t, k - 1);
    }
  }

  lemma NoFreeRecord(disk: Disk, files: seq<File>, s: nat, free: nat)
    requires DiskOk(disk) && SlotsOk(disk, files) && s < |files| && SlotName(disk, files[s]).Some?
    requires FreeRecords(disk, disk[files[s].page], free)
    ensures var e := disk[files[s].page];
      forall c: nat :: LogCount(disk[e.logPage].data, Records(e), c) ==> Records(e) - c == free
  {
    var e := disk[files[s].page];
    forall c: nat | LogCount(disk[e.logPage].data, Records(e), c) ensures Records(e) - c == free {
      LogCountUnique(disk[e.logPage].data, Records(e), c, Records(e) - free);
    }
  }

  /** The number of records left of the log of extent `e`, if it has one. */
  ghost function Left(disk: Disk, e: Extent): nat {
    if exists free: nat :: FreeRecords(disk, e, free) then
      var free: nat :| FreeRecords(disk, e, free);
      free
    else 0
  }

  lemma LeftIs(disk: Disk, e: Extent, free: nat)
    requires FreeRecords(disk, e, free)
    ensures Left(disk, e) == free
  {
    LogCountUnique(disk[e.logPage].data, Records(e), Records(e) - free, Records(e) - Left(disk, e));
  }

  lemma LeftIsFree(disk: Disk, e: Extent)
    requires e.modified && LogOk(disk, e)
    ensures FreeRecords(disk, e, Left(disk, e))
  {
    var c: nat :| LogCount(disk[e.logPage].data, Records(e), c);
    assert FreeRecords(disk, e, Records(e) - c);
  }

  /** The logs of both extents are made alike. */
  ghost predicate SameConfig(e: Extent, e': Extent) {
    Size(e') == Size(e) && Records(e') == Records(e)
  }

  // ---------------------------------------------------------------- how much is written

  /** The records there are for a write, after `logs` logs were created. */
  ghost function Total(e: Extent, free: nat, logs: nat): (total: nat)
    ensures total >= free && (logs > 0 ==> total >= Records(e))
  {
    if logs == 0 then free else Total(e, free, logs - 1) + Records(e)
  }

  lemma {:induction false} TotalIs(e: Extent, free: nat, logs: nat)
    ensures Total(e, free, logs) == free + logs * Records(e)
  {
    if logs > 0 {
      TotalIs(e, free, logs - 1);
      assert logs * Records(e) == (logs - 1) * Records(e) + Records(e);
    }
  }

  /**
   What a write of `n` bytes into an extent whose log has `free` records left has written when it ends and has created
   `logs` logs, each only when there were no records left.
   */
  ghost predicate LogWritten(e: Extent, offset: nat, n: nat, free: nat, done: nat, logs: nat) {
    && done == Reach(e, offset, n, Total(e, free, logs))
    && (logs > 0 ==> Reach(e, offset, n, Total(e, free, logs - 1)) < n)
  }

  /** The result of a write of `n` bytes of which `done` were written. */
  ghost predicate WriteReported(r: int, n: nat, done: nat) {
    r == if done == 0 && n > 0 then -1 else n
  }

  /** With records for all regions touched everything is written, and reported. */
  lemma AllWritten(e: Extent, offset: nat, n: nat, free: nat, done: nat, logs: nat, r: int)
    requires LogWritten(e, offset, n, free, done, logs) && WriteReported(r, n, done) && Regions(e, offset, n) <= free
    ensures done == n && r == n && logs == 0
  {
    ReachesAllIff(e, offset, n, Total(e, free, logs));
    if logs > 0 {
      ReachesAllIff(e, offset, n, Total(e, free, logs - 1));
    }
  }

  /** Without records at first, but with enough in one log, it is all or nothing. */
  lemma AllOrNothing(e: Extent, offset: nat, n: nat, done: nat, logs: nat, r: int)
    requires LogWritten(e, offset, n, 0, done, logs) && WriteReported(r, n, done) && Regions(e, offset, n) <= Records(e)
    ensures (done == n && r == n) || (done == 0 && r == -1 && logs == 0)
  {
    ReachesAllIff(e, offset, n, Total(e, 0, logs));
  }

  /**
   A write is cut short and still reported in full exactly when there are some records, those left and those of the logs
   that could be created, but fewer than regions to write.
   */
  lemma ShortButFullIff(e: Extent, offset: nat, n: nat, free: nat, done: nat, logs: nat, r: int)
    requires LogWritten(e, offset, n, free, done, logs) && WriteReported(r, n, done)
    ensures r == n && done < n <==> 0 < free + logs * Records(e) < Regions(e, offset, n)
    ensures r == -1 <==> free + logs * Records(e) == 0 && n > 0
  {
    TotalIs(e, free, logs);
    ReachesAllIff(e, offset, n, Total(e, free, logs));
  }

  /** Two regions written through a log with one record left: only the first is written, and both are reported. */
  lemma HalfWritten(e: Extent, done: nat, r: int)
    requires LogWritten(e, 0, 2 * Size(e), 1, done, 0) && WriteReported(r, 2 * Size(e), done)
    ensures r == 2 * Size(e) && done == Size(e)
  {
    assert Reach(e, 0, 2 * Size(e), 1) == Trimmed(e, 0, 2 * Size(e));
  }

  /** A first write of one region more than a log has records, with room for one log: the last region is not written. */
  lemma FirstLogTooSmall(e: Extent, done: nat, r: int)
    requires Records(e) >= 1 && WriteReported(r, (Records(e) + 1) * Size(e), done)
    requires LogWritten(e, 0, (Records(e) + 1) * Size(e), 0, done, 1)
    ensures r == (Records(e) + 1) * Size(e) && done == Records(e) * Size(e)
  {
    var k, size: Positive := Records(e), Size(e);
    assert (k + 1) * size == k * size + size && k * size >= size by { MulMonotone(size, 1, k); }
    assert Total(e, 0, 0) == 0 && Total(e, 0, 1) == k;
    ReachRegions(e, 0, k, size);
    assert 0 * size == 0;
  }

  /** From the start of region `q` on, `k` records take `k` regions. */
  lemma {:induction false} ReachRegions(e: Extent, q: nat, k: nat, size: Positive)
    requires size == Size(e)
    ensures Reach(e, q * size, (k + 1) * size, k) == k * size
    decreases k
  {
    if k == 0 {
      assert 0 * size == 0;
    } else {
      ModOfProduct(q, size);
      assert size * q == q * size;
      assert (q + 1) * size == q * size + size && (k + 1) * size == k * size + size &&
        k * size == (k - 1) * size + size;
      assert Trimmed(e, q * size, (k + 1) * size) == size by { MulMonotone(size, 1, k); }
      ReachRegions(e, q + 1, k - 1, size);
    }
  }

  // ---------------------------------------------------------------- how far a write has come

  lemma ReachOne(e: Extent, offset: nat, n: nat, k: nat, t: nat)
    requires n > 0 && k > 0 && t == Trimmed(e, offset, n)
    ensures Reach(e, offset, n, k) == t + Reach(e, offset + t, n - t, k - 1)
  {
  }

  /** More records go on where the first ones ended. */
  lemma {:induction false} ReachMore(e: Extent, offset: nat, n: nat, k: nat, m: nat, done: nat, at: nat, rest: nat)
    requires done == Reach(e, offset, n, k) && at == offset + done && rest == n - done
    ensures Reach(e, offset, n, k + m) == done + Reach(e, at, rest, m)
    decreases n
  {
    if n > 0 && k > 0 {
      var t := Trimmed(e, offset, n);
      ReachOne(e, offset, n, k, t);
      ReachMore(e, offset + t, n - t, k - 1, m, done - t, at, rest);
      ReachOne(e, offset, n, k + m, t);
    }
  }

  lemma {:induction false} ReachSame(e: Extent, e': Extent, offset: nat, n: nat, k: nat)
    requires SameConfig(e, e')
    ensures Reach(e', offset, n, k) == Reach(e, offset, n, k)
    decreases n
  {
    if n > 0 && k > 0 {
      var t := Trimmed(e, offset, n);
      ReachSame(e, e', offset + t, n - t, k - 1);
    }
  }

  lemma {:induction false} TotalSame(e: Extent, e': Extent, free: nat, logs: nat)
    requires SameConfig(e, e')
    ensures Total(e', free, logs) == Total(e, free, logs)
  {
    if logs > 0 {
      TotalSame(e, e', free, logs - 1);
    }
  }

  /** An extent made alike is written alike. */
  lemma WrittenAlike(e: Extent, e': Extent, offset: nat, n: nat, free: nat, done: nat, logs: nat)
    requires SameConfig(e, e') && LogWritten(e', offset, n, free, done, logs)
    ensures LogWritten(e, offset, n, free, done, logs)
  {
    TotalSame(e, e', free, logs);
    ReachSame(e, e', offset, n, Total(e, free, logs));
    if logs > 0 {
      TotalSame(e, e', free, logs - 1);
      ReachSame(e, e', offset, n, Total(e, free, logs - 1));
    }
  }

  /** A write of `n` bytes from `offset` into extent `e`, with `free` records left if it has a log. */
  datatype LogWrite = LogWrite(e: Extent, offset: nat, n: nat, free: nat)

  ghost predicate LogEnded(w: LogWrite, done: nat, logs: nat) {
    LogWritten(w.e, w.offset, w.n, w.free, done, logs)
  }

  /** There are records for all regions touched. */
  ghost predicate Ample(w: LogWrite) {
    Regions(w.e, w.offset, w.n) <= w.free
  }

  /** There are no records, but a log has enough. */
  ghost predicate OneLog(w: LogWrite) {
    w.free == 0 && Regions(w.e, w.offset, w.n) <= Records(w.e)
  }

  lemma EnoughWritten(w: LogWrite, done: nat, logs: nat, r: int)
    requires LogEnded(w, done, logs) && WriteReported(r, w.n, done)
    ensures Ample(w) ==> done == w.n && r == w.n
    ensures OneLog(w) && r == w.n ==> done == w.n
  {
    if Ample(w) {
      AllWritten(w.e, w.offset, w.n, w.free, done, logs, r);
    }
    if OneLog(w) {
      AllOrNothing(w.e, w.offset, w.n, done, logs, r);
    }
  }

  /** Whether it has come as far as it should: `done` bytes, at offset `at` of extent `now`, with `logs` new logs. */
  ghost predicate Progress(w: LogWrite, disk: Disk, now: Extent, at: nat, done: nat, logs: nat) {
    && done <= w.n && at == w.offset + done && SameConfig(w.e, now)
    && done + Reach(w.e, at, w.n - done, Left(disk, now)) == Reach(w.e, w.offset, w.n, Total(w.e, w.free, logs))
    && (logs > 0 ==> Reach(w.e, w.offset, w.n, Total(w.e, w.free, logs - 1)) < w.n)
  }

  /** `Progress`, where it is only passed on. */
  ghost predicate OnCourse(seal: nat, w: LogWrite, disk: Disk, now: Extent, at: nat, done: nat, logs: nat) {
    if seal == 0 then Progress(w, disk, now, at, done, logs) else OnCourse(seal - 1, w, disk, now, at, done, logs)
  }

  lemma {:induction false} OnCourseMeans(seal: nat, w: LogWrite, disk: Disk, now: Extent, at: nat, done: nat, logs: nat)
    ensures OnCourse(seal, w, disk, now, at, done, logs) <==> Progress(w, disk, now, at, done, logs)
  {
    if seal > 0 {
      OnCourseMeans(seal - 1, w, disk, now, at, done, logs);
    }
  }

  lemma ProgressBegins(disk: Disk, e: Extent, at: nat, n: nat)
    ensures OnCourse(SEAL, LogWrite(e, at, n, Left(disk, e)), disk, e, at, 0, 0)
  {
    OnCourseMeans(SEAL, LogWrite(e, at, n, Left(disk, e)), disk, e, at, 0, 0);
  }

  /** One record was used, that of the log there was or the first of a new one. */
  ghost predicate Recorded(disk: Disk, e: Extent, disk': Disk, e': Extent) {
    && SameConfig(e, e')
    && if e.modified then Left(disk, e) == Left(disk', e') + 1
       else Left(disk, e) == 0 && Records(e) == Left(disk', e') + 1
  }

  /** The log was full and is gone. */
  ghost predicate Emptied(disk: Disk, e: Extent, disk': Disk, e': Extent) {
    SameConfig(e, e') && Left(disk, e) == 0 == Left(disk', e')
  }

  /** The number of logs created after one more record. */
  ghost function LogsThen(now: Extent, logs: nat): nat {
    if now.modified then logs else logs + 1
  }

  /** One more record reaches one region further. */
  lemma RecordReaches(w: LogWrite, now: Extent, at: nat, done: nat, k: nat)
    requires SameConfig(w.e, now) && done < w.n && k > 0
    ensures var i := Trimmed(now, at, w.n - done);
      Reach(w.e, at, w.n - done, k) == i + Reach(w.e, at + i, w.n - done - i, k - 1)
  {
    assert Trimmed(w.e, at, w.n - done) == Trimmed(now, at, w.n - done);
  }

  lemma RecordUsed(w: LogWrite, disk: Disk, now: Extent, at: nat, done: nat, logs: nat, disk': Disk, now': Extent,
        i: nat)
    requires Progress(w, disk, now, at, done, logs) && done < w.n && i == Trimmed(now, at, w.n - done)
    requires SameConfig(now, now') && Left(disk, now) == Left(disk', now') + 1
    ensures Progress(w, disk', now', at + i, done + i, logs)
  {
    RecordReaches(w, now, at, done, Left(disk, now));
  }

  lemma RecordOfNewLog(w: LogWrite, disk: Disk, now: Extent, at: nat, done: nat, logs: nat, disk': Disk, now': Extent,
                       i: nat)
    requires Progress(w, disk, now, at, done, logs) && done < w.n && i == Trimmed(now, at, w.n - done)
    requires SameConfig(now, now') && Left(disk, now) == 0 && Records(now) == Left(disk', now') + 1
    ensures Progress(w, disk', now', at + i, done + i, logs + 1)
  {
    var total := Total(w.e, w.free, logs);
    assert Reach(w.e, w.offset, w.n, total) == done;
    RecordReaches(w, now, at, done, Records(now));
    ReachMore(w.e, w.offset, w.n, total, Records(now), done, at, w.n - done);
    assert Total(w.e, w.free, logs + 1) == total + Records(now);
  }

  lemma ProgressMade(w: LogWrite, disk: Disk, now: Extent, at: nat, done: nat, logs: nat, disk': Disk, now': Extent,
                     at': nat, i: nat)
    requires OnCourse(SEAL, w, disk, now, at, done, logs) && done < w.n
    requires i == Trimmed(now, at, w.n - done) && at' == at + i && Recorded(disk, now, disk', now')
    ensures OnCourse(SEAL, w, disk', now', at', done + i, LogsThen(now, logs))
  {
    OnCourseMeans(SEAL, w, disk, now, at, done, logs);
    OnCourseMeans(SEAL, w, disk', now', at', done + i, LogsThen(now, logs));
    if now.modified {
      RecordUsed(w, disk, now, at, done, logs, disk', now', i);
    } else {
      RecordOfNewLog(w, disk, now, at, done, logs, disk', now', i);
    }
  }

  lemma ProgressMerged(w: LogWrite, disk: Disk, now: Extent, at: nat, done: nat, logs: nat, disk': Disk, now': Extent)
    requires OnCourse(SEAL, w, disk, now, at, done, logs) && Emptied(disk, now, disk', now')
    ensures OnCourse(SEAL, w, disk', now', at, done, logs)
  {
    OnCourseMeans(SEAL, w, disk, now, at, done, logs);
    OnCourseMeans(SEAL, w, disk', now', at, done, logs);
  }

  lemma ProgressEnds(w: LogWrite, disk: Disk, now: Extent, at: nat, done: nat, logs: nat)
    requires OnCourse(SEAL, w, disk, now, at, done, logs) && (done == w.n || Left(disk, now) == 0)
    ensures LogWritten(w.e, w.offset, w.n, w.free, done, logs)
  {
    OnCourseMeans(SEAL, w, disk, now, at, done, logs);
  }

  // ---------------------------------------------------------------- why a write ends early

  /** No descriptor is left, or no file object, or the last pages asked for, for a file as extent `e`, were refused. */
  ghost predicate Denied(disk: Disk, files: seq<File>, fds: seq<Fd>, e: Extent, asked: bool, page: int) {
    || !FdLeft(fds) || SlotsTaken(files)
    || (asked && (Refused(disk, LogPageCount(e), page) || Refused(disk, 2 * e.pages, page)))
  }

  lemma MergeDenied(disk: Disk, files: seq<File>, fds: seq<Fd>, disk': Disk, fds': seq<Fd>, s: nat, extend: bool,
                    e: Extent, page: int)
    requires s < |files| && files[s].references > 0 && files[s].maxPages > 0 && e.pages == files[s].maxPages
    requires !FdLeft(fds) || OthersTaken(files, s) || Refused(disk, MergedPages(files[s], extend), page)
    requires |fds'| == |fds| && forall k :: 0 <= k < |fds| && !fds[k].Free() ==> fds'[k] == fds[k]
    requires FdLeft(fds) && Refused(disk, MergedPages(files[s], extend), page) ==> disk' == disk
    ensures Denied(disk', files, fds', e, FdLeft(fds), page)
  {
  }

  /** `found`, or the extent if nothing is found, has the `n` bytes of the file from `offset`. */
  ghost predicate ReadsAs(disk: Disk, e: Extent, offset: nat, n: nat, found: Option<seq<Byte>>) {
    && (found.Some? ==> |found.value| == n)
    && forall i: nat :: offset <= i < offset + n && i < |e.data| ==>
         Content(disk, e)[i] == if found.Some? then found.value[i - offset] else e.data[i]
  }

  /** From the start of a region on, all of it is read. */
  lemma WholeRegion(disk: Disk, e: Extent, offset: nat, found: Option<seq<Byte>>)
    requires offset % Size(e) == 0 && offset <= |e.data| && ReadsAs(disk, e, offset, Trimmed(e, offset, Size(e)), found)
    ensures Trimmed(e, offset, Size(e)) == Size(e)
    ensures found.Some? ==> |found.value| == Size(e) && ShowsRegion(Content(disk, e), offset, found.value)
    ensures found.None? ==>
      forall i: nat :: offset <= i < offset + Size(e) && i < |e.data| ==> Content(disk, e)[i] == e.data[i]
  {
  }

  lemma ReadIsSlice(disk: Disk, e: Extent, at: nat, n: nat, found: Option<seq<Byte>>)
    requires ReadsAs(disk, e, at, n, found) && at + n <= |e.data|
    ensures Content(disk, e)[at..at + n] == if found.Some? then found.value else e.data[at..at + n]
  {
  }

  lemma SliceOfPrefix(c: seq<Byte>, end: nat, lo: nat, hi: nat)
    requires lo <= hi <= end <= |c|
    ensures c[..end][lo..hi] == c[lo..hi]
  {
  }

  lemma SlicesJoin(c: seq<Byte>, lo: nat, mid: nat, hi: nat)
    requires lo <= mid <= hi <= |c|
    ensures c[lo..mid] + c[mid..hi] == c[lo..hi]
  {
  }

  lemma PartsJoin(done: seq<Byte>, rest: seq<Byte>, i: nat)
    requires i <= |rest|
    ensures (done + rest[..i]) + rest[i..] == done + rest
  {
  }

  lemma ByteOfRecord(disk: Disk, e: Extent, i: nat, region: nat, inRegion: nat, k: int)
    requires e.modified && LogOk(disk, e) && i < |e.data| && region == i / Size(e) && inRegion == i % Size(e)
    requires k == NewestRecord(disk[e.logPage].data, Records(e), region)
    ensures k < 0 ==> Content(disk, e)[i] == e.data[i]
    ensures k >= 0 ==>
      var at := RecordStart(Records(e), Size(e), k);
      at + Size(e) <= |disk[e.logPage].data| && Content(disk, e)[i] == disk[e.logPage].data[at + inRegion]
  {
    if k >= 0 {
      RecordInside(Records(e), Size(e), k, Records(e));
    }
  }

  /** The bytes of the newest record of a region are those of the file; without one those of the extent are. */
  lemma ReadsRegion(disk: Disk, e: Extent, offset: nat, region: nat, inRegion: nat, n: nat, k: int,
        found: Option<seq<Byte>>)
    requires e.modified && LogOk(disk, e) && region == offset / Size(e) && inRegion == offset % Size(e)
    requires inRegion + n <= Size(e)
    requires k == NewestRecord(disk[e.logPage].data, Records(e), region)
    requires found.Some? <==> k >= 0
    requires found.Some? ==>
      var at := RecordStart(Records(e), Size(e), k) + inRegion;
      at + n <= |disk[e.logPage].data| && found.value == disk[e.logPage].data[at..at + n]
    ensures ReadsAs(disk, e, offset, n, found)
  {
    forall i: nat | offset <= i < offset + n && i < |e.data|
      ensures Content(disk, e)[i] == if found.Some? then found.value[i - offset] else e.data[i]
    {
      InSameRegion(offset, Size(e), i - offset);
      ByteOfRecord(disk, e, i, region, inRegion + i - offset, k);
    }
  }

  lemma InSameRegion(offset: nat, size: Positive, j: nat)
    requires offset % size + j < size
    ensures (offset + j) / size == offset / size && (offset + j) % size == offset % size + j
  {
    DivModUnique(offset + j, size, offset / size, offset % size + j);
  }

  /** Descriptor `fd` was opened on the file that other descriptors see under this name. */
  ghost predicate OpenedAs(h: seq<Handle>, h': seq<Handle>, fd: nat, name: string, read: bool, write: bool,
        append: bool) {
    && fd < |h| && h[fd].Closed?
    && |h'| == |h| && h'[fd].Open?
    && h'[fd] == Open(name, h'[fd].view, if append then |h'[fd].view| else 0, read, write, append)
    && h' == h[fd := h'[fd]]
    && forall g :: g in h && g.Open? && g.name == name ==> g.view == h'[fd].view
  }

  /** All descriptors of a file see the same bytes. */
  lemma SharedView(disk: Disk, files: seq<File>, fds: seq<Fd>, s: nat, name: string)
    requires Valid(disk, files, fds) && Holds(disk, files, s, name) && files[s].end >= 0
    ensures files[s].end <= |disk[files[s].page].data|
    ensures forall g :: g in Handles(disk, files, fds) && g.Open? && g.name == name ==>
      g.view == Content(disk, disk[files[s].page])[..files[s].end]
  {
    CoreMeans(disk, files, fds);
    assert SlotOk(disk, files[s]);
    forall k: nat | k < |fds| && !fds[k].Free() && HandleOf(disk, files, fds[k]).name == name
      ensures fds[k].file == Some(s)
    {
      assert FdOk(disk, files, fds[k]);
      assert SlotName(disk, files[fds[k].file.value]) == Some(name);
    }
  }

  lemma HeldExists(disk: Disk, files: seq<File>, s: nat, name: string)
    requires Holds(disk, files, s, name)
    ensures Exists(disk, name)
  {
  }

  /** A new file is the only one of its name in the slots. */
  lemma OneMoreName(disk: Disk, files: seq<File>, disk': Disk, files': seq<File>, slot: Option<nat>, name: string)
    requires NamesDistinct(disk, files) && |files'| == |files| && forall i: nat :: !Holds(disk, files, i, name)
    requires forall i :: 0 <= i < |files| && slot != Some(i) ==> SlotName(disk', files'[i]) == SlotName(disk, files[i])
    requires slot.Some? ==> slot.value < |files| && SlotName(disk', files'[slot.value]) == Some(name)
    ensures NamesDistinct(disk', files')
  {
    forall i, j | 0 <= i < |files'| && 0 <= j < |files'| && i != j && SlotName(disk', files'[i]).Some?
      ensures SlotName(disk', files'[i]) != SlotName(disk', files'[j])
    {
      assert !Holds(disk, files, i, name) && !Holds(disk, files, j, name);
    }
  }

  /** The file pointer of a free descriptor does not matter. */
  lemma ClearFd(disk: Disk, files: seq<File>, fds: seq<Fd>, fd: nat)
    requires Valid(disk, files, fds) && fd < |fds| && fds[fd].Free()
    ensures Valid(disk, files, fds[fd := fds[fd].(file := None)])
    ensures Handles(disk, files, fds[fd := fds[fd].(file := None)]) == Handles(disk, files, fds)
  {
    ChangeFd(disk, files, fds, files, fd, fds[fd].(file := None));
  }

  /** A file whose end was not known has no open descriptors. */
  lemma EndOfUnopened(disk: Disk, files: seq<File>, fds: seq<Fd>, s: nat, end: nat)
    requires Valid(disk, files, fds) && s < |files| && SlotName(disk, files[s]).Some?
    requires files[s].end == UNKNOWN_OFFSET && end <= |disk[files[s].page].data|
    ensures var files' := files[s := files[s].(end := end)];
      Valid(disk, files', fds) && Handles(disk, files', fds) == Handles(disk, files, fds)
  {
    CoreMeans(disk, files, fds);
    var files' := files[s := files[s].(end := end)];
    SetEnd(disk, files, fds, s, end);
    forall i | 0 <= i < |fds| ensures HandleOf(disk, files', fds[i]) == HandleOf(disk, files, fds[i]) {
      assert FdOk(disk, files, fds[i]);
    }
    assert forall i :: 0 <= i < |files| ==> SlotName(disk, files'[i]) == SlotName(disk, files[i]);
    CoreMeans(disk, files', fds);
  }

  lemma SetEndOfFresh(disk: Disk, files: seq<File>, fds: seq<Fd>, s: nat)
    requires Core(disk, files, fds) && s < |files| && files[s].maxPages > 0 && files[s].references == 0
    requires files[s].end <= 0
    ensures Core(disk, files[s := files[s].(end := 0)], fds)
    ensures Handles(disk, files[s := files[s].(end := 0)], fds) == Handles(disk, files, fds)
  {
    CoreMeans(disk, files, fds);
    assert SlotOk(disk, files[s]);
    SetEnd(disk, files, fds, s, 0);
    RefsZero(fds, s);
    CoreMeans(disk, files[s := files[s].(end := 0)], fds);
  }
}
